/**
 * The dispatch engine shared, with four differences, by src/util.js + src/chain-response.js (the
 * current engine) and src/ChainResponse.js (the legacy engine): probing every module's `isMatch`,
 * keeping the resolved probes sorted by priority, folding `getResponse` over them, and deciding
 * what the middleware does with the final response.
 */
module Chain {
  import opened Wrappers
  import opened Js
  import opened Settle
  import opened ModuleCheck
  import opened Responses

  datatype Engine = Current | Legacy

  // ---------------------------------------------------------------- match phase

  /** What a module's `isMatch(reqInfo)` does for the request at hand. */
  datatype MatchReturn =
    | Bool(b: bool)
    /** A promise, by the way it settles. */
    | Promise(settles: Awaitable<JsValue>)
    /** Any other value (`undefined`, a string, ...). */
    | Other(v: JsValue)
    /** A synchronous throw. */
    | Throws

  /** How the middleware calls `isMatch` on each module for one request. */
  type Prober = ChainModule -> MatchReturn

  /**
   * The data `whenAllSettled` reports: the module itself for `{data: m, promise}`, or, when
   * `isMatch` returned neither a boolean nor a promise, the whole `{data: m, promise: v}` wrapper.
   */
  datatype ProbeData = Probed(m: ChainModule) | NotAPromise(m: ChainModule, returned: JsValue)

  /**
   * The probe the middleware hands to `whenAllSettled`. The current engine turns `true` into a
   * promise resolved with `true` and `false` into one rejected with `false`; the legacy engine
   * resolves and rejects with `undefined`.
   */
  function Coerce(engine: Engine, m: ChainModule, r: MatchReturn): (p: SettleInput<JsValue, ProbeData>)
    requires !r.Throws?
    ensures r.Other? <==> p.Invalid?
    ensures !r.Other? ==> p.Tagged? && p.data == Probed(m)
    ensures r.Other? ==> p.item == NotAPromise(m, r.v)
    ensures r.Bool? ==> p.promise.Resolves? == r.b
    ensures r.Bool? && engine == Current ==> p.promise == (if r.b then Resolves(Boolean(true)) else Rejects(Boolean(false)))
    ensures r.Bool? && engine == Legacy ==> p.promise == (if r.b then Resolves(Undefined) else Rejects(Undefined))
    ensures r.Promise? ==> p.promise == r.settles
  {
    match r
    case Bool(b) =>
      var v := if engine == Current then Boolean(b) else Undefined;
      Tagged(if b then Resolves(v) else Rejects(v), Probed(m))
    case Promise(settles) => Tagged(settles, Probed(m))
    case Other(v) => Invalid(NotAPromise(m, v))
  }

  /** True when some module's `isMatch` throws; the middleware then throws before any probe settles. */
  predicate AnyThrows(mods: seq<ChainModule>, probe: Prober)
  {
    exists i :: 0 <= i < |mods| && probe(mods[i]).Throws?
  }

  /** `modules.map(m => ({data: m, promise: coerce(m.isMatch(reqInfo))}))`. */
  function Probes(engine: Engine, mods: seq<ChainModule>, probe: Prober): (ps: seq<SettleInput<JsValue, ProbeData>>)
    requires !AnyThrows(mods, probe)
    ensures |ps| == |mods|
    ensures forall i :: 0 <= i < |mods| ==> ps[i] == Coerce(engine, mods[i], probe(mods[i]))
  {
    seq(|mods|, i requires 0 <= i < |mods| => Coerce(engine, mods[i], probe(mods[i])))
  }

  /** One entry of the sorted match list: `{matchResult, module, priority}`. */
  datatype Candidate = Candidate(matchResult: JsValue, handler: ChainModule, priority: int)

  /** The sort key: the module's own numeric priority, 0 when its `priority` is not a number. */
  function PriorityOf(m: ChainModule): (p: int)
    reads m
    ensures m.priority.Number? ==> p == m.priority.n
    ensures !m.priority.Number? ==> p == 0
  {
    if m.priority.Number? then m.priority.n else 0
  }

  /** The candidate of module `m` whose probe was fulfilled with `v`. */
  function CandidateOf(m: ChainModule, v: JsValue): Candidate
    reads m
  {
    Candidate(v, m, PriorityOf(m))
  }

  /** The candidate a fulfilled probe becomes. */
  function ToCandidate(s: Settled<JsValue, ProbeData>): Candidate
    requires s.Fulfilled? && s.data.Some?
    reads s.data.value.m
  {
    CandidateOf(s.data.value.m, s.result)
  }

  /** Every settled entry carries data naming one of `mods`. */
  predicate DataAmong(settled: seq<Settled<JsValue, ProbeData>>, mods: seq<ChainModule>)
  {
    forall i :: 0 <= i < |settled| ==> settled[i].data.Some? && settled[i].data.value.m in mods
  }

  /** `.filter(p => p.isResolved).map(...)`: only fulfilled probes become candidates, in input order. */
  function Select(settled: seq<Settled<JsValue, ProbeData>>, mods: seq<ChainModule>): (cs: seq<Candidate>)
    requires DataAmong(settled, mods)
    reads mods
    ensures |cs| <= |settled|
    ensures forall c :: c in cs ==>
      exists i :: 0 <= i < |settled| && settled[i].Fulfilled? && c == ToCandidate(settled[i])
    ensures forall i :: 0 <= i < |settled| && settled[i].Fulfilled? ==> ToCandidate(settled[i]) in cs
  {
    if settled == [] then []
    else
      var rest := Select(settled[1..], mods);
      assert forall i :: 1 <= i < |settled| ==> settled[i] == settled[1..][i - 1];
      if settled[0].Fulfilled? then [ToCandidate(settled[0])] + rest else rest
  }

  /**
   * `filter` then `map` distributes over concatenation: the candidates of a list are those of its
   * first part followed by those of its second, so input order and multiplicity are kept.
   */
  lemma {:induction false} SelectAppend(xs: seq<Settled<JsValue, ProbeData>>, ys: seq<Settled<JsValue, ProbeData>>, mods: seq<ChainModule>)
    requires DataAmong(xs + ys, mods)
    ensures DataAmong(xs, mods) && DataAmong(ys, mods)
    ensures Select(xs + ys, mods) == Select(xs, mods) + Select(ys, mods)
    decreases |xs|
  {
    DataAmongParts(xs, ys, mods);
    if xs == [] {
      assert xs + ys == ys;
    } else {
      SelectAppend(xs[1..], ys, mods);
      assert (xs + ys)[1..] == xs[1..] + ys;
    }
  }

  /** The parts of a list whose entries all name one of `mods` have that property too. */
  lemma DataAmongParts(xs: seq<Settled<JsValue, ProbeData>>, ys: seq<Settled<JsValue, ProbeData>>, mods: seq<ChainModule>)
    requires DataAmong(xs + ys, mods)
    ensures DataAmong(xs, mods) && DataAmong(ys, mods)
    ensures xs != [] ==> (xs + ys)[0] == xs[0] && (xs + ys)[1..] == xs[1..] + ys && DataAmong(xs[1..] + ys, mods)
  {
    var zs := xs + ys;
    assert forall i :: 0 <= i < |xs| ==> xs[i] == zs[i];
    assert forall i :: 0 <= i < |ys| ==> ys[i] == zs[|xs| + i];
    if xs != [] {
      assert zs[1..] == xs[1..] + ys;
      assert forall i :: 0 <= i < |zs| - 1 ==> zs[1..][i] == zs[i + 1];
    }
  }

  /** With no fulfilled probe there is no candidate. */
  lemma {:induction false} NothingFulfilledSelectsNothing(settled: seq<Settled<JsValue, ProbeData>>, mods: seq<ChainModule>)
    requires DataAmong(settled, mods)
    requires forall i :: 0 <= i < |settled| ==> !settled[i].Fulfilled?
    ensures Select(settled, mods) == []
  {
    if settled != [] {
      assert forall i :: 1 <= i < |settled| ==> settled[i] == settled[1..][i - 1];
      NothingFulfilledSelectsNothing(settled[1..], mods);
    }
  }

  // ---------------------------------------------------------------- ordering

  predicate Descending(cs: seq<Candidate>)
  {
    forall i, j :: 0 <= i < j < |cs| ==> cs[i].priority >= cs[j].priority
  }

  /** The candidates of priority `p`, in their order. */
  function WithPriority(cs: seq<Candidate>, p: int): seq<Candidate>
  {
    if cs == [] then []
    else (if cs[0].priority == p then [cs[0]] else []) + WithPriority(cs[1..], p)
  }

  /** Places `c` before the first candidate whose priority is not higher than its own. */
  function Insert(c: Candidate, cs: seq<Candidate>): (r: seq<Candidate>)
    ensures multiset(r) == multiset(cs) + multiset{c}
  {
    if cs == [] || cs[0].priority <= c.priority then [c] + cs
    else
      assert cs == [cs[0]] + cs[1..];
      [cs[0]] + Insert(c, cs[1..])
  }

  lemma WithPriorityCons(c: Candidate, cs: seq<Candidate>, p: int)
    ensures WithPriority([c] + cs, p) == (if c.priority == p then [c] else []) + WithPriority(cs, p)
  {
    assert ([c] + cs)[1..] == cs;
  }

  /** Inserting `c` puts it ahead of every candidate of its own priority and moves no other. */
  lemma {:induction false} InsertKeepsTies(c: Candidate, cs: seq<Candidate>, p: int)
    ensures WithPriority(Insert(c, cs), p) == (if c.priority == p then [c] else []) + WithPriority(cs, p)
  {
    if cs == [] || cs[0].priority <= c.priority {
      WithPriorityCons(c, cs, p);
    } else {
      InsertKeepsTies(c, cs[1..], p);
      WithPriorityCons(cs[0], Insert(c, cs[1..]), p);
      WithPriorityCons(cs[0], cs[1..], p);
      assert cs == [cs[0]] + cs[1..];
    }
  }

  /** Inserting into a descending list keeps it descending. */
  /** Inserting adds no candidate but the inserted one. */
  lemma InsertMembers(c: Candidate, cs: seq<Candidate>, x: Candidate)
    requires x in Insert(c, cs)
    ensures x == c || x in cs
  {
    assert x in multiset(Insert(c, cs));
  }

  lemma {:induction false} InsertKeepsDescending(c: Candidate, cs: seq<Candidate>)
    requires Descending(cs)
    ensures Descending(Insert(c, cs))
  {
    if !(cs == [] || cs[0].priority <= c.priority) {
      var rest := Insert(c, cs[1..]);
      InsertKeepsDescending(c, cs[1..]);
      assert cs == [cs[0]] + cs[1..];
      forall x | x in rest ensures cs[0].priority >= x.priority {
        InsertMembers(c, cs[1..], x);
        if x != c {
          var k :| 0 <= k < |cs[1..]| && cs[1..][k] == x;
          assert cs[k + 1] == x;
        }
      }
      forall i, j | 0 <= i < j < |[cs[0]] + rest|
        ensures ([cs[0]] + rest)[i].priority >= ([cs[0]] + rest)[j].priority
      {
        if i == 0 { assert ([cs[0]] + rest)[j] in rest; }
      }
    }
  }

  /**
   * `.sort((prev, next) => next.priority - prev.priority)` with a stable sort: descending priority,
   * the same candidates, and candidates of equal priority in their input order.
   */
  function SortByPriority(cs: seq<Candidate>): (r: seq<Candidate>)
    ensures Descending(r)
    ensures multiset(r) == multiset(cs)
    ensures forall p :: WithPriority(r, p) == WithPriority(cs, p)
  {
    if cs == [] then []
    else
      var rest := SortByPriority(cs[1..]);
      assert cs == [cs[0]] + cs[1..];
      InsertKeepsDescending(cs[0], rest);
      assert forall p :: WithPriority(Insert(cs[0], rest), p) == WithPriority(cs, p) by {
        forall p ensures WithPriority(Insert(cs[0], rest), p) == WithPriority(cs, p) {
          InsertKeepsTies(cs[0], rest, p);
          WithPriorityCons(cs[0], cs[1..], p);
        }
      }
      Insert(cs[0], rest)
  }

  /** The insertions the sort performs for priorities 5, 10 and 5. */
  lemma InsertTies(a: Candidate, b: Candidate, c: Candidate)
    requires a.priority == 5 && b.priority == 10 && c.priority == 5
    ensures Insert(a, Insert(b, Insert(c, []))) == [b, a, c]
  {
    assert Insert(c, []) == [c];
    assert Insert(b, [c]) == [b] + [c];
    assert [b, c][0] == b && [b, c][1..] == [c];
    assert Insert(a, [c]) == [a] + [c];
    assert Insert(a, [b, c]) == [b] + Insert(a, [c]);
  }

  /** The sort places the first candidate into the sorted rest. */
  lemma SortStep(cs: seq<Candidate>)
    requires cs != []
    ensures SortByPriority(cs) == Insert(cs[0], SortByPriority(cs[1..]))
  {
  }

  /**
   * The value a module's probe is fulfilled with, if it is: `true` (current engine) or `undefined`
   * (legacy engine) for a returned `true`, the value of a resolving promise; nothing otherwise.
   */
  function Fulfillment(engine: Engine, r: MatchReturn): (v: Option<JsValue>)
    ensures r.Bool? ==> (v.Some? <==> r.b)
    ensures r.Promise? ==> (v.Some? <==> r.settles.Resolves?)
    ensures r.Other? || r.Throws? ==> v.None?
  {
    match r
    case Bool(b) => if b then Some(if engine == Current then Boolean(true) else Undefined) else None
    case Promise(settles) => if settles.Resolves? then Some(settles.value) else None
    case _ => None
  }

  /** Reference for the match phase before sorting: one candidate per matching module, in module order. */
  function MatchesInOrder(engine: Engine, mods: seq<ChainModule>, probe: Prober): (cs: seq<Candidate>)
    reads mods
    ensures |cs| <= |mods|
  {
    if mods == [] then []
    else
      var f := Fulfillment(engine, probe(mods[0]));
      (if f.Some? then [CandidateOf(mods[0], f.value)] else []) + MatchesInOrder(engine, mods[1..], probe)
  }

  /** The module-order candidates of two lists in a row are those of each, in turn. */
  lemma {:induction false} MatchesAppend(engine: Engine, xs: seq<ChainModule>, ys: seq<ChainModule>, probe: Prober)
    ensures MatchesInOrder(engine, xs + ys, probe) == MatchesInOrder(engine, xs, probe) + MatchesInOrder(engine, ys, probe)
    decreases |xs|
  {
    if xs == [] {
      assert xs + ys == ys;
    } else {
      assert (xs + ys)[0] == xs[0];
      assert (xs + ys)[1..] == xs[1..] + ys;
      MatchesAppend(engine, xs[1..], ys, probe);
    }
  }

  /** The settled entry of module `m`, as `whenAllSettled` reports it for the coerced probe. */
  predicate SettledAs(engine: Engine, s: Settled<JsValue, ProbeData>, m: ChainModule, r: MatchReturn)
  {
    && s.data.Some? && s.data.value.m == m
    && (s.Fulfilled? <==> Fulfillment(engine, r).Some?)
    && (s.Fulfilled? ==> s.result == Fulfillment(engine, r).value)
  }

  /** Selecting from the settled probes of `mods` gives the module-order reference. */
  lemma {:induction false} SelectInOrder(engine: Engine, settled: seq<Settled<JsValue, ProbeData>>, mods: seq<ChainModule>,
                                         all: seq<ChainModule>, probe: Prober)
    requires |settled| == |mods|
    requires forall i :: 0 <= i < |mods| ==> mods[i] in all && SettledAs(engine, settled[i], mods[i], probe(mods[i]))
    ensures DataAmong(settled, all)
    ensures Select(settled, all) == MatchesInOrder(engine, mods, probe)
    decreases |mods|
  {
    if mods != [] {
      assert forall i :: 0 <= i < |mods| - 1 ==> settled[1..][i] == settled[i + 1] && mods[1..][i] == mods[i + 1];
      SelectInOrder(engine, settled[1..], mods[1..], all, probe);
    }
  }

  /** Every probe of `mods`, settled, is reported as `SettledAs` describes. */
  lemma ProbesSettleAs(engine: Engine, mods: seq<ChainModule>, probe: Prober)
    requires !AnyThrows(mods, probe)
    ensures var settled := WhenAllSettled(Probes(engine, mods, probe));
      |settled| == |mods| && forall i :: 0 <= i < |mods| ==> SettledAs(engine, settled[i], mods[i], probe(mods[i]))
  {
    var items := Probes(engine, mods, probe);
    var settled := WhenAllSettled(items);
    forall i | 0 <= i < |mods| ensures SettledAs(engine, settled[i], mods[i], probe(mods[i])) {
      assert !probe(mods[i]).Throws?;
      assert items[i] == Coerce(engine, mods[i], probe(mods[i]));
    }
  }

  /**
   * Everything the match phase hands to the chain: the candidates of the matching modules, highest
   * priority first, each priority's candidates in module order.
   */
  function Matched(engine: Engine, mods: seq<ChainModule>, probe: Prober): (cs: seq<Candidate>)
    requires !AnyThrows(mods, probe)
    reads mods
    ensures Descending(cs)
    ensures multiset(cs) == multiset(MatchesInOrder(engine, mods, probe))
    ensures forall p :: WithPriority(cs, p) == WithPriority(MatchesInOrder(engine, mods, probe), p)
  {
    var settled := WhenAllSettled(Probes(engine, mods, probe));
    ProbesSettleAs(engine, mods, probe);
    assert forall i :: 0 <= i < |mods| ==> mods[i] in mods;
    SelectInOrder(engine, settled, mods, mods, probe);
    SortByPriority(Select(settled, mods))
  }

  /** The ties of a list are those of its two parts, in turn. */
  lemma {:induction false} WithPriorityAppend(xs: seq<Candidate>, ys: seq<Candidate>, p: int)
    ensures WithPriority(xs + ys, p) == WithPriority(xs, p) + WithPriority(ys, p)
    decreases |xs|
  {
    if xs == [] {
      assert xs + ys == ys;
    } else {
      assert xs + ys == [xs[0]] + (xs[1..] + ys);
      WithPriorityCons(xs[0], xs[1..] + ys, p);
      WithPriorityAppend(xs[1..], ys, p);
      WithPriorityCons(xs[0], xs[1..], p);
      assert xs == [xs[0]] + xs[1..];
    }
  }

  /** Candidate `i` of priority `p` comes right after the ties that precede it. */
  lemma TieAt(cs: seq<Candidate>, i: int, p: int)
    requires 0 <= i < |cs| && cs[i].priority == p
    ensures WithPriority(cs, p) == WithPriority(cs[..i], p) + [cs[i]] + WithPriority(cs[i + 1..], p)
  {
    assert cs == cs[..i] + ([cs[i]] + cs[i + 1..]);
    WithPriorityAppend(cs[..i], [cs[i]] + cs[i + 1..], p);
    WithPriorityCons(cs[i], cs[i + 1..], p);
  }

  /** A longer prefix holds at least as many ties. */
  lemma TiesGrow(cs: seq<Candidate>, x: int, y: int, p: int)
    requires 0 <= x <= y <= |cs|
    ensures |WithPriority(cs[..x], p)| <= |WithPriority(cs[..y], p)|
  {
    assert cs[..y] == cs[..x] + cs[x..y];
    WithPriorityAppend(cs[..x], cs[x..y], p);
  }

  /** The `a`-th tie of priority `p` sits in `cs` after exactly `a` ties. */
  lemma {:induction false} TieSource(cs: seq<Candidate>, p: int, a: int)
    requires 0 <= a < |WithPriority(cs, p)|
    ensures exists x :: 0 <= x < |cs| && cs[x] == WithPriority(cs, p)[a] && |WithPriority(cs[..x], p)| == a
    decreases |cs|
  {
    var w := WithPriority(cs[1..], p);
    if cs[0].priority == p && a == 0 {
      assert cs[..0] == [];
      assert cs[0] == WithPriority(cs, p)[0];
    } else {
      var b := if cs[0].priority == p then a - 1 else a;
      TieSource(cs[1..], p, b);
      var x :| 0 <= x < |cs[1..]| && cs[1..][x] == w[b] && |WithPriority(cs[1..][..x], p)| == b;
      assert cs[..x + 1] == [cs[0]] + cs[1..][..x];
      WithPriorityCons(cs[0], cs[1..][..x], p);
      assert cs[x + 1] == WithPriority(cs, p)[a];
    }
  }

  /** Two tied candidates keep their relative order in any list with the same ties. */
  lemma TiesInOrder(cs: seq<Candidate>, rs: seq<Candidate>, i: int, j: int)
    requires 0 <= i < j < |cs| && cs[i].priority == cs[j].priority
    requires WithPriority(rs, cs[i].priority) == WithPriority(cs, cs[i].priority)
    ensures exists a, b :: 0 <= a < b < |rs| && rs[a] == cs[i] && rs[b] == cs[j]
  {
    var p := cs[i].priority;
    TieAt(cs, i, p);
    TieAt(cs, j, p);
    TieAt(cs[..j], i, p);
    assert cs[..j][..i] == cs[..i];
    var ai := |WithPriority(cs[..i], p)|;
    var bj := |WithPriority(cs[..j], p)|;
    TieSource(rs, p, ai);
    TieSource(rs, p, bj);
    var x :| 0 <= x < |rs| && rs[x] == WithPriority(rs, p)[ai] && |WithPriority(rs[..x], p)| == ai;
    var y :| 0 <= y < |rs| && rs[y] == WithPriority(rs, p)[bj] && |WithPriority(rs[..y], p)| == bj;
    if y <= x {
      TiesGrow(rs, y, x, p);
    }
  }

  /** The candidate of a matching module `mods[i]` comes after those of the modules before it. */
  lemma MatchAt(engine: Engine, mods: seq<ChainModule>, probe: Prober, i: int)
    requires 0 <= i < |mods| && Fulfillment(engine, probe(mods[i])).Some?
    ensures var ms := MatchesInOrder(engine, mods, probe);
      var x := |MatchesInOrder(engine, mods[..i], probe)|;
      x < |ms| && ms[x] == CandidateOf(mods[i], Fulfillment(engine, probe(mods[i])).value)
  {
    assert mods == mods[..i] + ([mods[i]] + mods[i + 1..]);
    MatchesAppend(engine, mods[..i], [mods[i]] + mods[i + 1..], probe);
    assert ([mods[i]] + mods[i + 1..])[1..] == mods[i + 1..];
  }

  /**
   * Two matching modules of equal priority are chained in module order: the `.sort` of the match
   * list is stable.
   */
  lemma MatchedKeepsTieOrder(engine: Engine, mods: seq<ChainModule>, probe: Prober, i: int, j: int)
    requires !AnyThrows(mods, probe)
    requires 0 <= i < j < |mods|
    requires Fulfillment(engine, probe(mods[i])).Some? && Fulfillment(engine, probe(mods[j])).Some?
    requires PriorityOf(mods[i]) == PriorityOf(mods[j])
    ensures var cs := Matched(engine, mods, probe);
      exists a, b :: 0 <= a < b < |cs| && cs[a].handler == mods[i] && cs[b].handler == mods[j]
  {
    var ms := MatchesInOrder(engine, mods, probe);
    MatchAt(engine, mods, probe, i);
    MatchAt(engine, mods, probe, j);
    var x := |MatchesInOrder(engine, mods[..i], probe)|;
    var y := |MatchesInOrder(engine, mods[..j], probe)|;
    assert mods[..j] == mods[..i] + ([mods[i]] + mods[i + 1..j]);
    MatchesAppend(engine, mods[..i], [mods[i]] + mods[i + 1..j], probe);
    assert ([mods[i]] + mods[i + 1..j])[1..] == mods[i + 1..j];
    TiesInOrder(ms, Matched(engine, mods, probe), x, y);
  }

  // ---------------------------------------------------------------- composition fold

  /**
   * How a module's `getResponse` call ends: a value (returned, or a resolved promise), a rejected
   * promise, or a synchronous throw. `nullish` says whether the rejection reason or the thrown
   * value is `undefined` or `null`: the `.catch` handlers read its `message`, which then throws a
   * `TypeError` of its own.
   */
  datatype StepOutcome = Returned(value: Option<Response>) | Rejected(nullish: bool) | Threw(nullish: bool)

  /** How `getResponse(reqInfo, matchResult, prevResponse, handledModules)` behaves for one request. */
  type Responder = (ChainModule, JsValue, Option<Response>, seq<ChainModule>) -> StepOutcome

  /**
   * The fold's accumulator: a promise fulfilled with `{prevResponse, handledModules}`, or, after
   * the outer `.catch` itself threw, a rejected promise (`Broken`).
   */
  datatype ChainState = ChainState(prevResponse: Option<Response>, handledModules: seq<ChainModule>) | Broken

  const Initial := ChainState(None, [])

  /** The outcomes whose error reaches the outer `.catch`, which logs it and resets the state. */
  predicate Resets(o: StepOutcome)
  {
    o == Rejected(true) || o == Threw(false)
  }

  /**
   * One link of `chainModules`' reduce. A value replaces the response and appends the module. A
   * rejection with a reason that has a `message` to read keeps the response; the legacy engine
   * still appends the module, the current one does not. A rejection with a nullish reason makes the
   * inner `.catch` throw, and a synchronous throw skips it; either way the outer `.catch` resets the
   * state, except that it throws itself on a nullish thrown value and leaves the accumulator
   * rejected. A rejected accumulator skips the link and its rejection, a `TypeError`, is reset by
   * the outer `.catch`.
   */
  function Step(engine: Engine, s: ChainState, c: Candidate, respond: Responder): (t: ChainState)
    ensures s.Broken? ==> t == Initial
    ensures t.Broken? <==> s.ChainState? && respond(c.handler, c.matchResult, s.prevResponse, s.handledModules) == Threw(true)
    ensures s.ChainState? && Resets(respond(c.handler, c.matchResult, s.prevResponse, s.handledModules)) ==> t == Initial
    ensures s.ChainState? && respond(c.handler, c.matchResult, s.prevResponse, s.handledModules).Returned? ==>
      t == ChainState(respond(c.handler, c.matchResult, s.prevResponse, s.handledModules).value, s.handledModules + [c.handler])
    ensures s.ChainState? && respond(c.handler, c.matchResult, s.prevResponse, s.handledModules) == Rejected(false) ==>
      t == (if engine == Current then s else ChainState(s.prevResponse, s.handledModules + [c.handler]))
    ensures t == Initial || t == Broken || t == s
      || (s.ChainState? && t.ChainState? && t.handledModules == s.handledModules + [c.handler])
  {
    if s.Broken? then Initial
    else
      match respond(c.handler, c.matchResult, s.prevResponse, s.handledModules)
      case Returned(v) => ChainState(v, s.handledModules + [c.handler])
      case Rejected(nullish) =>
        if nullish then Initial
        else if engine == Current then s
        else ChainState(s.prevResponse, s.handledModules + [c.handler])
      case Threw(nullish) => if nullish then Broken else Initial
  }

  /** The modules a state records; none for a rejected accumulator. */
  function Handled(s: ChainState): seq<ChainModule>
  {
    if s.Broken? then [] else s.handledModules
  }

  /** `modules.reduce(step, state)`: every link records at most one module. */
  function Fold(engine: Engine, s: ChainState, cs: seq<Candidate>, respond: Responder): (t: ChainState)
    ensures cs == [] ==> t == s
    ensures |Handled(t)| <= |Handled(s)| + |cs|
    decreases cs
  {
    if cs == [] then s else Fold(engine, Step(engine, s, cs[0], respond), cs[1..], respond)
  }

  /** `chainModules(reqInfo, modules)`: the fold from `{prevResponse: undefined, handledModules: []}`. */
  function ChainModules(engine: Engine, cs: seq<Candidate>, respond: Responder): (s: ChainState)
    ensures cs == [] ==> s == Initial
  {
    Fold(engine, Initial, cs, respond)
  }

  /** The modules of a candidate list, in order. */
  function Modules(cs: seq<Candidate>): (ms: seq<ChainModule>)
    ensures |ms| == |cs|
    ensures forall i :: 0 <= i < |cs| ==> ms[i] == cs[i].handler
  {
    seq(|cs|, i requires 0 <= i < |cs| => cs[i].handler)
  }

  /** Folding over two lists in a row is folding over their concatenation. */
  lemma {:induction false} FoldAppend(engine: Engine, s: ChainState, xs: seq<Candidate>, ys: seq<Candidate>, respond: Responder)
    ensures Fold(engine, s, xs + ys, respond) == Fold(engine, Fold(engine, s, xs, respond), ys, respond)
    decreases xs
  {
    if xs == [] {
      assert xs + ys == ys;
    } else {
      assert (xs + ys)[1..] == xs[1..] + ys;
      FoldAppend(engine, Step(engine, s, xs[0], respond), xs[1..], ys, respond);
    }
  }

  /** The state after the first `k` links. */
  function StateBefore(engine: Engine, cs: seq<Candidate>, k: nat, respond: Responder): ChainState
    requires k <= |cs|
  {
    ChainModules(engine, cs[..k], respond)
  }

  /**
   * A link that resets the state (an error the outer `.catch` handles, or a rejected accumulator)
   * discards everything the links before it produced: the result is that of chaining only the
   * links after it.
   */
  lemma ThrowDiscardsProgress(engine: Engine, cs: seq<Candidate>, k: nat, respond: Responder)
    requires k < |cs|
    requires var s := StateBefore(engine, cs, k, respond);
      s.Broken? || Resets(respond(cs[k].handler, cs[k].matchResult, s.prevResponse, s.handledModules))
    ensures ChainModules(engine, cs, respond) == ChainModules(engine, cs[k + 1..], respond)
  {
    assert cs == cs[..k] + ([cs[k]] + cs[k + 1..]);
    FoldAppend(engine, Initial, cs[..k], [cs[k]] + cs[k + 1..], respond);
  }

  /**
   * A nullish synchronous throw in link `k` also discards the link after it, which never runs; in
   * the last link it leaves the whole chain rejected.
   */
  lemma NullishThrowSkipsNextLink(engine: Engine, cs: seq<Candidate>, k: nat, respond: Responder)
    requires k < |cs|
    requires var s := StateBefore(engine, cs, k, respond);
      s.ChainState? && respond(cs[k].handler, cs[k].matchResult, s.prevResponse, s.handledModules) == Threw(true)
    ensures k == |cs| - 1 ==> ChainModules(engine, cs, respond) == Broken
    ensures k < |cs| - 1 ==> ChainModules(engine, cs, respond) == ChainModules(engine, cs[k + 2..], respond)
  {
    var rest := cs[k + 1..];
    assert cs == cs[..k] + ([cs[k]] + rest);
    FoldAppend(engine, Initial, cs[..k], [cs[k]] + rest, respond);
    assert ([cs[k]] + rest)[1..] == rest;
    if rest != [] {
      assert rest[1..] == cs[k + 2..];
    }
  }

  /** `xs` is a subsequence of `ys`, matched from the back. */
  predicate Subsequence<T(==)>(xs: seq<T>, ys: seq<T>)
    decreases |ys|
  {
    if xs == [] then true
    else if ys == [] then false
    else
      || (xs[|xs| - 1] == ys[|ys| - 1] && Subsequence(xs[..|xs| - 1], ys[..|ys| - 1]))
      || Subsequence(xs, ys[..|ys| - 1])
  }

  /** The handled list only ever records chained modules, in chain order, each link at most once. */
  lemma {:induction false} HandledFollowsChainOrder(engine: Engine, cs: seq<Candidate>, respond: Responder)
    ensures Subsequence(Handled(ChainModules(engine, cs, respond)), Modules(cs))
    decreases |cs|
  {
    if cs != [] {
      var k := |cs| - 1;
      HandledFollowsChainOrder(engine, cs[..k], respond);
      var s := ChainModules(engine, cs[..k], respond);
      var t := Step(engine, s, cs[k], respond);
      assert ChainModules(engine, cs, respond) == t by {
        assert cs == cs[..k] + [cs[k]];
        FoldAppend(engine, Initial, cs[..k], [cs[k]], respond);
      }
      ModulesLast(cs);
      SubsequenceStep(s, t, Modules(cs[..k]), cs[k].handler);
    }
  }

  /** A link that records nothing new, or appends its own module, keeps the handled list a subsequence. */
  lemma SubsequenceStep(s: ChainState, t: ChainState, ms: seq<ChainModule>, m: ChainModule)
    requires Subsequence(Handled(s), ms)
    requires t == Initial || t == Broken || t == s || (s.ChainState? && t.ChainState? && t.handledModules == s.handledModules + [m])
    ensures Subsequence(Handled(t), ms + [m])
  {
    var ys := ms + [m];
    assert ys[..|ys| - 1] == ms;
    if s.ChainState? && t.ChainState? && t.handledModules == s.handledModules + [m] {
      assert (s.handledModules + [m])[..|s.handledModules|] == s.handledModules;
    }
  }

  /** Recording the first link, then the rest, records the modules of the whole list. */
  lemma HandledGrows(handled: seq<ChainModule>, cs: seq<Candidate>)
    requires cs != []
    ensures (handled + [cs[0].handler]) + Modules(cs[1..]) == handled + Modules(cs)
  {
    assert Modules(cs) == [cs[0].handler] + Modules(cs[1..]);
  }

  /**
   * When every `getResponse` returns, both engines chain alike: every link is recorded, in order,
   * and the final response is the value the last link returned, given the state the links before
   * it left.
   */
  lemma {:induction false} ReturnsChainEveryLink(engine: Engine, s: ChainState, cs: seq<Candidate>, respond: Responder)
    requires s.ChainState?
    requires forall m, v, p, h :: respond(m, v, p, h).Returned?
    ensures Fold(engine, s, cs, respond).ChainState?
    ensures Fold(engine, s, cs, respond).handledModules == s.handledModules + Modules(cs)
    ensures cs != [] ==>
      var u, last := Fold(engine, s, cs[..|cs| - 1], respond), cs[|cs| - 1];
      u.ChainState? && Fold(engine, s, cs, respond).prevResponse
        == respond(last.handler, last.matchResult, u.prevResponse, u.handledModules).value
    ensures Fold(Current, s, cs, respond) == Fold(Legacy, s, cs, respond)
    decreases |cs|
  {
    ReturnsIgnoreEngine(s, cs, respond);
    if cs != [] {
      var init, last := cs[..|cs| - 1], cs[|cs| - 1];
      ReturnsChainEveryLink(engine, s, init, respond);
      var u := Fold(engine, s, init, respond);
      assert Fold(engine, s, cs, respond) == Step(engine, u, last, respond) by {
        assert cs == init + [last] && [last][1..] == [];
        FoldAppend(engine, s, init, [last], respond);
      }
      var o := respond(last.handler, last.matchResult, u.prevResponse, u.handledModules);
      assert o.Returned?;
      assert Step(engine, u, last, respond) == ChainState(o.value, u.handledModules + [last.handler]);
      ModulesLast(cs);
      RegroupLast(u.handledModules + [last.handler], s.handledModules, Modules(init), Modules(cs), [last.handler]);
    }
  }

  /** The modules of a non-empty list: those of all but the last, then the last one's. */
  lemma ModulesLast(cs: seq<Candidate>)
    requires cs != []
    ensures Modules(cs) == Modules(cs[..|cs| - 1]) + [cs[|cs| - 1].handler]
  {
    assert forall i :: 0 <= i < |cs| - 1 ==> cs[..|cs| - 1][i] == cs[i];
  }

  /** When every `getResponse` returns, the two engines' folds agree link by link. */
  lemma {:induction false} ReturnsIgnoreEngine(s: ChainState, cs: seq<Candidate>, respond: Responder)
    requires s.ChainState?
    requires forall m, v, p, h :: respond(m, v, p, h).Returned?
    ensures Fold(Current, s, cs, respond) == Fold(Legacy, s, cs, respond)
    decreases |cs|
  {
    if cs != [] {
      var t := Step(Current, s, cs[0], respond);
      assert t == Step(Legacy, s, cs[0], respond) && t.ChainState? by {
        assert respond(cs[0].handler, cs[0].matchResult, s.prevResponse, s.handledModules).Returned?;
      }
      ReturnsIgnoreEngine(t, cs[1..], respond);
    }
  }

  /** The outcomes the inner `.catch` absorbs or never sees: a value, or a rejection with a reason. */
  predicate Settles(o: StepOutcome)
  {
    o.Returned? || o == Rejected(false)
  }

  /**
   * Without synchronous throws and nullish rejection reasons, the legacy fold appends every link to
   * the handled list.
   */
  lemma {:induction false} LegacyHandlesEveryLink(s: ChainState, cs: seq<Candidate>, respond: Responder)
    requires s.ChainState?
    requires forall m, v, p, h :: Settles(respond(m, v, p, h))
    ensures Fold(Legacy, s, cs, respond).ChainState?
    ensures Fold(Legacy, s, cs, respond).handledModules == s.handledModules + Modules(cs)
    decreases cs
  {
    if cs != [] {
      var t := Step(Legacy, s, cs[0], respond);
      assert t.ChainState? && t.handledModules == s.handledModules + [cs[0].handler] by {
        assert Settles(respond(cs[0].handler, cs[0].matchResult, s.prevResponse, s.handledModules));
      }
      LegacyHandlesEveryLink(t, cs[1..], respond);
      HandledGrows(s.handledModules, cs);
    }
  }

  /**
   * When every `getResponse` rejects with a reason that is not nullish, the current engine ends in
   * the state it started from.
   */
  lemma {:induction false} CurrentRejectionsKeepState(s: ChainState, cs: seq<Candidate>, respond: Responder)
    requires s.ChainState?
    requires forall m, v, p, h :: respond(m, v, p, h) == Rejected(false)
    ensures Fold(Current, s, cs, respond) == s
    decreases cs
  {
    if cs != [] {
      CurrentRejectionsKeepState(s, cs[1..], respond);
    }
  }

  /**
   * When every `getResponse` rejects with a reason that is not nullish, the legacy engine keeps the
   * response and records every link as handled.
   */
  lemma {:induction false} LegacyRejectionsKeepResponse(s: ChainState, cs: seq<Candidate>, respond: Responder)
    requires s.ChainState?
    requires forall m, v, p, h :: respond(m, v, p, h) == Rejected(false)
    ensures Fold(Legacy, s, cs, respond) == ChainState(s.prevResponse, s.handledModules + Modules(cs))
    decreases cs
  {
    if cs != [] {
      var t := Step(Legacy, s, cs[0], respond);
      assert t == ChainState(s.prevResponse, s.handledModules + [cs[0].handler]) by {
        assert respond(cs[0].handler, cs[0].matchResult, s.prevResponse, s.handledModules) == Rejected(false);
      }
      LegacyRejectionsKeepResponse(t, cs[1..], respond);
      HandledGrows(s.handledModules, cs);
    }
  }

  // ---------------------------------------------------------------- dispatch decision

  /**
   * What the middleware does with the host: the headers it appends (in order), the body it sends,
   * whether it calls `next()`; or `Raised` when it throws.
   */
  datatype Effects = Effects(appended: seq<Header>, sent: Option<JsValue>, nextCalled: bool) | Raised

  /** Only `next()` is called. */
  const Defer := Effects([], None, true)

  /**
   * The last `.then` of the middleware. No response: defer. Current engine: append every header,
   * send the content iff it is truthy, call `next()` iff `continueNext` is truthy. Legacy engine:
   * defer unless the content is a string; otherwise append every header and send it.
   */
  function Decide(engine: Engine, prev: Option<Response>): (e: Effects)
    ensures e.Effects?
    ensures prev.None? ==> e == Defer
    ensures prev.Some? && engine == Current ==>
      && e.appended == HeaderList(prev.value.headers)
      && (e.sent.Some? <==> Truthy(prev.value.content))
      && (e.sent.Some? ==> e.sent.value == prev.value.content)
      && (e.nextCalled <==> Truthy(prev.value.continueNext))
    ensures prev.Some? && engine == Legacy && !prev.value.content.String? ==> e == Defer
    ensures prev.Some? && engine == Legacy && prev.value.content.String? ==>
      e == Effects(HeaderList(prev.value.headers), Some(prev.value.content), false)
  {
    match prev
    case None => Defer
    case Some(r) =>
      if engine == Current then
        Effects(HeaderList(r.headers),
                if Truthy(r.content) then Some(r.content) else None,
                Truthy(r.continueNext))
      else if r.content.String? then
        Effects(HeaderList(r.headers), Some(r.content), false)
      else Defer
  }

  /** The legacy middleware always does exactly one of sending a body and calling `next()`. */
  lemma LegacyAnswersOrDefers(prev: Option<Response>)
    ensures Decide(Legacy, prev).sent.Some? != Decide(Legacy, prev).nextCalled
  {
  }

  /**
   * The current middleware can do both (content with `continueNext`) or neither (falsy content
   * without `continueNext`, which leaves the request unanswered).
   */
  lemma CurrentMaySendAndDefer(headers: Headers)
    ensures var e := Decide(Current, Some(Response(String("x"), headers, Boolean(true))));
      e.sent == Some(String("x")) && e.nextCalled
    ensures var e := Decide(Current, Some(Response(String(""), headers, Undefined)));
      e.sent.None? && !e.nextCalled
  {
  }

  /**
   * The request is left unanswered: the chain's promise rejects, its final `.then` never runs and
   * nothing handles the rejection, so nothing is sent and `next()` is not called.
   */
  const Unanswered := Effects([], None, false)

  /**
   * Request handling after the switch checks: probe, match, chain, decide. The middleware throws
   * exactly when some `isMatch` throws.
   */
  function Dispatch(engine: Engine, mods: seq<ChainModule>, probe: Prober, respond: Responder): (e: Effects)
    reads mods
    ensures e == Raised <==> AnyThrows(mods, probe)
    ensures !AnyThrows(mods, probe) && ChainModules(engine, Matched(engine, mods, probe), respond).Broken? ==> e == Unanswered
  {
    if AnyThrows(mods, probe) then Raised
    else
      var s := ChainModules(engine, Matched(engine, mods, probe), respond);
      if s.Broken? then Unanswered else Decide(engine, s.prevResponse)
  }

  /** A probe that does not match: `false`, a rejected promise, or a value that is not a promise. */
  predicate NoMatch(r: MatchReturn)
  {
    r == Bool(false) || (r.Promise? && r.settles.Rejects?) || r.Other?
  }

  /** When no module matches, no `getResponse` runs and the middleware only calls `next()`. */
  lemma NoMatchDefers(engine: Engine, mods: seq<ChainModule>, probe: Prober, respond: Responder)
    requires forall i :: 0 <= i < |mods| ==> NoMatch(probe(mods[i]))
    ensures Dispatch(engine, mods, probe, respond) == Defer
  {
    assert !AnyThrows(mods, probe);
    assert Matched(engine, mods, probe) == [] by {
      var settled := WhenAllSettled(Probes(engine, mods, probe));
      assert DataAmong(settled, mods);
      assert forall i :: 0 <= i < |settled| ==> !settled[i].Fulfilled?;
      NothingFulfilledSelectsNothing(settled, mods);
    }
    assert ChainModules(engine, [], respond) == Initial;
  }

  // ---------------------------------------------------------------- worked cases

  /**
   * The stable sort orders candidates of priorities 5, 10 and 5 as the priority-10 one, then the
   * first and then the second priority-5 one.
   */
  lemma {:induction false} TiesKeepDiscoveryOrder(a: Candidate, b: Candidate, c: Candidate)
    requires a.priority == 5 && b.priority == 10 && c.priority == 5
    ensures SortByPriority([a, b, c]) == [b, a, c]
  {
    assert [a, b, c][1..] == [b, c] && [b, c][1..] == [c] && [c][1..] == [];
    SortStep([c]);
    SortStep([b, c]);
    SortStep([a, b, c]);
    assert SortByPriority([]) == [];
    InsertTies(a, b, c);
  }

  /**
   * A returns a response, B's promise rejects with a reason that is not nullish, C passes its input
   * on: the chain ends with A's response; the current engine records A and C, the legacy engine all
   * three.
   */
  lemma RejectionScenario(a: Candidate, b: Candidate, c: Candidate, ra: Response, respond: Responder)
    requires forall v, p, h :: respond(a.handler, v, p, h) == Returned(Some(ra))
    requires forall v, p, h :: respond(b.handler, v, p, h) == Rejected(false)
    requires forall v, p, h :: respond(c.handler, v, p, h) == Returned(p)
    ensures ChainModules(Current, [a, b, c], respond) == ChainState(Some(ra), [a.handler, c.handler])
    ensures ChainModules(Legacy, [a, b, c], respond) == ChainState(Some(ra), [a.handler, b.handler, c.handler])
  {
    forall e: Engine ensures ChainModules(e, [a, b, c], respond)
      == Step(e, Step(e, Step(e, Initial, a, respond), b, respond), c, respond) {
      FoldThree(e, a, b, c, respond);
    }
    var s1 := ChainState(Some(ra), [a.handler]);
    assert Step(Current, Initial, a, respond) == s1;
    assert Step(Current, s1, b, respond) == s1;
    assert Step(Legacy, Initial, a, respond) == s1;
    assert Step(Legacy, s1, b, respond) == ChainState(Some(ra), [a.handler, b.handler]);
  }

  /**
   * A returns a response, B throws a value that is not nullish or rejects with a nullish reason, C
   * passes its input on: the outer reset wipes A's contribution, so C receives no response and is
   * the only module recorded.
   */
  lemma ThrowScenario(a: Candidate, b: Candidate, c: Candidate, ra: Response, respond: Responder)
    requires forall v, p, h :: respond(a.handler, v, p, h) == Returned(Some(ra))
    requires forall v, p, h :: Resets(respond(b.handler, v, p, h))
    requires forall v, p, h :: respond(c.handler, v, p, h) == Returned(p)
    ensures ChainModules(Current, [a, b, c], respond) == ChainState(None, [c.handler])
    ensures ChainModules(Legacy, [a, b, c], respond) == ChainState(None, [c.handler])
  {
    forall e: Engine ensures ChainModules(e, [a, b, c], respond)
      == Step(e, Step(e, Step(e, Initial, a, respond), b, respond), c, respond) {
      FoldThree(e, a, b, c, respond);
    }
    var s1 := ChainState(Some(ra), [a.handler]);
    assert Step(Current, s1, b, respond) == Initial;
    assert Step(Legacy, s1, b, respond) == Initial;
  }

  /**
   * A returns a response and B throws `undefined` or `null`: the outer `.catch` throws too. With C
   * after B, C never runs and the chain ends in the initial state; with B last, the request is left
   * unanswered.
   */
  lemma NullishThrowScenario(engine: Engine, a: Candidate, b: Candidate, c: Candidate, ra: Response, respond: Responder)
    requires forall v, p, h :: respond(a.handler, v, p, h) == Returned(Some(ra))
    requires forall v, p, h :: respond(b.handler, v, p, h) == Threw(true)
    ensures ChainModules(engine, [a, b, c], respond) == Initial
    ensures ChainModules(engine, [a, b], respond) == Broken
  {
    FoldThree(engine, a, b, c, respond);
    var s1 := ChainState(Some(ra), [a.handler]);
    assert Step(engine, Initial, a, respond) == s1;
    assert Step(engine, s1, b, respond) == Broken;
    assert [a, b][1..] == [b] && [b][1..] == [];
    assert Fold(engine, Initial, [a, b], respond) == Fold(engine, s1, [b], respond) == Fold(engine, Broken, [], respond);
  }

  lemma FoldThree(e: Engine, a: Candidate, b: Candidate, c: Candidate, respond: Responder)
    ensures ChainModules(e, [a, b, c], respond)
      == Step(e, Step(e, Step(e, Initial, a, respond), b, respond), c, respond)
  {
    var s1 := Step(e, Initial, a, respond);
    var s2 := Step(e, s1, b, respond);
    assert [a, b, c][1..] == [b, c] && [b, c][1..] == [c] && [c][1..] == [];
    calc {
      Fold(e, Initial, [a, b, c], respond);
      Fold(e, s1, [b, c], respond);
      Fold(e, s2, [c], respond);
      Fold(e, Step(e, s2, c, respond), [], respond);
    }
  }
}
