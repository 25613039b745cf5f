/**
 * The response value modules pass along the chain: `{content, headers, continueNext}`. A falsy
 * response (`undefined`, `null`, ...) is `None` wherever an `Option<Response>` is expected.
 */
module Responses {
  import opened Wrappers
  import opened Js

  datatype Header = Header(name: string, value: string)

  /**
   * A response's `headers` property: `Nullish` is `undefined` or `null`; otherwise a dictionary,
   * its entries in key order.
   */
  datatype Headers = Nullish | Dict(entries: seq<Header>)

  /**
   * A truthy response. A missing `content` or `continueNext` is `Undefined`; a truthy non-object
   * response reads as one whose three properties are all missing.
   */
  datatype Response = Response(content: JsValue, headers: Headers, continueNext: JsValue)

  /** `headers[name]`: the value stored under the first entry named `name`, if any. */
  function Lookup(hs: seq<Header>, name: string): (r: Option<string>)
    ensures r.Some? <==> name in Names(hs)
  {
    if hs == [] then None
    else if hs[0].name == name then Some(hs[0].value)
    else Lookup(hs[1..], name)
  }

  /** The keys of a header dictionary. */
  function Names(hs: seq<Header>): set<string>
  {
    set i | 0 <= i < |hs| :: hs[i].name
  }

  lemma NamesCons(h: Header, t: seq<Header>)
    ensures Names([h] + t) == {h.name} + Names(t)
  {
    var s := [h] + t;
    forall n | n in Names(s) ensures n in {h.name} + Names(t) {
      var i :| 0 <= i < |s| && s[i].name == n;
      if i > 0 { assert t[i - 1].name == n; }
    }
    forall n | n in Names(t) ensures n in Names(s) {
      var i :| 0 <= i < |t| && t[i].name == n;
      assert s[i + 1].name == n;
    }
    assert s[0].name == h.name;
  }

  /** An object's keys are distinct. */
  predicate DistinctNames(hs: seq<Header>)
  {
    forall i, j :: 0 <= i < j < |hs| ==> hs[i].name != hs[j].name
  }

  /**
   * `headers[name] = value`: afterwards `name` holds `value`, every other key holds what it held,
   * a new key goes last and an existing key keeps its position.
   */
  function Assign(hs: seq<Header>, name: string, value: string): (r: seq<Header>)
    ensures Lookup(r, name) == Some(value)
    ensures forall n :: n != name ==> Lookup(r, n) == Lookup(hs, n)
    ensures Names(r) == Names(hs) + {name}
    ensures name !in Names(hs) ==> r == hs + [Header(name, value)]
    ensures name in Names(hs) ==> |r| == |hs|
  {
    if hs == [] then [Header(name, value)]
    else if hs[0].name == name then
      NamesCons(hs[0], hs[1..]);
      NamesCons(Header(name, value), hs[1..]);
      assert hs == [hs[0]] + hs[1..];
      [Header(name, value)] + hs[1..]
    else
      var rest := Assign(hs[1..], name, value);
      NamesCons(hs[0], hs[1..]);
      NamesCons(hs[0], rest);
      assert hs == [hs[0]] + hs[1..];
      assert name !in Names(hs[1..]) ==> hs == [hs[0]] + hs[1..];
      [hs[0]] + rest
  }

  /**
   * Assigning an existing key rewrites its first entry in place: every other entry keeps its
   * value and its position.
   */
  lemma {:induction false} AssignKeepsPlace(hs: seq<Header>, name: string, value: string)
    requires name in Names(hs)
    ensures exists i :: && 0 <= i < |hs| && hs[i].name == name && (forall j :: 0 <= j < i ==> hs[j].name != name)
                        && Assign(hs, name, value) == hs[i := Header(name, value)]
  {
    var h, t := hs[0], hs[1..];
    assert hs == [h] + t;
    if h.name == name {
      assert Assign(hs, name, value) == hs[0 := Header(name, value)];
    } else {
      assert name in Names(t) by { NamesCons(h, t); }
      AssignKeepsPlace(t, name, value);
      var k :| && 0 <= k < |t| && t[k].name == name && (forall j :: 0 <= j < k ==> t[j].name != name)
               && Assign(t, name, value) == t[k := Header(name, value)];
      AssignPlaceStep(h, t, k, name, value);
    }
  }

  /** If assigning into `t` rewrites its first `name` entry `k`, assigning into `[h] + t` rewrites entry `k + 1`. */
  lemma AssignPlaceStep(h: Header, t: seq<Header>, k: int, name: string, value: string)
    requires h.name != name && 0 <= k < |t| && t[k].name == name
    requires forall j :: 0 <= j < k ==> t[j].name != name
    requires Assign(t, name, value) == t[k := Header(name, value)]
    ensures var hs := [h] + t;
      && hs[k + 1].name == name && (forall j :: 0 <= j < k + 1 ==> hs[j].name != name)
      && Assign(hs, name, value) == hs[k + 1 := Header(name, value)]
  {
    var hs := [h] + t;
    assert hs[0] == h && hs[1..] == t;
    assert Assign(hs, name, value) == [h] + Assign(t, name, value);
    ConsUpdate(h, t, k, Header(name, value));
    assert forall j :: 0 < j < k + 1 ==> hs[j] == t[j - 1];
  }

  /** Updating the tail of a list at `k` updates the whole list at `k + 1`. */
  lemma ConsUpdate<T>(x: T, t: seq<T>, k: int, v: T)
    requires 0 <= k < |t|
    ensures [x] + t[k := v] == ([x] + t)[k + 1 := v]
  {
  }

  /** Assigning a key keeps the keys of a dictionary distinct. */
  lemma {:induction false} AssignKeepsNamesDistinct(hs: seq<Header>, name: string, value: string)
    requires DistinctNames(hs)
    ensures DistinctNames(Assign(hs, name, value))
  {
    if hs != [] && hs[0].name != name {
      AssignKeepsNamesDistinct(hs[1..], name, value);
      var rest := Assign(hs[1..], name, value);
      assert Names(hs[1..]) == set i | 1 <= i < |hs| :: hs[i].name;
      assert hs[0].name !in Names(rest);
      forall i, j | 0 <= i < j < |[hs[0]] + rest|
        ensures ([hs[0]] + rest)[i].name != ([hs[0]] + rest)[j].name
      {
        if i == 0 {
          assert rest[j - 1].name in Names(rest);
        }
      }
    } else if hs != [] {
      assert Names(hs[1..]) == set i | 1 <= i < |hs| :: hs[i].name;
    }
  }

  /** `Object.keys(headers || {})` with each key's value: the headers a dispatch appends, in order. */
  function HeaderList(h: Headers): seq<Header>
  {
    match h
    case Nullish => []
    case Dict(entries) => entries
  }
}
