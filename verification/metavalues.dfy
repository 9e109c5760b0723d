/** `ElementMeta`: the plain object of meta properties an element
    carries. JavaScript keeps string keys in insertion order, so a meta
    is an association list with unique keys; `ToMap` forgets the order. */
module MetaValues {
  import opened Wrappers
  import Chars

  /** The values a meta property can hold. `StrList` is an array of
      strings (the `classes` list); `Nested` is any other object or array
      a YAML meta block produced, kept opaque together with the text
      `String(value)` renders for it. */
  datatype Value =
    | Null
    | Bool(b: bool)
    | Num(n: int)
    | Str(s: string)
    | StrList(items: seq<string>)
    | Nested(display: string)

  type Entry = (string, Value)
  type Meta = seq<Entry>

  predicate UniqueKeys(m: Meta) {
    forall i, j :: 0 <= i < j < |m| ==> m[i].0 != m[j].0
  }

  /** JavaScript truthiness: `null`, `false`, `0` and `''` are falsy;
      arrays and objects are truthy. */
  predicate Truthy(v: Value) {
    match v
    case Null => false
    case Bool(b) => b
    case Num(n) => n != 0
    case Str(s) => s != ""
    case StrList(_) => true
    case Nested(_) => true
  }

  /** `String(v)`, which template literals apply. */
  function ValueText(v: Value): string {
    match v
    case Null => "null"
    case Bool(b) => if b then "true" else "false"
    case Num(n) => Chars.IntToString(n)
    case Str(s) => s
    case StrList(items) => Chars.Join(items, ",")
    case Nested(d) => d
  }

  /** Position of key `k`, or `|m|` when absent. */
  function KeyIndex(m: Meta, k: string): (i: nat)
    ensures i <= |m|
    ensures i < |m| ==> m[i].0 == k
    ensures forall j :: 0 <= j < i ==> m[j].0 != k
  {
    if |m| == 0 then 0
    else if m[0].0 == k then 0
    else 1 + KeyIndex(m[1..], k)
  }

  /** Property lookup, `meta[k]` for an own property. */
  function Get(m: Meta, k: string): (r: Option<Value>)
    ensures r.Some? ==> (k, r.value) in m
    ensures r.None? <==> forall i :: 0 <= i < |m| ==> m[i].0 != k
  {
    var i := KeyIndex(m, k);
    if i < |m| then Some(m[i].1) else None
  }

  lemma GetCons(e: Entry, m: Meta, k: string)
    ensures Get([e] + m, k) == if e.0 == k then Some(e.1) else Get(m, k)
  {
    assert ([e] + m)[1..] == m;
  }

  /** Under unique keys, lookup finds the entry stored under `k`. */
  lemma GetEntry(m: Meta, i: nat)
    requires UniqueKeys(m) && i < |m|
    ensures Get(m, m[i].0) == Some(m[i].1)
  {
    assert KeyIndex(m, m[i].0) == i;
  }

  /** `meta[k] = v`: overwrites in place when `k` is present and appends
      otherwise. */
  function Set(m: Meta, k: string, v: Value): (r: Meta)
    ensures Get(r, k) == Some(v)
    ensures forall k' :: k' != k ==> Get(r, k') == Get(m, k')
    ensures Get(m, k).Some? ==> |r| == |m| && forall i :: 0 <= i < |m| ==> r[i].0 == m[i].0
    ensures Get(m, k).None? ==> r == m + [(k, v)]
    ensures UniqueKeys(m) ==> UniqueKeys(r)
  {
    var i := KeyIndex(m, k);
    if i < |m| then
      var r := m[i := (k, v)];
      SetFrame(m, k, v, i, r);
      r
    else
      var r := m + [(k, v)];
      AppendFrame(m, k, v);
      r
  }

  /** `KeyIndex` is the only position meeting its contract. */
  lemma KeyIndexUnique(m: Meta, k: string, i: nat)
    requires i <= |m| && (i < |m| ==> m[i].0 == k)
    requires forall j :: 0 <= j < i ==> m[j].0 != k
    ensures KeyIndex(m, k) == i
  {
  }

  lemma SetFrame(m: Meta, k: string, v: Value, i: nat, r: Meta)
    requires i == KeyIndex(m, k) && i < |m| && r == m[i := (k, v)]
    ensures Get(r, k) == Some(v)
    ensures forall k' :: k' != k ==> Get(r, k') == Get(m, k')
  {
    KeyIndexUnique(r, k, i);
    forall k' | k' != k ensures Get(r, k') == Get(m, k') {
      var x := KeyIndex(m, k');
      assert forall j :: 0 <= j < |m| && j != i ==> r[j] == m[j];
      KeyIndexUnique(r, k', x);
    }
  }

  lemma AppendFrame(m: Meta, k: string, v: Value)
    requires KeyIndex(m, k) == |m|
    ensures Get(m + [(k, v)], k) == Some(v)
    ensures forall k' :: k' != k ==> Get(m + [(k, v)], k') == Get(m, k')
  {
    var r := m + [(k, v)];
    KeyIndexUnique(r, k, |m|);
    forall k' | k' != k ensures Get(r, k') == Get(m, k') {
      var x := KeyIndex(m, k');
      if x < |m| {
        KeyIndexUnique(r, k', x);
      } else {
        KeyIndexUnique(r, k', |r|);
      }
    }
  }

  /** `delete meta[k]`: every other property keeps its value. */
  function Delete(m: Meta, k: string): (r: Meta)
    ensures Get(r, k).None?
    ensures forall k' :: k' != k ==> Get(r, k') == Get(m, k')
    ensures |r| <= |m|
    decreases |m|
  {
    if |m| == 0 then []
    else
      var rest := Delete(m[1..], k);
      if m[0].0 == k then
        forall k' | k' != k ensures Get(rest, k') == Get(m, k') {
          GetCons(m[0], m[1..], k');
          assert [m[0]] + m[1..] == m;
        }
        rest
      else
        forall k' ensures Get([m[0]] + rest, k') == if k' == k then None else Get(m, k') {
          GetCons(m[0], rest, k');
          GetCons(m[0], m[1..], k');
          assert [m[0]] + m[1..] == m;
        }
        [m[0]] + rest
  }

  /** The meta as a JavaScript object compares under `toEqual`: key order
      does not matter. */
  function ToMap(m: Meta): (r: map<string, Value>)
    ensures forall k :: k in r <==> Get(m, k).Some?
    ensures forall k :: k in r ==> r[k] == Get(m, k).value
    decreases |m|
  {
    if |m| == 0 then map[]
    else
      var r := ToMap(m[1..])[m[0].0 := m[0].1];
      forall k ensures Get(m, k) == if k == m[0].0 then Some(m[0].1) else Get(m[1..], k) {
        GetCons(m[0], m[1..], k);
        assert [m[0]] + m[1..] == m;
      }
      r
  }

  /** Two metas with the same lookups compare equal as objects. */
  lemma SameLookupsSameMap(a: Meta, b: Meta)
    requires forall k :: Get(a, k) == Get(b, k)
    ensures ToMap(a) == ToMap(b)
  {
  }
}
