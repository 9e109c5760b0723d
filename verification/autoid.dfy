/** The auto-id registry (`AutoId`), its default implementation
    (`HashAutoId`) and `createAutoId`.

    The registry is the set of ids handed out so far; an operation that
    registers an id returns the new registry. */
module AutoIds {
  import opened Wrappers
  import Chars
  import Hash

  datatype Registry = Registry(ids: set<string>)

  /** A fresh registry, as `resolveParseOptions` creates when the caller
      supplies none. */
  const Fresh: Registry := Registry({})

  predicate Exists(reg: Registry, id: string) {
    id in reg.ids
  }

  /** `push`: registers a new id, and throws on one already present. */
  function Push(reg: Registry, id: string): (r: Result<Registry>)
    ensures r.Failure? <==> Exists(reg, id)
    ensures r.Success? ==> Exists(r.value, id) && r.value.ids - {id} == reg.ids
    ensures r.Failure? ==> r.error == "Duplicate auto id \"" + id + "\"!"
  {
    if id in reg.ids then Failure("Duplicate auto id \"" + id + "\"!")
    else Success(Registry(reg.ids + {id}))
  }

  /** `HashAutoId.generate`: the element name, a colon, and six hash
      characters of the source text. */
  function Generate(name: string, strNode: string): (id: string)
    ensures |id| == |name| + 7
    ensures id[..|name|] == name && id[|name|] == ':'
    ensures forall i :: |name| < i < |id| ==> Hash.IsUrlSafe(id[i])
    ensures id[|name| + 1..] == Hash.HashString(strNode, 6)
  {
    name + ":" + Hash.HashString(strNode, 6)
  }

  /** An upper bound on the length of the registered ids; it bounds the
      number of dashes `Finalize` can append. */
  ghost function MaxLen(s: set<string>): (m: nat)
    ensures forall x :: x in s ==> |x| <= m
    decreases s
  {
    if s == {} then 0
    else
      var x :| x in s;
      var m := MaxLen(s - {x});
      if |x| > m then |x| else m
  }

  /** `HashAutoId.finalize`: appends `-` until the id is not registered,
      which is the fewest dashes that make it unique. */
  function Finalize(reg: Registry, id: string): (r: string)
    ensures !Exists(reg, r)
    ensures |r| >= |id| && r[..|id|] == id
    ensures r == id + Chars.Repeat('-', |r| - |id|)
    ensures forall k :: 0 <= k < |r| - |id| ==> Exists(reg, id + Chars.Repeat('-', k))
    decreases MaxLen(reg.ids) - |id|
  {
    if id in reg.ids then
      var r := Finalize(reg, id + "-");
      assert id + Chars.Repeat('-', 0) == id;
      forall k | 1 <= k < |r| - |id|
        ensures Exists(reg, id + Chars.Repeat('-', k))
      {
        assert id + Chars.Repeat('-', k) == (id + "-") + Chars.Repeat('-', k - 1);
      }
      assert r == id + Chars.Repeat('-', |r| - |id|) by {
        assert r == (id + "-") + Chars.Repeat('-', |r| - |id| - 1);
      }
      r
    else
      assert id + Chars.Repeat('-', 0) == id;
      id
  }

  /** `createAutoId`: generate, let the strategy alter the candidate
      (`None` when no strategy is involved), make it unique and register
      it. The id is the altered candidate with the fewest dashes appended
      that make it unregistered; the registration never fails, and the
      new id is registered beside the old ones. */
  function CreateAutoId(reg: Registry, alter: Option<string -> string>, name: string, strNode: string)
    : (r: (string, Registry))
    ensures Push(reg, r.0) == Success(r.1)
    ensures !Exists(reg, r.0) && r.1.ids == reg.ids + {r.0}
    ensures var c := Altered(alter, Generate(name, strNode));
            && r.0 == Finalize(reg, c)
            && r.0 == c + Chars.Repeat('-', |r.0| - |c|)
            && forall k :: 0 <= k < |r.0| - |c| ==> Exists(reg, c + Chars.Repeat('-', k))
  {
    var id := Finalize(reg, Altered(alter, Generate(name, strNode)));
    (id, Registry(reg.ids + {id}))
  }

  /** The candidate after the strategy's `alterAutoId`, when there is one. */
  function Altered(alter: Option<string -> string>, candidate: string): string {
    match alter
    case Some(f) => f(candidate)
    case None => candidate
  }

  /** What one `createAutoId` call is given. */
  datatype Request = Request(alter: Option<string -> string>, name: string, strNode: string)

  /** A run of `createAutoId` calls on one registry, in order. */
  function CreateAll(reg: Registry, reqs: seq<Request>): (r: (seq<string>, Registry))
    ensures |r.0| == |reqs|
    decreases |reqs|
  {
    if |reqs| == 0 then ([], reg)
    else
      var (id, reg1) := CreateAutoId(reg, reqs[0].alter, reqs[0].name, reqs[0].strNode);
      var (rest, reg2) := CreateAll(reg1, reqs[1..]);
      ([id] + rest, reg2)
  }

  /** Every id of a run is new to the starting registry, the ids of a run
      are pairwise distinct, and the final registry holds exactly the old
      ids plus the new ones. */
  lemma {:induction false} CreateAllDistinct(reg: Registry, reqs: seq<Request>)
    ensures var (ids, reg') := CreateAll(reg, reqs);
            && (forall i :: 0 <= i < |ids| ==> !Exists(reg, ids[i]))
            && (forall i, j :: 0 <= i < j < |ids| ==> ids[i] != ids[j])
            && reg'.ids == reg.ids + (set x | x in ids)
    decreases |reqs|
  {
    if |reqs| > 0 {
      var (id, reg1) := CreateAutoId(reg, reqs[0].alter, reqs[0].name, reqs[0].strNode);
      CreateAllDistinct(reg1, reqs[1..]);
      var (rest, reg2) := CreateAll(reg1, reqs[1..]);
      assert CreateAll(reg, reqs) == ([id] + rest, reg2);
      ConsDistinct(reg, reg1, id, rest, reg2);
    }
  }

  /** One step of `CreateAllDistinct`: a new id registered in `reg1`
      before the rest of the run. */
  lemma ConsDistinct(reg: Registry, reg1: Registry, id: string, rest: seq<string>, reg2: Registry)
    requires !Exists(reg, id) && reg1.ids == reg.ids + {id}
    requires forall i :: 0 <= i < |rest| ==> !Exists(reg1, rest[i])
    requires forall i, j :: 0 <= i < j < |rest| ==> rest[i] != rest[j]
    requires reg2.ids == reg1.ids + (set x | x in rest)
    ensures var ids := [id] + rest;
            && (forall i :: 0 <= i < |ids| ==> !Exists(reg, ids[i]))
            && (forall i, j :: 0 <= i < j < |ids| ==> ids[i] != ids[j])
            && reg2.ids == reg.ids + (set x | x in ids)
  {
    var ids := [id] + rest;
    forall i | 0 <= i < |ids| ensures !Exists(reg, ids[i]) {
      if i > 0 { assert ids[i] == rest[i - 1]; }
    }
    forall i, j | 0 <= i < j < |ids| ensures ids[i] != ids[j] {
      assert ids[j] == rest[j - 1];
      if i > 0 {
        assert ids[i] == rest[i - 1];
      }
    }
    assert (set x | x in ids) == {id} + (set x | x in rest);
  }

  /** The default registry's behaviour on a repeated source text: the
      second paragraph with the same text gets one dash. */
  lemma RepeatedTextGetsDash(name: string, strNode: string)
    ensures var (a, reg1) := CreateAutoId(Fresh, None, name, strNode);
            var (b, _) := CreateAutoId(reg1, None, name, strNode);
            a == Generate(name, strNode) && b == Generate(name, strNode) + "-"
  {
    var g := Generate(name, strNode);
    assert Finalize(Fresh, g) == g;
    var reg1 := Registry({g});
    assert Finalize(reg1, g + "-") == g + "-";
    assert Finalize(reg1, g) == g + "-";
  }
}
