/**
 * The serialization map: translates references to serialized identifiers
 * and back. In table mode it keeps one table per direction, filled by `Add`;
 * in function mode it asks two caller-supplied lookups, each of which either
 * succeeds with a counterpart or fails.
 */
module Data {
  import opened Wrappers

  /**
   * `std::unordered_map::insert`: a key already present keeps its value, so
   * the first mapping added for a key wins.
   */
  function Insert<K, V>(m: map<K, V>, k: K, v: V): (r: map<K, V>)
    ensures r.Keys == m.Keys + {k}
    ensures r[k] == if k in m then m[k] else v
    ensures forall x :: x in m ==> r[x] == m[x]
  {
    if k in m then m else m[k := v]
  }

  /** Each table undoes the other on every entry. */
  ghost predicate Inverse<R, I>(refToId: map<R, I>, idToRef: map<I, R>) {
    && (forall r :: r in refToId ==> refToId[r] in idToRef && idToRef[refToId[r]] == r)
    && (forall i :: i in idToRef ==> idToRef[i] in refToId && refToId[idToRef[i]] == i)
  }

  /** Adding a pair whose reference and identifier are both new keeps the tables inverse. */
  lemma AddFreshKeepsInverse<R, I>(refToId: map<R, I>, idToRef: map<I, R>, r: R, i: I)
    requires Inverse(refToId, idToRef)
    requires r !in refToId && i !in idToRef
    ensures Inverse(Insert(refToId, r, i), Insert(idToRef, i, r))
  {
  }

  /** Inverse tables have as many entries as each other: each reference has its own identifier. */
  lemma {:induction false} InverseSameSize<R, I>(refToId: map<R, I>, idToRef: map<I, R>)
    ensures Inverse(refToId, idToRef) ==> |refToId| == |idToRef|
    decreases |refToId|
  {
    if Inverse(refToId, idToRef) {
      if refToId == map[] {
        assert forall i :: i !in idToRef;
        assert idToRef == map[];
      } else {
        var r :| r in refToId;
        var i := refToId[r];
        var rt, ir := refToId - {r}, idToRef - {i};
        forall x | x in rt ensures rt[x] in ir && ir[rt[x]] == x {
          assert refToId[x] != i;
        }
        assert Inverse(rt, ir);
        InverseSameSize(rt, ir);
        assert rt.Keys == refToId.Keys - {r};
        assert ir.Keys == idToRef.Keys - {i};
      }
    }
  }

  /** The tables after adding `pairs` in order, starting from `refToId` and `idToRef`. */
  function AddAll<R, I>(refToId: map<R, I>, idToRef: map<I, R>, pairs: seq<(R, I)>): (r: (map<R, I>, map<I, R>))
    decreases |pairs|
  {
    if pairs == [] then (refToId, idToRef)
    else AddAll(Insert(refToId, pairs[0].0, pairs[0].1), Insert(idToRef, pairs[0].1, pairs[0].0), pairs[1..])
  }

  /** No reference and no identifier occurs twice among `pairs`. */
  ghost predicate FreshPairs<R, I>(pairs: seq<(R, I)>) {
    forall a, b :: 0 <= a < b < |pairs| ==> pairs[a].0 != pairs[b].0 && pairs[a].1 != pairs[b].1
  }

  /**
   * Adding pairs that repeat no reference and no identifier, none of them
   * already in the tables, keeps the tables inverse, and every pair can be
   * looked up in both directions afterwards.
   */
  lemma {:induction false} AddAllFresh<R, I>(refToId: map<R, I>, idToRef: map<I, R>, pairs: seq<(R, I)>)
    requires Inverse(refToId, idToRef) && FreshPairs(pairs)
    requires forall a :: 0 <= a < |pairs| ==> pairs[a].0 !in refToId && pairs[a].1 !in idToRef
    ensures var (rt, ir) := AddAll(refToId, idToRef, pairs);
      && Inverse(rt, ir)
      && (forall a :: 0 <= a < |pairs| ==>
           pairs[a].0 in rt && rt[pairs[a].0] == pairs[a].1 && pairs[a].1 in ir && ir[pairs[a].1] == pairs[a].0)
    decreases |pairs|
  {
    if pairs != [] {
      var (r, i) := pairs[0];
      var rt1, ir1 := Insert(refToId, r, i), Insert(idToRef, i, r);
      AddFreshKeepsInverse(refToId, idToRef, r, i);
      var rest := pairs[1..];
      forall a | 0 <= a < |rest| ensures rest[a].0 !in rt1 && rest[a].1 !in ir1 {
        assert rest[a] == pairs[a + 1];
      }
      AddAllFresh(rt1, ir1, rest);
      var (rt, ir) := AddAll(refToId, idToRef, pairs);
      assert (rt, ir) == AddAll(rt1, ir1, rest);
      forall a | 0 <= a < |pairs|
        ensures pairs[a].0 in rt && rt[pairs[a].0] == pairs[a].1 && pairs[a].1 in ir && ir[pairs[a].1] == pairs[a].0
      {
        if a > 0 {
          assert pairs[a] == rest[a - 1];
        } else {
          AddAllKeeps(rt1, ir1, rest, r, i);
        }
      }
    }
  }

  /** Entries already in the tables survive any later additions. */
  lemma {:induction false} AddAllKeeps<R, I>(refToId: map<R, I>, idToRef: map<I, R>, pairs: seq<(R, I)>, r: R, i: I)
    requires r in refToId && i in idToRef
    ensures var (rt, ir) := AddAll(refToId, idToRef, pairs);
      r in rt && rt[r] == refToId[r] && i in ir && ir[i] == idToRef[i]
    decreases |pairs|
  {
    if pairs != [] {
      AddAllKeeps(Insert(refToId, pairs[0].0, pairs[0].1), Insert(idToRef, pairs[0].1, pairs[0].0), pairs[1..], r, i);
    }
  }

  class SerializationMap<R(==), I(==)> {
    /** True when the map asks `serialize`/`deserialize` instead of keeping tables. */
    var usingFunctions: bool
    /** Function mode: the identifier of a reference, if it has one. */
    var serialize: R -> Option<I>
    /** Function mode: the reference an identifier denotes, if any. */
    var deserialize: I -> Option<R>
    var refToId: map<R, I>
    var idToRef: map<I, R>

    /** An empty map in table mode. */
    constructor ()
      ensures !usingFunctions && refToId == map[] && idToRef == map[]
      ensures Size() == 0 && Inverse(refToId, idToRef)
    {
      usingFunctions := false;
      serialize := (r: R) => None;
      deserialize := (i: I) => None;
      refToId, idToRef := map[], map[];
    }

    /** A map in function mode: every query goes to the two lookups, and it holds no table entry. */
    constructor WithFunctions(serialize: R -> Option<I>, deserialize: I -> Option<R>)
      ensures usingFunctions && this.serialize == serialize && this.deserialize == deserialize
      ensures forall r :: HasRef(r) <==> serialize(r).Some?
      ensures forall i :: HasId(i) <==> deserialize(i).Some?
      ensures Size() == 0
    {
      usingFunctions := true;
      this.serialize := serialize;
      this.deserialize := deserialize;
      refToId, idToRef := map[], map[];
    }

    /**
     * Records a reference/identifier pair in table mode. A reference or
     * identifier already present keeps its first counterpart.
     */
    method Add(reference: R, id: I)
      requires !usingFunctions
      modifies this`refToId, this`idToRef
      ensures refToId == Insert(old(refToId), reference, id)
      ensures idToRef == Insert(old(idToRef), id, reference)
      ensures HasRef(reference) && HasId(id)
      ensures reference !in old(refToId) ==> GetId(reference) == id
      ensures id !in old(idToRef) ==> GetRef(id) == reference
      ensures reference !in old(refToId) && id !in old(idToRef) && old(Inverse(refToId, idToRef)) ==>
        Inverse(refToId, idToRef)
    {
      refToId := Insert(refToId, reference, id);
      idToRef := Insert(idToRef, id, reference);
      if reference !in old(refToId) && id !in old(idToRef) && old(Inverse(refToId, idToRef)) {
        AddFreshKeepsInverse(old(refToId), old(idToRef), reference, id);
      }
    }

    /** Whether `reference` is known; with inverse tables, whether some identifier leads back to it. */
    predicate HasRef(reference: R)
      reads this
      ensures !usingFunctions && Inverse(refToId, idToRef) ==>
        (HasRef(reference) <==> exists i :: i in idToRef && idToRef[i] == reference)
    {
      if usingFunctions then serialize(reference).Some? else reference in refToId
    }

    /** Whether `id` is known; with inverse tables, whether some reference leads to it. */
    predicate HasId(id: I)
      reads this
      ensures !usingFunctions && Inverse(refToId, idToRef) ==>
        (HasId(id) <==> exists r :: r in refToId && refToId[r] == id)
    {
      if usingFunctions then deserialize(id).Some? else id in idToRef
    }

    /**
     * The reference of `id`; the identifier must be known. In function mode it
     * is what `deserialize` yields; with inverse tables the reference leads
     * back to `id`.
     */
    function GetRef(id: I): (r: R)
      reads this
      requires HasId(id)
      ensures usingFunctions ==> deserialize(id) == Some(r)
      ensures !usingFunctions && Inverse(refToId, idToRef) ==> r in refToId && refToId[r] == id
    {
      if usingFunctions then deserialize(id).value else idToRef[id]
    }

    /**
     * The identifier of `reference`; the reference must be known. In function
     * mode it is what `serialize` yields; with inverse tables the identifier
     * leads back to `reference`.
     */
    function GetId(reference: R): (i: I)
      reads this
      requires HasRef(reference)
      ensures usingFunctions ==> serialize(reference) == Some(i)
      ensures !usingFunctions && Inverse(refToId, idToRef) ==> i in idToRef && idToRef[i] == reference
    {
      if usingFunctions then serialize(reference).value else refToId[reference]
    }

    /** Empties both tables and returns to table mode, dropping the functions' use. */
    method Clear()
      modifies this`usingFunctions, this`refToId, this`idToRef
      ensures !usingFunctions && refToId == map[] && idToRef == map[]
      ensures Size() == 0
      ensures forall r :: !HasRef(r)
      ensures forall i :: !HasId(i)
    {
      usingFunctions := false;
      refToId := map[];
      idToRef := map[];
    }

    /** Number of entries of the reference-to-identifier table; with inverse tables, of either table. */
    function Size(): (n: nat)
      reads this
      ensures Inverse(refToId, idToRef) ==> n == |idToRef|
    {
      InverseSameSize(refToId, idToRef);
      |refToId|
    }
  }

  /**
   * Adding a second reference with an identifier already used: the
   * identifier still leads back to the first reference, but the second
   * reference now leads to the identifier, so the tables stop being inverse.
   */
  method RepeatedIdScenario<R(==), I(==)>(r1: R, r2: R, i1: I)
    returns (refOfId: R, idOfSecond: I, size: nat)
    requires r1 != r2
    ensures refOfId == r1 && idOfSecond == i1 && size == 2
  {
    var m := new SerializationMap<R, I>();
    m.Add(r1, i1);
    m.Add(r2, i1);
    refOfId := m.GetRef(i1);
    idOfSecond := m.GetId(r2);
    size := m.Size();
  }

  /** A map that was in function mode forgets its functions on `Clear` and then answers from empty tables. */
  method ClearDropsFunctionsScenario<R(==), I(==)>(r: R, i: I)
    returns (hadRef: bool, hasRefAfter: bool, hasIdAfter: bool)
    ensures hadRef && !hasRefAfter && !hasIdAfter
  {
    var m := new SerializationMap<R, I>.WithFunctions((x: R) => Some(i), (y: I) => Some(r));
    hadRef := m.HasRef(r);
    m.Clear();
    hasRefAfter := m.HasRef(r);
    hasIdAfter := m.HasId(i);
  }
}
