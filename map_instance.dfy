/**
 * The concrete map-like value a dictionary trait is bound to, seen
 * abstractly: its entries and the order in which a cursor visits them. The
 * mandatory capabilities (length, begin, find, advance, key, value) are the
 * functions of this module; a cursor is a position in the order.
 */
module MapInstance {
  import opened Wrappers

  datatype Dict<K, V> = Dict(entries: map<K, V>, order: seq<K>) {
    /** Every key of the map appears exactly once in the iteration order. */
    ghost predicate Valid() {
      && (forall i, j :: 0 <= i < j < |order| ==> order[i] != order[j])
      && (forall i :: 0 <= i < |order| ==> order[i] in entries)
      && (forall k :: k in entries ==> k in order)
    }
  }

  /** Position of the first occurrence of `k` in `s`, if any. */
  function IndexOf<K(==)>(s: seq<K>, k: K): (r: Option<nat>)
    ensures r.Some? <==> k in s
    ensures r.Some? ==> r.value < |s| && s[r.value] == k
    ensures r.Some? ==> forall j :: 0 <= j < r.value ==> s[j] != k
  {
    if s == [] then None
    else if s[0] == k then Some(0)
    else match IndexOf(s[1..], k)
      case None => None
      case Some(i) => Some(i + 1)
  }

  /** In a sequence without repetitions, looking up the key at `p` gives back `p`. */
  lemma {:induction false} IndexOfDistinct<K>(s: seq<K>, p: nat)
    requires forall i, j :: 0 <= i < j < |s| ==> s[i] != s[j]
    requires p < |s|
    ensures IndexOf(s, s[p]) == Some(p)
  {
  }

  /** The elements of a sequence as a set. */
  function Elements<K>(s: seq<K>): (r: set<K>) {
    set k | k in s
  }

  /** A sequence without repetitions has as many elements as it is long. */
  lemma {:induction false} DistinctElementsCount<K>(s: seq<K>)
    requires forall i, j :: 0 <= i < j < |s| ==> s[i] != s[j]
    ensures |Elements(s)| == |s|
  {
    if s != [] {
      DistinctElementsCount(s[1..]);
      assert Elements(s) == {s[0]} + Elements(s[1..]);
      assert s[0] !in Elements(s[1..]);
    }
  }

  /** The number of entries. */
  function Length<K, V>(d: Dict<K, V>): (n: nat) {
    |d.entries|
  }

  /** In a valid dictionary the number of entries is the number of positions a cursor visits. */
  lemma LengthIsPositions<K, V>(d: Dict<K, V>)
    ensures d.Valid() ==> Length(d) == |d.order|
  {
    if d.Valid() {
      DistinctElementsCount(d.order);
      assert d.entries.Keys == Elements(d.order);
    }
  }

  /** Where `begin` places a new cursor: the first position, or none when empty. */
  function BeginPos<K, V>(d: Dict<K, V>): (r: Option<nat>) {
    if |d.order| == 0 then None else Some(0)
  }

  /** Where `find` places a new cursor: the position of `k`, or none when absent. */
  function FindPos<K(==), V>(d: Dict<K, V>, k: K): (r: Option<nat>)
    ensures d.Valid() ==> (r.Some? <==> k in d.entries)
    ensures r.Some? ==> r.value < |d.order| && d.order[r.value] == k
  {
    IndexOf(d.order, k)
  }

  /** What `advance` does to a cursor at `p`: the next position, or none past the last. */
  function AdvancePos<K, V>(d: Dict<K, V>, p: nat): (r: Option<nat>) {
    if p + 1 < |d.order| then Some(p + 1) else None
  }

  /** The keys a cursor at `p` visits, advancing until `advance` reports the end. */
  function Walk<K, V>(d: Dict<K, V>, p: nat): (r: seq<K>)
    requires p < |d.order|
    decreases |d.order| - p
  {
    [d.order[p]] + match AdvancePos(d, p)
      case None => []
      case Some(q) => Walk(d, q)
  }

  lemma {:induction false} WalkIsSuffix<K, V>(d: Dict<K, V>, p: nat)
    requires p < |d.order|
    ensures Walk(d, p) == d.order[p..]
    decreases |d.order| - p
  {
    if p + 1 < |d.order| {
      WalkIsSuffix(d, p + 1);
      assert d.order[p..] == [d.order[p]] + d.order[p + 1..];
    } else {
      assert d.order[p..] == [d.order[p]];
    }
  }

  /**
   * Iterating from `begin` by repeated `advance` visits every key exactly
   * once, `Length(d)` keys in all; an empty dictionary gives a null cursor.
   */
  lemma IterationVisitsAll<K, V>(d: Dict<K, V>)
    requires d.Valid()
    ensures BeginPos(d).None? <==> Length(d) == 0
    ensures BeginPos(d).Some? ==>
      Walk(d, BeginPos(d).value) == d.order && |Walk(d, BeginPos(d).value)| == Length(d)
  {
    LengthIsPositions(d);
    if |d.order| > 0 {
      WalkIsSuffix(d, 0);
    }
  }

  // A representative binding of the optional capabilities, for a dictionary
  // that inserts or assigns and erases the entry under a cursor.

  /** Insert-or-assign: an absent key is appended to the iteration order. */
  function Put<K, V>(d: Dict<K, V>, k: K, v: V): (r: Dict<K, V>)
    ensures r.entries == d.entries[k := v]
    ensures d.Valid() ==> r.Valid()
  {
    if k in d.entries then d.(entries := d.entries[k := v])
    else Dict(d.entries[k := v], d.order + [k])
  }

  /** Removes the entry a cursor at `p` designates; any other position changes nothing. */
  function EraseAt<K, V>(d: Dict<K, V>, p: nat): (r: Dict<K, V>)
    ensures p >= |d.order| ==> r == d
  {
    if p < |d.order| then Dict(d.entries - {d.order[p]}, d.order[..p] + d.order[p + 1..]) else d
  }

  /** Erasing under a cursor keeps the dictionary valid and drops exactly that cursor's key. */
  lemma EraseAtValid<K, V>(d: Dict<K, V>, p: nat)
    requires d.Valid() && p < |d.order|
    ensures EraseAt(d, p).Valid()
    ensures EraseAt(d, p).entries == d.entries - {d.order[p]}
    ensures EraseAt(d, p).order == d.order[..p] + d.order[p + 1..]
  {
    var k := d.order[p];
    var r := EraseAt(d, p);
    assert |r.order| == |d.order| - 1;
    assert forall i :: 0 <= i < |r.order| ==> r.order[i] == d.order[if i < p then i else i + 1];
    forall x | x in r.entries ensures x in r.order {
      var i :| 0 <= i < |d.order| && d.order[i] == x;
      if i < p { assert r.order[i] == x; } else { assert r.order[i - 1] == x; }
    }
  }

  /** After inserting `k` with value `v`, finding `k` gives a position whose entry is `v`. */
  lemma PutThenFind<K, V>(d: Dict<K, V>, k: K, v: V)
    requires d.Valid()
    ensures FindPos(Put(d, k, v), k).Some?
    ensures Put(d, k, v).entries[Put(d, k, v).order[FindPos(Put(d, k, v), k).value]] == v
  {
  }

  /** After erasing the entry under a cursor, finding its key gives no position. */
  lemma EraseThenFind<K, V>(d: Dict<K, V>, p: nat)
    requires d.Valid() && p < |d.order|
    ensures FindPos(EraseAt(d, p), d.order[p]).None?
  {
    EraseAtValid(d, p);
  }
}
