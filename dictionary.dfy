/**
 * The reflection dictionary trait: a table of capabilities through which
 * generic code walks and edits any map-like type without knowing it. The
 * seven mandatory capabilities belong to the concrete type and are the
 * functions of MapInstance; the four optional ones (insert-default,
 * insert-copy, insert-move, erase) are bound at most once each.
 *
 * Iterators own an opaque cursor handle that the bound `begin`/`find`
 * allocate and the bound `stop` releases. The trait keeps, as ghost state,
 * the handles that are live and the mutability each was opened with, so
 * that releasing a handle twice, or with the other mutability, is a
 * precondition violation.
 */
module Reflection {
  import opened Wrappers
  import opened MapInstance

  /** A cursor handle: the address the bound `begin`/`find` allocated and the position it designates. */
  datatype Handle = Handle(addr: nat, pos: nat)

  /** Optional capabilities, as the functions a concrete type binds. */
  type InsertDefaultFn<!K(==), !V> = (Dict<K, V>, K) -> Dict<K, V>
  type InsertFn<!K(==), !V> = (Dict<K, V>, K, V) -> Dict<K, V>
  type EraseFn<!K(==), !V> = (Dict<K, V>, nat) -> Dict<K, V>

  /** A bound insert-default operation turns a valid dictionary into a valid dictionary. */
  ghost predicate InsertDefaultKeepsValid<K(!new), V(!new)>(f: InsertDefaultFn<K, V>) {
    forall d: Dict<K, V>, k: K :: d.Valid() ==> f(d, k).Valid()
  }

  ghost predicate InsertKeepsValid<K(!new), V(!new)>(f: InsertFn<K, V>) {
    forall d: Dict<K, V>, k: K, v: V :: d.Valid() ==> f(d, k, v).Valid()
  }

  /** A bound erase operation, given a position of a cursor, keeps the dictionary valid. */
  ghost predicate EraseKeepsValid<K(!new), V(!new)>(f: EraseFn<K, V>) {
    forall d: Dict<K, V>, p: nat :: d.Valid() && p < |d.order| ==> f(d, p).Valid()
  }

  /** The value an untyped instance pointer designates. */
  class Instance<K(==), V> {
    var dict: Dict<K, V>

    constructor (dict: Dict<K, V>)
      ensures this.dict == dict
    {
      this.dict := dict;
    }
  }

  class DictionaryTrait<K(==,!new), V(!new)> {
    var insertDefault: Option<InsertDefaultFn<K, V>>
    var insertCopy: Option<InsertFn<K, V>>
    var insertMove: Option<InsertFn<K, V>>
    var erase: Option<EraseFn<K, V>>

    /** The next address the bound `begin`/`find` hand out; addresses are never reused. */
    var nextAddr: nat
    /** Handles started and not yet stopped, each with the mutability it was opened with. */
    ghost var live: map<nat, bool>

    ghost predicate Valid()
      reads this
    {
      && (forall a :: a in live ==> a < nextAddr)
      && (insertDefault.Some? ==> InsertDefaultKeepsValid(insertDefault.value))
      && (insertCopy.Some? ==> InsertKeepsValid(insertCopy.value))
      && (insertMove.Some? ==> InsertKeepsValid(insertMove.value))
      && (erase.Some? ==> EraseKeepsValid(erase.value))
    }

    /** A new trait has none of the optional capabilities. */
    constructor ()
      ensures Valid() && live == map[]
      ensures !HasInsertDefault() && !HasInsertCopy() && !HasInsertMove() && !HasErase()
    {
      insertDefault, insertCopy, insertMove, erase := None, None, None, None;
      nextAddr := 0;
      live := map[];
    }

    method SetInsertDefault(f: InsertDefaultFn<K, V>)
      requires Valid() && InsertDefaultKeepsValid(f)
      requires !HasInsertDefault()
      modifies this`insertDefault
      ensures Valid() && insertDefault == Some(f)
    {
      insertDefault := Some(f);
    }

    method SetInsertCopy(f: InsertFn<K, V>)
      requires Valid() && InsertKeepsValid(f)
      requires !HasInsertCopy()
      modifies this`insertCopy
      ensures Valid() && insertCopy == Some(f)
    {
      insertCopy := Some(f);
    }

    method SetInsertMove(f: InsertFn<K, V>)
      requires Valid() && InsertKeepsValid(f)
      requires !HasInsertMove()
      modifies this`insertMove
      ensures Valid() && insertMove == Some(f)
    {
      insertMove := Some(f);
    }

    method SetErase(f: EraseFn<K, V>)
      requires Valid() && EraseKeepsValid(f)
      requires !HasErase()
      modifies this`erase
      ensures Valid() && erase == Some(f)
    {
      erase := Some(f);
    }

    /** Whether insert-default is bound; the other three queries are alike. */
    predicate HasInsertDefault()
      reads this
    {
      insertDefault.Some?
    }

    predicate HasInsertCopy()
      reads this
    {
      insertCopy.Some?
    }

    predicate HasInsertMove()
      reads this
    {
      insertMove.Some?
    }

    predicate HasErase()
      reads this
    {
      erase.Some?
    }

    /** The bound `length`: on a valid instance, the number of positions a cursor visits. */
    function Length(instance: Instance<K, V>): (n: nat)
      reads instance
      ensures instance.dict.Valid() ==> n == |instance.dict.order|
    {
      LengthIsPositions(instance.dict);
      MapInstance.Length(instance.dict)
    }

    /** Allocates a handle at `pos` when there is one: what the bound `begin` and `find` do. */
    method Open(pos: Option<nat>, writeable: bool) returns (h: Option<Handle>)
      requires Valid()
      modifies this`nextAddr, this`live
      ensures Valid()
      ensures pos.None? ==> h.None? && nextAddr == old(nextAddr) && live == old(live)
      ensures pos.Some? ==>
        && h == Some(Handle(old(nextAddr), pos.value))
        && old(nextAddr) !in old(live)
        && nextAddr == old(nextAddr) + 1
        && live == old(live)[old(nextAddr) := writeable]
    {
      if pos.None? {
        h := None;
      } else {
        h := Some(Handle(nextAddr, pos.value));
        live := live[nextAddr := writeable];
        nextAddr := nextAddr + 1;
      }
    }

    /** The bound `stop`: releases a live handle, with the mutability it was opened with. */
    method Stop(h: Handle, writeable: bool)
      requires Valid()
      requires h.addr in live && live[h.addr] == writeable
      modifies this`live
      ensures Valid() && live == old(live) - {h.addr}
    {
      live := live - {h.addr};
    }

    /** An iterator at the first entry, or a null iterator on an empty instance. */
    method Begin(instance: Instance<K, V>, writeable: bool) returns (it: Iterator<K, V>)
      requires Valid() && instance.dict.Valid()
      modifies this`nextAddr, this`live
      ensures fresh(it) && it.Valid()
      ensures it.instance == instance && it.owner == this && it.writeable == writeable
      ensures it.IsNull() <==> Length(instance) == 0
      ensures !it.IsNull() ==> it.Key() == instance.dict.order[0]
      ensures it.inner == (if |instance.dict.order| == 0 then None else Some(Handle(old(nextAddr), 0)))
      ensures live == if it.IsNull() then old(live) else old(live)[old(nextAddr) := writeable]
      ensures nextAddr >= old(nextAddr)
    {
      LengthIsPositions(instance.dict);
      var h := Open(BeginPos(instance.dict), writeable);
      it := new Iterator(h, instance, this, writeable);
    }

    /** An iterator at `key`, or a null iterator when the instance has no such key. */
    method Find(instance: Instance<K, V>, key: K, writeable: bool) returns (it: Iterator<K, V>)
      requires Valid() && instance.dict.Valid()
      modifies this`nextAddr, this`live
      ensures fresh(it) && it.Valid()
      ensures it.instance == instance && it.owner == this && it.writeable == writeable
      ensures it.IsNull() <==> key !in instance.dict.entries
      ensures !it.IsNull() ==> it.Key() == key
      ensures it.inner == match FindPos(instance.dict, key)
        case None => None
        case Some(p) => Some(Handle(old(nextAddr), p))
      ensures live == if it.IsNull() then old(live) else old(live)[old(nextAddr) := writeable]
      ensures nextAddr >= old(nextAddr)
    {
      var h := Open(FindPos(instance.dict, key), writeable);
      it := new Iterator(h, instance, this, writeable);
    }

    /** Inserts `key` with a default value when the capability is bound; otherwise reports false. */
    method InsertDefault(instance: Instance<K, V>, key: K) returns (ok: bool)
      requires Valid() && instance.dict.Valid()
      modifies instance
      ensures ok == HasInsertDefault()
      ensures instance.dict == if ok then insertDefault.value(old(instance.dict), key) else old(instance.dict)
      ensures instance.dict.Valid()
    {
      if insertDefault.Some? {
        instance.dict := insertDefault.value(instance.dict, key);
        ok := true;
      } else {
        ok := false;
      }
    }

    /** Inserts a copy of `value` under `key` when the capability is bound; otherwise reports false. */
    method InsertCopy(instance: Instance<K, V>, key: K, value: V) returns (ok: bool)
      requires Valid() && instance.dict.Valid()
      modifies instance
      ensures ok == HasInsertCopy()
      ensures instance.dict == if ok then insertCopy.value(old(instance.dict), key, value) else old(instance.dict)
      ensures instance.dict.Valid()
    {
      if insertCopy.Some? {
        instance.dict := insertCopy.value(instance.dict, key, value);
        ok := true;
      } else {
        ok := false;
      }
    }

    /** Moves `value` in under `key` when the capability is bound; otherwise reports false. */
    method InsertMove(instance: Instance<K, V>, key: K, value: V) returns (ok: bool)
      requires Valid() && instance.dict.Valid()
      modifies instance
      ensures ok == HasInsertMove()
      ensures instance.dict == if ok then insertMove.value(old(instance.dict), key, value) else old(instance.dict)
      ensures instance.dict.Valid()
    {
      if insertMove.Some? {
        instance.dict := insertMove.value(instance.dict, key, value);
        ok := true;
      } else {
        ok := false;
      }
    }

    /**
     * Erases the entry under a non-null iterator when the capability is bound,
     * then stops its handle and leaves it null; otherwise reports false and
     * touches nothing.
     */
    method Erase(instance: Instance<K, V>, it: Iterator<K, V>) returns (ok: bool)
      requires Valid() && it.Valid() && it.owner == this && it.instance == instance
      requires !it.IsNull()
      modifies instance, it`inner, this`live
      ensures ok == HasErase()
      ensures ok ==>
        && instance.dict == erase.value(old(instance.dict), old(it.inner).value.pos)
        && it.inner == None
        && live == old(live) - {old(it.inner).value.addr}
      ensures !ok ==> instance.dict == old(instance.dict) && it.inner == old(it.inner) && live == old(live)
      ensures Valid() && instance.dict.Valid()
    {
      if erase.Some? {
        var h := it.inner.value;
        instance.dict := erase.value(instance.dict, h.pos);
        Stop(h, it.writeable);
        it.inner := None;
        ok := true;
      } else {
        ok := false;
      }
    }
  }

  /**
   * An iterator over one instance, with a fixed mutability: the mutable and
   * the const iterator of the trait differ only in this flag, which every
   * bound call receives.
   */
  class Iterator<K(==,!new), V(!new)> {
    /** The owned handle; None is the null iterator. */
    var inner: Option<Handle>
    const instance: Instance<K, V>
    const owner: DictionaryTrait<K, V>
    const writeable: bool

    /** A non-null iterator owns a live handle, opened with its own mutability, at a position of its instance. */
    ghost predicate Valid()
      reads this, instance, owner
    {
      && owner.Valid()
      && instance.dict.Valid()
      && (inner.Some? ==>
        && inner.value.addr in owner.live
        && owner.live[inner.value.addr] == writeable
        && inner.value.pos < |instance.dict.order|)
    }

    /** Wraps a handle the trait has just opened. */
    constructor (inner: Option<Handle>, instance: Instance<K, V>, owner: DictionaryTrait<K, V>, writeable: bool)
      ensures this.inner == inner && this.instance == instance
      ensures this.owner == owner && this.writeable == writeable
    {
      this.inner := inner;
      this.instance := instance;
      this.owner := owner;
      this.writeable := writeable;
    }

    /**
     * Copying re-finds the other iterator's key on the same instance with the
     * same mutability, so the copy owns a handle of its own.
     */
    constructor Copy(other: Iterator<K, V>)
      requires other.Valid()
      modifies other.owner`nextAddr, other.owner`live
      ensures instance == other.instance && owner == other.owner && writeable == other.writeable
      ensures other.inner.None? ==> inner.None? && other.owner.live == old(other.owner.live)
      ensures other.inner.Some? ==>
        && inner.Some?
        && inner.value.pos == other.inner.value.pos
        && inner.value.addr !in old(other.owner.live)
        && other.owner.live == old(other.owner.live)[inner.value.addr := writeable]
      ensures other.owner.nextAddr >= old(other.owner.nextAddr)
      ensures Valid() && other.Valid()
    {
      instance := other.instance;
      owner := other.owner;
      writeable := other.writeable;
      var h: Option<Handle> := None;
      if other.inner.Some? {
        IndexOfDistinct(other.instance.dict.order, other.inner.value.pos);
        h := other.owner.Open(FindPos(other.instance.dict, other.Key()), other.writeable);
      }
      inner := h;
    }

    /** Moving transfers the handle and leaves the source null. */
    constructor Move(other: Iterator<K, V>)
      requires other.Valid()
      modifies other`inner
      ensures instance == other.instance && owner == other.owner && writeable == other.writeable
      ensures inner == old(other.inner) && other.inner.None?
      ensures Valid() && other.Valid()
    {
      instance := other.instance;
      owner := other.owner;
      writeable := other.writeable;
      inner := other.inner;
      new;
      other.inner := None;
    }

    /** The destructor: stops the handle if, and only if, the iterator still owns one. */
    method Dispose()
      requires Valid()
      modifies this`inner, owner`live
      ensures inner.None?
      ensures owner.live == if old(inner).Some? then old(owner.live) - {old(inner).value.addr} else old(owner.live)
      ensures Valid()
    {
      if inner.Some? {
        owner.Stop(inner.value, writeable);
        inner := None;
      }
    }

    predicate IsNull()
      reads this
    {
      inner.None?
    }

    /** The key under the cursor: one of the instance's keys. */
    function Key(): (k: K)
      reads this, instance, owner
      requires Valid() && !IsNull()
      ensures k in instance.dict.entries
    {
      instance.dict.order[inner.value.pos]
    }

    /** The value under the cursor: the entry of its key. */
    function Value(): (v: V)
      reads this, instance, owner
      requires Valid() && !IsNull()
      ensures v == instance.dict.entries[Key()]
    {
      instance.dict.entries[instance.dict.order[inner.value.pos]]
    }

    /**
     * Moves to the next entry and reports true, or, past the last entry,
     * stops the handle, leaves the iterator null and reports false.
     */
    method Advance() returns (more: bool)
      requires Valid() && !IsNull()
      modifies this`inner, owner`live
      ensures Valid()
      ensures more <==> old(inner).value.pos + 1 < |instance.dict.order|
      ensures more ==> inner == Some(old(inner).value.(pos := old(inner).value.pos + 1)) && owner.live == old(owner.live)
      ensures !more ==> inner.None? && owner.live == old(owner.live) - {old(inner).value.addr}
    {
      var h := inner.value;
      match AdvancePos(instance.dict, h.pos)
      case Some(p) =>
        inner := Some(h.(pos := p));
        more := true;
      case None =>
        owner.Stop(h, writeable);
        inner := None;
        more := false;
    }
  }

  /**
   * Walks an instance from `begin` with `advance` until the iterator turns
   * null: it sees every key once, in order, `Length` keys in all, and every
   * handle it opened has been stopped.
   */
  method CollectKeys<K(==,!new), V(!new)>(dictTrait: DictionaryTrait<K, V>, instance: Instance<K, V>, writeable: bool)
    returns (keys: seq<K>)
    requires dictTrait.Valid() && instance.dict.Valid()
    modifies dictTrait`nextAddr, dictTrait`live
    ensures keys == instance.dict.order && |keys| == dictTrait.Length(instance)
    ensures dictTrait.Valid() && dictTrait.live == old(dictTrait.live)
  {
    LengthIsPositions(instance.dict);
    var it := dictTrait.Begin(instance, writeable);
    ghost var addr := old(dictTrait.nextAddr);
    keys := [];
    while !it.IsNull()
      invariant it.Valid() && it.owner == dictTrait && it.instance == instance && it.writeable == writeable
      invariant |keys| <= |instance.dict.order|
      invariant it.IsNull() ==> keys == instance.dict.order && dictTrait.live == old(dictTrait.live)
      invariant !it.IsNull() ==>
        && it.inner.value.addr == addr && it.inner.value.pos == |keys|
        && keys == instance.dict.order[..|keys|]
        && addr !in old(dictTrait.live)
        && dictTrait.live == old(dictTrait.live)[addr := writeable]
      decreases |instance.dict.order| - |keys|, if it.IsNull() then 0 else 1
    {
      keys := keys + [it.Key()];
      var more := it.Advance();
      if !more {
        assert keys == instance.dict.order;
        assert dictTrait.live == old(dictTrait.live);
      }
    }
  }

  /** Copies a non-null iterator that is not at the last entry and advances the copy. */
  method AdvanceCopy<K(==,!new), V(!new)>(it: Iterator<K, V>) returns (copy: Iterator<K, V>)
    requires it.Valid() && !it.IsNull() && it.inner.value.pos + 1 < |it.instance.dict.order|
    modifies it.owner`nextAddr, it.owner`live
    ensures fresh(copy) && copy.Valid() && it.Valid()
    ensures copy.instance == it.instance && copy.owner == it.owner && copy.writeable == it.writeable
    ensures copy.inner.Some? && copy.inner.value.pos == it.inner.value.pos + 1
    ensures copy.inner.value.addr !in old(it.owner.live)
    ensures it.owner.live == old(it.owner.live)[copy.inner.value.addr := it.writeable]
  {
    copy := new Iterator.Copy(it);
    var more := copy.Advance();
  }

  /**
   * A copy of an iterator is positioned at the same key but owns its own
   * handle: advancing the copy leaves the original where it was, and
   * destroying both stops each handle once.
   */
  method CopyIsIndependent<K(==,!new), V(!new)>(dictTrait: DictionaryTrait<K, V>, instance: Instance<K, V>, writeable: bool)
    returns (original: K, copied: K)
    requires dictTrait.Valid() && instance.dict.Valid() && |instance.dict.order| >= 2
    modifies dictTrait`nextAddr, dictTrait`live
    ensures original == instance.dict.order[0] && copied == instance.dict.order[1]
    ensures dictTrait.Valid() && dictTrait.live == old(dictTrait.live)
  {
    var it := dictTrait.Begin(instance, writeable);
    var copy := AdvanceCopy(it);
    copied := copy.Key();
    original := it.Key();
    copy.Dispose();
    it.Dispose();
  }

  /** A trait bound to the insert-or-assign and erase-under-cursor operations of MapInstance. */
  method PutEraseTrait<K(==,!new), V(!new)>() returns (dictTrait: DictionaryTrait<K, V>)
    ensures fresh(dictTrait) && dictTrait.Valid() && dictTrait.live == map[]
    ensures !dictTrait.HasInsertDefault() && !dictTrait.HasInsertMove()
    ensures dictTrait.HasInsertCopy() && dictTrait.HasErase()
    ensures forall d: Dict<K, V>, k: K, v: V :: dictTrait.insertCopy.value(d, k, v) == Put(d, k, v)
    ensures forall d: Dict<K, V>, p: nat :: dictTrait.erase.value(d, p) == EraseAt(d, p)
  {
    dictTrait := new DictionaryTrait<K, V>();
    var put: InsertFn<K, V> := (d: Dict<K, V>, k: K, v: V) => Put(d, k, v);
    var eraseAt: EraseFn<K, V> := (d: Dict<K, V>, p: nat) => EraseAt(d, p);
    assert InsertKeepsValid(put);
    forall d: Dict<K, V>, p: nat | d.Valid() && p < |d.order| ensures eraseAt(d, p).Valid() {
      EraseAtValid(d, p);
    }
    dictTrait.SetInsertCopy(put);
    dictTrait.SetErase(eraseAt);
  }

  /**
   * With a binding that inserts or assigns and erases under a cursor:
   * inserting `key` and finding it gives a non-null iterator whose value is
   * the one inserted; erasing through that iterator nulls it, and a later
   * find of `key` gives a null iterator.
   */
  method InsertFindErase<K(==,!new), V(!new)>(dict: Dict<K, V>, key: K, value: V)
    returns (found: bool, foundValue: V, erased: bool, nulled: bool, foundAfterErase: bool)
    requires dict.Valid()
    ensures found && foundValue == value && erased && nulled && !foundAfterErase
  {
    var dictTrait := PutEraseTrait<K, V>();
    var instance := new Instance(dict);
    var inserted := dictTrait.InsertCopy(instance, key, value);
    assert instance.dict == Put(dict, key, value);
    var it := dictTrait.Find(instance, key, true);
    found := !it.IsNull();
    foundValue := it.Value();
    ghost var before := instance.dict;
    ghost var pos := it.inner.value.pos;
    assert before.order[pos] == key;
    erased := dictTrait.Erase(instance, it);
    nulled := it.IsNull();
    assert instance.dict == EraseAt(before, pos);
    EraseThenFind(before, pos);
    var again := dictTrait.Find(instance, key, false);
    foundAfterErase := !again.IsNull();
  }

  /**
   * Without the optional capabilities, inserting and erasing report false
   * and change neither the instance nor the iterator.
   */
  method WithoutCapabilities<K(==,!new), V(!new)>(dict: Dict<K, V>, key: K, value: V)
    returns (inserted: bool, erased: bool, stillAt: bool, after: Dict<K, V>)
    requires dict.Valid() && |dict.order| > 0
    ensures !inserted && !erased && stillAt && after == dict
  {
    var dictTrait := new DictionaryTrait<K, V>();
    var instance := new Instance(dict);
    var a := dictTrait.InsertDefault(instance, key);
    var b := dictTrait.InsertCopy(instance, key, value);
    var c := dictTrait.InsertMove(instance, key, value);
    inserted := a || b || c;
    var it := dictTrait.Begin(instance, true);
    var k := it.Key();
    erased := dictTrait.Erase(instance, it);
    stillAt := !it.IsNull() && it.Key() == k;
    it.Dispose();
    after := instance.dict;
  }
}
