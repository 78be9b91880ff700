/**
 * StringMap<T>: an ordered map from byte-string keys to values of type T
 * whose keys are interned. The backing store is an ordered map from
 * StaticString views to Entry nodes; each Entry owns a copy of its key, and
 * both the map's node key and the pair exposed through iterators are views
 * into that copy, never into the caller's bytes.
 *
 * The backing ordered map is modelled by `store`, the sequence of its nodes
 * in key order; lookup, insertion and erasure find their place in it by
 * binary search, the counterpart of the tree descent of `std::map`.
 */
module StringMaps {
  import opened ByteOrder
  import opened OrderedEntries

  /** The `unsigned int` that `size()` returns. */
  newtype uint32 = x: int | 0 <= x < 0x1_0000_0000

  /** The storage a StaticString view points into: bytes the map does not own, or the key string of an entry. */
  datatype Storage = Foreign | KeyOf(owner: object)

  /** A StaticString: a non-owning view, given by the bytes it shows and the storage those bytes live in. */
  datatype StaticString = View(content: Bytes, storage: Storage)

  /** The payload of one node of the backing map. */
  class Entry<T> {
    /** The entry's own copy of the key (`Entry::key`). */
    var key: Bytes
    /** `thePair.first`: the key view handed out by iterators. */
    var pairKey: StaticString
    /** `thePair.second`: the stored value. */
    var value: T

    /** `Entry()`: an empty key, an empty key view and a default value. */
    constructor (initial: T)
      ensures key == [] && pairKey == View([], Foreign) && value == initial
    {
      key := [];
      pairKey := View([], Foreign);
      value := initial;
    }

    /** Copy `content` in as the entry's own key, point the pair's key view at that copy and store `v`. */
    method Intern(content: Bytes, v: T)
      modifies this
      ensures key == content && pairKey == View(content, KeyOf(this)) && value == v
    {
      key := content;
      pairKey := View(key, KeyOf(this));
      value := v;
    }
  }

  /** A node of the backing map: the map's key view and the entry it maps to. */
  datatype Slot<T> = Slot(mapKey: StaticString, entry: Entry<T>)

  /** Both views of a node point into the node's own key copy and show exactly its bytes. */
  predicate Interned<T>(s: Slot<T>)
    reads s.entry
  {
    s.mapKey == View(s.entry.key, KeyOf(s.entry)) && s.entry.pairKey == s.mapKey
  }

  /** The node sequence is in strictly ascending order of the map's key views. */
  predicate SlotsAscending<T>(store: seq<Slot<T>>)
  {
    forall i, j :: 0 <= i < j < |store| ==> Less(store[i].mapKey.content, store[j].mapKey.content)
  }

  /**
   * The position where the backing map's search for `key` ends: every node
   * before it has a smaller key, no node from it on has.
   */
  method LowerBound<T>(store: seq<Slot<T>>, key: Bytes) returns (i: nat)
    requires SlotsAscending(store)
    ensures i <= |store|
    ensures forall j :: 0 <= j < i ==> Less(store[j].mapKey.content, key)
    ensures forall j :: i <= j < |store| ==> !Less(store[j].mapKey.content, key)
  {
    var lo, hi := 0, |store|;
    while lo < hi
      invariant 0 <= lo <= hi <= |store|
      invariant forall j :: 0 <= j < lo ==> Less(store[j].mapKey.content, key)
      invariant forall j :: hi <= j < |store| ==> !Less(store[j].mapKey.content, key)
    {
      var mid := (lo + hi) / 2;
      if Less(store[mid].mapKey.content, key) {
        forall j | 0 <= j < mid ensures Less(store[j].mapKey.content, key) {
          LessTransitive(store[j].mapKey.content, store[mid].mapKey.content, key);
        }
        lo := mid + 1;
      } else {
        forall j | mid < j < |store| ensures !Less(store[j].mapKey.content, key) {
          if Less(store[j].mapKey.content, key) {
            LessTransitive(store[mid].mapKey.content, store[j].mapKey.content, key);
          }
        }
        hi := mid;
      }
    }
    i := lo;
  }

  /** The index of the node holding entry `e`. */
  function IndexOf<T>(store: seq<Slot<T>>, e: Entry<T>): (j: nat)
    requires exists j :: 0 <= j < |store| && store[j].entry == e
    ensures j < |store| && store[j].entry == e
    ensures forall i :: 0 <= i < j ==> store[i].entry != e
  {
    if store[0].entry == e then 0
    else
      assert exists j :: 0 <= j < |store[1..]| && store[1..][j].entry == e by {
        var j :| 0 <= j < |store| && store[j].entry == e;
        assert store[1..][j - 1] == store[j];
      }
      1 + IndexOf(store[1..], e)
  }

  /** The entry objects of a node sequence. */
  ghost function EntriesOf<T>(st: seq<Slot<T>>): set<Entry<T>>
  {
    set i | 0 <= i < |st| :: st[i].entry
  }

  /**
   * The part of a StringMap's invariant that lives in its entries, over its
   * nodes `st` and its abstract pairs `es`: one distinct entry per node, both
   * views of every node interned in its entry, and the pairs mirroring the
   * entries' keys and values.
   */
  ghost predicate Consistent<T>(st: seq<Slot<T>>, es: seq<(Bytes, T)>)
    reads EntriesOf(st)
  {
    && |es| == |st|
    && (forall i :: 0 <= i < |st| ==> Interned(st[i]) && es[i] == (st[i].entry.key, st[i].entry.value))
    && (forall i, j :: 0 <= i < j < |st| ==> st[i].entry != st[j].entry)
  }

  /** Erasing the i-th node keeps the entry invariant and drops no other entry. */
  lemma ConsistentRemove<T>(st: seq<Slot<T>>, es: seq<(Bytes, T)>, i: nat)
    requires Consistent(st, es) && i < |st|
    ensures EntriesOf(st[..i] + st[i + 1..]) == EntriesOf(st) - {st[i].entry}
    ensures Consistent(st[..i] + st[i + 1..], es[..i] + es[i + 1..])
  {
    var st', es' := st[..i] + st[i + 1..], es[..i] + es[i + 1..];
    assert forall j :: 0 <= j < |st'| ==> st'[j] == st[if j < i then j else j + 1];
    assert forall j :: 0 <= j < |es'| ==> es'[j] == es[if j < i then j else j + 1];
    forall j | 0 <= j < |st| && j != i ensures st[j].entry in EntriesOf(st') {
      assert st[j] == st'[if j < i then j else j - 1];
    }
  }

  /** Placing a new, interned node at position i keeps the entry invariant and adds exactly its entry. */
  lemma ConsistentInsert<T>(st: seq<Slot<T>>, es: seq<(Bytes, T)>, i: nat, slot: Slot<T>, pair: (Bytes, T))
    requires Consistent(st, es) && i <= |st|
    requires slot.entry !in EntriesOf(st) && Interned(slot) && pair == (slot.entry.key, slot.entry.value)
    ensures EntriesOf(st[..i] + [slot] + st[i..]) == EntriesOf(st) + {slot.entry}
    ensures Consistent(st[..i] + [slot] + st[i..], es[..i] + [pair] + es[i..])
  {
    var st', es' := st[..i] + [slot] + st[i..], es[..i] + [pair] + es[i..];
    assert st'[i] == slot;
    assert forall j :: 0 <= j < |st'| && j != i ==> st'[j] == st[if j < i then j else j - 1];
    assert forall j :: 0 <= j < |es'| && j != i ==> es'[j] == es[if j < i then j else j - 1];
    forall j | 0 <= j < |st| ensures st[j].entry in EntriesOf(st') {
      assert st[j] == st'[if j < i then j else j + 1];
    }
  }

  /** Where an iterator stands: on the node of a given entry, or past the last node. */
  datatype Position<T> = AtEntry(entry: Entry<T>) | PastEnd

  /** `StringMap::iterator`: may write the value it stands on. */
  datatype Iterator<T> = Iterator(pos: Position<T>)
  {
    /** `operator const_iterator()`: the same position, read-only. */
    function ToConst(): ConstIterator<T>
    {
      ConstIterator(pos)
    }
  }

  /** `StringMap::const_iterator`: read-only; there is no conversion back. */
  datatype ConstIterator<T> = ConstIterator(pos: Position<T>)

  class StringMap<T> {
    /** The value `T()` that `get` returns for an absent key. */
    const defaultValue: T

    /** The backing ordered map, as its nodes in key order. */
    var store: seq<Slot<T>>

    /** The (key, value) pairs in key order: the abstract content. */
    ghost var Entries: seq<(Bytes, T)>
    ghost var Repr: set<object>

    ghost predicate Valid()
      reads this, Repr
    {
      this in Repr && EntriesOf(store) <= Repr && Consistent(store, Entries) && Ascending(Entries)
    }

    /** The map from key content to value that this StringMap represents. */
    ghost function Contents(): map<Bytes, T>
      reads this
    {
      MapOf(Entries)
    }

    /** The entry objects currently in the map. */
    ghost function EntrySet(): set<Entry<T>>
      reads this
    {
      EntriesOf(store)
    }

    constructor (defaultValue: T)
      ensures Valid() && fresh(Repr)
      ensures Entries == [] && Contents() == map[]
      ensures this.defaultValue == defaultValue
    {
      this.defaultValue := defaultValue;
      store := [];
      Entries := [];
      Repr := {this};
    }

    /** The nodes are ordered by their key views, which show the entries' keys. */
    lemma StoreMatchesEntries()
      requires Valid()
      ensures SlotsAscending(store)
      ensures forall j :: 0 <= j < |store| ==> store[j].mapKey.content == Entries[j].0
    {
      forall j | 0 <= j < |store| ensures store[j].mapKey.content == Entries[j].0 {
        assert Interned(store[j]);
      }
    }

    /**
     * The search the backing map does for `key` in find, insert and erase:
     * the node that carries the key, or the place where a node for it belongs.
     */
    method Find(key: Bytes) returns (i: nat, found: bool)
      requires Valid()
      ensures found <==> key in Contents()
      ensures found ==> i < |store| && Entries[i].0 == key
      ensures !found ==> FitsAt(Entries, i, key)
    {
      StoreMatchesEntries();
      i := LowerBound(store, key);
      found := i < |store| && store[i].mapKey.content == key;
      if found {
        MapOfAt(Entries, i);
      } else {
        BoundaryAbsent(Entries, i, key);
      }
    }

    /** `get`: the stored value, or `T()` when the key is absent; the map is not changed. */
    method Get(key: StaticString) returns (r: T)
      requires Valid()
      ensures key.content in Contents() ==> r == Contents()[key.content]
      ensures key.content !in Contents() ==> r == defaultValue
    {
      var i, found := Find(key.content);
      if found {
        r := store[i].entry.value;
        MapOfAt(Entries, i);
      } else {
        r := defaultValue;
      }
    }

    /**
     * `set`: insert-or-update. A new key gets a fresh entry holding its own
     * copy of the key, and both views of the node are pointed at that copy.
     * An existing key only has its value overwritten.
     */
    method Set(key: StaticString, value: T) returns (inserted: bool)
      requires Valid()
      modifies Repr
      ensures Valid() && fresh(Repr - old(Repr))
      ensures inserted <==> key.content !in old(Contents())
      ensures Contents() == old(Contents())[key.content := value]
      ensures |Contents()| == |old(Contents())| + if inserted then 1 else 0
      ensures forall e :: e in old(EntrySet()) ==> e in EntrySet() && e.key == old(e.key) && e.pairKey == old(e.pairKey)
      ensures !inserted ==> EntrySet() == old(EntrySet())
      ensures inserted ==> exists i :: 0 <= i < |store| && store[i].mapKey.content == key.content &&
                             fresh(store[i].entry) && store[i].mapKey.storage != key.storage
    {
      var i, found := Find(key.content);
      if found {
        OverwriteAt(i, value);
        inserted := false;
      } else {
        InsertNode(i, key, value);
        inserted := true;
      }
    }

    /** The update branch of `set`: overwrite the value of the i-th node and nothing else. */
    method OverwriteAt(i: nat, value: T)
      requires Valid() && i < |store|
      modifies this, store[i].entry
      ensures Valid() && Repr == old(Repr) && store == old(store)
      ensures Contents() == old(Contents())[old(Entries)[i].0 := value]
      ensures store[i].entry.key == old(store[i].entry.key) && store[i].entry.pairKey == old(store[i].entry.pairKey)
    {
      UpdateAt(Entries, i, value);
      var entry := store[i].entry;
      entry.value := value;
      Entries := Entries[i := (Entries[i].0, value)];
    }

    /**
     * The insertion branch of `set`: a fresh entry at position i, its key
     * copied from the caller's view and both node views pointed at the copy.
     */
    method InsertNode(i: nat, key: StaticString, value: T)
      requires Valid() && FitsAt(Entries, i, key.content)
      modifies this
      ensures Valid() && fresh(Repr - old(Repr))
      ensures Contents() == old(Contents())[key.content := value]
      ensures i < |store| && fresh(store[i].entry)
      ensures EntrySet() == old(EntrySet()) + {store[i].entry}
      ensures store[i].mapKey.content == key.content && store[i].mapKey.storage != key.storage
    {
      InsertAt(Entries, i, key.content, value);
      ghost var before, pairs := store, Entries;
      // insert(make_pair(key, Entry())): the node's key still views the caller's bytes.
      var entry := new Entry(defaultValue);
      store := store[..i] + [Slot(key, entry)] + store[i..];
      // Copy the key into the entry and point both views at the copy.
      entry.Intern(key.content, value);
      store := store[i := Slot(View(entry.key, KeyOf(entry)), entry)];
      assert store == before[..i] + [store[i]] + before[i..];
      ConsistentInsert(before, pairs, i, store[i], (key.content, value));
      Repr := Repr + {entry};
      Entries := Entries[..i] + [(key.content, value)] + Entries[i..];
    }

    /** `remove`: erase the entry with this key content, reporting whether there was one. */
    method Remove(key: StaticString) returns (removed: bool)
      requires Valid()
      modifies this
      ensures Valid() && Repr <= old(Repr)
      ensures removed <==> key.content in old(Contents())
      ensures Contents() == old(Contents()) - {key.content}
      ensures |Contents()| == |old(Contents())| - if removed then 1 else 0
      ensures EntrySet() <= old(EntrySet())
      ensures forall e :: e in old(EntrySet()) ==> (e in EntrySet() <==> e.key != key.content)
    {
      var i, found := Find(key.content);
      var erased := 0;
      if found {
        EraseAt(i);
        erased := 1;
      } else {
        forall e | e in EntrySet() ensures e.key != key.content {
          var j :| 0 <= j < |store| && store[j].entry == e;
          assert Interned(store[j]);
          MapOfAt(Entries, j);
        }
      }
      removed := erased > 0;
    }

    /** `erase` of the i-th node: its entry leaves the map, the other nodes stay as they are. */
    method EraseAt(i: nat)
      requires Valid() && i < |store|
      modifies this
      ensures Valid() && Repr <= old(Repr)
      ensures Contents() == old(Contents()) - {old(Entries)[i].0}
      ensures EntrySet() == old(EntrySet()) - {old(store[i].entry)}
      ensures forall e :: e in old(EntrySet()) ==> (e == old(store[i].entry) <==> e.key == old(Entries)[i].0)
    {
      RemoveAt(Entries, i);
      ConsistentRemove(store, Entries, i);
      KeysInternedOnce();
      forall e | e in EntrySet() && e.key == Entries[i].0 ensures e == store[i].entry {
        var j :| 0 <= j < |store| && store[j].entry == e;
        assert Interned(store[i]) && Interned(store[j]);
      }
      var entry := store[i].entry;
      store := store[..i] + store[i + 1..];
      Entries := Entries[..i] + Entries[i + 1..];
      Repr := Repr - {entry};
    }

    /** `size`: the number of distinct keys, as an `unsigned int`. */
    method Size() returns (n: uint32)
      requires Valid()
      ensures n as int == |Contents()| % 0x1_0000_0000
    {
      MapOfSize(Entries);
      n := (|store| % 0x1_0000_0000) as uint32;
    }

    /** `empty`: whether there are no keys. */
    method Empty() returns (b: bool)
      requires Valid()
      ensures b <==> |Contents()| == 0
    {
      MapOfSize(Entries);
      b := |store| == 0;
    }

    /**
     * Whether position `p` stands on a node of this map. A position is tied
     * to its entry, not to an index, so it stays live across the insertion
     * and erasure of other entries (see the EntrySet clauses of Set and Remove).
     */
    ghost predicate Live(p: Position<T>)
      reads this
    {
      p.AtEntry? && p.entry in EntrySet()
    }

    /** The position of the j-th node in key order; the one past the last node is the end. */
    function PositionAt(j: nat): Position<T>
      reads this
      requires j <= |store|
    {
      if j < |store| then AtEntry(store[j].entry) else PastEnd
    }

    function Begin(): Iterator<T>
      reads this
    {
      Iterator(PositionAt(0))
    }

    function End(): Iterator<T>
    {
      Iterator(PastEnd)
    }

    function ConstBegin(): ConstIterator<T>
      reads this
    {
      ConstIterator(PositionAt(0))
    }

    function ConstEnd(): ConstIterator<T>
    {
      ConstIterator(PastEnd)
    }

    /**
     * `begin()` and `end()`: both kinds of iterator start at the node with
     * the smallest key, and begin equals end exactly when the map is empty.
     */
    lemma BeginIsSmallest()
      requires Valid()
      ensures Begin().ToConst() == ConstBegin() && End().ToConst() == ConstEnd()
      ensures Begin() == End() <==> |Contents()| == 0
      ensures Begin().pos.AtEntry? ==>
                Live(Begin().pos) && Begin().pos.entry.key in Contents() &&
                forall k :: k in Contents() ==> !Less(k, Begin().pos.entry.key)
    {
      MapOfSize(Entries);
      if |store| > 0 {
        assert Interned(store[0]);
        MapOfAt(Entries, 0);
        forall k | k in Contents() ensures !Less(k, Entries[0].0) {
          MapOfKeys(Entries, k);
          var m :| 0 <= m < |Entries| && Entries[m].0 == k;
          LessIrreflexive(k);
          if m > 0 {
            LessAsymmetric(Entries[0].0, k);
          }
        }
      }
    }

    /**
     * Each key content is stored once: no two nodes show the same bytes, and
     * every node's map key and pair key are views into that node's own key copy.
     */
    lemma KeysInternedOnce()
      requires Valid()
      ensures forall i :: 0 <= i < |store| ==>
                store[i].mapKey == View(store[i].entry.key, KeyOf(store[i].entry)) &&
                store[i].entry.pairKey == store[i].mapKey
      ensures forall i, j :: 0 <= i < j < |store| ==>
                store[i].mapKey.content != store[j].mapKey.content && store[i].entry != store[j].entry
    {
      StoreMatchesEntries();
      forall i, j | 0 <= i < j < |store|
        ensures store[i].mapKey.content != store[j].mapKey.content
      {
        LessIrreflexive(store[i].mapKey.content);
      }
    }

    /** Between the keys of the j-th and the next node there is no key of the map. */
    lemma NoKeyBetween(j: nat)
      requires Valid() && j < |store|
      ensures j + 1 < |store| ==> Less(Entries[j].0, Entries[j + 1].0)
      ensures forall k :: k in Contents() ==>
                !Less(Entries[j].0, k) || (j + 1 < |store| && !Less(k, Entries[j + 1].0))
    {
      forall k | k in Contents()
        ensures !Less(Entries[j].0, k) || (j + 1 < |store| && !Less(k, Entries[j + 1].0))
      {
        MapOfKeys(Entries, k);
        var m :| 0 <= m < |Entries| && Entries[m].0 == k;
        if m <= j {
          LessIrreflexive(k);
          if m < j {
            LessAsymmetric(k, Entries[j].0);
          }
        } else {
          LessIrreflexive(k);
          if m > j + 1 {
            LessAsymmetric(Entries[j + 1].0, k);
          }
        }
      }
    }

    /**
     * `operator++` of both iterator kinds: from a node to the node with the
     * next larger key, or to the end after the largest key.
     */
    function Advance(p: Position<T>): (q: Position<T>)
      reads this, Repr
      requires Valid() && Live(p)
      ensures q == PositionAt(IndexOf(store, p.entry) + 1)
      ensures q.AtEntry? ==> Live(q) && Less(p.entry.key, q.entry.key)
      ensures forall k :: k in Contents() ==>
                !Less(p.entry.key, k) || (q.AtEntry? && !Less(k, q.entry.key))
    {
      var j := IndexOf(store, p.entry);
      NoKeyBetween(j);
      PositionAt(j + 1)
    }

    /** `operator*` of both iterator kinds: the pair on the node, its key a view into the entry's own key copy. */
    function PairAt(p: Position<T>): (r: (StaticString, T))
      reads this, Repr
      requires Valid() && Live(p)
      ensures r.0 == View(p.entry.key, KeyOf(p.entry))
      ensures r.0.content in Contents() && Contents()[r.0.content] == r.1
    {
      var j := IndexOf(store, p.entry);
      assert Interned(store[j]);
      MapOfAt(Entries, j);
      (p.entry.pairKey, p.entry.value)
    }

    function Next(it: Iterator<T>): Iterator<T>
      reads this, Repr
      requires Valid() && Live(it.pos)
    {
      Iterator(Advance(it.pos))
    }

    function ConstNext(it: ConstIterator<T>): ConstIterator<T>
      reads this, Repr
      requires Valid() && Live(it.pos)
    {
      ConstIterator(Advance(it.pos))
    }

    function Deref(it: Iterator<T>): (StaticString, T)
      reads this, Repr
      requires Valid() && Live(it.pos)
    {
      PairAt(it.pos)
    }

    function ConstDeref(it: ConstIterator<T>): (StaticString, T)
      reads this, Repr
      requires Valid() && Live(it.pos)
    {
      PairAt(it.pos)
    }

    /** `it->second = v` through a mutable iterator: only that entry's value changes. */
    method AssignThrough(it: Iterator<T>, v: T)
      requires Valid() && Live(it.pos)
      modifies this, it.pos.entry
      ensures Valid() && Repr == old(Repr) && store == old(store)
      ensures Contents() == old(Contents())[it.pos.entry.key := v]
      ensures it.pos.entry.key == old(it.pos.entry.key) && it.pos.entry.pairKey == old(it.pos.entry.pairKey)
    {
      var j := IndexOf(store, it.pos.entry);
      UpdateAt(Entries, j, v);
      it.pos.entry.value := v;
      Entries := Entries[j := (Entries[j].0, v)];
      assert forall i :: 0 <= i < |store| ==> store[i].entry == old(store[i].entry);
    }

    /**
     * A read-only traversal from `begin()` to `end()`: it yields every stored
     * pair once, in strictly ascending key order.
     */
    method Walk() returns (pairs: seq<(Bytes, T)>)
      requires Valid()
      ensures pairs == Entries
      ensures Ascending(pairs) && MapOf(pairs) == Contents() && |pairs| == |Contents()|
    {
      pairs := [];
      var it := ConstBegin();
      ghost var j := 0;
      while it != ConstEnd()
        invariant j <= |store| && it.pos == PositionAt(j)
        invariant pairs == Entries[..j]
        decreases |store| - j
      {
        assert Interned(store[j]);
        var pair := ConstDeref(it);
        pairs := pairs + [(pair.0.content, pair.1)];
        assert IndexOf(store, store[j].entry) == j;
        it := ConstNext(it);
        j := j + 1;
      }
      assert pairs == Entries;
      MapOfSize(Entries);
    }
  }
}
