# StringMap: an interned-key ordered map, modelled in Dafny

Phusion Passenger's `StringMap<T>` is an ordered map from string keys to values
of type `T`. It is built on `std::map<StaticString, Entry>`. A `StaticString`
is a non-owning view of some bytes. A lookup takes such a view and builds no
`std::string`. When `set` inserts a key for the first time, the key is
interned:

- the new `Entry` keeps its own copy of the key bytes in `Entry::key`;
- the map's node key and the key of the pair handed out by iterators are
  both pointed at that copy.

The project models the class with its operations and its two iterator kinds:

- `get`, `set` (insert-or-update), `remove`, `size`, `empty`;
- `begin`/`end`, and `iterator`/`const_iterator` with increment, dereference
  and the conversion from mutable to read-only.

Files:

- `byte_order.dfy` (module `ByteOrder`): keys as byte strings, and the strict
  byte-lexicographic order the backing map sorts by. It proves this order is
  irreflexive, asymmetric, transitive and total.
- `ordered_entries.dfy` (module `OrderedEntries`): the abstract content, a
  strictly ascending sequence of (key, value) pairs and the map it
  represents (`MapOf`). Lemmas say how inserting, overwriting and erasing one
  pair changes that map, and that an ascending sequence is determined by its
  map.
- `string_map.dfy` (module `StringMaps`): the classes `Entry` and
  `StringMap`.
  - `Entry` has the fields `key`, `pairKey` (`thePair.first`) and `value`
    (`thePair.second`).
  - `StringMap` has `store`, the backing map's nodes in key order. Each node
    is a `Slot` of the map's key view and its entry.
  - A `StaticString` is modelled as `View(content, storage)`. Here `storage`
    is either `Foreign` (bytes the map does not own) or `KeyOf(entry)` (the
    entry's own key copy). This makes the aliasing visible: the class
    invariant `Valid()` says both views of every node are
    `View(entry.key, KeyOf(entry))`.
  - The search done by `find`/`insert`/`erase` is a binary search over
    `store` (`LowerBound`).
  - Iterator positions name an entry object (or the end), so a position
    stays valid while other entries are inserted or erased.
- `scenarios.dfy` (module `Scenarios`): concrete runs with byte-literal
  keys. It covers a header overwritten by a second `set`, a `remove` and a
  `get` of absent keys, a walk in key order after inserting out of order,
  an iterator that survives an insert, and a write through a mutable
  iterator.

The order of `StaticString` is defined in `StaticString.h`, which is not part
of this model. It is modelled as the usual byte-wise comparison: memcmp of the
common prefix, then the shorter string sorts first.

The source's `size()` returns `unsigned int`, not an unbounded count. The model
follows the code: `Size` is the entry count modulo 2^32.

## Model

| member | source | states |
|---|---|---|
| ByteOrder.LessIrreflexive | ext/common/Utils/StringMap.h:40 | no key sorts before itself under the ordering of the backing map |
| ByteOrder.LessAsymmetric | ext/common/Utils/StringMap.h:40 | two keys are never each before the other |
| ByteOrder.LessTransitive | ext/common/Utils/StringMap.h:40 | the key order is transitive, so the backing map's order is consistent |
| ByteOrder.LessTotal | ext/common/Utils/StringMap.h:40 | two different key contents are always ordered one way or the other, so equal content is the only way two views compare equivalent |
| OrderedEntries.MapOfKeys | ext/common/Utils/StringMap.h:40-44 | a key is in the represented map exactly when some stored pair carries it |
| OrderedEntries.MapOfAt | ext/common/Utils/StringMap.h:139-146 | in an ascending pair sequence each pair's value is the one the map gives for its key |
| OrderedEntries.MapOfSize | ext/common/Utils/StringMap.h:173-179 | an ascending sequence has exactly as many pairs as its map has distinct keys |
| OrderedEntries.MapOfTail | ext/common/Utils/StringMap.h:40-44 | dropping the first pair of an ascending sequence removes exactly its key |
| OrderedEntries.AscendingUnique | ext/common/Utils/StringMap.h:181-195 | two ascending sequences with the same map are equal: the walk order depends only on the contents, not on insertion history |
| OrderedEntries.BoundaryAbsent | ext/common/Utils/StringMap.h:140 | where the search stops without meeting the key, the key is absent and belongs exactly at that place in the order |
| OrderedEntries.InsertAt | ext/common/Utils/StringMap.h:149-160 | inserting a new key at its place keeps the keys strictly ascending and adds exactly that key with that value |
| OrderedEntries.UpdateAt | ext/common/Utils/StringMap.h:161-166 | overwriting one pair's value keeps the order and changes only that key's value |
| OrderedEntries.RemoveAt | ext/common/Utils/StringMap.h:169-171 | erasing one pair keeps the order and removes exactly its key |
| OrderedEntries.RemoveKeepsAscending | ext/common/Utils/StringMap.h:170 | erasing one pair leaves the keys strictly ascending |
| StringMaps.LowerBound | ext/common/Utils/StringMap.h:140 | the tree search ends at the first node whose key is not smaller than the sought key: all nodes before it are smaller, none after it is |
| StringMaps.IndexOf | ext/common/Utils/StringMap.h:41-42 | the node an internal iterator stands on is the unique first node holding that entry |
| StringMaps.ConsistentInsert | ext/common/Utils/StringMap.h:149-159 | placing a new interned node keeps every node interned with distinct entries, and adds exactly the new entry |
| StringMaps.ConsistentRemove | ext/common/Utils/StringMap.h:170 | erasing a node keeps every other node interned and drops exactly that node's entry |
| StringMaps.Entry.constructor | ext/common/Utils/StringMap.h:35-38 | `Entry()` has an empty key, an empty key view and the default value |
| StringMaps.Entry.Intern | ext/common/Utils/StringMap.h:156-158 | the entry's key becomes a copy of the caller's bytes, the pair's key views that copy and the pair's value is the new value |
| StringMaps.StringMap.constructor | ext/common/Utils/StringMap.h:44 | a new map is empty and satisfies the invariant |
| StringMaps.StringMap.StoreMatchesEntries | ext/common/Utils/StringMap.h:40-44 | the backing nodes are strictly ascending by their key views, which show the entries' keys |
| StringMaps.StringMap.Find | ext/common/Utils/StringMap.h:140 | the search finds a node exactly when the key is present, and otherwise the place where the key belongs |
| StringMaps.StringMap.Get | ext/common/Utils/StringMap.h:139-146 | a present key gives its stored value, an absent key gives `T()`; the map is not changed |
| StringMaps.StringMap.Set | ext/common/Utils/StringMap.h:148-167 | returns true exactly when the key was absent; afterwards the key maps to the value and every other key is as before; the size grows by one on insert and is unchanged on update; existing entries keep their key copy and key view; a new key gets a fresh entry whose map key shows the same bytes but no longer views the caller's storage |
| StringMaps.StringMap.OverwriteAt | ext/common/Utils/StringMap.h:161-166 | the update branch changes only that key's value; nodes, key copy and key views are untouched |
| StringMaps.StringMap.InsertNode | ext/common/Utils/StringMap.h:149-160 | the insert branch adds one fresh entry at its place in the order, with the key's content, both views repointed at the entry's own copy, and the invariant restored |
| StringMaps.StringMap.Remove | ext/common/Utils/StringMap.h:169-171 | returns true exactly when the key was present; afterwards it is absent, every other key is unchanged, the size fell by one only if it was present, and exactly the entries of other keys survive |
| StringMaps.StringMap.EraseAt | ext/common/Utils/StringMap.h:170 | erasing one node removes exactly its key and exactly its entry, the only entry with that key |
| StringMaps.StringMap.Size | ext/common/Utils/StringMap.h:173-175 | the number of distinct keys, truncated to `unsigned int` |
| StringMaps.StringMap.Empty | ext/common/Utils/StringMap.h:177-179 | true exactly when there are no keys |
| StringMaps.StringMap.BeginIsSmallest | ext/common/Utils/StringMap.h:181-195 | both `begin()`s stand on the node with the smallest key, and begin equals end exactly when the map is empty; converting the mutable iterators gives the const ones |
| StringMaps.StringMap.KeysInternedOnce | ext/common/Utils/StringMap.h:153-159 | every node's map key and pair key view that node's own key copy, and no key content is stored twice |
| StringMaps.StringMap.NoKeyBetween | ext/common/Utils/StringMap.h:63-66 | no stored key lies strictly between the keys of two neighbouring nodes |
| StringMaps.StringMap.Advance | ext/common/Utils/StringMap.h:107-110 | `operator++` moves to the node with the next larger key (or to the end after the largest), skipping no key |
| StringMaps.StringMap.PairAt | ext/common/Utils/StringMap.h:126-128 | dereferencing yields the pair whose key is a view into the entry's own key copy and whose value is the one stored for that key |
| StringMaps.StringMap.AssignThrough | ext/common/Utils/StringMap.h:126-128 | writing the value through a mutable iterator changes only that key's value, and keeps the key copy and key views |
| StringMaps.StringMap.Walk | ext/common/Utils/StringMap.h:185-195 | walking the const iterators from `begin()` to `end()` yields every stored pair once, in strictly ascending key order, and exactly the map's contents |
| Scenarios.OverwriteHeader | ext/common/Utils/StringMap.h:148-175 | set of a new header returns true with size 1; set of it again returns false, get sees the new value, size stays 1 |
| Scenarios.RemoveMissingHeader | ext/common/Utils/StringMap.h:169-175 | remove of an absent key returns false and the size stays 1 |
| Scenarios.LookupInEmpty | ext/common/Utils/StringMap.h:139-146 | get on an empty map returns the default value and empty holds |
| Scenarios.RemoveThenGet | ext/common/Utils/StringMap.h:139-171 | remove of a present key returns true and a later get returns the default value |
| Scenarios.WalkInKeyOrder | ext/common/Utils/StringMap.h:181-195 | keys set in the order a, c, b are walked as (a,1), (b,2), (c,3) |
| Scenarios.PositionSurvivesInsert | ext/common/Utils/StringMap.h:63-84 | an iterator on a's node still reads (a, 1) after b was inserted |
| Scenarios.WriteThroughIterator | ext/common/Utils/StringMap.h:126-136 | a value written through a mutable iterator is what get returns, and the pair's key views the entry's copy, not the caller's bytes |

## Left out

- `src/cxx_supportlib/ResourceLocator.h` and `lib/phusion_passenger/rack/request_handler.rb` are not part of this model. They are filesystem, OS and Rack I/O glue built on calls whose code is not shown.
- `StaticString.h` is not part of this model. Its `operator<` is taken to be the byte-wise lexicographic order.
- Raw-pointer lifetime: a `StaticString` obtained from an iterator dangles once its entry is erased. The model has no dangling views. `Remove` only says which entries leave the map.
- The C-style cast in `const_iterator::operator*` (line 83) is a reinterpretation of the same pair. It is modelled as reading the same pair.
- The mutable `iterator::operator*` returns a writable `pair<StaticString, T>&`, so a caller could also overwrite the key view. `StringMaps.StringMap.AssignThrough` models only writing the value.
- The default constructors, `operator=`, `operator->` and post-increment of both iterator kinds (lines 52-72, 86-88, 96-116, 130-132) copy or forward to the operations above. Iterators are values in the model, and iterator equality (lines 74-80, 118-124) is equality of positions.
- Iterator invalidation is modelled only through positions. A position tied to an erased entry is no longer `Live`, and every operation on it requires `Live`.
- `T()` is the `defaultValue` given to the constructor. `T`'s `operator=` is plain assignment.
- `std::bad_alloc` from `insert` or from copying the key is not modelled.
- The O(log n) cost of the tree is not modelled. The tree is a sorted sequence searched by bisection.
- With 2^32 or more entries the `unsigned int` that `size()` returns wraps, so `size() == 0` and `empty()` can disagree. `Size` states the wrapped value exactly, and the wrap is not treated as a defect.
