/**
 * Concrete uses of a StringMap, each stated as the results its calls give:
 * a header map whose value is overwritten, a miss on remove and on get, and
 * an insertion order that iteration does not follow.
 */
module Scenarios {
  import opened ByteOrder
  import opened OrderedEntries
  import opened StringMaps

  /** "Content-Type" */
  const ContentType: Bytes := [67, 111, 110, 116, 101, 110, 116, 45, 84, 121, 112, 101]
  /** "X-Foo" */
  const XFoo: Bytes := [88, 45, 70, 111, 111]
  const A: Bytes := [97]
  const B: Bytes := [98]
  const C: Bytes := [99]

  /** A view of bytes the map does not own, as a caller passes them in. */
  function Key(content: Bytes): (k: StaticString)
    ensures k.content == content && k.storage == Foreign
  {
    View(content, Foreign)
  }

  /**
   * Setting a new header reports an insertion and one entry; setting it
   * again reports an update, keeps one entry and get sees the new value.
   */
  method OverwriteHeader() returns (first: bool, sizeAfterFirst: uint32, second: bool, got: string, sizeAfterSecond: uint32)
    ensures first && sizeAfterFirst == 1
    ensures !second && got == "application/json" && sizeAfterSecond == 1
  {
    var m := new StringMap<string>("");
    first := m.Set(Key(ContentType), "text/html");
    ghost var count := |m.Contents()|;
    assert count == 1;
    sizeAfterFirst := m.Size();
    assert sizeAfterFirst as int == count % 0x1_0000_0000;
    assert sizeAfterFirst == 1;
    second := m.Set(Key(ContentType), "application/json");
    got := m.Get(Key(ContentType));
    count := |m.Contents()|;
    assert count == 1;
    sizeAfterSecond := m.Size();
    assert sizeAfterSecond as int == count % 0x1_0000_0000;
    assert sizeAfterSecond == 1;
  }

  /** Removing a header that is not there reports false and keeps the one entry. */
  method RemoveMissingHeader() returns (removed: bool, size: uint32)
    ensures !removed && size == 1
  {
    var m := new StringMap<string>("");
    var inserted := m.Set(Key(ContentType), "application/json");
    assert XFoo != ContentType;
    removed := m.Remove(Key(XFoo));
    ghost var count := |m.Contents()|;
    assert count == 1;
    size := m.Size();
    assert size as int == count % 0x1_0000_0000;
    assert size == 1;
  }

  /** On an empty map get gives the default value and empty holds. */
  method LookupInEmpty() returns (got: int, isEmpty: bool)
    ensures got == 0 && isEmpty
  {
    var m := new StringMap<int>(0);
    got := m.Get(Key(A));
    isEmpty := m.Empty();
  }

  /** The walk expected of a, b, c holding 1, 2, 3: ascending, and representing exactly that map. */
  lemma ThreeInOrder()
    ensures Ascending([(A, 1), (B, 2), (C, 3)])
    ensures MapOf([(A, 1), (B, 2), (C, 3)]) == map[][A := 1][C := 3][B := 2]
  {
    assert A != B && B != C && A != C;
    assert Less(A, B) && Less(B, C) && Less(A, C);
    var s: seq<(Bytes, int)> := [(A, 1), (B, 2), (C, 3)];
    assert s[1..] == [(B, 2), (C, 3)] && s[1..][1..] == [(C, 3)] && |s[1..][1..][1..]| == 0;
    assert MapOf(s[1..][1..]) == map[C := 3];
    assert MapOf(s[1..]) == map[C := 3, B := 2];
    assert MapOf(s) == map[C := 3, B := 2, A := 1];
  }

  /** Keys set in the order a, c, b are walked in the order a, b, c. */
  method WalkInKeyOrder() returns (pairs: seq<(Bytes, int)>)
    ensures pairs == [(A, 1), (B, 2), (C, 3)]
  {
    var m := new StringMap<int>(0);
    var newA := m.Set(Key(A), 1);
    var newC := m.Set(Key(C), 3);
    var newB := m.Set(Key(B), 2);
    pairs := m.Walk();
    ThreeInOrder();
    AscendingUnique(pairs, [(A, 1), (B, 2), (C, 3)]);
  }

  /** After a key is removed, get gives the default value again. */
  method RemoveThenGet() returns (removed: bool, got: int)
    ensures removed && got == 0
  {
    var m := new StringMap<int>(0);
    var inserted := m.Set(Key(A), 1);
    removed := m.Remove(Key(A));
    got := m.Get(Key(A));
  }

  /** An iterator on the entry for a still reads that entry after b has been inserted. */
  method PositionSurvivesInsert() returns (key: Bytes, value: int)
    ensures key == A && value == 1
  {
    var m := new StringMap<int>(7);
    var newA := m.Set(Key(A), 1);
    m.BeginIsSmallest();
    var it := m.ConstBegin();
    var newB := m.Set(Key(B), 2);
    var pair := m.ConstDeref(it);
    key, value := pair.0.content, pair.1;
  }

  /** Writing through a mutable iterator changes the value get sees, and the key stays interned. */
  method WriteThroughIterator() returns (got: int, key: StaticString)
    ensures got == 5 && key.content == A && key.storage != Foreign
  {
    var m := new StringMap<int>(0);
    var inserted := m.Set(Key(A), 1);
    m.BeginIsSmallest();
    var it := m.Begin();
    m.AssignThrough(it, 5);
    got := m.Get(Key(A));
    key := m.Deref(it).0;
  }
}
