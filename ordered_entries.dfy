/**
 * The abstract content of a StringMap: its (key, value) entries in the order
 * the backing ordered map walks them. The map view of such a sequence is
 * MapOf; the lemmas here say how inserting, overwriting and erasing one
 * entry at its place in the order change that map view.
 */
module OrderedEntries {
  import opened ByteOrder

  /** Keys strictly ascending: every key occurs once and in byte order. */
  predicate Ascending<T>(s: seq<(Bytes, T)>)
  {
    forall i, j :: 0 <= i < j < |s| ==> Less(s[i].0, s[j].0)
  }

  /** Dropping the first entry keeps a sequence ascending. */
  lemma AscendingTail<T>(s: seq<(Bytes, T)>)
    requires Ascending(s) && |s| > 0
    ensures Ascending(s[1..])
  {
    forall a, b | 0 <= a < b < |s| - 1 ensures Less(s[1..][a].0, s[1..][b].0) {
      assert s[1..][a] == s[a + 1] && s[1..][b] == s[b + 1];
    }
  }

  /** Key k belongs at position i: every key before i is smaller, every key from i on is larger. */
  predicate FitsAt<T>(s: seq<(Bytes, T)>, i: nat, k: Bytes)
  {
    && i <= |s|
    && (forall j :: 0 <= j < i ==> Less(s[j].0, k))
    && (forall j :: i <= j < |s| ==> Less(k, s[j].0))
  }

  /** The key-to-value map that an entry sequence represents. */
  function MapOf<T>(s: seq<(Bytes, T)>): map<Bytes, T>
  {
    if |s| == 0 then map[] else MapOf(s[1..])[s[0].0 := s[0].1]
  }

  /** A key is in the map exactly when some entry carries it. */
  lemma {:induction false} MapOfKeys<T>(s: seq<(Bytes, T)>, k: Bytes)
    ensures k in MapOf(s) <==> exists i :: 0 <= i < |s| && s[i].0 == k
  {
    if |s| > 0 {
      MapOfKeys(s[1..], k);
      if k in MapOf(s[1..]) {
        var i :| 0 <= i < |s[1..]| && s[1..][i].0 == k;
        assert s[i + 1].0 == k;
      }
      if exists i :: 0 <= i < |s| && s[i].0 == k {
        var i :| 0 <= i < |s| && s[i].0 == k;
        if i > 0 {
          assert s[1..][i - 1].0 == k;
        }
      }
    }
  }

  /** In an ascending sequence, every entry's value is the one the map holds for its key. */
  lemma {:induction false} MapOfAt<T>(s: seq<(Bytes, T)>, i: nat)
    requires Ascending(s) && i < |s|
    ensures s[i].0 in MapOf(s) && MapOf(s)[s[i].0] == s[i].1
  {
    if i > 0 {
      AscendingTail(s);
      MapOfAt(s[1..], i - 1);
      assert s[1..][i - 1] == s[i];
      LessIrreflexive(s[0].0);
      assert Less(s[0].0, s[i].0);
    }
  }

  /** The first key of an ascending sequence does not occur again after it. */
  lemma HeadNotInTail<T>(s: seq<(Bytes, T)>)
    requires Ascending(s) && |s| > 0
    ensures s[0].0 !in MapOf(s[1..])
  {
    forall j | 0 <= j < |s| - 1 ensures s[1..][j].0 != s[0].0 {
      assert Less(s[0].0, s[j + 1].0);
      LessIrreflexive(s[0].0);
    }
    MapOfKeys(s[1..], s[0].0);
  }

  /** An ascending sequence holds as many entries as its map has keys. */
  lemma {:induction false} MapOfSize<T>(s: seq<(Bytes, T)>)
    requires Ascending(s)
    ensures |MapOf(s)| == |s|
  {
    if |s| > 0 {
      AscendingTail(s);
      MapOfSize(s[1..]);
      HeadNotInTail(s);
    }
  }

  /** Dropping the first entry of an ascending sequence removes exactly its key from the map. */
  lemma MapOfTail<T>(s: seq<(Bytes, T)>)
    requires Ascending(s) && |s| > 0
    ensures MapOf(s[1..]) == MapOf(s) - {s[0].0}
  {
    HeadNotInTail(s);
  }

  /**
   * An ascending sequence is determined by its map: two ascending sequences
   * representing the same map are the same sequence, so the order in which
   * the entries are walked depends only on the keys and values stored.
   */
  lemma {:induction false} AscendingUnique<T>(s: seq<(Bytes, T)>, t: seq<(Bytes, T)>)
    requires Ascending(s) && Ascending(t) && MapOf(s) == MapOf(t)
    ensures s == t
  {
    if |s| == 0 || |t| == 0 {
      if |s| > 0 {
        MapOfKeys(s, s[0].0);
      } else if |t| > 0 {
        MapOfKeys(t, t[0].0);
      }
    } else {
      if s[0].0 != t[0].0 {
        MapOfKeys(t, s[0].0);
        MapOfKeys(s, t[0].0);
        var j :| 0 <= j < |t| && t[j].0 == s[0].0;
        var m :| 0 <= m < |s| && s[m].0 == t[0].0;
        assert Less(t[0].0, s[0].0) && Less(s[0].0, t[0].0);
        LessAsymmetric(t[0].0, s[0].0);
      }
      MapOfAt(s, 0);
      MapOfAt(t, 0);
      AscendingTail(s);
      AscendingTail(t);
      MapOfTail(s);
      MapOfTail(t);
      AscendingUnique(s[1..], t[1..]);
      assert s == [s[0]] + s[1..] && t == [t[0]] + t[1..];
    }
  }

  /**
   * Where the search for k stopped at position i (everything before i is
   * smaller than k, nothing from i on is), either the entry at i carries k
   * or k is absent and strictly smaller than every key from i on.
   */
  lemma BoundaryAbsent<T>(s: seq<(Bytes, T)>, i: nat, k: Bytes)
    requires Ascending(s) && i <= |s|
    requires forall j :: 0 <= j < i ==> Less(s[j].0, k)
    requires forall j :: i <= j < |s| ==> !Less(s[j].0, k)
    requires i == |s| || s[i].0 != k
    ensures k !in MapOf(s)
    ensures FitsAt(s, i, k)
  {
    forall j | i <= j < |s| ensures Less(k, s[j].0) {
      LessTotal(s[i].0, k);
      if j > i {
        LessTransitive(k, s[i].0, s[j].0);
      }
    }
    forall j | 0 <= j < |s| ensures s[j].0 != k {
      LessIrreflexive(k);
    }
    MapOfKeys(s, k);
  }

  /** Inserting a new key at its place in the order keeps the sequence ascending and adds exactly that key. */
  lemma {:induction false} InsertAt<T>(s: seq<(Bytes, T)>, i: nat, k: Bytes, v: T)
    requires Ascending(s) && FitsAt(s, i, k)
    ensures Ascending(s[..i] + [(k, v)] + s[i..])
    ensures MapOf(s[..i] + [(k, v)] + s[i..]) == MapOf(s)[k := v]
  {
    var t := s[..i] + [(k, v)] + s[i..];
    forall a, b | 0 <= a < b < |t| ensures Less(t[a].0, t[b].0) {
      if a < i && b > i {
        assert t[a] == s[a] && t[b] == s[b - 1];
        LessTransitive(s[a].0, k, s[b - 1].0);
      } else if a < i && b == i {
        assert t[a] == s[a];
      } else if a < i {
        assert t[a] == s[a] && t[b] == s[b];
      } else if a == i {
        assert t[b] == s[b - 1];
      } else {
        assert t[a] == s[a - 1] && t[b] == s[b - 1];
      }
    }
    if i == 0 {
      assert t == [(k, v)] + s;
      assert t[1..] == s;
    } else {
      var s' := s[1..];
      AscendingTail(s);
      InsertAt(s', i - 1, k, v);
      assert t[0] == s[0];
      assert t[1..] == s'[..i - 1] + [(k, v)] + s'[i - 1..];
      LessIrreflexive(k);
      assert s[0].0 != k;
    }
  }

  /** Overwriting the value of the entry at i keeps the order and changes only that key's value. */
  lemma {:induction false} UpdateAt<T>(s: seq<(Bytes, T)>, i: nat, v: T)
    requires Ascending(s) && i < |s|
    ensures Ascending(s[i := (s[i].0, v)])
    ensures MapOf(s[i := (s[i].0, v)]) == MapOf(s)[s[i].0 := v]
  {
    var t := s[i := (s[i].0, v)];
    if i > 0 {
      var s' := s[1..];
      AscendingTail(s);
      UpdateAt(s', i - 1, v);
      assert t[1..] == s'[i - 1 := (s'[i - 1].0, v)];
      assert Less(s[0].0, s[i].0);
      LessIrreflexive(s[0].0);
    } else {
      assert t[1..] == s[1..];
    }
  }

  /** Erasing the entry at i keeps the order and removes exactly its key. */
  lemma {:induction false} RemoveAt<T>(s: seq<(Bytes, T)>, i: nat)
    requires Ascending(s) && i < |s|
    ensures Ascending(s[..i] + s[i + 1..])
    ensures MapOf(s[..i] + s[i + 1..]) == MapOf(s) - {s[i].0}
  {
    RemoveKeepsAscending(s, i);
    var t := s[..i] + s[i + 1..];
    var s' := s[1..];
    AscendingTail(s);
    if i == 0 {
      assert t == s';
      HeadNotInTail(s);
    } else {
      RemoveAt(s', i - 1);
      assert t[0] == s[0];
      assert t[1..] == s'[..i - 1] + s'[i..];
      assert s'[i - 1] == s[i];
      assert Less(s[0].0, s[i].0);
      LessIrreflexive(s[0].0);
    }
  }

  lemma RemoveKeepsAscending<T>(s: seq<(Bytes, T)>, i: nat)
    requires Ascending(s) && i < |s|
    ensures Ascending(s[..i] + s[i + 1..])
  {
    var t := s[..i] + s[i + 1..];
    forall a, b | 0 <= a < b < |t| ensures Less(t[a].0, t[b].0) {
      if b < i {
        assert t[a] == s[a] && t[b] == s[b];
      } else if a < i {
        assert t[a] == s[a] && t[b] == s[b + 1];
      } else {
        assert t[a] == s[a + 1] && t[b] == s[b + 1];
      }
    }
  }
}
