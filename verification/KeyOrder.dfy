/** The bytewise order of `sort.Strings`, and the one sorted listing of a finite set of keys. */
module KeyOrder {
  import opened Bytes

  type Key = seq<byte>

  predicate KeyLess(a: Key, b: Key) {
    if b == [] then false
    else if a == [] then true
    else if a[0] != b[0] then a[0] < b[0]
    else KeyLess(a[1..], b[1..])
  }

  predicate Sorted(ks: seq<Key>) {
    forall i, j :: 0 <= i < j < |ks| ==> KeyLess(ks[i], ks[j])
  }

  ghost predicate Lists(ks: seq<Key>, s: set<Key>) {
    Sorted(ks) && (forall k :: k in s <==> k in ks)
  }

  lemma {:induction false} KeyLessTransitive(a: Key, b: Key, c: Key)
    requires KeyLess(a, b) && KeyLess(b, c)
    ensures KeyLess(a, c)
  {
    if a != [] && a[0] == b[0] && b[0] == c[0] {
      KeyLessTransitive(a[1..], b[1..], c[1..]);
    }
  }

  lemma {:induction false} KeyLessTotal(a: Key, b: Key)
    ensures !KeyLess(a, a)
    ensures a != b ==> KeyLess(a, b) || KeyLess(b, a)
    ensures !(KeyLess(a, b) && KeyLess(b, a))
  {
    if a != [] {
      KeyLessTotal(a[1..], if b == [] then [] else b[1..]);
      if b != [] && a[0] == b[0] && a[1..] == b[1..] {
        assert a == [a[0]] + a[1..] && b == [b[0]] + b[1..];
      }
    }
  }

  ghost predicate IsLeast(m: Key, s: set<Key>) {
    m in s && forall k :: k in s && k != m ==> KeyLess(m, k)
  }

  lemma {:induction false} LeastExists(s: set<Key>)
    requires s != {}
    ensures exists m :: IsLeast(m, s)
    decreases |s|
  {
    var m :| m in s;
    var rest := s - {m};
    if rest == {} {
      assert s == {m};
      assert IsLeast(m, s);
    } else {
      LeastExists(rest);
      var n :| IsLeast(n, rest);
      KeyLessTotal(m, n);
      if KeyLess(n, m) {
        assert IsLeast(n, s);
      } else {
        forall k | k in s && k != m ensures KeyLess(m, k) {
          if k != n { KeyLessTransitive(m, n, k); }
        }
        assert IsLeast(m, s);
      }
    }
  }

  /** The keys of `s` in increasing order. */
  ghost function SortedKeys(s: set<Key>): (ks: seq<Key>)
    ensures forall i :: 0 <= i < |ks| ==> ks[i] in s
    decreases |s|
  {
    if s == {} then []
    else
      LeastExists(s);
      var m :| IsLeast(m, s);
      [m] + SortedKeys(s - {m})
  }

  lemma {:induction false} SortedKeysLists(s: set<Key>)
    ensures Lists(SortedKeys(s), s)
    decreases |s|
  {
    if s != {} {
      var ks := SortedKeys(s);
      var m := ks[0];
      assert IsLeast(m, s) && ks[1..] == SortedKeys(s - {m}) by {
        LeastExists(s);
      }
      SortedKeysLists(s - {m});
      ListsAfterLeast(m, ks[1..], s);
      assert ks == [m] + ks[1..];
    }
  }

  lemma ListsAfterLeast(m: Key, rest: seq<Key>, s: set<Key>)
    requires IsLeast(m, s) && Lists(rest, s - {m})
    ensures Lists([m] + rest, s)
  {
    var ks := [m] + rest;
    forall k ensures k in s <==> k in ks {
      assert k in ks <==> k == m || k in rest;
    }
    forall i, j | 0 <= i < j < |ks| ensures KeyLess(ks[i], ks[j]) {
      assert ks[j] == rest[j - 1] && rest[j - 1] in rest;
    }
  }

  /** Two increasing listings of the same keys are the same listing. */
  lemma {:induction false} ListingUnique(a: seq<Key>, b: seq<Key>, s: set<Key>)
    requires Lists(a, s) && Lists(b, s)
    ensures a == b
    decreases |a|
  {
    assert b != [] ==> a != [] by {
      if b != [] {
        assert b[0] in b && b[0] in s && b[0] in a;
      }
    }
    if a != [] {
      assert a[0] in a && a[0] in s && a[0] in b;
      assert a[0] in b && b[0] in a;
      var i :| 0 <= i < |b| && b[i] == a[0];
      var j :| 0 <= j < |a| && a[j] == b[0];
      KeyLessTotal(a[0], b[0]);
      assert a[0] == b[0];
      forall k ensures k in s - {a[0]} <==> k in a[1..] {
        KeyLessTotal(a[0], a[0]);
        assert k in a <==> k == a[0] || k in a[1..];
      }
      forall k ensures k in s - {a[0]} <==> k in b[1..] {
        KeyLessTotal(b[0], b[0]);
        assert k in b <==> k == b[0] || k in b[1..];
      }
      ListingUnique(a[1..], b[1..], s - {a[0]});
      assert a == [a[0]] + a[1..] && b == [b[0]] + b[1..];
    }
  }

  /** `sort.Strings` on the distinct keys of a map, whatever order the map yields them in. */
  method SortKeys(s: set<Key>) returns (ks: seq<Key>)
    ensures ks == SortedKeys(s)
  {
    ks := [];
    var todo := s;
    while todo != {}
      invariant todo <= s
      invariant Lists(ks, s - todo)
      decreases |todo|
    {
      var k :| k in todo;
      ghost var before := ks;
      var i := 0;
      while i < |ks| && KeyLess(ks[i], k)
        invariant 0 <= i <= |ks|
        invariant forall j :: 0 <= j < i ==> KeyLess(ks[j], k)
      {
        i := i + 1;
      }
      InsertKeepsOrder(ks, i, k);
      ks := ks[..i] + [k] + ks[i..];
      todo := todo - {k};
      forall x ensures x in s - todo <==> x in ks {
        assert before == before[..i] + before[i..];
        assert x in ks <==> x in before || x == k;
      }
    }
    assert s - todo == s;
    SortedKeysLists(s);
    ListingUnique(ks, SortedKeys(s), s);
  }

  lemma InsertKeepsOrder(ks: seq<Key>, i: nat, k: Key)
    requires Sorted(ks) && i <= |ks| && k !in ks
    requires forall j :: 0 <= j < i ==> KeyLess(ks[j], k)
    requires i < |ks| ==> !KeyLess(ks[i], k)
    ensures Sorted(ks[..i] + [k] + ks[i..])
  {
    if i < |ks| {
      KeyLessTotal(k, ks[i]);
      assert ks[i] in ks;
      forall j | i <= j < |ks| ensures KeyLess(k, ks[j]) {
        if i < j { KeyLessTransitive(k, ks[i], ks[j]); }
      }
    }
  }
}
