/** Python's `list.sort(key=...)` for an integer key: a stable sort, written
    as an insertion sort that places each element after every element whose
    key is at most its own. */
module StableSort {
  import opened Collections

  predicate SortedBy<T>(s: seq<T>, key: T -> int) {
    forall i, j :: 0 <= i < j < |s| ==> key(s[i]) <= key(s[j])
  }

  /** Elements whose key is `k`. */
  function KeyIs<T>(key: T -> int, k: int): T -> bool {
    (x: T) => key(x) == k
  }

  function Insert<T>(s: seq<T>, x: T, key: T -> int): (r: seq<T>)
    requires SortedBy(s, key)
    ensures SortedBy(r, key)
    ensures multiset(r) == multiset(s) + multiset{x}
    decreases |s|
  {
    if s == [] then [x]
    else if key(x) < key(s[0]) then [x] + s
    else
      var t := Insert(s[1..], x, key);
      assert s == [s[0]] + s[1..];
      assert forall i :: 0 <= i < |t| ==> key(s[0]) <= key(t[i]) by {
        forall i | 0 <= i < |t|
          ensures key(s[0]) <= key(t[i])
        {
          assert t[i] in multiset(t);
          if t[i] != x {
            assert t[i] in multiset(s[1..]);
            assert t[i] in s[1..];
          }
        }
      }
      [s[0]] + t
  }

  function Sort<T>(s: seq<T>, key: T -> int): (r: seq<T>)
    ensures SortedBy(r, key)
    ensures multiset(r) == multiset(s)
    decreases |s|
  {
    if s == [] then []
    else
      assert s == s[..|s| - 1] + [s[|s| - 1]];
      Insert(Sort(s[..|s| - 1], key), s[|s| - 1], key)
  }

  /** Inserting keeps the relative order within each key and puts `x` last among its key. */
  lemma {:induction false} InsertStable<T>(s: seq<T>, x: T, key: T -> int, k: int)
    requires SortedBy(s, key)
    ensures Filter(Insert(s, x, key), KeyIs(key, k)) == Filter(s, KeyIs(key, k)) + (if key(x) == k then [x] else [])
    decreases |s|, 1
  {
    if s == [] {
      FilterCons(x, [], KeyIs(key, k));
    } else if key(x) < key(s[0]) {
      InsertFrontStable(s, x, key, k);
    } else {
      InsertLaterStable(s, x, key, k);
    }
  }

  lemma InsertFrontStable<T>(s: seq<T>, x: T, key: T -> int, k: int)
    requires SortedBy(s, key) && s != [] && key(x) < key(s[0])
    ensures Filter(Insert(s, x, key), KeyIs(key, k)) == Filter(s, KeyIs(key, k)) + (if key(x) == k then [x] else [])
  {
    var p := KeyIs(key, k);
    FilterCons(x, s, p);
    if key(x) == k {
      assert forall i :: 0 <= i < |s| ==> !p(s[i]) by {
        forall i | 0 <= i < |s|
          ensures !p(s[i])
        {
          assert i == 0 || key(s[0]) <= key(s[i]);
        }
      }
      FilterNone(s, p);
    }
  }

  lemma {:induction false} InsertLaterStable<T>(s: seq<T>, x: T, key: T -> int, k: int)
    requires SortedBy(s, key) && s != [] && key(s[0]) <= key(x)
    ensures Filter(Insert(s, x, key), KeyIs(key, k)) == Filter(s, KeyIs(key, k)) + (if key(x) == k then [x] else [])
    decreases |s|, 0
  {
    var t := Insert(s[1..], x, key);
    assert Insert(s, x, key) == [s[0]] + t;
    InsertStable(s[1..], x, key, k);
    FilterConsStep(s[0], t, s[1..], if key(x) == k then [x] else [], KeyIs(key, k));
    assert s == [s[0]] + s[1..];
  }

  /** The sort is stable: the elements of each key keep their input order. */
  lemma {:induction false} SortStable<T>(s: seq<T>, key: T -> int, k: int)
    ensures Filter(Sort(s, key), KeyIs(key, k)) == Filter(s, KeyIs(key, k))
    decreases |s|
  {
    if s != [] {
      var s', x, p := s[..|s| - 1], s[|s| - 1], KeyIs(key, k);
      var t := Sort(s', key);
      var tail := if key(x) == k then [x] else [];
      calc {
        Filter(Sort(s, key), p);
        Filter(Insert(t, x, key), p);
        { InsertStable(t, x, key, k); }
        Filter(t, p) + tail;
        { SortStable(s', key, k); }
        Filter(s', p) + tail;
        { FilterSnoc(s', x, p); }
        Filter(s' + [x], p);
        { assert s' + [x] == s; }
        Filter(s, p);
      }
    }
  }
}
