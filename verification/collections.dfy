/** Generic sequence and map helpers shared by every component of the scheduler:
    optional values, order-preserving filters and counts, first-occurrence
    de-duplication, sums over the values of a map, and the "read creates an
    empty entry" behaviour of a Python defaultdict. */
module Collections {

  /** A value that may be absent (a missing key of an input record). */
  datatype Option<T> = None | Some(value: T) {
    function GetOr(default: T): T {
      if Some? then value else default
    }
  }

  /** The elements of a sequence, as a set. */
  function Elems<T>(s: seq<T>): set<T> {
    set x | x in s
  }

  lemma ElemsEmpty<T>(s: seq<T>)
    ensures Elems(s) == {} <==> s == []
  {
    if s != [] {
      assert s[0] in Elems(s);
    }
  }

  /** The elements of `s` satisfying `p`, in their original order. */
  function Filter<T>(s: seq<T>, p: T -> bool): (r: seq<T>)
    ensures |r| <= |s|
    decreases |s|
  {
    if s == [] then []
    else Filter(s[..|s| - 1], p) + (if p(s[|s| - 1]) then [s[|s| - 1]] else [])
  }

  /** The number of elements of `s` satisfying `p`. */
  function Count<T>(s: seq<T>, p: T -> bool): nat {
    |Filter(s, p)|
  }

  /** An element survives the filter exactly when it occurs in `s` and satisfies `p`. */
  lemma {:induction false} FilterMembers<T>(s: seq<T>, p: T -> bool, x: T)
    ensures x in Filter(s, p) <==> x in s && p(x)
    decreases |s|
  {
    if s != [] {
      FilterMembers(s[..|s| - 1], p, x);
      assert s == s[..|s| - 1] + [s[|s| - 1]];
    }
  }

  lemma {:induction false} FilterConcat<T>(a: seq<T>, b: seq<T>, p: T -> bool)
    ensures Filter(a + b, p) == Filter(a, p) + Filter(b, p)
    decreases |b|
  {
    if b == [] {
      assert a + b == a;
    } else {
      var b' := b[..|b| - 1];
      assert (a + b)[..|a + b| - 1] == a + b';
      assert (a + b)[|a + b| - 1] == b[|b| - 1];
      FilterConcat(a, b', p);
    }
  }

  lemma FilterSnoc<T>(s: seq<T>, x: T, p: T -> bool)
    ensures Filter(s + [x], p) == Filter(s, p) + (if p(x) then [x] else [])
  {
    assert (s + [x])[..|s + [x]| - 1] == s;
  }

  lemma {:induction false} FilterCons<T>(x: T, s: seq<T>, p: T -> bool)
    ensures Filter([x] + s, p) == (if p(x) then [x] else []) + Filter(s, p)
  {
    FilterConcat([x], s, p);
    assert [x][..0] == [];
  }

  lemma ConcatAssoc<T>(a: seq<T>, b: seq<T>, c: seq<T>)
    ensures a + (b + c) == (a + b) + c
  {
  }

  /** A common first element does not disturb a relation between two filters. */
  lemma FilterConsStep<T>(h: T, t: seq<T>, u: seq<T>, tail: seq<T>, p: T -> bool)
    requires Filter(t, p) == Filter(u, p) + tail
    ensures Filter([h] + t, p) == Filter([h] + u, p) + tail
  {
    FilterConcat([h], t, p);
    FilterConcat([h], u, p);
    ConcatAssoc(Filter([h], p), Filter(u, p), tail);
  }

  /** Nothing survives a filter that no element satisfies. */
  lemma {:induction false} FilterNone<T>(s: seq<T>, p: T -> bool)
    requires forall i :: 0 <= i < |s| ==> !p(s[i])
    ensures Filter(s, p) == []
    decreases |s|
  {
    if s != [] {
      FilterNone(s[..|s| - 1], p);
    }
  }

  /** Everything survives a filter that every element satisfies. */
  lemma {:induction false} FilterAll<T>(s: seq<T>, p: T -> bool)
    requires forall i :: 0 <= i < |s| ==> p(s[i])
    ensures Filter(s, p) == s
    decreases |s|
  {
    if s != [] {
      var t := s[..|s| - 1];
      FilterAll(t, p);
      assert t + [s[|s| - 1]] == s;
    }
  }

  /** Filtering keeps exactly the satisfying occurrences, element by element. */
  lemma {:induction false} FilterMultiset<T>(s: seq<T>, p: T -> bool, x: T)
    ensures multiset(Filter(s, p))[x] == if p(x) then multiset(s)[x] else 0
    decreases |s|
  {
    if s != [] {
      var s' := s[..|s| - 1];
      assert s == s' + [s[|s| - 1]];
      FilterMultiset(s', p, x);
    }
  }

  /** Two filters that agree on every element of `s` give the same result. */
  lemma {:induction false} FilterCongruent<T>(s: seq<T>, p: T -> bool, q: T -> bool)
    requires forall x :: x in s ==> p(x) == q(x)
    ensures Filter(s, p) == Filter(s, q)
    decreases |s|
  {
    if s != [] {
      FilterCongruent(s[..|s| - 1], p, q);
    }
  }

  /** The map built by `for x in s: if keep(x): m[key(x)] = val(x)`: a key is
      present exactly when some kept element has it, and then holds the value of
      the last such element. */
  function LastWins<T, K(!new), V>(s: seq<T>, keep: T -> bool, key: T -> K, val: T -> V): (m: map<K, V>)
    ensures forall k :: k in m <==> exists i :: 0 <= i < |s| && keep(s[i]) && key(s[i]) == k
    ensures forall k :: k in m ==>
              exists i :: 0 <= i < |s| && keep(s[i]) && key(s[i]) == k && m[k] == val(s[i]) &&
                forall j :: i < j < |s| ==> !(keep(s[j]) && key(s[j]) == k)
    decreases |s|
  {
    if s == [] then map[]
    else
      var m := LastWins(s[..|s| - 1], keep, key, val);
      var x := s[|s| - 1];
      LastWinsStep(s, keep, key, val, m);
      if keep(x) then m[key(x) := val(x)] else m
  }

  /** The two clauses of `LastWins`'s contract, for the map `m` built from `s`. */
  ghost predicate LastWinsOf<T, K(!new), V>(s: seq<T>, keep: T -> bool, key: T -> K, val: T -> V, m: map<K, V>) {
    && (forall k :: k in m <==> exists i :: 0 <= i < |s| && keep(s[i]) && key(s[i]) == k)
    && (forall k :: k in m ==>
          exists i :: 0 <= i < |s| && keep(s[i]) && key(s[i]) == k && m[k] == val(s[i]) &&
            forall j :: i < j < |s| ==> !(keep(s[j]) && key(s[j]) == k))
  }

  /** One more element: it overwrites its key when kept, and changes nothing otherwise. */
  lemma LastWinsStep<T, K(!new), V>(s: seq<T>, keep: T -> bool, key: T -> K, val: T -> V, m: map<K, V>)
    requires s != [] && LastWinsOf(s[..|s| - 1], keep, key, val, m)
    ensures var x := s[|s| - 1];
      LastWinsOf(s, keep, key, val, if keep(x) then m[key(x) := val(x)] else m)
  {
    if keep(s[|s| - 1]) {
      LastWinsKept(s, keep, key, val, m);
    } else {
      LastWinsSkipped(s, keep, key, val, m);
    }
  }

  /** A kept element takes its key over. */
  lemma LastWinsKept<T, K(!new), V>(s: seq<T>, keep: T -> bool, key: T -> K, val: T -> V, m: map<K, V>)
    requires s != [] && LastWinsOf(s[..|s| - 1], keep, key, val, m) && keep(s[|s| - 1])
    ensures LastWinsOf(s, keep, key, val, m[key(s[|s| - 1]) := val(s[|s| - 1])])
  {
    var t := s[..|s| - 1];
    var x := s[|s| - 1];
    var m' := m[key(x) := val(x)];
    assert forall i :: 0 <= i < |t| ==> t[i] == s[i];
    forall k | k in m'
      ensures exists i :: 0 <= i < |s| && keep(s[i]) && key(s[i]) == k && m'[k] == val(s[i]) &&
                forall j :: i < j < |s| ==> !(keep(s[j]) && key(s[j]) == k)
    {
      if k == key(x) {
        assert keep(s[|s| - 1]) && key(s[|s| - 1]) == k && m'[k] == val(s[|s| - 1]);
      } else {
        var i :| 0 <= i < |t| && keep(t[i]) && key(t[i]) == k && m[k] == val(t[i]) &&
          forall j :: i < j < |t| ==> !(keep(t[j]) && key(t[j]) == k);
        assert s[i] == t[i];
      }
    }
  }

  /** A dropped element leaves the map as it was. */
  lemma LastWinsSkipped<T, K(!new), V>(s: seq<T>, keep: T -> bool, key: T -> K, val: T -> V, m: map<K, V>)
    requires s != [] && LastWinsOf(s[..|s| - 1], keep, key, val, m) && !keep(s[|s| - 1])
    ensures LastWinsOf(s, keep, key, val, m)
  {
    var t := s[..|s| - 1];
    assert forall i :: 0 <= i < |t| ==> t[i] == s[i];
    forall k | k in m
      ensures exists i :: 0 <= i < |s| && keep(s[i]) && key(s[i]) == k && m[k] == val(s[i]) &&
                forall j :: i < j < |s| ==> !(keep(s[j]) && key(s[j]) == k)
    {
      var i :| 0 <= i < |t| && keep(t[i]) && key(t[i]) == k && m[k] == val(t[i]) &&
        forall j :: i < j < |t| ==> !(keep(t[j]) && key(t[j]) == k);
      assert s[i] == t[i];
    }
  }

  /** No element occurs twice. */
  predicate Distinct<T(==)>(s: seq<T>) {
    forall i, j :: 0 <= i < j < |s| ==> s[i] != s[j]
  }

  /** The position of the first occurrence of `x` in `s`. */
  function IndexOf<T(==)>(s: seq<T>, x: T): (i: nat)
    requires x in s
    ensures i < |s| && s[i] == x
    ensures forall j :: 0 <= j < i ==> s[j] != x
  {
    if s[0] == x then 0 else 1 + IndexOf(s[1..], x)
  }

  /** The elements of `s` in order of first occurrence, each once; this is the
      `if x not in out: out.append(x)` idiom of the source. */
  function Dedup<T(==,!new)>(s: seq<T>): (r: seq<T>)
    ensures forall x :: x in r <==> x in s
    decreases |s|
  {
    if s == [] then []
    else
      var d := Dedup(s[..|s| - 1]);
      if s[|s| - 1] in d then d else d + [s[|s| - 1]]
  }

  lemma DedupSnoc<T(!new)>(s: seq<T>, x: T)
    ensures Dedup(s + [x]) == if x in Dedup(s) then Dedup(s) else Dedup(s) + [x]
  {
    assert (s + [x])[..|s + [x]| - 1] == s;
  }

  /** A non-empty sequence of copies of `c` has `[c]` as its first occurrences. */
  lemma {:induction false} DedupCopies<T(!new)>(s: seq<T>, c: T)
    requires s != [] && forall i :: 0 <= i < |s| ==> s[i] == c
    ensures Dedup(s) == [c]
    decreases |s|
  {
    if |s| > 1 {
      DedupCopies(s[..|s| - 1], c);
    }
  }

  /** A map with the one key `c`, holding `v` there, is `map[c := v]`. */
  lemma SingletonMap<K, V>(m: map<K, V>, c: K, v: V)
    requires m.Keys == {c} && m[c] == v
    ensures m == map[c := v]
  {
  }

  /** `Dedup` keeps every element once, drops nothing, and keeps the order of
      first occurrences. */
  lemma {:induction false} DedupSpec<T(!new)>(s: seq<T>)
    ensures Distinct(Dedup(s))
    ensures Elems(Dedup(s)) == Elems(s)
    ensures forall i, j :: 0 <= i < j < |Dedup(s)| ==>
              IndexOf(s, Dedup(s)[i]) < IndexOf(s, Dedup(s)[j])
    decreases |s|
  {
    if s != [] {
      var s' := s[..|s| - 1];
      var x := s[|s| - 1];
      var d := Dedup(s');
      DedupSpec(s');
      assert s == s' + [x];
      forall y | y in s'
        ensures IndexOf(s, y) == IndexOf(s', y)
      {
        IndexPrefix(s', [x], y);
      }
      if x !in d {
        assert x !in s';
        assert IndexOf(s, x) == |s'|;
        forall i | 0 <= i < |d|
          ensures IndexOf(s, d[i]) < IndexOf(s, x)
        {
          assert d[i] in Elems(s');
        }
      }
    }
  }

  lemma {:induction false} IndexPrefix<T>(a: seq<T>, b: seq<T>, y: T)
    requires y in a
    ensures IndexOf(a + b, y) == IndexOf(a, y)
    decreases |a|
  {
    if a[0] != y {
      assert (a + b)[1..] == a[1..] + b;
      IndexPrefix(a[1..], b, y);
    }
  }

  /** Total, over the keys `ks` of `m`, of the measure `f` of each value. */
  ghost function SumKeys<K, V>(m: map<K, V>, ks: set<K>, f: V -> nat): nat
    requires ks <= m.Keys
    decreases ks
  {
    if ks == {} then 0
    else
      var k :| k in ks;
      f(m[k]) + SumKeys(m, ks - {k}, f)
  }

  /** Total, over all keys of `m`, of the measure `f` of each value. */
  ghost function SumOver<K, V>(m: map<K, V>, f: V -> nat): nat {
    SumKeys(m, m.Keys, f)
  }

  /** The total does not depend on which key is taken out first. */
  lemma {:induction false} SumKeysRemove<K, V>(m: map<K, V>, ks: set<K>, k: K, f: V -> nat)
    requires ks <= m.Keys && k in ks
    ensures SumKeys(m, ks, f) == f(m[k]) + SumKeys(m, ks - {k}, f)
    decreases ks
  {
    var k' :| k' in ks && SumKeys(m, ks, f) == f(m[k']) + SumKeys(m, ks - {k'}, f);
    if k' != k {
      SumKeysRemove(m, ks - {k'}, k, f);
      SumKeysRemove(m, ks - {k}, k', f);
      assert ks - {k'} - {k} == ks - {k} - {k'};
    }
  }

  /** Two maps whose values have the same measures on `ks` have the same total there. */
  lemma {:induction false} SumKeysAgree<K, V>(m1: map<K, V>, m2: map<K, V>, ks: set<K>, f: V -> nat)
    requires ks <= m1.Keys && ks <= m2.Keys
    requires forall k :: k in ks ==> f(m1[k]) == f(m2[k])
    ensures SumKeys(m1, ks, f) == SumKeys(m2, ks, f)
    decreases ks
  {
    if ks != {} {
      var k :| k in ks;
      SumKeysRemove(m1, ks, k, f);
      SumKeysRemove(m2, ks, k, f);
      SumKeysAgree(m1, m2, ks - {k}, f);
    }
  }

  /** Replacing (or adding) one value changes the total by the difference of measures. */
  lemma SumOverUpdate<K, V>(m: map<K, V>, k: K, v: V, f: V -> nat)
    ensures k in m ==> SumOver(m[k := v], f) + f(m[k]) == SumOver(m, f) + f(v)
    ensures k !in m ==> SumOver(m[k := v], f) == SumOver(m, f) + f(v)
  {
    var m' := m[k := v];
    var rest := m.Keys - {k};
    SumKeysRemove(m', m'.Keys, k, f);
    assert m'.Keys - {k} == rest;
    SumKeysAgree(m', m, rest, f);
    if k in m {
      SumKeysRemove(m, m.Keys, k, f);
    } else {
      assert rest == m.Keys;
    }
  }

  lemma {:induction false} SumKeysZero<K, V>(m: map<K, V>, ks: set<K>, f: V -> nat)
    requires ks <= m.Keys
    requires forall k :: k in ks ==> f(m[k]) == 0
    ensures SumKeys(m, ks, f) == 0
    decreases ks
  {
    if ks != {} {
      var k :| k in ks;
      SumKeysRemove(m, ks, k, f);
      SumKeysZero(m, ks - {k}, f);
    }
  }

  lemma {:induction false} SumKeysSplit<K, V>(m: map<K, V>, a: set<K>, b: set<K>, f: V -> nat)
    requires a + b <= m.Keys && a !! b
    ensures SumKeys(m, a + b, f) == SumKeys(m, a, f) + SumKeys(m, b, f)
    decreases a
  {
    if a == {} {
      assert a + b == b;
    } else {
      var k :| k in a;
      SumKeysRemove(m, a + b, k, f);
      SumKeysRemove(m, a, k, f);
      assert (a + b) - {k} == (a - {k}) + b;
      SumKeysSplit(m, a - {k}, b, f);
    }
  }

  /** Adding keys of measure zero, and keeping the measures of the old keys,
      keeps the total. */
  lemma SumOverGrow<K, V>(m1: map<K, V>, m2: map<K, V>, f: V -> nat)
    requires m1.Keys <= m2.Keys
    requires forall k :: k in m2 && k !in m1 ==> f(m2[k]) == 0
    requires forall k :: k in m1 ==> f(m2[k]) == f(m1[k])
    ensures SumOver(m2, f) == SumOver(m1, f)
  {
    var extra := m2.Keys - m1.Keys;
    assert m1.Keys + extra == m2.Keys;
    SumKeysSplit(m2, m1.Keys, extra, f);
    SumKeysZero(m2, extra, f);
    SumKeysAgree(m2, m1, m1.Keys, f);
  }

  /** `counts[key(x)] += 1` for each `x` of `s` in turn, on a defaultdict of ints. */
  function Tally<T, K>(s: seq<T>, key: T -> K): map<K, nat>
    decreases |s|
  {
    if s == [] then map[]
    else
      var m := Tally(s[..|s| - 1], key);
      var k := key(s[|s| - 1]);
      m[k := if k in m then m[k] + 1 else 1]
  }

  /** Elements whose key is `k`. */
  function HasKey<T, K(==)>(key: T -> K, k: K): T -> bool {
    (x: T) => key(x) == k
  }

  /** A key is tallied exactly when some element has it, and its count is the
      number of elements that do. */
  lemma {:induction false} TallyCounts<T, K>(s: seq<T>, key: T -> K, k: K)
    ensures k in Tally(s, key) <==> exists i :: 0 <= i < |s| && key(s[i]) == k
    ensures k in Tally(s, key) ==> Tally(s, key)[k] == Count(s, HasKey(key, k))
    ensures k !in Tally(s, key) ==> Count(s, HasKey(key, k)) == 0
    decreases |s|
  {
    if s != [] {
      var prefix := s[..|s| - 1];
      var x := s[|s| - 1];
      TallyCounts(prefix, key, k);
      assert s == prefix + [x];
      FilterSnoc(prefix, x, HasKey(key, k));
      if exists i :: 0 <= i < |prefix| && key(prefix[i]) == k {
        var i :| 0 <= i < |prefix| && key(prefix[i]) == k;
        assert key(s[i]) == k;
      }
      if key(x) != k && exists i :: 0 <= i < |s| && key(s[i]) == k {
        var i :| 0 <= i < |s| && key(s[i]) == k;
        assert key(prefix[i]) == k;
      }
    }
  }

  function Identity(): nat -> nat {
    (n: nat) => n
  }

  /** The counts add up to the number of elements. */
  lemma {:induction false} TallyTotal<T, K>(s: seq<T>, key: T -> K)
    ensures SumOver(Tally(s, key), Identity()) == |s|
    decreases |s|
  {
    if s != [] {
      var m := Tally(s[..|s| - 1], key);
      var k := key(s[|s| - 1]);
      TallyTotal(s[..|s| - 1], key);
      SumOverUpdate(m, k, if k in m then m[k] + 1 else 1, Identity());
    }
  }

  /** Reading key `k` of a Python defaultdict: an absent key is created with the
      default value, present keys are left alone. */
  function Touch<K, V>(m: map<K, V>, k: K, default: V): (r: map<K, V>)
    ensures r.Keys == m.Keys + {k}
    ensures forall k' :: k' in m ==> r[k'] == m[k']
    ensures k !in m ==> r[k] == default
  {
    if k in m then m else m[k := default]
  }
}
