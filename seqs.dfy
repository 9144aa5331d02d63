/**
 * Row-sequence operations of a data-frame library, on plain sequences:
 * boolean-mask filtering, column mapping, `drop_duplicates` with
 * `keep="first"` / `keep="last"`, `head` and `tail`.
 */
module Seqs {
  import opened Ordering

  /** Boolean-mask selection: keeps the rows satisfying `p`, in order. */
  function Filter<T(!new)>(s: seq<T>, p: T -> bool): (r: seq<T>)
    ensures |r| <= |s|
  {
    if s == [] then []
    else (if p(s[0]) then [s[0]] else []) + Filter(s[1..], p)
  }

  /** The selection holds exactly the copies of the elements satisfying `p`. */
  lemma {:induction false} FilterSpec<T(!new)>(s: seq<T>, p: T -> bool)
    ensures forall i :: 0 <= i < |Filter(s, p)| ==> p(Filter(s, p)[i])
    ensures forall x :: multiset(Filter(s, p))[x] == if p(x) then multiset(s)[x] else 0
    ensures forall x :: x in Filter(s, p) <==> x in s && p(x)
    decreases |s|
  {
    if s != [] {
      FilterSpec(s[1..], p);
      assert s == [s[0]] + s[1..];
      var h := if p(s[0]) then [s[0]] else [];
      var t := Filter(s[1..], p);
      assert Filter(s, p) == h + t;
      assert multiset(Filter(s, p)) == multiset(h) + multiset(t);
      assert multiset(s) == multiset{s[0]} + multiset(s[1..]);
      forall x ensures x in Filter(s, p) <==> x in s && p(x) {
        assert x in Filter(s, p) <==> multiset(Filter(s, p))[x] > 0;
        assert x in s <==> multiset(s)[x] > 0;
      }
    }
  }

  /** The selection holds exactly the elements satisfying `p`. */
  lemma FilterMembers<T(!new)>(s: seq<T>, p: T -> bool)
    ensures forall x :: x in Filter(s, p) <==> x in s && p(x)
  {
    FilterSpec(s, p);
  }

  /** The selection is a sub-multiset of its input. */
  lemma FilterSub<T(!new)>(s: seq<T>, p: T -> bool)
    ensures multiset(Filter(s, p)) <= multiset(s)
  {
    FilterSpec(s, p);
    assert forall x :: multiset(Filter(s, p))[x] <= multiset(s)[x];
  }

  /** Nothing passes a filter that no element satisfies. */
  lemma {:induction false} FilterNone<T(!new)>(s: seq<T>, p: T -> bool)
    requires forall x :: x in s ==> !p(x)
    ensures Filter(s, p) == []
    decreases |s|
  {
    if s != [] {
      assert s[0] in s;
      assert forall x :: x in s[1..] ==> x in s;
      FilterNone(s[1..], p);
    }
  }

  lemma {:induction false} FilterAppend<T(!new)>(a: seq<T>, b: seq<T>, p: T -> bool)
    ensures Filter(a + b, p) == Filter(a, p) + Filter(b, p)
    decreases |a|
  {
    if a == [] {
      assert a + b == b;
    } else {
      var ab := a + b;
      assert ab != [] && ab[0] == a[0] && ab[1..] == a[1..] + b;
      var h := if p(a[0]) then [a[0]] else [];
      var fa, fb, fr := Filter(a[1..], p), Filter(b, p), Filter(a[1..] + b, p);
      FilterAppend(a[1..], b, p);
      assert Filter(ab, p) == h + fr;
      assert Filter(a, p) == h + fa;
      assert h + (fa + fb) == (h + fa) + fb;
    }
  }

  /**
   * The mask keeps the input's order: extending the input by one element
   * extends the selection by that element exactly when it passes.
   */
  lemma FilterSnoc<T(!new)>(s: seq<T>, x: T, p: T -> bool)
    ensures Filter(s + [x], p) == Filter(s, p) + (if p(x) then [x] else [])
  {
    FilterAppend(s, [x], p);
    assert [x][1..] == [];
  }

  /** The identity, as a key function. */
  function Id<T>(x: T): T {
    x
  }

  function MapSeq<A, B>(s: seq<A>, f: A -> B): (r: seq<B>)
    ensures |r| == |s|
    ensures forall i :: 0 <= i < |s| ==> r[i] == f(s[i])
  {
    if s == [] then [] else [f(s[0])] + MapSeq(s[1..], f)
  }

  /** Every element of the image is the image of an element, and every element has its image there. */
  lemma MapSeqMembers<A, B>(s: seq<A>, f: A -> B)
    ensures forall y :: y in MapSeq(s, f) ==> exists x :: x in s && y == f(x)
    ensures forall x :: x in s ==> f(x) in MapSeq(s, f)
  {
    var r := MapSeq(s, f);
    forall y | y in r ensures exists x :: x in s && y == f(x) {
      var i :| 0 <= i < |r| && r[i] == y;
      assert s[i] in s;
    }
    forall x | x in s ensures f(x) in r {
      var i :| 0 <= i < |s| && s[i] == x;
      assert r[i] == f(x);
    }
  }

  lemma {:induction false} MapSeqAppend<A, B>(a: seq<A>, b: seq<A>, f: A -> B)
    ensures MapSeq(a + b, f) == MapSeq(a, f) + MapSeq(b, f)
  {
  }

  function Concat<T(!new)>(ss: seq<seq<T>>): (r: seq<T>)
    ensures forall x :: x in r <==> exists i :: 0 <= i < |ss| && x in ss[i]
  {
    if ss == [] then []
    else
      var r := Concat(ss[..|ss| - 1]) + ss[|ss| - 1];
      assert forall i :: 0 <= i < |ss| - 1 ==> ss[..|ss| - 1][i] == ss[i];
      r
  }

  predicate HasKeyIn<T, K(==)>(s: seq<T>, k: T -> K, key: K) {
    exists i :: 0 <= i < |s| && k(s[i]) == key
  }

  ghost predicate UniqueKeys<T, K>(s: seq<T>, k: T -> K) {
    forall i, j :: 0 <= i < j < |s| ==> k(s[i]) != k(s[j])
  }

  /** `drop_duplicates(keep="last")`: a row survives when no later row has its key. */
  function KeepLast<T, K(==)>(s: seq<T>, k: T -> K): (r: seq<T>)
    ensures multiset(r) <= multiset(s)
  {
    if s == [] then []
    else
      assert s == [s[0]] + s[1..];
      (if HasKeyIn(s[1..], k, k(s[0])) then [] else [s[0]]) + KeepLast(s[1..], k)
  }

  /** A kept row is the last row of its key. */
  lemma {:induction false} KeepLastIsLast<T, K>(s: seq<T>, k: T -> K, x: T) returns (i: int)
    requires x in KeepLast(s, k)
    ensures 0 <= i < |s| && s[i] == x
    ensures forall j :: i < j < |s| ==> k(s[j]) != k(x)
    decreases |s|
  {
    var rest := KeepLast(s[1..], k);
    assert KeepLast(s, k) == (if HasKeyIn(s[1..], k, k(s[0])) then [] else [s[0]]) + rest;
    if x in rest {
      var i' := KeepLastIsLast(s[1..], k, x);
      i := i' + 1;
      assert s[i] == x;
      forall j | i < j < |s| ensures k(s[j]) != k(x) {
        assert s[j] == s[1..][j - 1];
      }
    } else {
      i := 0;
      assert !HasKeyIn(s[1..], k, k(s[0])) && x == s[0];
      forall j | 0 < j < |s| ensures k(s[j]) != k(x) {
        assert s[j] == s[1..][j - 1];
      }
    }
  }

  /** On a sorted sequence, the row `keep="last"` keeps for a key is maximal among the rows with that key. */
  lemma KeepLastIsMaximal<T, K>(s: seq<T>, k: T -> K, key: T -> seq<Atom>, x: T, y: T)
    requires SortedBy(s, key)
    requires x in KeepLast(s, k) && y in s && k(y) == k(x)
    ensures KeyLe(key(y), key(x))
  {
    var i := KeepLastIsLast(s, k, x);
    var j :| 0 <= j < |s| && s[j] == y;
    assert k(s[j]) == k(x);
    if j == i {
      KeyLeReflexive(key(x));
    }
  }

  lemma {:induction false} KeepLastCovers<T, K>(s: seq<T>, k: T -> K, i: int)
    requires 0 <= i < |s|
    ensures exists y :: y in KeepLast(s, k) && k(y) == k(s[i])
    decreases |s|
  {
    var rest := KeepLast(s[1..], k);
    assert KeepLast(s, k) == (if HasKeyIn(s[1..], k, k(s[0])) then [] else [s[0]]) + rest;
    if i == 0 {
      if HasKeyIn(s[1..], k, k(s[0])) {
        var j :| 0 <= j < |s[1..]| && k(s[1..][j]) == k(s[0]);
        KeepLastCovers(s[1..], k, j);
      } else {
        assert s[0] in KeepLast(s, k);
      }
    } else {
      KeepLastCovers(s[1..], k, i - 1);
      var y :| y in rest && k(y) == k(s[1..][i - 1]);
      assert y in KeepLast(s, k);
    }
  }

  lemma {:induction false} KeepLastUnique<T, K>(s: seq<T>, k: T -> K)
    ensures UniqueKeys(KeepLast(s, k), k)
    decreases |s|
  {
    if s != [] {
      var rest := KeepLast(s[1..], k);
      KeepLastUnique(s[1..], k);
      if !HasKeyIn(s[1..], k, k(s[0])) {
        forall j | 0 <= j < |rest| ensures k(rest[j]) != k(s[0]) {
          assert rest[j] in multiset(rest);
          assert rest[j] in s[1..];
          var m :| 0 <= m < |s[1..]| && s[1..][m] == rest[j];
        }
        assert KeepLast(s, k) == [s[0]] + rest;
      }
    }
  }

  lemma {:induction false} KeepLastSorted<T, K>(s: seq<T>, k: T -> K, key: T -> seq<Atom>)
    requires SortedBy(s, key)
    ensures SortedBy(KeepLast(s, k), key)
    decreases |s|
  {
    if s != [] {
      var rest := KeepLast(s[1..], k);
      assert SortedBy(s[1..], key);
      KeepLastSorted(s[1..], k, key);
      if !HasKeyIn(s[1..], k, k(s[0])) {
        forall j | 0 <= j < |rest| ensures KeyLe(key(s[0]), key(rest[j])) {
          assert rest[j] in multiset(rest);
          assert rest[j] in s[1..];
          var m :| 0 <= m < |s[1..]| && s[1..][m] == rest[j];
          assert s[m + 1] == rest[j];
        }
        assert KeepLast(s, k) == [s[0]] + rest;
      }
    }
  }

  /** On rows whose keys are already distinct, `KeepLast` changes nothing. */
  lemma {:induction false} KeepLastOfUniqueIsIdentity<T, K>(s: seq<T>, k: T -> K)
    requires UniqueKeys(s, k)
    ensures KeepLast(s, k) == s
    decreases |s|
  {
    if s != [] {
      var t := s[1..];
      assert UniqueKeys(t, k) by {
        forall i, j | 0 <= i < j < |t| ensures k(t[i]) != k(t[j]) {
          assert t[i] == s[i + 1] && t[j] == s[j + 1];
        }
      }
      KeepLastOfUniqueIsIdentity(t, k);
      assert !HasKeyIn(t, k, k(s[0])) by {
        forall j | 0 <= j < |t| ensures k(t[j]) != k(s[0]) {
          assert t[j] == s[j + 1];
        }
      }
      assert KeepLast(s, k) == [s[0]] + t;
      assert s == [s[0]] + t;
    }
  }

  /** `drop_duplicates(keep="first")`: a row survives when no earlier row has its key. */
  function KeepFirst<T, K(==)>(s: seq<T>, k: T -> K): (r: seq<T>)
    ensures multiset(r) <= multiset(s)
  {
    if s == [] then []
    else
      var init := s[..|s| - 1];
      assert s == init + [s[|s| - 1]];
      KeepFirst(init, k) + (if HasKeyIn(init, k, k(s[|s| - 1])) then [] else [s[|s| - 1]])
  }

  /** The distinct keys of a sequence. */
  ghost function Keys<T, K>(s: seq<T>, k: T -> K): set<K> {
    set x | x in s :: k(x)
  }

  /** Appending a row adds its key to the key set. */
  lemma KeysSnoc<T, K>(s: seq<T>, y: T, k: T -> K)
    ensures Keys(s + [y], k) == Keys(s, k) + {k(y)}
  {
    forall z | z in Keys(s + [y], k) ensures z in Keys(s, k) + {k(y)} {
      var x :| x in s + [y] && z == k(x);
      if x != y {
        assert x in s;
      }
    }
    forall z | z in Keys(s, k) ensures z in Keys(s + [y], k) {
      var x :| x in s && z == k(x);
      assert x in s + [y];
    }
    assert y in s + [y];
  }

  /** A key occurs in a sequence exactly when it is in its key set. */
  lemma HasKeyInKeys<T, K>(s: seq<T>, k: T -> K, key: K)
    ensures HasKeyIn(s, k, key) <==> key in Keys(s, k)
  {
    if key in Keys(s, k) {
      var x :| x in s && key == k(x);
      var i :| 0 <= i < |s| && s[i] == x;
    }
    if HasKeyIn(s, k, key) {
      var i :| 0 <= i < |s| && k(s[i]) == key;
      assert s[i] in s;
    }
  }

  /** `keep="first"` keeps one row per distinct key, so its length is the number of distinct keys. */
  lemma {:induction false} KeepFirstCount<T, K>(s: seq<T>, k: T -> K)
    ensures |KeepFirst(s, k)| == |Keys(s, k)|
    decreases |s|
  {
    if s != [] {
      var init, y := s[..|s| - 1], s[|s| - 1];
      assert s == init + [y];
      KeepFirstCount(init, k);
      KeysSnoc(init, y, k);
      HasKeyInKeys(init, k, k(y));
    }
  }

  /** A kept row is the first row of its key. */
  lemma {:induction false} KeepFirstIsFirst<T, K>(s: seq<T>, k: T -> K, x: T) returns (i: int)
    requires x in KeepFirst(s, k)
    ensures 0 <= i < |s| && s[i] == x
    ensures forall j :: 0 <= j < i ==> k(s[j]) != k(x)
    decreases |s|
  {
    var init := s[..|s| - 1];
    if x in KeepFirst(init, k) {
      i := KeepFirstIsFirst(init, k, x);
      assert s[i] == x;
      forall j | 0 <= j < i ensures k(s[j]) != k(x) {
        assert s[j] == init[j];
      }
    } else {
      i := |s| - 1;
      assert !HasKeyIn(init, k, k(s[i])) && x == s[i];
      forall j | 0 <= j < i ensures k(s[j]) != k(x) {
        assert s[j] == init[j];
      }
    }
  }

  lemma {:induction false} KeepFirstCovers<T, K>(s: seq<T>, k: T -> K, i: int)
    requires 0 <= i < |s|
    ensures exists y :: y in KeepFirst(s, k) && k(y) == k(s[i])
    decreases |s|
  {
    var init := s[..|s| - 1];
    var last := s[|s| - 1];
    assert KeepFirst(s, k) == KeepFirst(init, k) + (if HasKeyIn(init, k, k(last)) then [] else [last]);
    if i == |s| - 1 {
      if HasKeyIn(init, k, k(last)) {
        var j :| 0 <= j < |init| && k(init[j]) == k(last);
        KeepFirstCovers(init, k, j);
      } else {
        assert last in KeepFirst(s, k);
      }
    } else {
      KeepFirstCovers(init, k, i);
      assert init[i] == s[i];
    }
  }

  lemma {:induction false} KeepFirstUnique<T, K>(s: seq<T>, k: T -> K)
    ensures UniqueKeys(KeepFirst(s, k), k)
    decreases |s|
  {
    if s != [] {
      var init := s[..|s| - 1];
      var last := s[|s| - 1];
      var front := KeepFirst(init, k);
      KeepFirstUnique(init, k);
      if !HasKeyIn(init, k, k(last)) {
        forall j | 0 <= j < |front| ensures k(front[j]) != k(last) {
          assert front[j] in multiset(front);
          assert front[j] in init;
          var m :| 0 <= m < |init| && init[m] == front[j];
        }
        assert KeepFirst(s, k) == front + [last];
      }
    }
  }

  lemma {:induction false} KeepFirstSorted<T, K>(s: seq<T>, k: T -> K, key: T -> seq<Atom>)
    requires SortedBy(s, key)
    ensures SortedBy(KeepFirst(s, k), key)
    decreases |s|
  {
    if s != [] {
      var init := s[..|s| - 1];
      var last := s[|s| - 1];
      var front := KeepFirst(init, k);
      assert SortedBy(init, key);
      KeepFirstSorted(init, k, key);
      if !HasKeyIn(init, k, k(last)) {
        forall j | 0 <= j < |front| ensures KeyLe(key(front[j]), key(last)) {
          assert front[j] in multiset(front);
          assert front[j] in init;
          var m :| 0 <= m < |init| && init[m] == front[j];
          assert s[m] == front[j];
        }
        assert KeepFirst(s, k) == front + [last];
      }
    }
  }

  /** On a sorted sequence, the row `keep="first"` keeps for a key is minimal among the rows with that key. */
  lemma KeepFirstIsMinimal<T, K>(s: seq<T>, k: T -> K, key: T -> seq<Atom>, x: T, y: T)
    requires SortedBy(s, key)
    requires x in KeepFirst(s, k) && y in s && k(y) == k(x)
    ensures KeyLe(key(x), key(y))
  {
    var i := KeepFirstIsFirst(s, k, x);
    var j :| 0 <= j < |s| && s[j] == y;
    if j == i {
      KeyLeReflexive(key(x));
    }
  }

  /** No element occurs twice. */
  ghost predicate Distinct<T>(s: seq<T>) {
    forall i, j :: 0 <= i < j < |s| ==> s[i] != s[j]
  }

  lemma {:induction false} DistinctCountAtMostOne<T>(s: seq<T>, x: T)
    requires Distinct(s)
    ensures multiset(s)[x] <= 1
    decreases |s|
  {
    if s != [] {
      assert s == [s[0]] + s[1..];
      forall i, j | 0 <= i < j < |s[1..]| ensures s[1..][i] != s[1..][j] {
        assert s[1..][i] == s[i + 1] && s[1..][j] == s[j + 1];
      }
      DistinctCountAtMostOne(s[1..], x);
      forall i | 0 <= i < |s[1..]| ensures s[1..][i] != s[0] {
        assert s[1..][i] == s[i + 1];
      }
    }
  }

  /** A permutation of a sequence without repetitions has none either. */
  lemma DistinctOfPermutation<T>(s: seq<T>, t: seq<T>)
    requires Distinct(s) && multiset(s) == multiset(t)
    ensures Distinct(t)
  {
    forall i, j | 0 <= i < j < |t| ensures t[i] != t[j] {
      var x := t[i];
      DistinctCountAtMostOne(s, x);
      assert t == t[..j] + t[j..];
      assert t[..j][i] == x && t[j..][0] == t[j];
      assert multiset(t)[x] == multiset(t[..j])[x] + multiset(t[j..])[x];
      assert x in multiset(t[..j]) && t[j] in multiset(t[j..]);
    }
  }

  /** A sequence without repeated keys has no repeated elements. */
  lemma UniqueKeysDistinct<T, K>(s: seq<T>, k: T -> K)
    requires UniqueKeys(s, k)
    ensures Distinct(s)
  {
  }

  /** A permutation of a sequence without repeated keys has none either. */
  lemma UniqueKeysOfPermutation<T, K>(s: seq<T>, t: seq<T>, k: T -> K)
    requires UniqueKeys(s, k) && multiset(s) == multiset(t)
    ensures UniqueKeys(t, k)
  {
    UniqueKeysDistinct(s, k);
    DistinctOfPermutation(s, t);
    forall i, j | 0 <= i < j < |t| ensures k(t[i]) != k(t[j]) {
      assert t[i] in multiset(s) && t[j] in multiset(s);
      var p :| 0 <= p < |s| && s[p] == t[i];
      var q :| 0 <= q < |s| && s[q] == t[j];
      assert p != q;
    }
  }

  /** `head(n)`: the first `n` rows; a negative `n` drops the last `-n` rows. */
  function Head<T>(s: seq<T>, n: int): (r: seq<T>)
    ensures |r| <= |s|
    ensures r == s[..|r|]
    ensures n >= 0 ==> |r| == if n <= |s| then n else |s|
    ensures n < 0 ==> |r| == if -n <= |s| then |s| + n else 0
  {
    if n >= 0 then s[..if n <= |s| then n else |s|]
    else s[..if -n <= |s| then |s| + n else 0]
  }

  /** The image of a suffix, index by index, in terms of the whole sequence. */
  lemma MapSuffixAt<A, B>(s: seq<A>, t: seq<A>, f: A -> B, i: int)
    requires |t| <= |s| && t == s[|s| - |t|..] && 0 <= i < |t|
    ensures MapSeq(t, f)[i] == f(s[|s| - |t| + i])
  {
    assert t[i] == s[|s| - |t| + i];
  }

  /** `tail(n)`: the last `n` rows; a negative `n` drops the first `-n` rows. */
  function Tail<T>(s: seq<T>, n: int): (r: seq<T>)
    ensures |r| <= |s|
    ensures r == s[|s| - |r|..]
    ensures n >= 0 ==> |r| == if n <= |s| then n else |s|
    ensures n < 0 ==> |r| == if -n <= |s| then |s| + n else 0
  {
    if n >= 0 then s[|s| - (if n <= |s| then n else |s|)..]
    else s[if -n <= |s| then -n else |s|..]
  }
}
