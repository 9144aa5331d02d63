/**
 * Sort keys in the way a multi-column table sort compares them.
 *
 * A key is a sequence of atoms compared lexicographically. A missing
 * cell is the atom `Missing`, which is greater than every present value,
 * so missing values sort last in ascending order. A descending column is
 * encoded by negating its numbers, which keeps missing values last there
 * as well. `SortBy` is a stable insertion sort under such keys.
 */
module Ordering {

  datatype Atom = Num(n: int) | Text(s: string) | Missing

  /** Lexicographic order of strings by code point. */
  predicate StrLt(a: string, b: string)
    decreases |a|
  {
    |b| > 0 && (|a| == 0 || a[0] < b[0] || (a[0] == b[0] && StrLt(a[1..], b[1..])))
  }

  lemma {:induction false} StrLtIrreflexive(a: string)
    ensures !StrLt(a, a)
    decreases |a|
  {
    if |a| > 0 {
      StrLtIrreflexive(a[1..]);
    }
  }

  lemma {:induction false} StrLtTransitive(a: string, b: string, c: string)
    requires StrLt(a, b) && StrLt(b, c)
    ensures StrLt(a, c)
    decreases |a|
  {
    if |a| > 0 && a[0] == b[0] && b[0] == c[0] {
      StrLtTransitive(a[1..], b[1..], c[1..]);
    }
  }

  lemma {:induction false} StrLtTotal(a: string, b: string)
    ensures a == b || StrLt(a, b) || StrLt(b, a)
    decreases |a|
  {
    if |a| > 0 && |b| > 0 && a[0] == b[0] {
      StrLtTotal(a[1..], b[1..]);
      if a[1..] == b[1..] {
        assert a == [a[0]] + a[1..] && b == [b[0]] + b[1..];
      }
    }
  }

  function AtomRank(a: Atom): nat {
    match a
    case Num(_) => 0
    case Text(_) => 1
    case Missing => 2
  }

  /** Strict order on atoms; `Missing` is above every present value. */
  predicate AtomLt(a: Atom, b: Atom) {
    if AtomRank(a) != AtomRank(b) then AtomRank(a) < AtomRank(b)
    else match (a, b)
      case (Num(x), Num(y)) => x < y
      case (Text(x), Text(y)) => StrLt(x, y)
      case _ => false
  }

  lemma AtomLtStrictTotal(a: Atom, b: Atom, c: Atom)
    ensures !AtomLt(a, a)
    ensures AtomLt(a, b) && AtomLt(b, c) ==> AtomLt(a, c)
    ensures a == b || AtomLt(a, b) || AtomLt(b, a)
  {
    if a.Text? {
      StrLtIrreflexive(a.s);
      if b.Text? {
        StrLtTotal(a.s, b.s);
        if c.Text? && AtomLt(a, b) && AtomLt(b, c) {
          StrLtTransitive(a.s, b.s, c.s);
        }
      }
    }
  }

  /** Lexicographic non-strict order on keys. */
  predicate KeyLe(a: seq<Atom>, b: seq<Atom>)
    decreases |a|
  {
    |a| == 0 || (|b| > 0 && (AtomLt(a[0], b[0]) || (a[0] == b[0] && KeyLe(a[1..], b[1..]))))
  }

  lemma {:induction false} KeyLeReflexive(a: seq<Atom>)
    ensures KeyLe(a, a)
    decreases |a|
  {
    if |a| > 0 {
      KeyLeReflexive(a[1..]);
    }
  }

  lemma {:induction false} KeyLeTransitive(a: seq<Atom>, b: seq<Atom>, c: seq<Atom>)
    requires KeyLe(a, b) && KeyLe(b, c)
    ensures KeyLe(a, c)
    decreases |a|
  {
    if |a| > 0 {
      AtomLtStrictTotal(a[0], b[0], c[0]);
      if a[0] == b[0] && b[0] == c[0] {
        KeyLeTransitive(a[1..], b[1..], c[1..]);
      }
    }
  }

  lemma {:induction false} KeyLeTotal(a: seq<Atom>, b: seq<Atom>)
    ensures KeyLe(a, b) || KeyLe(b, a)
    decreases |a|
  {
    if |a| > 0 && |b| > 0 {
      AtomLtStrictTotal(a[0], b[0], b[0]);
      if a[0] == b[0] {
        KeyLeTotal(a[1..], b[1..]);
      }
    }
  }

  /** Two keys with the same prefix compare as their last atoms do. */
  lemma {:induction false} KeyLeSamePrefix(p: seq<Atom>, x: Atom, y: Atom)
    ensures KeyLe(p + [x], p + [y]) <==> (x == y || AtomLt(x, y))
    decreases |p|
  {
    if |p| == 0 {
      assert (p + [x])[1..] == [] && p + [x] == [x] && p + [y] == [y];
    } else {
      assert (p + [x])[0] == p[0] && (p + [y])[0] == p[0];
      assert (p + [x])[1..] == p[1..] + [x] && (p + [y])[1..] == p[1..] + [y];
      AtomLtStrictTotal(p[0], p[0], p[0]);
      KeyLeSamePrefix(p[1..], x, y);
    }
  }

  ghost predicate SortedBy<T>(s: seq<T>, key: T -> seq<Atom>) {
    forall i, j :: 0 <= i < j < |s| ==> KeyLe(key(s[i]), key(s[j]))
  }

  /** Inserts `x` before the first element it does not exceed. */
  function Insert<T>(x: T, s: seq<T>, key: T -> seq<Atom>): (r: seq<T>)
    ensures |r| == |s| + 1
    ensures multiset(r) == multiset(s) + multiset{x}
  {
    if s == [] || KeyLe(key(x), key(s[0])) then [x] + s
    else
      assert s == [s[0]] + s[1..];
      [s[0]] + Insert(x, s[1..], key)
  }

  lemma {:induction false} InsertSorted<T>(x: T, s: seq<T>, key: T -> seq<Atom>)
    requires SortedBy(s, key)
    ensures SortedBy(Insert(x, s, key), key)
    decreases |s|
  {
    var r := Insert(x, s, key);
    if s == [] {
    } else if KeyLe(key(x), key(s[0])) {
      forall j | 0 <= j < |s| ensures KeyLe(key(x), key(s[j])) {
        if j > 0 {
          KeyLeTransitive(key(x), key(s[0]), key(s[j]));
        }
      }
      assert r == [x] + s;
    } else {
      var t := Insert(x, s[1..], key);
      InsertSorted(x, s[1..], key);
      KeyLeTotal(key(x), key(s[0]));
      forall j | 0 <= j < |t| ensures KeyLe(key(s[0]), key(t[j])) {
        assert t[j] in multiset(t);
        if t[j] != x {
          assert t[j] in multiset(s[1..]);
          var k :| 0 <= k < |s[1..]| && s[1..][k] == t[j];
          assert s[k + 1] == t[j];
        }
      }
      assert r == [s[0]] + t;
    }
  }

  /** Stable sort: elements with equal keys keep their input order. */
  function SortBy<T>(s: seq<T>, key: T -> seq<Atom>): (r: seq<T>)
    ensures |r| == |s|
    ensures multiset(r) == multiset(s)
    ensures SortedBy(r, key)
  {
    if s == [] then []
    else
      var t := SortBy(s[1..], key);
      InsertSorted(s[0], t, key);
      assert s == [s[0]] + s[1..];
      Insert(s[0], t, key)
  }

  /** Sorting what is already sorted changes nothing. */
  lemma {:induction false} SortBySortedIsIdentity<T>(s: seq<T>, key: T -> seq<Atom>)
    requires SortedBy(s, key)
    ensures SortBy(s, key) == s
    decreases |s|
  {
    if s != [] {
      assert SortedBy(s[1..], key);
      SortBySortedIsIdentity(s[1..], key);
      assert s == [s[0]] + s[1..];
    }
  }

  /** In a sorted sequence, an element of a prefix is no greater than an element outside it. */
  lemma SortedPrefixBelow<T>(s: seq<T>, n: nat, key: T -> seq<Atom>, x: T, y: T)
    requires SortedBy(s, key) && n <= |s|
    requires x in s[..n] && y in s && y !in s[..n]
    ensures KeyLe(key(x), key(y))
  {
    var i :| 0 <= i < n && s[..n][i] == x;
    var j :| 0 <= j < |s| && s[j] == y;
    assert forall k :: 0 <= k < n ==> s[..n][k] == s[k];
    assert s[i] == x && i < j;
  }

  /** Comparing keys compares their first atoms, then the rest. */
  lemma KeyLeCons(a: Atom, s: seq<Atom>, b: Atom, t: seq<Atom>)
    ensures KeyLe([a] + s, [b] + t) <==> AtomLt(a, b) || (a == b && KeyLe(s, t))
  {
    assert ([a] + s)[0] == a && ([a] + s)[1..] == s;
    assert ([b] + t)[0] == b && ([b] + t)[1..] == t;
  }

  /** Comparing two keys from position `i` on: the `i`-th atoms decide unless equal. */
  lemma KeyLeAt(s: seq<Atom>, t: seq<Atom>, i: int)
    requires 0 <= i < |s| && i < |t|
    ensures KeyLe(s[i..], t[i..]) <==> AtomLt(s[i], t[i]) || (s[i] == t[i] && KeyLe(s[i + 1..], t[i + 1..]))
  {
    assert s[i..] == [s[i]] + s[i + 1..] && t[i..] == [t[i]] + t[i + 1..];
    KeyLeCons(s[i], s[i + 1..], t[i], t[i + 1..]);
  }
}
