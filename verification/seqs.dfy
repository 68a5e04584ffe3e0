/**
 * Sequence helpers: duplicate-freedom, `[...new Set(xs)]` (first occurrences kept, in order),
 * `xs.filter(p)`, and the code-point order that `Array.prototype.sort` applies to strings.
 */
module Seqs {

  /** No element occurs twice. */
  predicate NoDup<T(==)>(s: seq<T>)
  {
    forall i, j :: 0 <= i < j < |s| ==> s[i] != s[j]
  }

  /** `[...new Set(s)]`: each element once, at its first occurrence. */
  function Dedup<T(==,!new)>(s: seq<T>): (r: seq<T>)
    ensures NoDup(r)
    ensures forall x :: x in r <==> x in s
    ensures |r| <= |s|
  {
    if s == [] then []
    else
      var d := Dedup(s[..|s| - 1]);
      var last := s[|s| - 1];
      assert forall x :: x in s <==> x in s[..|s| - 1] || x == last;
      if last in d then d else d + [last]
  }

  /** `s.filter(p)`. */
  function Filter<T(!new)>(p: T -> bool, s: seq<T>): (r: seq<T>)
    ensures |r| <= |s|
    ensures forall x :: x in r <==> x in s && p(x)
  {
    if s == [] then []
    else
      assert forall x :: x in s <==> x == s[0] || x in s[1..];
      (if p(s[0]) then [s[0]] else []) + Filter(p, s[1..])
  }

  lemma {:induction false} FilterNoDup<T(!new)>(p: T -> bool, s: seq<T>)
    requires NoDup(s)
    ensures NoDup(Filter(p, s))
  {
    if s != [] {
      FilterNoDup(p, s[1..]);
      assert s[0] !in s[1..] by {
        forall k | 0 <= k < |s| - 1 ensures s[1..][k] != s[0] {
          assert s[1..][k] == s[k + 1];
        }
      }
    }
  }

  /** A roll below the number of candidates draws the candidate at that very index. */
  lemma ModSmall(a: nat, n: nat)
    requires a < n
    ensures a % n == a
  {
  }

  // ----- the string order -----

  /**
   * The order `Array.prototype.sort()` gives strings when it is called without a comparator:
   * lexicographic by character, a proper prefix first.
   */
  predicate Less(a: string, b: string)
  {
    if a == [] then b != []
    else b != [] && (a[0] < b[0] || (a[0] == b[0] && Less(a[1..], b[1..])))
  }

  lemma LessIrreflexive(a: string)
    ensures !Less(a, a)
  {
  }

  lemma {:induction false} LessTransitive(a: string, b: string, c: string)
    requires Less(a, b) && Less(b, c)
    ensures Less(a, c)
  {
    if a != [] && a[0] == b[0] && b[0] == c[0] {
      LessTransitive(a[1..], b[1..], c[1..]);
    }
  }

  lemma {:induction false} LessTotal(a: string, b: string)
    ensures a == b || Less(a, b) || Less(b, a)
  {
    if a != [] && b != [] && a[0] == b[0] {
      LessTotal(a[1..], b[1..]);
      if a[1..] == b[1..] {
        assert a == [a[0]] + a[1..] && b == [b[0]] + b[1..];
      }
    }
  }

  lemma LessAsymmetric(a: string, b: string)
    ensures !(Less(a, b) && Less(b, a))
  {
    if Less(a, b) && Less(b, a) {
      LessTransitive(a, b, a);
      LessIrreflexive(a);
    }
  }

  /** Every pair of elements in increasing order: sorted and duplicate-free. */
  predicate StrictlySorted(s: seq<string>)
  {
    forall i, j :: 0 <= i < j < |s| ==> Less(s[i], s[j])
  }

  lemma StrictlySortedNoDup(s: seq<string>)
    requires StrictlySorted(s)
    ensures NoDup(s)
  {
    forall i, j | 0 <= i < j < |s| ensures s[i] != s[j] {
      LessIrreflexive(s[i]);
    }
  }

  /** `m` precedes every other element of `s`. */
  predicate IsLeast(m: string, s: set<string>)
  {
    m in s && forall y :: y in s && y != m ==> Less(m, y)
  }

  lemma {:induction false} LeastExists(s: set<string>)
    requires s != {}
    ensures exists m :: IsLeast(m, s)
    decreases |s|
  {
    var x :| x in s;
    var rest := s - {x};
    if rest == {} {
      assert forall y :: y in s && y != x ==> y in rest;
      assert IsLeast(x, s);
    } else {
      LeastExists(rest);
      var m :| IsLeast(m, rest);
      LessTotal(x, m);
      if Less(x, m) {
        forall y | y in s && y != x ensures Less(x, y) {
          if y != m { LessTransitive(x, m, y); }
        }
        assert IsLeast(x, s);
      } else {
        assert IsLeast(m, s);
      }
    }
  }

  lemma LeastUnique(s: set<string>)
    ensures forall m, n :: IsLeast(m, s) && IsLeast(n, s) ==> m == n
  {
    forall m, n | IsLeast(m, s) && IsLeast(n, s) ensures m == n {
      LessAsymmetric(m, n);
    }
  }

  /** The elements of `s` in increasing order: what sorting any duplicate-free listing of `s` gives. */
  function SortedOf(s: set<string>): (r: seq<string>)
    ensures StrictlySorted(r)
    ensures forall x :: x in r <==> x in s
    ensures |r| == |s|
    decreases |s|
  {
    if s == {} then []
    else
      LeastExists(s);
      LeastUnique(s);
      var m :| IsLeast(m, s);
      var rest := SortedOf(s - {m});
      assert forall j :: 0 <= j < |rest| ==> rest[j] in s - {m};
      [m] + rest
  }

  /** Two strictly sorted sequences with the same elements are equal: sorting has one answer. */
  lemma {:induction false} SortedUnique(a: seq<string>, b: seq<string>)
    requires StrictlySorted(a) && StrictlySorted(b)
    requires forall x :: x in a <==> x in b
    ensures a == b
  {
    if a != [] { assert a[0] in b; }
    if b != [] { assert b[0] in a; }
    if a != [] {
      if a[0] != b[0] {
        var i :| 0 <= i < |a| && a[i] == b[0];
        var j :| 0 <= j < |b| && b[j] == a[0];
        assert Less(a[0], b[0]);
        assert Less(b[0], a[0]);
        LessAsymmetric(a[0], b[0]);
      }
      forall x ensures x in a[1..] <==> x in b[1..] {
        if x in a[1..] {
          var i :| 0 <= i < |a[1..]| && a[1..][i] == x;
          assert Less(a[0], x);
          LessIrreflexive(a[0]);
          assert x in b;
        }
        if x in b[1..] {
          var i :| 0 <= i < |b[1..]| && b[1..][i] == x;
          assert Less(b[0], x);
          LessIrreflexive(b[0]);
          assert x in a;
        }
      }
      SortedUnique(a[1..], b[1..]);
      assert a == [a[0]] + a[1..] && b == [b[0]] + b[1..];
    }
  }

  /** The list after `push(w)` and `sort()` on a sorted list: `w` placed before the first element not below it. */
  function Insert(l: seq<string>, w: string): (r: seq<string>)
    ensures |r| == |l| + 1
    ensures multiset(r) == multiset(l) + multiset{w}
  {
    if l == [] || !Less(l[0], w) then [w] + l
    else
      assert l == [l[0]] + l[1..];
      [l[0]] + Insert(l[1..], w)
  }

  /** Inserting an absent word into a strictly sorted list keeps it strictly sorted. */
  lemma {:induction false} InsertSorted(l: seq<string>, w: string)
    requires StrictlySorted(l) && w !in l
    ensures StrictlySorted(Insert(l, w))
  {
    if l == [] {
    } else if !Less(l[0], w) {
      LessTotal(l[0], w);
      forall j | 0 <= j < |l| ensures Less(w, l[j]) {
        if j > 0 { LessTransitive(w, l[0], l[j]); }
      }
    } else {
      InsertSorted(l[1..], w);
      var r := Insert(l, w);
      forall x | x in Insert(l[1..], w) ensures Less(l[0], x) {
        assert x in multiset(Insert(l[1..], w));
        assert x == w || x in l[1..];
      }
    }
  }

  /** Sorting the list with `w` pushed gives exactly `Insert(l, w)`, whatever sort is used. */
  lemma PushThenSort(l: seq<string>, w: string, sorted: seq<string>)
    requires StrictlySorted(l) && w !in l
    requires StrictlySorted(sorted) && multiset(sorted) == multiset(l + [w])
    ensures sorted == Insert(l, w)
  {
    InsertSorted(l, w);
    forall x ensures x in sorted <==> x in Insert(l, w) {
      assert x in sorted <==> x in multiset(sorted);
      assert x in Insert(l, w) <==> x in multiset(Insert(l, w));
    }
    SortedUnique(sorted, Insert(l, w));
  }

  /** `l.indexOf(w)`: the first position of `w`, or -1. */
  function IndexOf<T(==)>(l: seq<T>, w: T): (i: int)
    ensures -1 <= i < |l|
    ensures i == -1 <==> w !in l
    ensures 0 <= i ==> l[i] == w && w !in l[..i]
  {
    if l == [] then -1
    else if l[0] == w then 0
    else
      var k := IndexOf(l[1..], w);
      assert w in l <==> w in l[1..];
      if k == -1 then -1
      else
        assert l[..k + 1] == [l[0]] + l[1..][..k];
        k + 1
  }

  /** Splicing out an element behind a different head splices it out of the tail, one position later. */
  lemma SpliceCons<T>(a: T, r': seq<T>, w: T)
    requires a != w && w in r'
    ensures var r := [a] + r'; var i := IndexOf(r, w);
      i == IndexOf(r', w) + 1 && r[..i] + r[i + 1..] == [a] + (r'[..i - 1] + r'[i..])
  {
    var r := [a] + r';
    var k := IndexOf(r', w);
    assert r[1..] == r';
    assert IndexOf(r, w) == k + 1;
    var left, right := r'[..k], r'[k + 1..];
    assert r[..k + 1] == [a] + left;
    assert r[k + 2..] == right;
    assert ([a] + left) + right == [a] + (left + right);
  }

  /** Inserting an absent word and then splicing it out at its index gives the list back. */
  lemma {:induction false} InsertThenRemove(l: seq<string>, w: string)
    requires w !in l
    ensures var r := Insert(l, w); var i := IndexOf(r, w); 0 <= i && r[..i] + r[i + 1..] == l
  {
    var r := Insert(l, w);
    if l == [] || !Less(l[0], w) {
      assert r == [w] + l;
      assert r[1..] == l;
    } else {
      var head, tail := l[0], l[1..];
      assert w !in tail;
      InsertThenRemove(tail, w);
      var r' := Insert(tail, w);
      assert w in multiset(r');
      assert r == [head] + r';
      SpliceCons(head, r', w);
      assert l == [head] + tail;
    }
  }
}
