/**
 Lexicographic order on rows of texts, each text a sequence of numbers (code points or code units),
 and sorting by it. Sorted sequences with the same elements are equal when rows identify elements.
 */
module Ordering {
  type Text = seq<int>
  type Row = seq<Text>

  function Codes(s: string): Text { seq(|s|, i requires 0 <= i < |s| => s[i] as int) }

  lemma CodesInjective(s: string, t: string)
    requires Codes(s) == Codes(t)
    ensures s == t
  {
    assert |s| == |Codes(s)| == |t|;
    forall i | 0 <= i < |s| ensures s[i] == t[i] { assert Codes(s)[i] == Codes(t)[i]; }
  }

  predicate TextLeq(a: Text, b: Text) {
    a == [] || (b != [] && (a[0] < b[0] || (a[0] == b[0] && TextLeq(a[1..], b[1..]))))
  }

  /** The texts agree up to n, and there a ends or is smaller. */
  predicate SmallerAt(a: Text, b: Text, n: nat) {
    n <= |a| && n < |b| && a[..n] == b[..n] && (n < |a| ==> a[n] < b[n])
  }

  /** Two texts are in order exactly when they are equal or the first difference says so. */
  lemma {:induction false} TextLeqExactly(a: Text, b: Text)
    ensures TextLeq(a, b) <==> a == b || exists n: nat :: SmallerAt(a, b, n)
  {
    if a == [] {
      assert b != [] ==> SmallerAt(a, b, 0);
    } else if b == [] {
      assert forall n: nat :: !SmallerAt(a, b, n);
    } else if a[0] != b[0] {
      assert a[0] < b[0] ==> SmallerAt(a, b, 0);
      forall n: nat | 0 < n <= |a| && n <= |b| ensures a[..n] != b[..n] { assert a[..n][0] == a[0] && b[..n][0] == b[0]; }
    } else {
      TextLeqExactly(a[1..], b[1..]);
      assert a == [a[0]] + a[1..] && b == [b[0]] + b[1..];
      forall n: nat | SmallerAt(a[1..], b[1..], n) ensures SmallerAt(a, b, n + 1) {
        assert a[..n + 1] == [a[0]] + a[1..][..n] && b[..n + 1] == [b[0]] + b[1..][..n];
      }
      forall n: nat | SmallerAt(a, b, n) ensures n > 0 && SmallerAt(a[1..], b[1..], n - 1) {
        assert a[1..][..n - 1] == a[..n][1..] && b[1..][..n - 1] == b[..n][1..];
      }
    }
  }

  /** s comes strictly before t in the order of code points. */
  ghost predicate StringBefore(s: string, t: string) {
    exists n: nat :: n <= |s| && n < |t| && s[..n] == t[..n] && (n < |s| ==> s[n] < t[n])
  }

  lemma CodesPrefix(s: string, t: string, n: nat)
    requires n <= |s| && n <= |t|
    ensures s[..n] == t[..n] <==> Codes(s)[..n] == Codes(t)[..n]
  {
    assert Codes(s)[..n] == Codes(s[..n]) && Codes(t)[..n] == Codes(t[..n]);
    if Codes(s[..n]) == Codes(t[..n]) { CodesInjective(s[..n], t[..n]); }
  }

  lemma CodesOrdered(s: string, t: string)
    ensures TextLeq(Codes(s), Codes(t)) <==> s == t || StringBefore(s, t)
  {
    TextLeqExactly(Codes(s), Codes(t));
    if Codes(s) == Codes(t) { CodesInjective(s, t); }
    forall n: nat | n <= |s| && n < |t| ensures SmallerAt(Codes(s), Codes(t), n) <==> s[..n] == t[..n] && (n < |s| ==> s[n] < t[n]) {
      CodesPrefix(s, t, n);
    }
    if StringBefore(s, t) {
      var n: nat :| n <= |s| && n < |t| && s[..n] == t[..n] && (n < |s| ==> s[n] < t[n]);
      assert SmallerAt(Codes(s), Codes(t), n);
    }
  }

  predicate RowLeq(a: Row, b: Row) {
    a == [] || (b != [] && if a[0] == b[0] then RowLeq(a[1..], b[1..]) else TextLeq(a[0], b[0]))
  }

  /** The rows agree up to column n, and there a ends or its text is smaller. */
  ghost predicate RowSmallerAt(a: Row, b: Row, n: nat) {
    && n <= |a| && n < |b| && a[..n] == b[..n]
    && (n < |a| ==> a[n] != b[n] && exists m: nat :: SmallerAt(a[n], b[n], m))
  }

  /** Two rows are in order exactly when they are equal or the first column that differs says so. */
  lemma {:induction false} RowLeqExactly(a: Row, b: Row)
    ensures RowLeq(a, b) <==> a == b || exists n: nat :: RowSmallerAt(a, b, n)
  {
    if a == [] {
      assert b != [] ==> RowSmallerAt(a, b, 0);
    } else if b == [] {
      assert forall n: nat :: !RowSmallerAt(a, b, n);
    } else if a[0] != b[0] {
      TextLeqExactly(a[0], b[0]);
      assert TextLeq(a[0], b[0]) <==> RowSmallerAt(a, b, 0);
      forall n: nat | 0 < n <= |a| && n <= |b| ensures a[..n] != b[..n] { assert a[..n][0] == a[0] && b[..n][0] == b[0]; }
    } else {
      RowLeqExactly(a[1..], b[1..]);
      assert a == [a[0]] + a[1..] && b == [b[0]] + b[1..];
      forall n: nat | RowSmallerAt(a[1..], b[1..], n) ensures RowSmallerAt(a, b, n + 1) {
        assert a[..n + 1] == [a[0]] + a[1..][..n] && b[..n + 1] == [b[0]] + b[1..][..n];
      }
      forall n: nat | RowSmallerAt(a, b, n) ensures n > 0 && RowSmallerAt(a[1..], b[1..], n - 1) {
        assert a[1..][..n - 1] == a[..n][1..] && b[1..][..n - 1] == b[..n][1..];
      }
    }
  }

  lemma TextTotal(a: Text, b: Text)
    ensures TextLeq(a, b) || TextLeq(b, a)
    ensures TextLeq(a, b) && TextLeq(b, a) ==> a == b
  {
    if a != [] && b != [] && a[0] == b[0] {
      TextTotal(a[1..], b[1..]);
      assert a == [a[0]] + a[1..] && b == [b[0]] + b[1..];
    }
  }

  lemma TextTransitive(a: Text, b: Text, c: Text)
    requires TextLeq(a, b) && TextLeq(b, c)
    ensures TextLeq(a, c)
  {
    if a != [] && b != [] && a[0] == b[0] == c[0] { TextTransitive(a[1..], b[1..], c[1..]); }
  }

  lemma RowTotal(a: Row, b: Row)
    ensures RowLeq(a, b) || RowLeq(b, a)
    ensures RowLeq(a, b) && RowLeq(b, a) ==> a == b
  {
    if a != [] && b != [] {
      if a[0] == b[0] {
        RowTotal(a[1..], b[1..]);
        assert a == [a[0]] + a[1..] && b == [b[0]] + b[1..];
      } else {
        TextTotal(a[0], b[0]);
      }
    }
  }

  lemma RowTransitive(a: Row, b: Row, c: Row)
    requires RowLeq(a, b) && RowLeq(b, c)
    ensures RowLeq(a, c)
  {
    if a != [] {
      if a[0] == b[0] == c[0] {
        RowTransitive(a[1..], b[1..], c[1..]);
      } else if a[0] != b[0] && b[0] != c[0] {
        TextTransitive(a[0], b[0], c[0]);
        TextTotal(a[0], b[0]);
      }
    }
  }

  ghost predicate Sorted<T>(row: T -> Row, xs: seq<T>) {
    xs == [] || (Sorted(row, xs[1..]) && forall y <- xs[1..] :: RowLeq(row(xs[0]), row(y)))
  }

  function InsertSorted<T>(row: T -> Row, x: T, xs: seq<T>): seq<T> {
    if xs == [] || RowLeq(row(x), row(xs[0])) then [x] + xs else [xs[0]] + InsertSorted(row, x, xs[1..])
  }

  lemma SortedFront<T>(row: T -> Row, x: T, xs: seq<T>)
    requires Sorted(row, xs) && forall y <- xs :: RowLeq(row(x), row(y))
    ensures Sorted(row, [x] + xs) && multiset([x] + xs) == multiset(xs) + multiset{x}
  {
    assert ([x] + xs)[1..] == xs;
  }

  /** Insertion keeps the order and adds exactly the one element. */
  lemma {:induction false} InsertSorts<T>(row: T -> Row, x: T, xs: seq<T>)
    requires Sorted(row, xs)
    ensures Sorted(row, InsertSorted(row, x, xs)) && multiset(InsertSorted(row, x, xs)) == multiset(xs) + multiset{x}
  {
    if xs == [] {
      SortedFront(row, x, xs);
    } else if RowLeq(row(x), row(xs[0])) {
      forall y | y in xs ensures RowLeq(row(x), row(y)) {
        if y in xs[1..] { RowTransitive(row(x), row(xs[0]), row(y)); }
      }
      SortedFront(row, x, xs);
    } else {
      var rest := InsertSorted(row, x, xs[1..]);
      InsertSorts(row, x, xs[1..]);
      RowTotal(row(x), row(xs[0]));
      forall y | y in rest ensures RowLeq(row(xs[0]), row(y)) {
        assert y in multiset(rest);
        assert y == x || y in xs[1..];
      }
      SortedFront(row, xs[0], rest);
      assert xs == [xs[0]] + xs[1..];
    }
  }

  function Sort<T>(row: T -> Row, xs: seq<T>): seq<T> {
    if xs == [] then [] else InsertSorted(row, xs[0], Sort(row, xs[1..]))
  }

  lemma {:induction false} SortSorts<T>(row: T -> Row, xs: seq<T>)
    ensures Sorted(row, Sort(row, xs)) && multiset(Sort(row, xs)) == multiset(xs)
  {
    if xs != [] {
      SortSorts(row, xs[1..]);
      InsertSorts(row, xs[0], Sort(row, xs[1..]));
      assert xs == [xs[0]] + xs[1..];
    }
  }

  lemma Associates<T>(a: seq<T>, b: seq<T>, c: seq<T>)
    ensures (a + b) + c == a + (b + c)
  {
  }

  /** Rows tell the elements of xs apart. */
  ghost predicate Identifies<T>(row: T -> Row, xs: seq<T>) {
    forall x, y {:trigger row(x), row(y)} :: x in xs && y in xs && row(x) == row(y) ==> x == y
  }

  lemma SortedHead<T>(row: T -> Row, xs: seq<T>, y: T)
    requires Sorted(row, xs) && xs != [] && y in xs
    ensures RowLeq(row(xs[0]), row(y))
  {
    RowTotal(row(y), row(y));
    assert y == xs[0] || y in xs[1..];
  }

  lemma SameHead<T>(row: T -> Row, xs: seq<T>, ys: seq<T>)
    requires Sorted(row, xs) && Sorted(row, ys) && multiset(xs) == multiset(ys) && Identifies(row, xs)
    requires xs != [] && ys != []
    ensures xs[0] == ys[0]
  {
    var x, y := xs[0], ys[0];
    assert x in ys by { assert x in multiset(ys); }
    assert y in xs by { assert y in multiset(xs); }
    SortedHead(row, xs, y);
    SortedHead(row, ys, x);
    RowTotal(row(x), row(y));
  }

  lemma TailElements<T>(xs: seq<T>)
    requires xs != []
    ensures multiset(xs[1..]) == multiset(xs) - multiset{xs[0]}
  {
    assert xs == [xs[0]] + xs[1..];
  }

  lemma {:induction false} SortedUnique<T>(row: T -> Row, xs: seq<T>, ys: seq<T>)
    requires Sorted(row, xs) && Sorted(row, ys) && multiset(xs) == multiset(ys) && Identifies(row, xs)
    ensures xs == ys
  {
    assert |multiset(xs)| == |xs| && |multiset(ys)| == |ys|;
    if xs != [] {
      SameHead(row, xs, ys);
      TailElements(xs);
      TailElements(ys);
      SortedUnique(row, xs[1..], ys[1..]);
      assert xs == [xs[0]] + xs[1..] && ys == [ys[0]] + ys[1..];
    }
  }

  /** What stands earlier is no later in the order. */
  lemma {:induction false} SortedPairs<T>(row: T -> Row, xs: seq<T>, i: nat, j: nat)
    requires Sorted(row, xs) && i < j < |xs|
    ensures RowLeq(row(xs[i]), row(xs[j]))
  {
    if i == 0 {
      assert xs[j] in xs[1..];
    } else {
      SortedPairs(row, xs[1..], i - 1, j - 1);
    }
  }

  /** Sorting depends only on what is sorted, not on the order it came in. */
  lemma SortForgetsOrder<T>(row: T -> Row, xs: seq<T>, ys: seq<T>)
    requires multiset(xs) == multiset(ys) && Identifies(row, xs)
    ensures Sort(row, xs) == Sort(row, ys)
  {
    SortSorts(row, xs);
    SortSorts(row, ys);
    forall x | x in Sort(row, xs) ensures x in xs { assert x in multiset(Sort(row, xs)); assert x in multiset(xs); }
    SortedUnique(row, Sort(row, xs), Sort(row, ys));
  }

  lemma DuplicatesCount<T>(xs: seq<T>, i: nat, j: nat)
    requires i < j < |xs| && xs[i] == xs[j]
    ensures multiset(xs)[xs[i]] >= 2
  {
    assert xs == xs[..j] + [xs[j]] + xs[j + 1..];
    assert xs[i] in xs[..j] by { assert xs[..j][i] == xs[i]; }
    assert multiset(xs) == multiset(xs[..j]) + multiset{xs[j]} + multiset(xs[j + 1..]);
  }

  /** The elements of a set, in some order. */
  ghost function ToSeq<T>(s: set<T>): seq<T> {
    if s == {} then [] else var x :| x in s; [x] + ToSeq(s - {x})
  }

  lemma {:induction false} ToSeqElements<T>(s: set<T>)
    ensures multiset(ToSeq(s)) == multiset(s)
  {
    if s != {} {
      var x := ToSeq(s)[0];
      assert ToSeq(s) == [x] + ToSeq(s - {x});
      ToSeqElements(s - {x});
      assert s == (s - {x}) + {x};
    }
  }
}
