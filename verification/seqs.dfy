/** Order-preserving selection over tables kept as sequences in creation order:
    the `filter`, `.limit(n)` and `order by created_at` of the queries. */
module Seqs {

  /** `s.filter(p)`: the elements of `s` satisfying `p`, in their original order. */
  function Filter<T>(s: seq<T>, p: T -> bool): (r: seq<T>)
    ensures |r| <= |s|
    ensures forall i :: 0 <= i < |r| ==> p(r[i])
  {
    if |s| == 0 then []
    else if p(s[0]) then [s[0]] + Filter(s[1..], p)
    else Filter(s[1..], p)
  }

  /** The filter keeps exactly the elements of `s` that satisfy `p`. */
  lemma {:induction false} FilterMembers<T>(s: seq<T>, p: T -> bool)
    ensures forall i :: 0 <= i < |Filter(s, p)| ==> Filter(s, p)[i] in s
    ensures forall i :: 0 <= i < |s| && p(s[i]) ==> s[i] in Filter(s, p)
  {
    if |s| > 0 {
      FilterMembers(s[1..], p);
      var r := Filter(s, p);
      var rest := Filter(s[1..], p);
      assert r == (if p(s[0]) then [s[0]] else []) + rest;
      forall i | 0 <= i < |r|
        ensures r[i] in s
      {
        if p(s[0]) && i == 0 {
          assert r[i] == s[0];
        } else {
          var j := if p(s[0]) then i - 1 else i;
          assert r[i] == rest[j];
          assert rest[j] in s[1..];
        }
      }
      forall i | 0 <= i < |s| && p(s[i])
        ensures s[i] in r
      {
        if i > 0 {
          assert s[i] == s[1..][i - 1];
          assert s[i] in rest;
        }
      }
    }
  }

  /** Filtering distributes over concatenation, so it keeps the order of `s`. */
  lemma {:induction false} FilterConcat<T>(a: seq<T>, b: seq<T>, p: T -> bool)
    ensures Filter(a + b, p) == Filter(a, p) + Filter(b, p)
  {
    if |a| > 0 {
      assert (a + b)[1..] == a[1..] + b;
      FilterConcat(a[1..], b, p);
    } else {
      assert a + b == b;
    }
  }

  /** Filtering an element in front of a sequence keeps or drops just that element. */
  lemma FilterCons<T>(x: T, rest: seq<T>, p: T -> bool)
    ensures Filter([x] + rest, p) == if p(x) then [x] + Filter(rest, p) else Filter(rest, p)
  {
    assert ([x] + rest)[1..] == rest;
  }

  /** Filtering three elements of which only the first fails `p`. */
  lemma FilterDropKeepKeep<T>(a: T, b: T, c: T, p: T -> bool)
    requires !p(a) && p(b) && p(c)
    ensures Filter([a, b, c], p) == [b, c]
  {
    FilterCons(c, [], p);
    assert [c] + [] == [c];
    FilterCons(b, [c], p);
    assert [b] + [c] == [b, c];
    FilterCons(a, [b, c], p);
    assert [a] + [b, c] == [a, b, c];
  }

  /** Filtering a sequence followed by three elements of which only the first fails `p`. */
  lemma FilterEndDropKeepKeep<T>(s: seq<T>, a: T, b: T, c: T, p: T -> bool)
    requires !p(a) && p(b) && p(c)
    ensures Filter(s + [a, b, c], p) == Filter(s, p) + [b, c]
  {
    FilterConcat(s, [a, b, c], p);
    FilterDropKeepKeep(a, b, c, p);
  }

  /** `.limit(n)`: the first `n` elements, or all of them when there are fewer. */
  function Take<T>(s: seq<T>, n: nat): (r: seq<T>)
    ensures |r| == if n < |s| then n else |s|
    ensures forall i :: 0 <= i < |r| ==> r[i] == s[i]
  {
    if n < |s| then s[..n] else s
  }

  /** The age cutoff of a FIFO selection: how many of the oldest rows must be scanned
      to meet `n` rows satisfying `p` (or the whole table when there are fewer). */
  function FifoCutoff<T>(s: seq<T>, p: T -> bool, n: nat): (m: nat)
    ensures m <= |s|
  {
    if n == 0 || |s| == 0 then 0
    else if p(s[0]) then 1 + FifoCutoff(s[1..], p, n - 1)
    else 1 + FifoCutoff(s[1..], p, n)
  }

  /** Oldest first: taking the first `n` matching rows selects exactly the matching rows
      older than some cutoff, and that cutoff stops short of the table's end only when
      `n` rows were found. So no selected row is younger than a matching row left out. */
  lemma {:induction false} TakeFilterIsOldest<T>(s: seq<T>, p: T -> bool, n: nat)
    ensures Take(Filter(s, p), n) == Filter(s[..FifoCutoff(s, p, n)], p)
    ensures FifoCutoff(s, p, n) < |s| ==> |Take(Filter(s, p), n)| == n
  {
    var m := FifoCutoff(s, p, n);
    if n == 0 || |s| == 0 {
      assert s[..m] == [];
    } else {
      var t := s[1..];
      var n' := if p(s[0]) then n - 1 else n;
      TakeFilterIsOldest(t, p, n');
      assert m == 1 + FifoCutoff(t, p, n');
      var front := Filter(s[..m], p);
      var all := Filter(s, p);
      assert front == (if p(s[0]) then [s[0]] else []) + Filter(t[..m - 1], p) by {
        assert s[..m] == [s[0]] + t[..m - 1];
        FilterCons(s[0], t[..m - 1], p);
      }
      assert all == (if p(s[0]) then [s[0]] else []) + Filter(t, p) by {
        assert s == [s[0]] + t;
        FilterCons(s[0], t, p);
      }
      if p(s[0]) {
        TakeCons(s[0], Filter(t, p), n);
        assert Take(all, n) == [s[0]] + Take(Filter(t, p), n');
      } else {
        assert all == Filter(t, p) && front == Filter(t[..m - 1], p);
      }
    }
  }

  /** Taking `n` from a sequence with one more element in front. */
  lemma TakeCons<T>(x: T, s: seq<T>, n: nat)
    requires n >= 1
    ensures Take([x] + s, n) == [x] + Take(s, n - 1)
  {
    if n - 1 < |s| {
      assert ([x] + s)[..n] == [x] + s[..n - 1];
    }
  }

  /** How many elements of `s` satisfy `p`. */
  function Count<T>(s: seq<T>, p: T -> bool): (c: nat)
    ensures c <= |s|
  {
    |Filter(s, p)|
  }

  /** The age cutoff of a newest-first selection: the position from which on the
      youngest `n` elements satisfying `p` lie (0 when there are fewer than `n`). */
  function NewestCutoff<T>(s: seq<T>, p: T -> bool, n: nat): (c: nat)
    ensures c <= |s|
  {
    if n == 0 || |s| == 0 then |s|
    else if p(s[|s| - 1]) then NewestCutoff(s[..|s| - 1], p, n - 1)
    else NewestCutoff(s[..|s| - 1], p, n)
  }

  /** Newest first: taking `n` from the matching elements in descending order selects
      exactly the matching elements at or after some cutoff, youngest first, and that
      cutoff is above the table's start only when `n` elements were found. So no
      selected element is older than a matching element left out. */
  lemma {:induction false} TakeNewestFirst<T>(s: seq<T>, p: T -> bool, n: nat)
    ensures Take(Reverse(Filter(s, p)), n) == Reverse(Filter(s[NewestCutoff(s, p, n)..], p))
    ensures NewestCutoff(s, p, n) > 0 ==> |Take(Reverse(Filter(s, p)), n)| == n
  {
    var c := NewestCutoff(s, p, n);
    if n == 0 || |s| == 0 {
      assert s[c..] == [];
    } else {
      var init := s[..|s| - 1];
      var x := s[|s| - 1];
      var n' := if p(x) then n - 1 else n;
      TakeNewestFirst(init, p, n');
      assert c == NewestCutoff(init, p, n');
      var tail := if p(x) then [x] else [];
      SplitLast(s, c);
      assert Filter(s, p) == Filter(init, p) + tail by {
        FilterSnoc(init, x, p);
      }
      assert Filter(s[c..], p) == Filter(init[c..], p) + tail by {
        FilterSnoc(init[c..], x, p);
      }
      if p(x) {
        ReverseSnoc(Filter(init, p), x);
        ReverseSnoc(Filter(init[c..], p), x);
        TakeCons(x, Reverse(Filter(init, p)), n);
      } else {
        assert Filter(s, p) == Filter(init, p) && Filter(s[c..], p) == Filter(init[c..], p);
      }
    }
  }

  /** A non-empty sequence, and any suffix of it, is its front followed by its last element. */
  lemma SplitLast<T>(s: seq<T>, c: nat)
    requires c < |s|
    ensures s == s[..|s| - 1] + [s[|s| - 1]]
    ensures s[c..] == s[..|s| - 1][c..] + [s[|s| - 1]]
  {
  }

  /** Filtering one more element at the end keeps or drops just that element. */
  lemma FilterSnoc<T>(a: seq<T>, x: T, p: T -> bool)
    ensures Filter(a + [x], p) == Filter(a, p) + if p(x) then [x] else []
  {
    FilterConcat(a, [x], p);
    FilterCons(x, [], p);
    assert [x] + [] == [x];
  }

  /** Reversing puts an element appended at the end in front. */
  lemma ReverseSnoc<T>(a: seq<T>, x: T)
    ensures Reverse(a + [x]) == [x] + Reverse(a)
  {
    var r := Reverse(a + [x]);
    var q := [x] + Reverse(a);
    forall i | 0 <= i < |r|
      ensures r[i] == q[i]
    {
      if i > 0 {
        assert r[i] == (a + [x])[|a| - i] == a[|a| - i];
      }
    }
  }

  /** The elements in the opposite order: a descending sort of an ascending table. */
  function Reverse<T>(s: seq<T>): (r: seq<T>)
    ensures |r| == |s|
    ensures forall i :: 0 <= i < |s| ==> r[i] == s[|s| - 1 - i]
  {
    if |s| == 0 then [] else Reverse(s[1..]) + [s[0]]
  }
}
