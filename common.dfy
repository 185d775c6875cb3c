/** The conventional optional value, standing for Python's `None`. */
module Wrappers {

  datatype Option<+T> = None | Some(value: T)
}

/** Small facts about sequences used by several components. */
module Seqs {

  /** No element occurs twice (a Python list built without repeats). */
  predicate Distinct<T(==)>(s: seq<T>) {
    forall i, j :: 0 <= i < j < |s| ==> s[i] != s[j]
  }

  /** `a` is obtained from `b` by deleting elements, keeping the order of the rest. */
  ghost predicate IsSubseq<T>(a: seq<T>, b: seq<T>)
    decreases |b|
  {
    if a == [] then true
    else if b == [] then false
    else if a[0] == b[0] then IsSubseq(a[1..], b[1..])
    else IsSubseq(a, b[1..])
  }

  function Reverse<T>(s: seq<T>): (r: seq<T>)
    ensures |r| == |s|
    ensures forall k :: 0 <= k < |s| ==> r[k] == s[|s| - 1 - k]
  {
    if s == [] then [] else Reverse(s[1..]) + [s[0]]
  }

  lemma {:induction false} SubseqExtend<T>(a: seq<T>, b: seq<T>, x: T)
    requires IsSubseq(a, b)
    ensures IsSubseq(a, b + [x]) && IsSubseq(a + [x], b + [x])
    decreases |b|
  {
    if a == [] {
      assert IsSubseq(a, b + [x]);
      SubseqSingleton(b, x);
      assert a + [x] == [x];
    } else {
      assert b != [];
      assert (b + [x])[1..] == b[1..] + [x];
      assert (a + [x])[0] == a[0] && (a + [x])[1..] == a[1..] + [x];
      if a[0] == b[0] {
        SubseqExtend(a[1..], b[1..], x);
      } else {
        SubseqExtend(a, b[1..], x);
      }
    }
  }

  lemma {:induction false} SubseqSingleton<T>(b: seq<T>, x: T)
    ensures IsSubseq([x], b + [x])
    decreases |b|
  {
    if b == [] {
      assert [x][1..] == [];
    } else {
      assert (b + [x])[1..] == b[1..] + [x];
      if b[0] == x {
        assert IsSubseq([x][1..], (b + [x])[1..]);
      } else {
        SubseqSingleton(b[1..], x);
      }
    }
  }

  /** The position of the first occurrence of `x` in `s` (`list.index`). */
  function IndexOf<T(==)>(s: seq<T>, x: T): (k: nat)
    requires x in s
    ensures k < |s| && s[k] == x
    ensures forall j :: 0 <= j < k ==> s[j] != x
  {
    if s[0] == x then 0 else 1 + IndexOf(s[1..], x)
  }

  /** `list.remove(x)`: drop the first occurrence of `x`. */
  function RemoveFirst<T(==)>(xs: seq<T>, x: T): (r: seq<T>)
    ensures x in xs ==> |r| == |xs| - 1
    ensures x !in xs ==> r == xs
    ensures forall y :: y in r ==> y in xs
    ensures forall y :: y in xs && y != x ==> y in r
    ensures Distinct(xs) ==> Distinct(r) && x !in r
  {
    if xs == [] then []
    else if xs[0] == x then
      DistinctTail(xs);
      xs[1..]
    else
      var rest := RemoveFirst(xs[1..], x);
      assert xs == [xs[0]] + xs[1..];
      DistinctTail(xs);
      DistinctCons(xs[0], rest);
      [xs[0]] + rest
  }

  /** In a list without repeats, the head does not occur again. */
  lemma DistinctTail<T>(xs: seq<T>)
    requires xs != []
    ensures Distinct(xs) ==> Distinct(xs[1..]) && xs[0] !in xs[1..]
  {
    if Distinct(xs) {
      forall j | 0 <= j < |xs[1..]| ensures xs[1..][j] != xs[0] {
        assert xs[1..][j] == xs[j + 1];
      }
    }
  }

  lemma DistinctCons<T>(x: T, xs: seq<T>)
    ensures Distinct(xs) && x !in xs ==> Distinct([x] + xs)
  {
    if Distinct(xs) && x !in xs {
      forall i, j | 0 <= i < j < |[x] + xs| ensures ([x] + xs)[i] != ([x] + xs)[j] {
        assert ([x] + xs)[j] == xs[j - 1];
        if i > 0 {
          assert ([x] + xs)[i] == xs[i - 1];
        }
      }
    }
  }

  /** Appending a new element keeps a list free of repeats. */
  lemma DistinctSnoc<T>(xs: seq<T>, x: T)
    requires Distinct(xs) && x !in xs
    ensures Distinct(xs + [x]) && forall y :: y in xs + [x] <==> y in xs || y == x
  {
    forall i, j | 0 <= i < j < |xs + [x]| ensures (xs + [x])[i] != (xs + [x])[j] {
      assert (xs + [x])[i] == xs[i];
    }
  }

  lemma TwoMembers<T>(s: seq<T>, a: T, b: T)
    requires a in s && b in s && a != b
    ensures |s| >= 2
  {
    var i :| 0 <= i < |s| && s[i] == a;
    var j :| 0 <= j < |s| && s[j] == b;
    assert i != j;
  }

  lemma {:induction false} DistinctCard<T>(s: seq<T>)
    requires Distinct(s)
    ensures |set x | x in s| == |s|
    decreases |s|
  {
    if s != [] {
      var init := s[..|s| - 1];
      assert Distinct(init);
      DistinctCard(init);
      assert (set x | x in s) == (set x | x in init) + {s[|s| - 1]};
      assert s[|s| - 1] !in init;
    }
  }

  /** Two duplicate-free sequences with the same members have the same length. */
  lemma SameMembersSameLength<T>(s: seq<T>, t: seq<T>)
    requires Distinct(s) && Distinct(t)
    requires forall x :: x in s ==> x in t
    requires forall x :: x in t ==> x in s
    ensures |s| == |t|
  {
    DistinctCard(s);
    DistinctCard(t);
    assert (set x | x in s) == (set x | x in t);
  }
}
