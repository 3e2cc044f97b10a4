/** Generic facts about sequences used throughout the vocabulary pipeline. */
module Seqs {

  /** No element occurs twice. */
  predicate Distinct<T(==)>(s: seq<T>) {
    forall i, j | 0 <= i < j < |s| :: s[i] != s[j]
  }

  /** The set of elements of a sequence. */
  function Elems<T>(s: seq<T>): set<T> {
    set x | x in s
  }

  /** The distinct elements of `s`, each at the place where it first occurs. */
  function FirstSeen<T(==)>(s: seq<T>): (r: seq<T>)
    ensures Distinct(r)
    ensures forall x | x in r :: x in s
    ensures forall x | x in s :: x in r
    ensures |r| <= |s|
  {
    if s == [] then []
    else
      var prefix := FirstSeen(s[..|s| - 1]);
      var x := s[|s| - 1];
      assert s == s[..|s| - 1] + [x];
      if x in s[..|s| - 1] then prefix else prefix + [x]
  }

  /** The elements of `s` that are not in `drop`, in their order. */
  function FilterOut<T(==)>(s: seq<T>, drop: set<T>): (r: seq<T>)
    ensures forall x | x in r :: x in s && x !in drop
    ensures forall x | x in s && x !in drop :: x in r
    ensures |r| <= |s|
  {
    if s == [] then []
    else if s[0] in drop then FilterOut(s[1..], drop)
    else [s[0]] + FilterOut(s[1..], drop)
  }

  /** `a` can be obtained from `b` by deleting elements. */
  ghost predicate IsSubsequence<T>(a: seq<T>, b: seq<T>)
    decreases |b|
  {
    a == [] || (b != [] && if a[0] == b[0] then IsSubsequence(a[1..], b[1..]) else IsSubsequence(a, b[1..]))
  }

  /** The concatenation of a sequence of sequences. */
  function Flatten<T>(ss: seq<seq<T>>): seq<T> {
    if ss == [] then [] else Flatten(ss[..|ss| - 1]) + ss[|ss| - 1]
  }

  /** `[f(x) for x in s]`. */
  function Map<A, B>(f: A -> B, s: seq<A>): (r: seq<B>)
    ensures |r| == |s|
  {
    seq(|s|, i requires 0 <= i < |s| => f(s[i]))
  }

  lemma MapSnoc<A, B>(f: A -> B, s: seq<A>, i: nat)
    requires i < |s|
    ensures Map(f, s[..i + 1]) == Map(f, s[..i]) + [f(s[i])]
  {
  }

  /** Both ends of a distinct sequence are absent from the rest of it. */
  lemma DistinctParts<T>(s: seq<T>)
    requires Distinct(s) && s != []
    ensures Distinct(s[1..]) && Distinct(s[..|s| - 1])
    ensures s[0] !in s[1..] && s[|s| - 1] !in s[..|s| - 1]
  {
    assert forall i | 0 <= i < |s| - 1 :: s[1..][i] == s[i + 1] && s[..|s| - 1][i] == s[i];
    assert forall i | 0 <= i < |s| - 1 :: s[1..][i] != s[0] && s[..|s| - 1][i] != s[|s| - 1];
  }

  lemma {:induction false} FirstSeenOfDistinct<T>(s: seq<T>)
    requires Distinct(s)
    ensures FirstSeen(s) == s
  {
    if s != [] {
      DistinctParts(s);
      FirstSeenOfDistinct(s[..|s| - 1]);
      assert s == s[..|s| - 1] + [s[|s| - 1]];
    }
  }

  /** A distinct sequence has as many elements as its set. */
  lemma {:induction false} DistinctCard<T>(s: seq<T>)
    requires Distinct(s)
    ensures |Elems(s)| == |s|
  {
    if s != [] {
      var p := s[..|s| - 1];
      var x := s[|s| - 1];
      DistinctParts(s);
      DistinctCard(p);
      assert s == p + [x];
      assert Elems(s) == Elems(p) + {x};
    }
  }

  lemma {:induction false} FilterOutDistinct<T>(s: seq<T>, drop: set<T>)
    requires Distinct(s)
    ensures Distinct(FilterOut(s, drop))
  {
    if s != [] {
      DistinctParts(s);
      FilterOutDistinct(s[1..], drop);
      if s[0] !in drop {
        var r := FilterOut(s[1..], drop);
        assert forall j | 0 < j < |[s[0]] + r| :: ([s[0]] + r)[j] == r[j - 1];
      }
    }
  }

  /** Filtering keeps the order: the result is a subsequence of the input. */
  lemma {:induction false} FilterOutIsSubsequence<T>(s: seq<T>, drop: set<T>)
    ensures IsSubsequence(FilterOut(s, drop), s)
  {
    if s != [] {
      FilterOutIsSubsequence(s[1..], drop);
      var r := FilterOut(s, drop);
      if s[0] in drop && r != [] {
        assert r[0] in r;
        assert r[0] != s[0];
      }
    }
  }

  /** The size of a filtered distinct sequence: what is removed is exactly the dropped elements it holds. */
  lemma {:induction false} FilterOutSize<T>(s: seq<T>, drop: set<T>)
    requires Distinct(s)
    ensures |FilterOut(s, drop)| == |s| - |Elems(s) * drop|
  {
    if s != [] {
      DistinctParts(s);
      FilterOutSize(s[1..], drop);
      DroppedHead(s, drop);
    }
  }

  /** The dropped elements of `s` are those of its tail, plus its head when that is dropped and new. */
  lemma DroppedHead<T>(s: seq<T>, drop: set<T>)
    requires s != [] && s[0] !in s[1..]
    ensures |Elems(s) * drop| == |Elems(s[1..]) * drop| + if s[0] in drop then 1 else 0
  {
    var x := s[0];
    var et := Elems(s[1..]) * drop;
    assert s == [x] + s[1..];
    if x in drop {
      assert Elems(s) * drop == {x} + et;
      assert x !in et;
      assert |{x} + et| == 1 + |et|;
    } else {
      assert Elems(s) * drop == et;
    }
  }

  lemma {:induction false} FilterOutTwice<T>(s: seq<T>, a: set<T>, b: set<T>)
    ensures FilterOut(FilterOut(s, a), b) == FilterOut(s, a + b)
  {
    if s != [] {
      FilterOutTwice(s[1..], a, b);
    }
  }

  lemma {:induction false} FilterOutNone<T>(s: seq<T>, drop: set<T>)
    requires forall x | x in s :: x !in drop
    ensures FilterOut(s, drop) == s
  {
    if s != [] {
      assert s[0] in s;
      assert forall x | x in s[1..] :: x in s;
      FilterOutNone(s[1..], drop);
    }
  }

  lemma {:induction false} IsSubsequenceDropFirst<T>(a: seq<T>, b: seq<T>)
    requires a != [] && IsSubsequence(a, b)
    ensures IsSubsequence(a[1..], b)
    decreases |b|, 0
  {
    if a[0] == b[0] {
      IsSubsequenceSnocFront(a[1..], b[1..], b[0]);
    } else {
      IsSubsequenceDropFirst(a, b[1..]);
      IsSubsequenceSnocFront(a[1..], b[1..], b[0]);
    }
  }

  lemma {:induction false} IsSubsequenceSnocFront<T>(a: seq<T>, b: seq<T>, x: T)
    requires IsSubsequence(a, b)
    ensures IsSubsequence(a, [x] + b)
    decreases |b|, 1
  {
    assert ([x] + b)[1..] == b;
    if a != [] && a[0] == x {
      IsSubsequenceDropFirst(a, b);
    }
  }

  /** Appending one element adds it to the first occurrences unless it is already there. */
  lemma FirstSeenSnoc<T>(s: seq<T>, x: T)
    ensures FirstSeen(s + [x]) == if x in s then FirstSeen(s) else FirstSeen(s) + [x]
  {
    assert (s + [x])[..|s|] == s;
  }

  lemma {:induction false} IsSubsequenceSnocRight<T>(a: seq<T>, b: seq<T>, y: T)
    requires IsSubsequence(a, b)
    ensures IsSubsequence(a, b + [y])
    decreases |b|
  {
    if a != [] {
      assert (b + [y])[0] == b[0] && (b + [y])[1..] == b[1..] + [y];
      if a[0] == b[0] {
        IsSubsequenceSnocRight(a[1..], b[1..], y);
      } else {
        IsSubsequenceSnocRight(a, b[1..], y);
      }
    }
  }

  lemma {:induction false} IsSubsequenceSnocBoth<T>(a: seq<T>, b: seq<T>, x: T)
    requires IsSubsequence(a, b)
    ensures IsSubsequence(a + [x], b + [x])
    decreases |b|
  {
    if b == [] {
      assert a == [];
      assert [] + [x] == [x];
    } else {
      assert (b + [x])[0] == b[0] && (b + [x])[1..] == b[1..] + [x];
      if a == [] {
        assert a + [x] == [x];
        if b[0] != x {
          IsSubsequenceSnocBoth(a, b[1..], x);
        }
      } else {
        assert (a + [x])[0] == a[0] && (a + [x])[1..] == a[1..] + [x];
        if a[0] == b[0] {
          IsSubsequenceSnocBoth(a[1..], b[1..], x);
        } else {
          IsSubsequenceSnocBoth(a, b[1..], x);
        }
      }
    }
  }

  /** Being a subsequence is transitive. */
  lemma {:induction false} IsSubsequenceTrans<T>(a: seq<T>, b: seq<T>, c: seq<T>)
    requires IsSubsequence(a, b) && IsSubsequence(b, c)
    ensures IsSubsequence(a, c)
    decreases |c|
  {
    if a != [] {
      if b[0] == c[0] {
        if a[0] == b[0] {
          IsSubsequenceTrans(a[1..], b[1..], c[1..]);
        } else {
          IsSubsequenceTrans(a, b[1..], c[1..]);
        }
      } else {
        IsSubsequenceTrans(a, b, c[1..]);
        if a[0] == c[0] {
          IsSubsequenceDropFirst(a, c[1..]);
        }
      }
    }
  }

  /** A property of every element of every part holds of every element of the concatenation. */
  lemma {:induction false} FlattenAll<T>(ss: seq<seq<T>>, p: T -> bool)
    requires forall k | 0 <= k < |ss| :: forall i | 0 <= i < |ss[k]| :: p(ss[k][i])
    ensures forall i | 0 <= i < |Flatten(ss)| :: p(Flatten(ss)[i])
  {
    if ss != [] {
      var pre := ss[..|ss| - 1];
      FlattenAll(pre, p);
      var f := Flatten(pre);
      var last := ss[|ss| - 1];
      assert forall i | 0 <= i < |f + last| :: (f + last)[i] == if i < |f| then f[i] else last[i - |f|];
    }
  }

  /** Taking first occurrences twice is taking them once, even after a prefix. */
  lemma {:induction false} FirstSeenAbsorb<T>(a: seq<T>, t: seq<T>)
    ensures FirstSeen(a + FirstSeen(t)) == FirstSeen(a + t)
    decreases |t|
  {
    if t == [] {
      assert a + [] == a;
    } else {
      var p := t[..|t| - 1];
      var x := t[|t| - 1];
      FirstSeenAbsorb(a, p);
      assert t == p + [x];
      assert a + t == (a + p) + [x];
      assert (a + t)[..|a + t| - 1] == a + p;
      var fp := FirstSeen(p);
      if x in p {
        assert FirstSeen(t) == fp;
      } else {
        assert FirstSeen(t) == fp + [x];
        assert a + (fp + [x]) == (a + fp) + [x];
        assert (x in a + fp) == (x in a + p);
      }
    }
  }

  /** The number of true entries: numpy's `mask.sum()`. */
  function CountTrue(m: seq<bool>): (r: nat)
    ensures r <= |m|
    ensures r == 0 <==> forall i | 0 <= i < |m| :: !m[i]
  {
    if m == [] then 0 else CountTrue(m[..|m| - 1]) + (if m[|m| - 1] then 1 else 0)
  }

  /** The elements of `s` at the selected positions, in order: numpy's `s[mask]`. */
  function Select<T>(m: seq<bool>, s: seq<T>): (r: seq<T>)
    requires |m| == |s|
    ensures |r| == CountTrue(m)
  {
    if m == [] then []
    else
      var rest := Select(m[..|m| - 1], s[..|s| - 1]);
      if m[|m| - 1] then rest + [s[|s| - 1]] else rest
  }

  /** Selecting over two halves in turn is selecting over their concatenation. */
  lemma {:induction false} SelectConcat<T>(m1: seq<bool>, s1: seq<T>, m2: seq<bool>, s2: seq<T>)
    requires |m1| == |s1| && |m2| == |s2|
    ensures Select(m1 + m2, s1 + s2) == Select(m1, s1) + Select(m2, s2)
    decreases |m2|
  {
    if m2 == [] {
      assert m1 + m2 == m1 && s1 + s2 == s1;
    } else {
      var n := |m2| - 1;
      SelectConcat(m1, s1, m2[..n], s2[..n]);
      assert (m1 + m2)[..|m1 + m2| - 1] == m1 + m2[..n];
      assert (s1 + s2)[..|s1 + s2| - 1] == s1 + s2[..n];
    }
  }
}
