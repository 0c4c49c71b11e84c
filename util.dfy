/** Small sequence vocabulary shared by the other modules. */
module Util {

  datatype Option<T> = None | Some(value: T)

  /** No element occurs twice in `s`. */
  predicate Distinct<T(==)>(s: seq<T>) {
    forall i, j :: 0 <= i < j < |s| ==> s[i] != s[j]
  }

  /** Number of occurrences of `x` in `s`. */
  function Count<T(==)>(s: seq<T>, x: T): (r: nat)
    ensures r <= |s|
    ensures r == 0 <==> x !in s
  {
    if s == [] then 0 else (if s[0] == x then 1 else 0) + Count(s[1..], x)
  }

  /** `a` can be obtained from `b` by deleting elements (order kept). */
  predicate IsSubseq<T(==)>(a: seq<T>, b: seq<T>)
    decreases |b|
  {
    if a == [] then true
    else if b == [] then false
    else (a[0] == b[0] && IsSubseq(a[1..], b[1..])) || IsSubseq(a, b[1..])
  }

  /** Every element of a subsequence is an element of the sequence. */
  lemma {:induction false} SubseqMembers<T>(a: seq<T>, b: seq<T>)
    requires IsSubseq(a, b)
    ensures forall x :: x in a ==> x in b
    decreases |b|
  {
    if a != [] {
      assert b != [];
      if a[0] == b[0] && IsSubseq(a[1..], b[1..]) {
        SubseqMembers(a[1..], b[1..]);
        forall x | x in a ensures x in b {
          if x != a[0] { assert x in a[1..]; assert x in b[1..]; }
        }
      } else {
        SubseqMembers(a, b[1..]);
      }
    }
  }

  /** A sequence is a subsequence of itself. */
  lemma {:induction false} SubseqRefl<T>(a: seq<T>)
    ensures IsSubseq(a, a)
    decreases |a|
  {
    if a != [] {
      SubseqRefl(a[1..]);
    }
  }

  /** Prepending anything to the larger sequence keeps a subsequence. */
  lemma {:induction false} SubseqPrefix<T>(a: seq<T>, c: seq<T>, b: seq<T>)
    requires IsSubseq(a, b)
    ensures IsSubseq(a, c + b)
    decreases |c|
  {
    if c == [] {
      assert c + b == b;
    } else {
      SubseqPrefix(a, c[1..], b);
      assert (c + b)[1..] == c[1..] + b;
      if a != [] {
        assert IsSubseq(a, (c + b)[1..]);
      }
    }
  }

  /** Subsequences concatenate. */
  lemma {:induction false} SubseqConcat<T>(a1: seq<T>, b1: seq<T>, a2: seq<T>, b2: seq<T>)
    requires IsSubseq(a1, b1) && IsSubseq(a2, b2)
    ensures IsSubseq(a1 + a2, b1 + b2)
    decreases |b1|
  {
    if b1 == [] {
      assert a1 == [];
      assert a1 + a2 == a2 && b1 + b2 == b2;
    } else if a1 != [] && a1[0] == b1[0] && IsSubseq(a1[1..], b1[1..]) {
      SubseqConcat(a1[1..], b1[1..], a2, b2);
      assert (a1 + a2)[1..] == a1[1..] + a2;
      assert (b1 + b2)[1..] == b1[1..] + b2;
    } else if a1 == [] {
      SubseqPrefix(a2, b1, b2);
      assert a1 + a2 == a2;
    } else {
      SubseqConcat(a1, b1[1..], a2, b2);
      assert (b1 + b2)[1..] == b1[1..] + b2;
    }
  }

  /** `prefix` followed by the elements of `xs` it lacks, each once, in the order of
      their first occurrence in `xs`: how a dict's keys grow when the entries of `xs`
      are inserted in turn. */
  function AppendNew<T(==)>(prefix: seq<T>, xs: seq<T>): seq<T>
    decreases |xs|
  {
    if xs == [] then prefix
    else AppendNew(if xs[0] in prefix then prefix else prefix + [xs[0]], xs[1..])
  }

  /** The position of the first occurrence of `x` in `xs`. */
  function FirstIndex<T(==)>(xs: seq<T>, x: T): (i: nat)
    requires x in xs
    ensures i < |xs| && xs[i] == x
    ensures forall k :: 0 <= k < i ==> xs[k] != x
  {
    if xs[0] == x then 0 else 1 + FirstIndex(xs[1..], x)
  }

  /** `AppendNew` keeps `prefix` in front; what follows it is new and comes from `xs`. */
  lemma {:induction false} AppendNewFresh<T>(prefix: seq<T>, xs: seq<T>)
    ensures |AppendNew(prefix, xs)| >= |prefix|
    ensures AppendNew(prefix, xs)[..|prefix|] == prefix
    ensures forall i :: |prefix| <= i < |AppendNew(prefix, xs)| ==>
      AppendNew(prefix, xs)[i] !in prefix && AppendNew(prefix, xs)[i] in xs
    decreases |xs|
  {
    if xs != [] {
      var p := if xs[0] in prefix then prefix else prefix + [xs[0]];
      AppendNewFresh(p, xs[1..]);
      var r := AppendNew(prefix, xs);
      assert r == AppendNew(p, xs[1..]);
      assert r[..|prefix|] == r[..|p|][..|prefix|];
      forall i | |prefix| <= i < |r| ensures r[i] !in prefix && r[i] in xs {
        if i >= |p| {
          assert r[i] in xs[1..];
        } else {
          assert r[i] == r[..|p|][i];
        }
      }
    }
  }

  /** The result holds exactly the elements of `prefix` and of `xs`. */
  lemma {:induction false} AppendNewMembers<T>(prefix: seq<T>, xs: seq<T>)
    ensures forall x :: x in AppendNew(prefix, xs) <==> x in prefix || x in xs
    decreases |xs|
  {
    if xs != [] {
      var p := if xs[0] in prefix then prefix else prefix + [xs[0]];
      AppendNewMembers(p, xs[1..]);
      forall x | x in xs ensures x in xs[1..] || x == xs[0] {
        var k :| 0 <= k < |xs| && xs[k] == x;
        if k > 0 { assert xs[1..][k - 1] == x; }
      }
    }
  }

  /** No element is listed twice, if none was in `prefix`. */
  lemma {:induction false} AppendNewDistinct<T>(prefix: seq<T>, xs: seq<T>)
    requires Distinct(prefix)
    ensures Distinct(AppendNew(prefix, xs))
    decreases |xs|
  {
    if xs != [] {
      var p := if xs[0] in prefix then prefix else prefix + [xs[0]];
      AppendNewDistinct(p, xs[1..]);
    }
  }

  /** The elements added after `prefix` appear in the order in which `xs` first mentions them. */
  lemma {:induction false} AppendNewOrder<T>(prefix: seq<T>, xs: seq<T>)
    ensures var r := AppendNew(prefix, xs);
      forall i, j :: |prefix| <= i < j < |r| ==> FirstSeenBefore(xs, r[i], r[j])
    decreases |xs|
  {
    var r := AppendNew(prefix, xs);
    AppendNewFresh(prefix, xs);
    if xs != [] {
      var x0 := xs[0];
      var p := if x0 in prefix then prefix else prefix + [x0];
      AppendNewOrder(p, xs[1..]);
      AppendNewFresh(p, xs[1..]);
      assert r == AppendNew(p, xs[1..]);
      forall i, j | |prefix| <= i < j < |r|
        ensures FirstSeenBefore(xs, r[i], r[j])
      {
        assert r[j] !in p;
        assert FirstIndex(xs, r[j]) == 1 + FirstIndex(xs[1..], r[j]);
        if i >= |p| {
          assert FirstIndex(xs, r[i]) == 1 + FirstIndex(xs[1..], r[i]);
        } else {
          assert r[i] == r[..|p|][i] == x0;
        }
      }
    }
  }

  /** Every element of `r` occurs in `xs`, and `r` lists them in the order in which
      `xs` first mentions them. */
  predicate InFirstSeenOrder<T(==)>(r: seq<T>, xs: seq<T>) {
    forall i, j :: 0 <= i < j < |r| ==> FirstSeenBefore(xs, r[i], r[j])
  }

  /** `xs` mentions `x` for the first time before it mentions `y` for the first time. */
  predicate FirstSeenBefore<T(==)>(xs: seq<T>, x: T, y: T) {
    x in xs && y in xs && FirstIndex(xs, x) < FirstIndex(xs, y)
  }

  /** The distinct elements of `xs` collected from nothing are in first-seen order. */
  lemma FirstSeenOrder<T>(xs: seq<T>)
    ensures InFirstSeenOrder(AppendNew([], xs), xs)
  {
    var empty: seq<T> := [];
    AppendNewOrder(empty, xs);
    var r := AppendNew(empty, xs);
    forall i, j | 0 <= i < j < |r|
      ensures FirstSeenBefore(xs, r[i], r[j])
    {
      assert |empty| <= i;
    }
  }

  /** Number of occurrences of `x` in `s ++ t`. */
  lemma {:induction false} CountConcat<T>(s: seq<T>, t: seq<T>, x: T)
    ensures Count(s + t, x) == Count(s, x) + Count(t, x)
    decreases |s|
  {
    if s == [] {
      assert s + t == t;
    } else {
      CountConcat(s[1..], t, x);
      assert (s + t)[1..] == s[1..] + t;
    }
  }

  /** Concatenation regroups freely. */
  lemma ConcatAssoc<T>(a: seq<T>, b: seq<T>, c: seq<T>)
    ensures a + (b + c) == (a + b) + c
  {
  }
}
