/** Sequence helpers: distinctness, reversal and removal of one element. */
module SeqUtil {

  /** No element occurs twice: different positions hold different elements. */
  ghost predicate Distinct<T>(s: seq<T>)
  {
    forall i, j | 0 <= i < j < |s| :: s[i] != s[j]
  }

  /** A non-empty sequence is distinct when its head is not repeated and its tail is distinct. */
  lemma DistinctSplit<T>(s: seq<T>)
    requires s != []
    ensures Distinct(s) <==> s[0] !in s[1..] && Distinct(s[1..])
  {
    var t := s[1..];
    if Distinct(s) {
      forall i, j | 0 <= i < j < |t| ensures t[i] != t[j] {
        assert t[i] == s[i + 1] && t[j] == s[j + 1];
      }
      forall k | 0 <= k < |t| ensures t[k] != s[0] {
        assert t[k] == s[k + 1];
      }
    }
    if s[0] !in t && Distinct(t) {
      forall i, j | 0 <= i < j < |s| ensures s[i] != s[j] {
        assert s[j] == t[j - 1];
        if i > 0 {
          assert s[i] == t[i - 1];
        }
      }
    }
  }

  /** Every element occurs at most once, counted with multiplicity. */
  ghost predicate AtMostOnce<T>(s: seq<T>)
  {
    forall x | x in multiset(s) :: multiset(s)[x] <= 1
  }

  /** The two readings of "no element occurs twice" agree. */
  lemma {:induction false} DistinctCounts<T>(s: seq<T>)
    ensures Distinct(s) <==> AtMostOnce(s)
    decreases |s|
  {
    if s != [] {
      var y, t := s[0], s[1..];
      assert s == [y] + t;
      assert multiset(s) == multiset{y} + multiset(t);
      DistinctSplit(s);
      DistinctCounts(t);
      if Distinct(s) {
        forall x | x in multiset(s) ensures multiset(s)[x] <= 1 {
          if x == y {
            assert multiset(t)[y] == 0;
          } else {
            assert x in multiset(t);
          }
        }
      }
      if AtMostOnce(s) {
        forall x | x in multiset(t) ensures multiset(t)[x] <= 1 {
          assert x in multiset(s);
        }
        assert y in multiset(s) && multiset(s)[y] == 1 + multiset(t)[y];
      }
    }
  }

  /** Distinctness depends only on which elements occur how often. */
  lemma DistinctPerm<T>(s: seq<T>, t: seq<T>)
    requires multiset(s) == multiset(t) && Distinct(s)
    ensures Distinct(t)
  {
    DistinctCounts(s);
    DistinctCounts(t);
    forall x | x in t ensures multiset(t)[x] <= 1 {
      assert x in multiset(t);
    }
  }

  lemma DistinctAppend<T>(s: seq<T>, x: T)
    requires Distinct(s) && x !in s
    ensures Distinct(s + [x])
  {
    DistinctCounts(s);
    DistinctCounts(s + [x]);
    assert multiset(s + [x]) == multiset(s) + multiset{x};
    forall y | y in s + [x] ensures multiset(s + [x])[y] <= 1 {
      if y != x {
        assert y in s;
      } else {
        assert x !in multiset(s);
      }
    }
  }

  /** The sequence read from its last element to its first: the order a stack pops in. */
  function Reversed<T>(s: seq<T>): (r: seq<T>)
    ensures |r| == |s|
  {
    if s == [] then [] else [s[|s| - 1]] + Reversed(s[..|s| - 1])
  }

  lemma {:induction false} ReversedMultiset<T>(s: seq<T>)
    ensures multiset(Reversed(s)) == multiset(s)
  {
    if s != [] {
      ReversedMultiset(s[..|s| - 1]);
      assert s == s[..|s| - 1] + [s[|s| - 1]];
    }
  }

  /** The elements other than `x`, in their original order. */
  function Without<T(==)>(s: seq<T>, x: T): (r: seq<T>)
    ensures x !in r
    ensures forall y | y in r :: y in s && y != x
    ensures forall y | y in s && y != x :: y in r
    ensures x in s ==> |r| < |s|
    ensures |r| <= |s|
  {
    if s == [] then []
    else if s[0] == x then Without(s[1..], x)
    else [s[0]] + Without(s[1..], x)
  }

  lemma {:induction false} WithoutDistinct<T>(s: seq<T>, x: T)
    requires Distinct(s)
    ensures Distinct(Without(s, x))
    ensures multiset(Without(s, x)) <= multiset(s)
  {
    if s != [] {
      assert s == [s[0]] + s[1..];
      assert multiset(s[1..]) <= multiset(s);
      DistinctTail(s);
      WithoutDistinct(s[1..], x);
      if s[0] != x {
        DistinctCons(s[0], Without(s[1..], x));
      }
    }
  }

  /** An element of the first half of a distinct concatenation is not in the second half. */
  lemma DistinctDisjoint<T>(a: seq<T>, b: seq<T>, x: T)
    requires Distinct(a + b) && x in a
    ensures x !in b
  {
    var k :| 0 <= k < |a| && a[k] == x;
    forall m | 0 <= m < |b| ensures b[m] != x {
      assert (a + b)[k] == x && (a + b)[|a| + m] == b[m];
    }
  }

  lemma DistinctCons<T>(x: T, s: seq<T>)
    requires Distinct(s) && x !in s
    ensures Distinct([x] + s)
  {
    assert ([x] + s)[1..] == s;
    DistinctSplit([x] + s);
  }

  lemma DistinctTail<T>(s: seq<T>)
    requires Distinct(s) && s != []
    ensures Distinct(s[1..]) && s[0] !in s[1..]
  {
    DistinctSplit(s);
  }

  /** A slice of a slice is a slice of the whole. */
  lemma SliceOfSlice<T>(s: seq<T>, lo: int, hi: int, i: int, j: int)
    requires 0 <= lo <= hi <= |s| && 0 <= i <= j <= hi - lo
    ensures s[lo..hi][i..j] == s[lo + i..lo + j]
  {
    forall k | 0 <= k < j - i ensures s[lo..hi][i..j][k] == s[lo + i..lo + j][k] {
      assert s[lo..hi][i..j][k] == s[lo..hi][i + k] == s[lo + i + k];
    }
  }

  /** In a distinct sequence, no element occurs before its own index. */
  lemma NotBefore<T>(s: seq<T>, i: nat)
    requires Distinct(s) && i < |s|
    ensures s[i] !in s[..i]
  {
    forall j | 0 <= j < i ensures s[..i][j] != s[i] {
      assert s[..i][j] == s[j];
    }
  }

  /** A distinct sequence drawn from the elements of `u` is no longer than `u`. */
  lemma {:induction false} DistinctSubsetLength<T>(s: seq<T>, u: seq<T>)
    requires Distinct(s) && forall x | x in s :: x in u
    ensures |s| <= |u|
    decreases |s|
  {
    if s != [] {
      DistinctTail(s);
      var w := Without(u, s[0]);
      forall x | x in s[1..] ensures x in w {
        assert x in s && x != s[0];
      }
      DistinctSubsetLength(s[1..], w);
    }
  }

  /** Removing from a sequence extended by one element. */
  lemma {:induction false} WithoutAppend<T>(s: seq<T>, y: T, x: T)
    ensures Without(s + [y], x) == Without(s, x) + (if y == x then [] else [y])
    decreases |s|
  {
    if s == [] {
      assert [y][1..] == [];
    } else {
      assert (s + [y])[0] == s[0] && (s + [y])[1..] == s[1..] + [y];
      WithoutAppend(s[1..], y, x);
    }
  }

  /** Without keeps the order and drops only `x`: on a sequence not holding `x` it changes nothing. */
  lemma {:induction false} WithoutAbsent<T>(s: seq<T>, x: T)
    requires x !in s
    ensures Without(s, x) == s
    decreases |s|
  {
    if s != [] {
      assert s == [s[0]] + s[1..];
      WithoutAbsent(s[1..], x);
    }
  }

  /** Dropping a prefix that stops just before a known element leaves that element in front. */
  lemma DropFirst<T>(s: seq<T>, k: nat, x: T)
    requires k < |s| && s[k] == x
    ensures s[k..] == [x] + s[k + 1..]
  {
  }

  /** Concatenation is associative. */
  lemma ConcatAssoc<T>(a: seq<T>, b: seq<T>, c: seq<T>)
    ensures (a + b) + c == a + (b + c)
  {
  }
}
