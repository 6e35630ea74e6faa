/**
 * Shared vocabulary of the course platform model: nullable values, the
 * error outcomes the services raise, timestamps and order-preserving
 * selection of sequence elements.
 */
module Common {

  /** A Java reference that may be null. */
  datatype Option<+T> = None | Some(value: T)

  /** The application exceptions the services throw, as values. */
  datatype Failure =
    | NotFound(message: string)
    | Conflict(error: string, message: string)
    | Forbidden(error: string, message: string)

  /** Either the response of an operation or the exception it throws. */
  datatype Result<+T> = Ok(value: T) | Err(failure: Failure)

  /** A `LocalDateTime`, passed in by the caller instead of read from the clock. */
  type Timestamp = int

  /**
   * `xs` can be obtained from `ys` by deleting elements: every element of
   * `xs` comes from its own position of `ys`, in the same order.
   */
  predicate IsSubsequence<T(==)>(xs: seq<T>, ys: seq<T>)
    decreases |ys|
  {
    if |xs| == 0 then true
    else if |ys| == 0 then false
    else (xs[|xs| - 1] == ys[|ys| - 1] && IsSubsequence(xs[..|xs| - 1], ys[..|ys| - 1]))
         || IsSubsequence(xs, ys[..|ys| - 1])
  }

  lemma {:induction false} SubsequenceShorter<T>(xs: seq<T>, ys: seq<T>)
    requires IsSubsequence(xs, ys)
    ensures |xs| <= |ys|
    decreases |ys|
  {
    if |xs| != 0 {
      if xs[|xs| - 1] == ys[|ys| - 1] && IsSubsequence(xs[..|xs| - 1], ys[..|ys| - 1]) {
        SubsequenceShorter(xs[..|xs| - 1], ys[..|ys| - 1]);
      } else {
        SubsequenceShorter(xs, ys[..|ys| - 1]);
      }
    }
  }

  lemma {:induction false} SubsequenceEmpty<T>(ys: seq<T>)
    ensures IsSubsequence([], ys)
  {
  }

  /** Keeping or dropping one more element at the end extends a subsequence. */
  lemma {:induction false} SubsequenceSnoc<T>(xs: seq<T>, ys: seq<T>, y: T, keep: bool)
    requires IsSubsequence(xs, ys)
    ensures IsSubsequence(xs + (if keep then [y] else []), ys + [y])
  {
    var ys' := ys + [y];
    assert ys'[..|ys'| - 1] == ys;
    if keep {
      var xs' := xs + [y];
      assert xs'[..|xs'| - 1] == xs;
    } else {
      assert xs + [] == xs;
      if |xs| != 0 {
        assert IsSubsequence(xs, ys'[..|ys'| - 1]);
      }
    }
  }

  /** A subsequence of a subsequence is a subsequence. */
  lemma {:induction false} SubsequenceTransitive<T>(xs: seq<T>, ys: seq<T>, zs: seq<T>)
    requires IsSubsequence(xs, ys) && IsSubsequence(ys, zs)
    ensures IsSubsequence(xs, zs)
    decreases |zs|
  {
    if |xs| != 0 {
      SubsequenceShorter(xs, ys);
      SubsequenceShorter(ys, zs);
      var ys', zs' := ys[..|ys| - 1], zs[..|zs| - 1];
      if ys[|ys| - 1] == zs[|zs| - 1] && IsSubsequence(ys', zs') {
        if xs[|xs| - 1] == ys[|ys| - 1] && IsSubsequence(xs[..|xs| - 1], ys') {
          SubsequenceTransitive(xs[..|xs| - 1], ys', zs');
        } else {
          SubsequenceTransitive(xs, ys', zs');
        }
      } else {
        SubsequenceTransitive(xs, ys, zs');
      }
    }
  }

  /** A subsequence of `init + [last]` either keeps `last` as its own last element or lies within `init`. */
  lemma SubsequenceUnsnoc<T>(xs: seq<T>, init: seq<T>, last: T) returns (keep: bool, rest: seq<T>)
    requires IsSubsequence(xs, init + [last])
    ensures IsSubsequence(rest, init)
    ensures keep ==> xs == rest + [last]
    ensures !keep ==> xs == rest
  {
    var ys := init + [last];
    assert ys[..|ys| - 1] == init && ys[|ys| - 1] == last;
    if |xs| != 0 && xs[|xs| - 1] == last && IsSubsequence(xs[..|xs| - 1], init) {
      keep, rest := true, xs[..|xs| - 1];
    } else {
      keep, rest := false, xs;
      if |xs| == 0 {
        SubsequenceEmpty(init);
      }
      assert xs + [] == xs;
    }
  }

  lemma SubsequenceStep<T>(xs: seq<T>, ys: seq<T>, xs': seq<T>, ys': seq<T>, y: T, keep: bool)
    requires IsSubsequence(xs, ys) && ys' == ys + [y]
    requires keep ==> xs' == xs + [y]
    requires !keep ==> xs' == xs
    ensures IsSubsequence(xs', ys')
  {
    SubsequenceSnoc(xs, ys, y, keep);
    assert xs + [] == xs;
  }

  /** Subsequences of two parts give a subsequence of the concatenation. */
  lemma {:induction false} SubsequenceConcat<T>(xs1: seq<T>, ys1: seq<T>, xs2: seq<T>, ys2: seq<T>)
    requires IsSubsequence(xs1, ys1) && IsSubsequence(xs2, ys2)
    ensures IsSubsequence(xs1 + xs2, ys1 + ys2)
    decreases |ys2|
  {
    if |ys2| == 0 {
      SubsequenceShorter(xs2, ys2);
      assert xs1 + xs2 == xs1 && ys1 + ys2 == ys1;
    } else {
      var last, init := ys2[|ys2| - 1], ys2[..|ys2| - 1];
      assert ys2 == init + [last];
      var keep, rest := SubsequenceUnsnoc(xs2, init, last);
      SubsequenceConcat(xs1, ys1, rest, init);
      assert (ys1 + init) + [last] == ys1 + ys2;
      assert keep ==> (xs1 + rest) + [last] == xs1 + xs2;
      SubsequenceStep(xs1 + rest, ys1 + init, xs1 + xs2, ys1 + ys2, last, keep);
    }
  }

  /** The elements `f` keeps, transformed, in input order (a stream's map-then-filter). */
  function FilterMap<A, B>(f: A -> Option<B>, xs: seq<A>): seq<B> {
    if |xs| == 0 then []
    else FilterMap(f, xs[..|xs| - 1]) + (match f(xs[|xs| - 1]) case Some(y) => [y] case None => [])
  }

  /** The keys of a sequence, element by element. */
  function Keys<A, K>(key: A -> K, xs: seq<A>): (r: seq<K>)
    ensures |r| == |xs| && forall i :: 0 <= i < |xs| ==> r[i] == key(xs[i])
  {
    seq(|xs|, i requires 0 <= i < |xs| => key(xs[i]))
  }

  lemma AppendAssociative<T>(a: seq<T>, b: seq<T>, c: seq<T>)
    ensures (a + b) + c == a + (b + c)
  {
  }

  /** An index into the middle part of a three-part concatenation lands in the middle part. */
  lemma ConcatMiddle<T>(pre: seq<T>, mid: seq<T>, post: seq<T>, x: nat)
    requires |pre| <= x < |pre| + |mid|
    ensures (pre + mid + post)[x] == mid[x - |pre|]
  {
  }

  lemma KeysAppend<A, K>(key: A -> K, xs: seq<A>, ys: seq<A>)
    ensures Keys(key, xs + ys) == Keys(key, xs) + Keys(key, ys)
  {
  }

  /** FilterMap keeps at most one output per input, in input order (by key). */
  lemma {:induction false} FilterMapOrder<A, B, K>(f: A -> Option<B>, xs: seq<A>, keyA: A -> K, keyB: B -> K)
    requires forall x :: x in xs && f(x).Some? ==> keyB(f(x).value) == keyA(x)
    ensures IsSubsequence(Keys(keyB, FilterMap(f, xs)), Keys(keyA, xs))
  {
    if |xs| == 0 {
      SubsequenceEmpty(Keys(keyA, xs));
    } else {
      var init, last := xs[..|xs| - 1], xs[|xs| - 1];
      assert forall x :: x in init ==> x in xs;
      FilterMapOrder(f, init, keyA, keyB);
      var prev := FilterMap(f, init);
      var keep := f(last).Some?;
      assert Keys(keyA, xs) == Keys(keyA, init) + [keyA(last)];
      if keep {
        assert Keys(keyB, FilterMap(f, xs)) == Keys(keyB, prev) + [keyA(last)];
      } else {
        assert FilterMap(f, xs) == prev;
      }
      SubsequenceStep(Keys(keyB, prev), Keys(keyA, init), Keys(keyB, FilterMap(f, xs)), Keys(keyA, xs), keyA(last), keep);
    }
  }

  /** Each output of FilterMap is the image of an input, and no input's image is lost. */
  lemma {:induction false} FilterMapMembers<A, B>(f: A -> Option<B>, xs: seq<A>)
    ensures forall y :: y in FilterMap(f, xs) ==> exists x :: x in xs && f(x) == Some(y)
    ensures forall x :: x in xs && f(x).Some? ==> f(x).value in FilterMap(f, xs)
  {
    if |xs| != 0 {
      var init, last := xs[..|xs| - 1], xs[|xs| - 1];
      assert xs == init + [last];
      FilterMapMembers(f, init);
    }
  }

  /**
   * FilterMap keeps at most one output per input, in input order (by key),
   * each output the image of an input, and no input's image is lost.
   */
  lemma FilterMapExact<A, B, K>(f: A -> Option<B>, xs: seq<A>, keyA: A -> K, keyB: B -> K)
    requires forall x :: x in xs && f(x).Some? ==> keyB(f(x).value) == keyA(x)
    ensures IsSubsequence(Keys(keyB, FilterMap(f, xs)), Keys(keyA, xs))
    ensures forall y :: y in FilterMap(f, xs) ==> exists x :: x in xs && f(x) == Some(y)
    ensures forall x :: x in xs && f(x).Some? ==> f(x).value in FilterMap(f, xs)
  {
    FilterMapOrder(f, xs, keyA, keyB);
    FilterMapMembers(f, xs);
  }

  /** The elements of `xs` that satisfy `p`, in input order (a stream's filter). */
  function Filter<T>(p: T -> bool, xs: seq<T>): seq<T> {
    if |xs| == 0 then []
    else Filter(p, xs[..|xs| - 1]) + (if p(xs[|xs| - 1]) then [xs[|xs| - 1]] else [])
  }

  /** Filter keeps exactly the elements that satisfy `p`, in their input order, and no more of them than there are. */
  lemma {:induction false} FilterExact<T>(p: T -> bool, xs: seq<T>)
    ensures IsSubsequence(Filter(p, xs), xs)
    ensures |Filter(p, xs)| <= |xs|
    ensures forall x :: x in Filter(p, xs) ==> x in xs && p(x)
    ensures forall x :: x in xs && p(x) ==> x in Filter(p, xs)
  {
    if |xs| != 0 {
      var init, last := xs[..|xs| - 1], xs[|xs| - 1];
      assert xs == init + [last];
      FilterExact(p, init);
      SubsequenceSnoc(Filter(p, init), init, last, p(last));
      assert Filter(p, init) + [] == Filter(p, init);
    }
  }

  /** `related` holds between every element and each later one. */
  predicate Pairwise<T>(xs: seq<T>, related: (T, T) -> bool) {
    forall i, j :: 0 <= i < j < |xs| ==> related(xs[i], xs[j])
  }

  lemma PairwiseSnoc<T>(xs: seq<T>, last: T, related: (T, T) -> bool)
    requires Pairwise(xs, related)
    requires forall x :: x in xs ==> related(x, last)
    ensures Pairwise(xs + [last], related)
  {
    var ys := xs + [last];
    forall i, j | 0 <= i < j < |ys| ensures related(ys[i], ys[j]) {
      assert ys[i] == xs[i] && xs[i] in xs;
      if j < |xs| {
        assert ys[j] == xs[j];
      }
    }
  }

  /** A relation that holds between every earlier and later element still holds after filtering. */
  lemma {:induction false} FilterPairwise<T>(p: T -> bool, xs: seq<T>, related: (T, T) -> bool)
    requires Pairwise(xs, related)
    ensures Pairwise(Filter(p, xs), related)
  {
    if |xs| != 0 {
      var init, last := xs[..|xs| - 1], xs[|xs| - 1];
      assert Pairwise(init, related);
      FilterPairwise(p, init, related);
      if p(last) {
        forall x | x in Filter(p, init) ensures related(x, last) {
          FilterExact(p, init);
          assert x in init;
          var k :| 0 <= k < |init| && init[k] == x;
          assert xs[k] == x;
        }
        PairwiseSnoc(Filter(p, init), last, related);
      }
    }
  }

  /** Pairwise distinct elements all found in `ys` are no more than `ys` has. */
  lemma {:induction false} DistinctWithin<T>(xs: seq<T>, ys: seq<T>)
    requires forall i, j :: 0 <= i < j < |xs| ==> xs[i] != xs[j]
    requires forall x :: x in xs ==> x in ys
    ensures |xs| <= |ys|
    decreases |xs|
  {
    if |xs| != 0 {
      var x, xs' := xs[|xs| - 1], xs[..|xs| - 1];
      assert x in xs;
      var k :| 0 <= k < |ys| && ys[k] == x;
      var ys' := ys[..k] + ys[k + 1..];
      forall y | y in xs' ensures y in ys' {
        var i :| 0 <= i < |xs'| && xs'[i] == y;
        assert xs[i] == y && y != x;
        assert y in xs;
        var m :| 0 <= m < |ys| && ys[m] == y;
        if m < k {
          assert ys'[m] == y;
        } else {
          assert ys'[m - 1] == y;
        }
      }
      DistinctWithin(xs', ys');
    }
  }
}
