/**
 * Boolean masks over one axis and the selection `xs[mask]` that numpy's
 * boolean indexing performs: a stable filter that keeps the entries whose
 * mask entry is true, in their original order.
 */
module Masks {
  import opened Seqs

  /** The number of true entries of a mask (`np.sum` over a boolean vector). */
  function Count(mask: seq<bool>): (n: nat)
    ensures n <= |mask|
  {
    if mask == [] then 0
    else Count(mask[..|mask| - 1]) + (if mask[|mask| - 1] then 1 else 0)
  }

  /** `xs[mask]` for a mask as long as `xs`. */
  function Select<T>(xs: seq<T>, mask: seq<bool>): (r: seq<T>)
    requires |xs| == |mask|
    ensures |r| == Count(mask)
  {
    if xs == [] then []
    else
      Select(xs[..|xs| - 1], mask[..|mask| - 1])
      + (if mask[|mask| - 1] then [xs[|xs| - 1]] else [])
  }

  /** The positions 0, 1, ..., n - 1. */
  function Range(n: nat): (r: seq<nat>)
    ensures |r| == n
  {
    if n == 0 then [] else Range(n - 1) + [n - 1]
  }

  /** The positions a mask keeps, ascending (`np.where(mask)`). */
  function Where(mask: seq<bool>): (r: seq<nat>)
    ensures |r| == Count(mask)
  {
    Select(Range(|mask|), mask)
  }

  /** `a` is `b` with some entries left out and the rest kept in order. */
  ghost predicate IsSubsequence<T>(a: seq<T>, b: seq<T>)
  {
    exists mask: seq<bool> :: |mask| == |b| && Select(b, mask) == a
  }

  lemma {:induction false} RangeAt(n: nat, i: nat)
    requires i < n
    ensures Range(n)[i] == i
  {
    if i < n - 1 {
      RangeAt(n - 1, i);
    }
  }

  /** A mask keeps nothing exactly when none of its entries is true. */
  lemma {:induction false} CountZero(mask: seq<bool>)
    ensures Count(mask) == 0 <==> forall i :: 0 <= i < |mask| ==> !mask[i]
  {
    if mask != [] {
      var init := mask[..|mask| - 1];
      CountZero(init);
      assert forall i :: 0 <= i < |init| ==> init[i] == mask[i];
    }
  }

  /** A mask keeps two or more entries exactly when two distinct positions are true. */
  lemma {:induction false} CountAboveOne(mask: seq<bool>)
    ensures Count(mask) > 1 <==> exists a, b :: 0 <= a < b < |mask| && mask[a] && mask[b]
  {
    if mask != [] {
      var n := |mask|;
      var init := mask[..n - 1];
      CountAboveOne(init);
      CountZero(init);
      assert forall i :: 0 <= i < |init| ==> init[i] == mask[i];
      if Count(mask) > 1 {
        if Count(init) > 1 {
          var a, b :| 0 <= a < b < |init| && init[a] && init[b];
          assert mask[a] && mask[b];
        } else {
          assert mask[n - 1] && Count(init) == 1;
          var a :| 0 <= a < |init| && init[a];
          assert mask[a] && mask[n - 1];
        }
      }
      if exists a, b :: 0 <= a < b < n && mask[a] && mask[b] {
        var a, b :| 0 <= a < b < n && mask[a] && mask[b];
        if b < n - 1 {
          assert init[a] && init[b];
        } else {
          assert init[a];
        }
      }
    }
  }

  lemma {:induction false} CountAppend(a: seq<bool>, b: seq<bool>)
    ensures Count(a + b) == Count(a) + Count(b)
  {
    if b != [] {
      var ab := a + b;
      assert ab[..|ab| - 1] == a + b[..|b| - 1];
      CountAppend(a, b[..|b| - 1]);
    } else {
      assert a + b == a;
    }
  }

  /** Selection distributes over concatenation: filtering two halves is filtering the whole. */
  lemma {:induction false} SelectAppend<T>(a: seq<T>, ma: seq<bool>, b: seq<T>, mb: seq<bool>)
    requires |a| == |ma| && |b| == |mb|
    ensures Select(a + b, ma + mb) == Select(a, ma) + Select(b, mb)
  {
    if b == [] {
      assert a + b == a && ma + mb == ma;
    } else {
      var b', mb' := b[..|b| - 1], mb[..|mb| - 1];
      SelectAppend(a, ma, b', mb');
      Snoc(b);
      Snoc(mb);
      AppendSnoc(a, b', b[|b| - 1]);
      AppendSnoc(ma, mb', mb[|mb| - 1]);
    }
  }

  /** An all-true mask keeps everything; an all-false mask keeps nothing. */
  lemma {:induction false} SelectConstant<T>(xs: seq<T>, keep: bool)
    ensures Select(xs, seq(|xs|, _ => keep)) == (if keep then xs else [])
  {
    if xs != [] {
      ConstantPrefix(|xs|, keep);
      SelectConstant(xs[..|xs| - 1], keep);
      Snoc(xs);
    }
  }

  /**
   * The j-th selected entry is the entry at the j-th kept position: every
   * sequence filtered by the same mask keeps the same original positions.
   */
  lemma {:induction false} SelectAt<T>(xs: seq<T>, mask: seq<bool>, j: nat)
    requires |xs| == |mask| && j < Count(mask)
    ensures Where(mask)[j] < |xs| && Select(xs, mask)[j] == xs[Where(mask)[j]]
  {
    var n := |xs|;
    var xs', m' := xs[..n - 1], mask[..n - 1];
    assert Range(n)[..n - 1] == Range(n - 1);
    if j < Count(m') {
      SelectAt(xs', m', j);
    } else {
      RangeAt(n, n - 1);
    }
  }

  /**
   * `np.where(mask)` lists exactly the true positions of the mask, each
   * once, in increasing order.
   */
  lemma {:induction false} WhereSpec(mask: seq<bool>)
    ensures forall j :: 0 <= j < |Where(mask)| ==> Where(mask)[j] < |mask| && mask[Where(mask)[j]]
    ensures forall j, k :: 0 <= j < k < |Where(mask)| ==> Where(mask)[j] < Where(mask)[k]
    ensures forall i :: 0 <= i < |mask| && mask[i] ==> i in Where(mask)
  {
    if mask != [] {
      var n := |mask|;
      var m' := mask[..n - 1];
      WhereSpec(m');
      assert Range(n)[..n - 1] == Range(n - 1);
      RangeAt(n, n - 1);
      assert Where(mask) == Where(m') + (if mask[n - 1] then [n - 1] else []);
      assert forall i :: 0 <= i < n - 1 ==> m'[i] == mask[i];
    }
  }
}
