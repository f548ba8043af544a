/** Order-preserving selection from a sequence, and what it means to be a subsequence. */
module Seqs {

  /** The elements of `xs` that satisfy `p`, in their original order. */
  function Keep<T>(p: T -> bool, xs: seq<T>): (ys: seq<T>)
    ensures |ys| <= |xs|
    ensures forall k :: 0 <= k < |ys| ==> p(ys[k])
    decreases |xs|
  {
    if |xs| == 0 then []
    else Keep(p, xs[..|xs| - 1]) + (if p(xs[|xs| - 1]) then [xs[|xs| - 1]] else [])
  }

  /** The indices of the elements of `xs` that satisfy `p`, in increasing order. */
  function Positions<T>(p: T -> bool, xs: seq<T>): (idx: seq<nat>)
    ensures forall k :: 0 <= k < |idx| ==> idx[k] < |xs|
    decreases |xs|
  {
    if |xs| == 0 then []
    else Positions(p, xs[..|xs| - 1]) + (if p(xs[|xs| - 1]) then [|xs| - 1] else [])
  }

  ghost predicate Increasing(idx: seq<nat>)
  {
    forall a, b :: 0 <= a < b < |idx| ==> idx[a] < idx[b]
  }

  /** `idx` picks `ys` out of `xs`: strictly increasing indices into `xs` whose elements are `ys`. */
  ghost predicate Embeds<T>(idx: seq<nat>, ys: seq<T>, xs: seq<T>)
  {
    && |idx| == |ys|
    && Increasing(idx)
    && forall k :: 0 <= k < |idx| ==> idx[k] < |xs| && xs[idx[k]] == ys[k]
  }

  /** `ys` is obtained from `xs` by deleting elements, without reordering the rest. */
  ghost predicate IsSubsequence<T>(ys: seq<T>, xs: seq<T>)
  {
    exists idx :: Embeds(idx, ys, xs)
  }

  /** `Keep` selects exactly the elements satisfying `p`, at the indices `Positions` lists. */
  lemma {:induction false} KeepPositions<T>(p: T -> bool, xs: seq<T>)
    ensures Embeds(Positions(p, xs), Keep(p, xs), xs)
    ensures forall j :: 0 <= j < |xs| ==> (p(xs[j]) <==> j in Positions(p, xs))
    decreases |xs|
  {
    if |xs| > 0 {
      var init := xs[..|xs| - 1];
      KeepPositions(p, init);
      assert forall k :: 0 <= k < |init| ==> init[k] == xs[k];
    }
  }

  /** What `Keep` returns is a subsequence of its input. */
  lemma KeepIsSubsequence<T>(p: T -> bool, xs: seq<T>)
    ensures IsSubsequence(Keep(p, xs), xs)
  {
    KeepPositions(p, xs);
  }

  /** Dropping the tail of a subsequence leaves a subsequence. */
  lemma SubsequencePrefix<T>(ys: seq<T>, xs: seq<T>, m: nat)
    requires IsSubsequence(ys, xs)
    requires m <= |ys|
    ensures IsSubsequence(ys[..m], xs)
  {
    var idx :| Embeds(idx, ys, xs);
    assert Embeds(idx[..m], ys[..m], xs);
  }

  /** Selecting from a prefix of `xs` gives a prefix of the selection from `xs`. */
  lemma {:induction false} KeepPrefix<T>(p: T -> bool, xs: seq<T>, j: nat)
    requires j <= |xs|
    ensures |Keep(p, xs[..j])| <= |Keep(p, xs)|
    ensures Keep(p, xs[..j]) == Keep(p, xs)[..|Keep(p, xs[..j])|]
    decreases |xs|
  {
    if j < |xs| {
      var init := xs[..|xs| - 1];
      assert init[..j] == xs[..j];
      KeepPrefix(p, init, j);
    } else {
      assert xs[..j] == xs;
    }
  }

  /** Concatenation regrouped, for proofs that cut a sequence in three. */
  lemma AppendAssoc<T>(a: seq<T>, b: seq<T>, c: seq<T>)
    ensures a + (b + c) == (a + b) + c
  {
  }

  /** Selection distributes over concatenation. */
  lemma {:induction false} KeepAppend<T>(p: T -> bool, xs: seq<T>, ys: seq<T>)
    ensures Keep(p, xs + ys) == Keep(p, xs) + Keep(p, ys)
    decreases |ys|
  {
    if |ys| == 0 {
      assert xs + ys == xs;
    } else {
      assert (xs + ys)[..|xs + ys| - 1] == xs + ys[..|ys| - 1];
      KeepAppend(p, xs, ys[..|ys| - 1]);
    }
  }

  /** When every element satisfies `p`, selection keeps everything. */
  lemma {:induction false} KeepAll<T>(p: T -> bool, xs: seq<T>)
    requires forall k :: 0 <= k < |xs| ==> p(xs[k])
    ensures Keep(p, xs) == xs
    decreases |xs|
  {
    if |xs| > 0 {
      KeepAll(p, xs[..|xs| - 1]);
    }
  }

  /** When no element satisfies `p`, selection keeps nothing. */
  lemma {:induction false} KeepNone<T>(p: T -> bool, xs: seq<T>)
    requires forall k :: 0 <= k < |xs| ==> !p(xs[k])
    ensures Keep(p, xs) == []
    decreases |xs|
  {
    if |xs| > 0 {
      KeepNone(p, xs[..|xs| - 1]);
    }
  }
}
