/** Arrays of child records: the `OFL_UTILS_SUM_ARR_FUN` sums of the length pass, and the
    children the pack pass lays out back to back. */
module Layout {
  import opened Wire

  /** `OFL_UTILS_SUM_ARR_FUN(sum, xs, n, f)`: the sum of `f` over the array. */
  function Sum<T>(xs: seq<T>, f: T -> nat): nat
  {
    if xs == [] then 0 else Sum(xs[..|xs| - 1], f) + f(xs[|xs| - 1])
  }

  /** `OFL_UTILS_SUM_ARR_FUN2` over a length function that can fail: the sum, or `None` when
      some element's length is `None`. */
  function SumOpt<T>(xs: seq<T>, f: T -> Option<nat>): Option<nat>
  {
    if xs == [] then Some(0)
    else
      var init := SumOpt(xs[..|xs| - 1], f);
      var last := f(xs[|xs| - 1]);
      if init.None? || last.None? then None else Some(init.value + last.value)
  }

  /** The sum fails exactly when the length of some element fails. */
  lemma {:induction false} SumOptFails<T>(xs: seq<T>, f: T -> Option<nat>)
    ensures SumOpt(xs, f).None? <==> exists k :: 0 <= k < |xs| && f(xs[k]).None?
  {
    if xs != [] {
      var init := xs[..|xs| - 1];
      SumOptFails(init, f);
      if SumOpt(init, f).None? {
        var k :| 0 <= k < |init| && f(init[k]).None?;
        assert xs[k] == init[k];
      }
      if exists k :: 0 <= k < |xs| && f(xs[k]).None? {
        var k :| 0 <= k < |xs| && f(xs[k]).None?;
        if k < |xs| - 1 {
          assert init[k] == xs[k];
        }
      }
    }
  }

  /** A sum of a constant is a product. */
  lemma {:induction false} SumConst<T>(xs: seq<T>, f: T -> nat, c: nat)
    requires forall k :: 0 <= k < |xs| ==> f(xs[k]) == c
    ensures Sum(xs, f) == c * |xs|
  {
    if xs != [] {
      SumConst(xs[..|xs| - 1], f, c);
    }
  }

  /** The image of each child. */
  function Images<T>(xs: seq<T>, img: T -> seq<Cell>): (parts: seq<seq<Cell>>)
    ensures |parts| == |xs|
  {
    seq(|xs|, k requires 0 <= k < |xs| => img(xs[k]))
  }

  /** The images of a prefix are the prefix of the images. */
  lemma ImagesPrefix<T>(xs: seq<T>, img: T -> seq<Cell>, k: nat)
    requires k <= |xs|
    ensures Images(xs, img)[..k] == Images(xs[..k], img)
  {
    var parts := Images(xs, img);
    var prefix := Images(xs[..k], img);
    forall j | 0 <= j < k ensures parts[j] == prefix[j] {
      assert xs[..k][j] == xs[j];
    }
  }

  /** When each child's image is as long as its length says and writes every byte, the
      children laid out back to back take the summed length and write every byte. */
  lemma {:induction false} LaidOut<T>(xs: seq<T>, img: T -> seq<Cell>, f: T -> nat)
    requires forall k :: 0 <= k < |xs| ==> |img(xs[k])| == f(xs[k]) && Complete(img(xs[k]))
    ensures |Concat(Images(xs, img))| == Sum(xs, f)
    ensures Complete(Concat(Images(xs, img)))
  {
    if xs != [] {
      var n := |xs| - 1;
      LaidOut(xs[..n], img, f);
      ImagesPrefix(xs, img, n);
      CompleteAppend(Concat(Images(xs[..n], img)), img(xs[n]));
    }
  }

  /** When each child's image is as long as its length says, the children laid out back to
      back take the summed length. */
  lemma {:induction false} LaidOutSize<T>(xs: seq<T>, img: T -> seq<Cell>, f: T -> nat)
    requires forall k :: 0 <= k < |xs| ==> |img(xs[k])| == f(xs[k])
    ensures |Concat(Images(xs, img))| == Sum(xs, f)
  {
    if xs != [] {
      var n := |xs| - 1;
      LaidOutSize(xs[..n], img, f);
      ImagesPrefix(xs, img, n);
    }
  }

  /** The same for a length function that can fail: when it gives the size of each child's
      image, the sum does not fail and is the size of the children laid out back to back. */
  lemma {:induction false} LaidOutSizeOpt<T>(xs: seq<T>, parts: seq<seq<Cell>>, f: T -> Option<nat>)
    requires |parts| == |xs|
    requires forall k :: 0 <= k < |xs| ==> f(xs[k]) == Some(|parts[k]|)
    ensures SumOpt(xs, f) == Some(|Concat(parts)|)
  {
    if xs != [] {
      var n := |xs| - 1;
      LaidOutSizeOpt(xs[..n], parts[..n], f);
      ConcatSnoc(parts, n);
      assert parts[..n + 1] == parts;
    }
  }

  /** Child `k` starts where the children before it end. */
  lemma ChildAt<T>(xs: seq<T>, img: T -> seq<Cell>, k: nat)
    requires k < |xs|
    ensures var start := |Concat(Images(xs[..k], img))|;
      && start + |img(xs[k])| <= |Concat(Images(xs, img))|
      && Concat(Images(xs, img))[start..start + |img(xs[k])|] == img(xs[k])
  {
    ImagesPrefix(xs, img, k);
    ConcatAt(Images(xs, img), k);
  }
}
