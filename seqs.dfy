/** Optional values and the "keep the values that are present" filter shared by the
    CSV loop and the price-text tokeniser. */
module Seqs {

  /** `undefined` (or NaN, for a number) is `None`. */
  datatype Option<+T> = None | Some(value: T)

  /** The values of the present entries of `xs`, in order. This is what
      `.map(f).filter(n => !Number.isNaN(n))` leaves, and what a loop that pushes
      only the values that converted builds. */
  function Present<T>(xs: seq<Option<T>>): (r: seq<T>)
    ensures |r| <= |xs|
    decreases |xs|
  {
    if xs == [] then []
    else (if xs[0].Some? then [xs[0].value] else []) + Present(xs[1..])
  }

  /** Filtering distributes over concatenation: a loop may push one entry at a time. */
  lemma {:induction false} PresentAppend<T>(xs: seq<Option<T>>, ys: seq<Option<T>>)
    ensures Present(xs + ys) == Present(xs) + Present(ys)
    decreases |xs|
  {
    if xs == [] {
      assert xs + ys == ys;
    } else {
      var head := if xs[0].Some? then [xs[0].value] else [];
      assert (xs + ys)[0] == xs[0];
      assert (xs + ys)[1..] == xs[1..] + ys;
      assert Present(xs + ys) == head + Present(xs[1..] + ys);
      PresentAppend(xs[1..], ys);
      assert Present(xs) == head + Present(xs[1..]);
    }
  }

  /** A value is kept exactly when some entry holds it: nothing that converted is
      dropped and nothing else appears. */
  lemma {:induction false} PresentMembership<T>(xs: seq<Option<T>>, v: T)
    ensures v in Present(xs) <==> Some(v) in xs
    decreases |xs|
  {
    if xs != [] {
      PresentMembership(xs[1..], v);
      assert xs == [xs[0]] + xs[1..];
    }
  }

  /** When every entry is present, nothing is dropped. */
  lemma {:induction false} PresentAll<T>(xs: seq<Option<T>>)
    requires forall i :: 0 <= i < |xs| ==> xs[i].Some?
    ensures Present(xs) == seq(|xs|, i requires 0 <= i < |xs| => xs[i].value)
    decreases |xs|
  {
    if xs != [] {
      PresentAll(xs[1..]);
    }
  }

  /** A present last entry is the last value kept. */
  lemma PresentLast<T>(xs: seq<Option<T>>)
    requires xs != [] && xs[|xs| - 1].Some?
    ensures Present(xs) != [] && Present(xs)[|Present(xs)| - 1] == xs[|xs| - 1].value
  {
    var n := |xs| - 1;
    assert xs == xs[..n] + [xs[n]];
    PresentAppend(xs[..n], [xs[n]]);
  }

  /** A last entry holding `v` makes `v` the last value kept. */
  lemma PresentLastIs<T>(xs: seq<Option<T>>, v: T)
    requires xs != [] && xs[|xs| - 1] == Some(v)
    ensures Present(xs) != [] && Present(xs)[|Present(xs)| - 1] == v
  {
    PresentLast(xs);
  }

  /** Filtering a prefix one entry longer keeps one more value when that entry is
      present: the step of a loop that pushes the values that converted. */
  lemma PresentSnoc<T>(xs: seq<Option<T>>, k: nat)
    requires k < |xs|
    ensures Present(xs[..k + 1]) == Present(xs[..k]) + (if xs[k].Some? then [xs[k].value] else [])
  {
    assert xs[..k + 1] == xs[..k] + [xs[k]];
    PresentAppend(xs[..k], [xs[k]]);
    assert [xs[k]][1..] == [];
  }

  /** The values kept from a prefix of the entries are a prefix of all the values kept:
      values keep the order of their entries. */
  lemma PresentPrefix<T>(xs: seq<Option<T>>, k: nat)
    requires k <= |xs|
    ensures Present(xs[..k]) <= Present(xs)
  {
    assert xs == xs[..k] + xs[k..];
    PresentAppend(xs[..k], xs[k..]);
  }

  /** The prefix as long as the whole sequence is the whole sequence. */
  lemma PresentWhole<T>(xs: seq<Option<T>>)
    ensures Present(xs[..|xs|]) == Present(xs)
  {
    assert xs[..|xs|] == xs;
  }

  /** Two present entries are kept, in order. */
  lemma PresentPair<T>(xs: seq<Option<T>>, x: T, y: T)
    requires |xs| == 2 && xs[0] == Some(x) && xs[1] == Some(y)
    ensures Present(xs) == [x, y]
  {
    assert xs[1..] == [Some(y)];
    assert xs[1..][1..] == [];
  }
}
