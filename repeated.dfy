/**
 * Fixed-count repetitions: a run of items written one after another, and
 * the matching read that takes a given number of items off the front of
 * the input, failing as soon as one item cannot be read.
 */
module Repeated {
  import opened Wrappers
  import opened Bytes

  /** Something that reads one `T` off the front of the input and returns the rest. */
  type ItemReader<T> = seq<byte> -> Option<(T, seq<byte>)>

  /** The items written back to back, each by `write`, in order: the first item's bytes come first. */
  function WriteAll<T>(write: T -> seq<byte>, xs: seq<T>): (r: seq<byte>)
    ensures |xs| == 1 ==> r == write(xs[0])
    decreases |xs|
  {
    if xs == [] then [] else WriteAll(write, xs[..|xs| - 1]) + write(xs[|xs| - 1])
  }

  /** Reads `k` items in order; the items it returns are exactly `k`. */
  function ReadAll<T>(read: ItemReader<T>, s: seq<byte>, k: nat): (r: Option<(seq<T>, seq<byte>)>)
    ensures r.Some? ==> |r.value.0| == k
    decreases k
  {
    if k == 0 then Some(([], s))
    else
      var done :- ReadAll(read, s, k - 1);
      var x :- read(done.1);
      Some((done.0 + [x.0], x.1))
  }

  /** Writing one more item appends its bytes. */
  lemma WriteAllSnoc<T>(write: T -> seq<byte>, xs: seq<T>, x: T)
    ensures WriteAll(write, xs + [x]) == WriteAll(write, xs) + write(x)
  {
    assert (xs + [x])[..|xs|] == xs;
  }

  /** `read` undoes `write` for each of the items `xs`, whatever follows. */
  ghost predicate ReadsBack<T>(read: ItemReader<T>, write: T -> seq<byte>, xs: seq<T>)
  {
    forall i, rest :: 0 <= i < |xs| ==> read(write(xs[i]) + rest) == Some((xs[i], rest))
  }

  /** Reading back a run of written items gives the items and leaves what followed them. */
  lemma {:induction false} ReadAllWritten<T>(read: ItemReader<T>, write: T -> seq<byte>, xs: seq<T>, rest: seq<byte>)
    requires ReadsBack(read, write, xs)
    ensures ReadAll(read, WriteAll(write, xs) + rest, |xs|) == Some((xs, rest))
  {
    if xs == [] {
      assert WriteAll(write, xs) + rest == rest;
    } else {
      var init, last := xs[..|xs| - 1], xs[|xs| - 1];
      assert ReadsBack(read, write, init) by {
        forall i, r | 0 <= i < |init| ensures read(write(init[i]) + r) == Some((init[i], r)) {
          assert init[i] == xs[i];
        }
      }
      var tail := write(last) + rest;
      assert WriteAll(write, xs) + rest == WriteAll(write, init) + tail;
      ReadAllWritten(read, write, init, tail);
      assert read(write(xs[|xs| - 1]) + rest) == Some((last, rest));
      assert init + [last] == xs;
    }
  }

  /** One more item: the run grows by what `read` takes next, or fails with it. */
  lemma ReadAllNext<T>(read: ItemReader<T>, s: seq<byte>, i: nat, done: seq<T>, rest: seq<byte>)
    requires ReadAll(read, s, i) == Some((done, rest))
    ensures read(rest).None? ==> ReadAll(read, s, i + 1).None?
    ensures read(rest).Some? ==> ReadAll(read, s, i + 1) == Some((done + [read(rest).value.0], read(rest).value.1))
  {
  }

  /** Once one of the first `i` items cannot be read, no longer run can be read either. */
  lemma {:induction false} ReadAllStops<T>(read: ItemReader<T>, s: seq<byte>, i: nat, k: nat)
    requires i <= k
    requires ReadAll(read, s, i).None?
    ensures ReadAll(read, s, k).None?
    decreases k
  {
    if i < k {
      ReadAllStops(read, s, i, k - 1);
    }
  }

  /** When every item is `width` bytes long, item `i` sits at offset `i * width`. */
  lemma {:induction false} WriteAllAt<T>(write: T -> seq<byte>, xs: seq<T>, width: nat, i: nat)
    requires forall j :: 0 <= j < |xs| ==> |write(xs[j])| == width
    requires i < |xs|
    ensures |WriteAll(write, xs)| == |xs| * width
    ensures WriteAll(write, xs)[i * width..(i + 1) * width] == write(xs[i])
    decreases |xs|
  {
    var init := xs[..|xs| - 1];
    WriteAllLength(write, init, width);
    assert |WriteAll(write, xs)| == |init| * width + width == |xs| * width;
    if i < |init| {
      WriteAllAt(write, init, width, i);
      MulMonotone(i + 1, |init|, width);
      assert WriteAll(write, xs)[i * width..(i + 1) * width] == WriteAll(write, init)[i * width..(i + 1) * width];
    } else {
      assert i * width == |WriteAll(write, init)|;
    }
  }

  /** Items of at least `width` bytes each make a run of at least `|xs| * width` bytes. */
  lemma {:induction false} WriteAllAtLeast<T>(write: T -> seq<byte>, xs: seq<T>, width: nat)
    requires forall j :: 0 <= j < |xs| ==> |write(xs[j])| >= width
    ensures |WriteAll(write, xs)| >= |xs| * width
    decreases |xs|
  {
    if xs != [] {
      var init := xs[..|xs| - 1];
      assert forall j :: 0 <= j < |init| ==> init[j] == xs[j];
      WriteAllAtLeast(write, init, width);
      assert |xs| * width == |init| * width + width;
    }
  }

  lemma {:induction false} WriteAllLength<T>(write: T -> seq<byte>, xs: seq<T>, width: nat)
    requires forall j :: 0 <= j < |xs| ==> |write(xs[j])| == width
    ensures |WriteAll(write, xs)| == |xs| * width
    decreases |xs|
  {
    if xs != [] {
      var init := xs[..|xs| - 1];
      assert forall j :: 0 <= j < |init| ==> init[j] == xs[j];
      WriteAllLength(write, init, width);
      assert |xs| * width == |init| * width + width;
    }
  }

  lemma MulMonotone(a: nat, b: nat, c: nat)
    requires a <= b
    ensures a * c <= b * c
  {
  }
}
