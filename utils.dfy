/** The small helpers of the place-value engine: clamping the requested number,
    flattening a sequence of frames, and chunking a flat sequence into frames. */
module Utils {

  /** What `parseInt` can hand to `clampInt`: NaN or an integer. */
  datatype Parsed = NaN | Num(value: int)

  function Min(a: int, b: int): int { if a <= b then a else b }

  function Max(a: int, b: int): int { if a <= b then b else a }

  /** `clampInt(n, min, max)`: NaN becomes `lo`, anything else is forced into
      `[lo, hi]` by `max(lo, min(hi, n))`. */
  function ClampInt(n: Parsed, lo: int, hi: int): (r: int)
    ensures n.NaN? ==> r == lo
    ensures lo <= hi ==> lo <= r <= hi
    ensures n.Num? && lo <= n.value <= hi ==> r == n.value
    ensures n.Num? && lo <= hi && n.value < lo ==> r == lo
    ensures n.Num? && lo <= hi && hi < n.value ==> r == hi
  {
    match n
    case NaN => lo
    case Num(v) => Max(lo, Min(hi, v))
  }

  /** The concatenation of all frames, frame by frame and slot by slot. */
  function Concat<T>(frames: seq<seq<T>>): seq<T>
  {
    if frames == [] then [] else frames[0] + Concat(frames[1..])
  }

  /** The number of items in all frames together, as `reduce((a, f) => a + f.length, 0)`
      computes it. */
  function TotalLength<T>(frames: seq<seq<T>>): (n: nat)
    ensures n == |Concat(frames)|
  {
    if frames == [] then 0 else |frames[0]| + TotalLength(frames[1..])
  }

  /** Removes the element at index `i`, as `splice(i, 1)` does. */
  function RemoveAt<T>(s: seq<T>, i: nat): (r: seq<T>)
    requires i < |s|
    ensures |r| == |s| - 1
  {
    s[..i] + s[i + 1..]
  }

  /** Whatever is left after a splice was there before. */
  lemma InRemoveAt<T>(s: seq<T>, i: nat, x: T)
    requires i < |s| && x in RemoveAt(s, i)
    ensures x in s
  {
    var k :| 0 <= k < |RemoveAt(s, i)| && RemoveAt(s, i)[k] == x;
    assert x == s[if k < i then k else k + 1];
  }

  /** `chunk(s, size)`: consecutive groups of `size` items, the last one holding
      the remainder; an empty input gives one empty group. Its shape is stated by
      `ChunkedIsPacked`. */
  function Chunked<T>(s: seq<T>, size: nat): (r: seq<seq<T>>)
    requires size > 0
    ensures |r| >= 1
    ensures Concat(r) == s
    decreases |s|
  {
    if |s| <= size then [s] else [s[..size]] + Chunked(s[size..], size)
  }

  /** The shape `chunk` produces: at least one frame, every frame but the last
      full, the last one not over-full, and non-empty unless it is the only frame. */
  predicate Packed<T>(frames: seq<seq<T>>, size: nat)
  {
    |frames| >= 1
    && (forall k :: 0 <= k < |frames| - 1 ==> |frames[k]| == size)
    && |frames[|frames| - 1]| <= size
    && (|frames| > 1 ==> |frames[|frames| - 1]| >= 1)
  }

  /** Every group but the last holds exactly `size` items, the last holds 1 to
      `size` items, and an empty input gives exactly one empty group. */
  lemma {:induction false} ChunkedIsPacked<T>(s: seq<T>, size: nat)
    requires size > 0
    ensures Packed(Chunked(s, size), size)
    ensures s != [] ==> |Chunked(s, size)[|Chunked(s, size)| - 1]| >= 1
    ensures s == [] ==> Chunked(s, size) == [[]]
    decreases |s|
  {
    if |s| > size {
      ChunkedIsPacked(s[size..], size);
      var r := Chunked(s, size);
      var rest := Chunked(s[size..], size);
      assert r == [s[..size]] + rest;
      forall k | 0 <= k < |r| - 1 ensures |r[k]| == size {
        if k > 0 {
          assert r[k] == rest[k - 1];
        }
      }
    }
  }

  /** Frames in packed shape are exactly the chunking of their concatenation:
      packing is the one and only canonical grouping. */
  lemma {:induction false} PackedIsChunked<T>(frames: seq<seq<T>>, size: nat)
    requires size > 0 && Packed(frames, size)
    ensures Chunked(Concat(frames), size) == frames
    decreases |frames|
  {
    if |frames| == 1 {
      assert frames[1..] == [];
      assert Concat(frames) == frames[0];
      assert frames == [frames[0]];
    } else {
      var rest := frames[1..];
      assert Packed(rest, size) by {
        forall k | 0 <= k < |rest| - 1 ensures |rest[k]| == size {
          assert rest[k] == frames[k + 1];
        }
      }
      PackedIsChunked(rest, size);
      var s := Concat(frames);
      assert s == frames[0] + Concat(rest);
      assert |frames[0]| == size;
      assert |Concat(rest)| >= 1 by {
        ConcatLength(rest);
      }
      assert s[..size] == frames[0];
      assert s[size..] == Concat(rest);
    }
  }

  /** A non-empty sequence of frames whose last frame is non-empty has a
      non-empty concatenation. */
  lemma {:induction false} ConcatLength<T>(frames: seq<seq<T>>)
    requires |frames| >= 1 && |frames[|frames| - 1]| >= 1
    ensures |Concat(frames)| >= 1
    decreases |frames|
  {
    if |frames| > 1 {
      ConcatLength(frames[1..]);
    }
  }

  /** `chunk` yields packed frames, and packed frames are the chunking of their
      items: being packed and being a fixed point of re-chunking are the same. */
  lemma PackedIffCanonical<T>(frames: seq<seq<T>>, size: nat)
    requires size > 0
    ensures Packed(frames, size) <==> Chunked(Concat(frames), size) == frames
  {
    if Packed(frames, size) {
      PackedIsChunked(frames, size);
    }
  }

  lemma {:induction false} ConcatAppend<T>(a: seq<seq<T>>, b: seq<seq<T>>)
    ensures Concat(a + b) == Concat(a) + Concat(b)
    decreases |a|
  {
    if a == [] {
      assert a + b == b;
    } else {
      assert (a + b)[1..] == a[1..] + b;
      ConcatAppend(a[1..], b);
    }
  }

  /** The frames up to `f` are the first frame followed by the next `f` frames. */
  lemma ConcatPrefixSucc<T>(frames: seq<seq<T>>, f: nat)
    requires f < |frames|
    ensures Concat(frames[..f + 1]) == frames[0] + Concat(frames[1..][..f])
  {
    var p := frames[..f + 1];
    assert p[0] == frames[0];
    assert p[1..] == frames[1..][..f];
  }

  /** The one frame appended after some frames contributes its items last. */
  lemma ConcatSnoc<T>(frames: seq<seq<T>>, f: seq<T>)
    ensures Concat(frames + [f]) == Concat(frames) + f
  {
    ConcatAppend(frames, [f]);
    assert Concat([f]) == f + Concat([]);
  }

  /** Concatenating around one frame: the items before it, its own, and the items after it. */
  lemma {:induction false} ConcatSplit<T>(frames: seq<seq<T>>, i: nat)
    requires i < |frames|
    ensures Concat(frames) == Concat(frames[..i]) + frames[i] + Concat(frames[i + 1..])
    decreases i
  {
    if i == 0 {
      assert frames[..0] == [];
      assert frames[1..] == frames[i + 1..];
    } else {
      var rest := frames[1..];
      ConcatSplit(rest, i - 1);
      assert rest[..i - 1] == frames[..i][1..];
      assert rest[i..] == frames[i + 1..];
      assert rest[i - 1] == frames[i];
      assert Concat(frames[..i]) == frames[0] + Concat(frames[..i][1..]);
    }
  }

  /** Replacing one frame by a new frame changes only that frame's items. */
  lemma ConcatUpdate<T>(frames: seq<seq<T>>, i: nat, f: seq<T>)
    requires i < |frames|
    ensures Concat(frames[i := f]) == Concat(frames[..i]) + f + Concat(frames[i + 1..])
  {
    var g := frames[i := f];
    ConcatSplit(g, i);
    assert g[..i] == frames[..i];
    assert g[i + 1..] == frames[i + 1..];
  }

  /** Removing one frame removes exactly its items. */
  lemma ConcatRemoveAt<T>(frames: seq<seq<T>>, i: nat)
    requires i < |frames|
    ensures Concat(RemoveAt(frames, i)) == Concat(frames[..i]) + Concat(frames[i + 1..])
  {
    ConcatAppend(frames[..i], frames[i + 1..]);
  }

  /** A window of a window is a window of the whole. */
  lemma SliceOfSlice<T>(s: seq<T>, lo: nat, hi: nat, i: nat, j: nat)
    requires lo <= hi <= |s| && i <= j <= hi - lo
    ensures s[lo..hi][i..j] == s[lo + i..lo + j]
  {
    var w := s[lo..hi][i..j];
    forall k | 0 <= k < j - i ensures w[k] == s[lo + i + k] {
      assert w[k] == s[lo..hi][i + k];
    }
  }

  /** Removing an item of the middle part of `a + f + b` removes it from `f`. */
  lemma RemoveAtInside<T>(a: seq<T>, f: seq<T>, b: seq<T>, s: nat)
    requires s < |f|
    ensures RemoveAt(a + f + b, |a| + s) == a + RemoveAt(f, s) + b
  {
    var all, k := a + f + b, |a| + s;
    assert all[..k] == a + f[..s];
    assert all[k + 1..] == f[s + 1..] + b;
  }

  /** Splicing slot `s` out of frame `f` removes, from the concatenation, the item
      at its flat position: the items of the frames before `f`, plus `s`. */
  lemma ConcatSpliceSlot<T>(frames: seq<seq<T>>, f: nat, s: nat)
    requires f < |frames| && s < |frames[f]|
    ensures |Concat(frames[..f])| + s < |Concat(frames)|
    ensures Concat(frames)[|Concat(frames[..f])| + s] == frames[f][s]
    ensures Concat(frames[f := RemoveAt(frames[f], s)]) == RemoveAt(Concat(frames), |Concat(frames[..f])| + s)
  {
    var a, b := Concat(frames[..f]), Concat(frames[f + 1..]);
    var frame := frames[f];
    ConcatSplit(frames, f);
    assert Concat(frames) == a + frame + b;
    assert (a + frame + b)[|a| + s] == frame[s];
    ConcatUpdate(frames, f, RemoveAt(frame, s));
    RemoveAtInside(a, frame, b, s);
  }

  /** Pushing an item onto the last frame appends it to the concatenation. */
  lemma ConcatPushLast<T>(frames: seq<seq<T>>, x: T)
    requires |frames| >= 1
    ensures Concat(frames[|frames| - 1 := frames[|frames| - 1] + [x]]) == Concat(frames) + [x]
  {
    var n := |frames| - 1;
    ConcatUpdate(frames, n, frames[n] + [x]);
    ConcatSplit(frames, n);
    assert frames[n + 1..] == [];
  }

  /** One step of `chunk`: the group taken at offset `i`, followed by the chunking
      of what is left after it, if anything is. */
  lemma ChunkedStep<T>(arr: seq<T>, i: nat, size: nat)
    requires size > 0 && i < |arr|
    ensures Chunked(arr[i..], size) ==
      [arr[i..Min(i + size, |arr|)]] + (if i + size < |arr| then Chunked(arr[i + size..], size) else [])
  {
    if i + size < |arr| {
      assert arr[i..][size..] == arr[i + size..];
      assert arr[i..][..size] == arr[i..i + size];
    } else {
      assert Min(i + size, |arr|) == |arr|;
      assert arr[i..|arr|] == arr[i..];
    }
  }

  /** `chunk(arr, size)` as the source writes it: a loop that pushes
      `arr.slice(i, i + size)` for `i = 0, size, 2*size, ...`, then an empty group
      if nothing was pushed. */
  method Chunk<T>(arr: seq<T>, size: nat) returns (out: seq<seq<T>>)
    requires size > 0
    ensures out == Chunked(arr, size)
  {
    out := [];
    var i := 0;
    while i < |arr|
      invariant arr == [] ==> out == []
      invariant arr != [] ==> out + (if i < |arr| then Chunked(arr[i..], size) else []) == Chunked(arr, size)
      decreases |arr| - i
    {
      var j := Min(i + size, |arr|);
      ChunkedStep(arr, i, size);
      ghost var rest := if i + size < |arr| then Chunked(arr[i + size..], size) else [];
      assert out + Chunked(arr[i..], size) == (out + [arr[i..j]]) + rest;
      out := out + [arr[i..j]];
      i := i + size;
    }
    assert arr == [] ==> Chunked(arr, size) == [[]];
    assert arr != [] ==> out == Chunked(arr, size) && |out| >= 1;
    if |out| == 0 {
      out := [[]];
    }
  }
}
