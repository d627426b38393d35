/** The frame shapes the program's comments and design promise: packed tens frames
    are determined by the number of loose sticks, a build from the initial state
    numbers everything from 1, and decomposing every hundred of 579 leaves tens
    frames of 10, 10, 10, 10, 10 and 7. */
module Scenarios {
  import opened Wrappers
  import opened Utils
  import opened Sorting
  import opened PlaceValue
  import opened Views
  import opened Regrouping
  import opened Building

  /** Packed frames hold ten items per frame but the last, plus the last. */
  lemma {:induction false} PackedLength<T>(frames: seq<seq<T>>)
    requires Packed(frames, FrameSize)
    ensures |Concat(frames)| == FrameSize * (|frames| - 1) + |frames[|frames| - 1]|
    decreases |frames|
  {
    if |frames| > 1 {
      var rest := frames[1..];
      assert Packed(rest, FrameSize) by {
        forall k | 0 <= k < |rest| - 1 ensures |rest[k]| == FrameSize {
          assert rest[k] == frames[k + 1];
        }
      }
      PackedLength(rest);
      assert frames[|frames| - 1] == rest[|rest| - 1];
    } else {
      assert frames[1..] == [];
    }
  }

  /** In a valid state with `t >= 1` loose sticks the tens frames are `ceil(t / 10)`
      frames, all full but the last, which holds what remains: 34 tens show as
      10 + 10 + 10 + 4. */
  lemma TensFrameShape(m: Model)
    requires Valid(m) && CountValue(m).tens >= 1
    ensures var t, f := CountValue(m).tens, m.tensFrames;
      && |f| == (t + FrameSize - 1) / FrameSize
      && (forall k | 0 <= k < |f| - 1 :: |f[k]| == FrameSize)
      && |f[|f| - 1]| == t - FrameSize * (|f| - 1)
  {
    ChunkedIsPacked(TensSticks(m), FrameSize);
    PackedLength(m.tensFrames);
  }

  /** From the initial state the pool of `buildNumber(n)` is the ids 1 to `n`. */
  lemma BuildFromInitialPool(n: nat)
    ensures Pool(Initial(), n) == FreshIds(1, n)
  {
    assert Cubes(Initial()) == [] by {
      assert CubeLists([]) == [];
      assert StickLists([]) == [];
    }
    assert SortIds([]) == [];
  }

  /** What the user does to decompose every hundred of a build: click hundred
      `first`, then `first + 1`, and so on. */
  function DecomposeEach(m: Model, first: nat, count: nat): Model
    decreases count
  {
    if count == 0 then m else DecomposeEach(DecomposeHundredToTens(m, first), first + 1, count - 1)
  }

  /** Decomposing consecutively numbered hundreds one by one leaves no hundred, ten
      more loose sticks per hundred, the same ones, and a valid state. */
  lemma {:induction false} DecomposeEachCount(m: Model, first: nat, count: nat)
    requires Valid(m) && HundredIds(m.hundreds) == FreshIds(first, count)
    ensures var d := DecomposeEach(m, first, count);
      Valid(d) && CountValue(d) == Count(0, CountValue(m).tens + FrameSize * count, CountValue(m).ones)
    decreases count
  {
    if count > 0 {
      var r := DecomposeHundredToTens(m, first);
      assert IndexOf(HundredIds(m.hundreds), first) == Some(0);
      DecomposeHundredToTensFound(m, first, 0);
      DecomposeHundredToTensPreserves(m, first);
      assert |m.hundreds[0].sticks| == FrameSize by {
        assert m.hundreds[0] in m.hundreds;
      }
      assert HundredIds(r.hundreds) == FreshIds(first + 1, count - 1) by {
        HundredIdsRemoveAt(m.hundreds, 0);
        assert RemoveAt(FreshIds(first, count), 0) == FreshIds(first + 1, count - 1);
      }
      DecomposeEachCount(r, first + 1, count - 1);
    } else {
      assert m.hundreds == [];
    }
  }

  /** From the initial state, building `n` and then decomposing every hundred
      leaves a valid state with no hundreds and all `n / 10` tens loose. */
  lemma BuildThenDecomposeAll(n: nat)
    ensures var d := DecomposeEach(Build(Initial(), n), 1, n / 100);
      Valid(d) && CountValue(d) == Count(0, n / 10, n % 10)
  {
    var b := Build(Initial(), n);
    assert CubesOk(Cubes(Initial()), 1) by {
      assert Cubes(Initial()) == [] by {
        assert CubeLists([]) == [];
        assert StickLists([]) == [];
      }
    }
    BuildCount(Initial(), n);
    BuildValid(Initial(), n);
    MakeHundredsOk(Pool(Initial(), n), 1, 1, n / 100);
    DecomposeEachCount(b, 1, n / 100);
  }

  /** 579 (or any number from 570 to 579) with all five hundreds decomposed: no
      hundreds, 57 loose sticks in frames of 10, 10, 10, 10, 10 and 7. */
  lemma Build579DecomposeAll(n: nat)
    requires 570 <= n <= 579
    ensures var d := DecomposeEach(Build(Initial(), n), 1, 5);
      && CountValue(d) == Count(0, 57, n - 570)
      && |d.tensFrames| == 6
      && (forall k | 0 <= k < 5 :: |d.tensFrames[k]| == 10)
      && |d.tensFrames[5]| == 7
  {
    assert n / 100 == 5 && n / 10 == 57 && n % 10 == n - 570;
    var d := DecomposeEach(Build(Initial(), n), 1, 5);
    assert Valid(d) && CountValue(d) == Count(0, 57, n - 570) by {
      BuildThenDecomposeAll(n);
    }
    TensFrameShape(d);
    assert (57 + FrameSize - 1) / FrameSize == 6;
  }
}
