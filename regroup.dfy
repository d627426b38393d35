/** What the four regrouping transitions of script.js do to the state: which
    requests are no-ops, where the new or freed stick or hundred goes, how the
    summary changes, and that the represented value, the cubes and the invariant
    are all preserved. */
module Regrouping {
  import opened Wrappers
  import opened Utils
  import opened Sorting
  import opened PlaceValue
  import opened Views

  /** A new ones frame that is not over-full may be appended. */
  lemma OnesFramesOkAppend(frames: seq<seq<CubeId>>, f: seq<CubeId>)
    requires OnesFramesOk(frames) && |f| <= FrameSize
    ensures OnesFramesOk(frames + [f])
  {
    forall g | g in frames + [f] ensures |g| <= FrameSize {
      if g != f {
        assert g in frames;
      }
    }
  }

  // ---------- composeOnesFrameToTen ----------

  /** Splicing ones frame `i` out (and putting back one empty frame if none is
      left) removes exactly that frame's cubes. */
  lemma ComposeOnesFrameToTenOnes(m: Model, i: int)
    requires 0 <= i < |m.onesFrames| && |m.onesFrames[i]| == FrameSize
    ensures var o := m.onesFrames;
      && Concat(o) == Concat(o[..i]) + o[i] + Concat(o[i + 1..])
      && Concat(ComposeOnesFrameToTen(m, i).onesFrames) == Concat(o[..i]) + Concat(o[i + 1..])
  {
    var o := m.onesFrames;
    ConcatSplit(o, i);
    ConcatRemoveAt(o, i);
    if |o| == 1 {
      assert o[..i] == [] && o[i + 1..] == [];
      var none: seq<seq<CubeId>> := [];
      assert Concat([[]] + none) == [] + Concat(none);
    }
  }

  /** A full ones frame turns into one new stick after every loose stick, with the
      next stick id and its cubes sorted; the frame leaves the ones frames, which are
      never left empty; the tens frames come out packed; one more ten, ten fewer
      ones, and nothing else changes. Any other frame index is a no-op. */
  lemma ComposeOnesFrameToTenEffect(m: Model, i: int)
    ensures var r := ComposeOnesFrameToTen(m, i);
      if 0 <= i < |m.onesFrames| && |m.onesFrames[i]| == FrameSize then
        && r.onesFrames == (if |m.onesFrames| == 1 then [[]] else RemoveAt(m.onesFrames, i))
        && TensSticks(r) == TensSticks(m) + [Stick(m.nextStickId, SortIds(m.onesFrames[i]))]
        && Packed(r.tensFrames, FrameSize)
        && r.hundreds == m.hundreds
        && r.nextCubeId == m.nextCubeId && r.nextStickId == m.nextStickId + 1
        && r.nextHundredId == m.nextHundredId
        && CountValue(m).ones >= FrameSize
        && CountValue(r) == Count(CountValue(m).hundreds, CountValue(m).tens + 1, CountValue(m).ones - FrameSize)
      else
        r == m
  {
    if 0 <= i < |m.onesFrames| && |m.onesFrames[i]| == FrameSize {
      ChunkedIsPacked(TensSticks(m) + [Stick(m.nextStickId, SortIds(m.onesFrames[i]))], FrameSize);
      ComposeOnesFrameToTenOnes(m, i);
    }
  }

  /** The cubes of the composed frame move into the new stick, sorted. */
  lemma ComposeOnesFrameToTenCubes(m: Model, i: int)
    requires 0 <= i < |m.onesFrames| && |m.onesFrames[i]| == FrameSize
    ensures multiset(Cubes(ComposeOnesFrameToTen(m, i))) == multiset(Cubes(m))
  {
    var r := ComposeOnesFrameToTen(m, i);
    var o := m.onesFrames;
    var st := Stick(m.nextStickId, SortIds(o[i]));
    var ts, hs := TensSticks(m), HundredSticks(m.hundreds);
    ComposeOnesFrameToTenOnes(m, i);
    StickCubesAppend(ts, [st]);
    StickCubesSingle(st);
    assert Cubes(r) == Concat(o[..i]) + Concat(o[i + 1..]) + (StickCubes(ts) + SortIds(o[i])) + StickCubes(hs);
    assert Cubes(m) == Concat(o[..i]) + o[i] + Concat(o[i + 1..]) + StickCubes(ts) + StickCubes(hs);
  }

  /** Composing ones into a ten keeps the invariant, the multiset of cube ids and
      the represented value. */
  lemma ComposeOnesFrameToTenPreserves(m: Model, i: int)
    requires Valid(m)
    ensures var r := ComposeOnesFrameToTen(m, i);
      Valid(r) && multiset(Cubes(r)) == multiset(Cubes(m)) && Value(CountValue(r)) == Value(CountValue(m))
  {
    var r := ComposeOnesFrameToTen(m, i);
    ComposeOnesFrameToTenEffect(m, i);
    if 0 <= i < |m.onesFrames| && |m.onesFrames[i]| == FrameSize {
      var o := m.onesFrames;
      var st := Stick(m.nextStickId, SortIds(o[i]));
      assert OnesFramesOk(r.onesFrames) by {
        if |o| > 1 {
          forall f | f in r.onesFrames ensures |f| <= FrameSize {
            InRemoveAt(o, i, f);
          }
        }
      }
      assert TensFramesOk(r);
      assert multiset(Cubes(r)) == multiset(Cubes(m)) by {
        ComposeOnesFrameToTenCubes(m, i);
      }
      assert CubesOk(Cubes(r), r.nextCubeId) by {
        CubesOkPermutation(Cubes(r), Cubes(m), m.nextCubeId);
      }
      assert SticksOk(AllSticks(r), r.nextStickId) by {
        assert AllSticks(r) == TensSticks(m) + [st] + HundredSticks(m.hundreds);
        SticksOkInsert(TensSticks(m), st, HundredSticks(m.hundreds), m.nextStickId);
      }
      assert HundredsOk(r.hundreds, r.nextHundredId);
    } else {
      assert r == m;
    }
  }

  // ---------- decomposeTenToOnes ----------

  /** Finding the stick frame by frame and splicing it out of its frame is the same
      as finding it in the flattened loose sticks and removing it there. */
  lemma DecomposeTenToOnesSplice(m: Model, id: nat)
    requires FindStick(m.tensFrames, id).Some?
    ensures var p := FindStick(m.tensFrames, id).value;
      var k := |Concat(m.tensFrames[..p.frame])| + p.slot;
      && IndexOf(StickIds(TensSticks(m)), id) == Some(k)
      && k < |TensSticks(m)|
      && TensSticks(m)[k] == m.tensFrames[p.frame][p.slot]
      && Concat(m.tensFrames[p.frame := RemoveAt(m.tensFrames[p.frame], p.slot)]) == RemoveAt(TensSticks(m), k)
  {
    var p := FindStick(m.tensFrames, id).value;
    FindStickFlat(m.tensFrames, id);
    ConcatSpliceSlot(m.tensFrames, p.frame, p.slot);
  }

  /** When a loose stick carries the id, the first one leaves the loose sticks,
      its cubes, sorted, become a new ones frame after all others, and nothing else
      changes. */
  lemma DecomposeTenToOnesFound(m: Model, id: nat, k: nat)
    requires IndexOf(StickIds(TensSticks(m)), id) == Some(k)
    ensures var r := DecomposeTenToOnes(m, id);
      var ts := TensSticks(m);
      && k < |ts|
      && TensSticks(r) == RemoveAt(ts, k)
      && r.tensFrames == Chunked(RemoveAt(ts, k), FrameSize)
      && r.onesFrames == m.onesFrames + [SortIds(ts[k].cubes)]
      && r.hundreds == m.hundreds
      && r.nextCubeId == m.nextCubeId && r.nextStickId == m.nextStickId
      && r.nextHundredId == m.nextHundredId
      && CountValue(r) == Count(|m.hundreds|, |ts| - 1, |Concat(m.onesFrames)| + |ts[k].cubes|)
  {
    FindStickFlat(m.tensFrames, id);
    var p := FindStick(m.tensFrames, id).value;
    var ts := TensSticks(m);
    DecomposeTenToOnesSplice(m, id);
    assert ts[k] == m.tensFrames[p.frame][p.slot];
    var r := DecomposeTenToOnes(m, id);
    assert r == m.(tensFrames := Chunked(RemoveAt(ts, k), FrameSize),
                   onesFrames := m.onesFrames + [SortIds(ts[k].cubes)]);
    ConcatSnoc(m.onesFrames, SortIds(ts[k].cubes));
  }

  /** The first loose stick with the id leaves the loose sticks, which come out
      packed; its cubes, sorted, become a new ones frame after all others; one ten
      fewer, as many more ones as it had cubes, and nothing else changes. An id no
      loose stick carries is a no-op. */
  lemma DecomposeTenToOnesEffect(m: Model, id: nat)
    ensures var r := DecomposeTenToOnes(m, id);
      var ts := TensSticks(m);
      match IndexOf(StickIds(ts), id)
      case None => r == m
      case Some(k) =>
        && k < |ts|
        && TensSticks(r) == RemoveAt(ts, k)
        && Packed(r.tensFrames, FrameSize)
        && r.onesFrames == m.onesFrames + [SortIds(ts[k].cubes)]
        && r.hundreds == m.hundreds
        && r.nextCubeId == m.nextCubeId && r.nextStickId == m.nextStickId
        && r.nextHundredId == m.nextHundredId
        && CountValue(m).tens >= 1
        && CountValue(r) == Count(CountValue(m).hundreds, CountValue(m).tens - 1, CountValue(m).ones + |ts[k].cubes|)
  {
    FindStickFlat(m.tensFrames, id);
    match IndexOf(StickIds(TensSticks(m)), id)
    case None =>
    case Some(k) =>
      var r := DecomposeTenToOnes(m, id);
      DecomposeTenToOnesFound(m, id, k);
      ChunkedIsPacked(RemoveAt(TensSticks(m), k), FrameSize);
      ConcatSnoc(m.onesFrames, SortIds(TensSticks(m)[k].cubes));
  }

  /** The cubes of the decomposed stick move into the new ones frame, sorted. */
  lemma DecomposeTenToOnesCubes(m: Model, id: nat, k: nat)
    requires IndexOf(StickIds(TensSticks(m)), id) == Some(k)
    ensures multiset(Cubes(DecomposeTenToOnes(m, id))) == multiset(Cubes(m))
  {
    var r := DecomposeTenToOnes(m, id);
    DecomposeTenToOnesFound(m, id, k);
    var ts, hs := TensSticks(m), HundredSticks(m.hundreds);
    var st := ts[k];
    StickCubesRemoveAt(ts, k);
    ConcatSnoc(m.onesFrames, SortIds(st.cubes));
    assert Cubes(r) == Concat(m.onesFrames) + SortIds(st.cubes) + StickCubes(RemoveAt(ts, k)) + StickCubes(hs);
  }

  /** Decomposing a loose stick that is there keeps the invariant, the multiset of
      cube ids and the represented value. */
  lemma DecomposeTenToOnesFoundPreserves(m: Model, id: nat, k: nat)
    requires Valid(m) && IndexOf(StickIds(TensSticks(m)), id) == Some(k)
    ensures var r := DecomposeTenToOnes(m, id);
      Valid(r) && multiset(Cubes(r)) == multiset(Cubes(m)) && Value(CountValue(r)) == Value(CountValue(m))
  {
    var r := DecomposeTenToOnes(m, id);
    var ts, hs := TensSticks(m), HundredSticks(m.hundreds);
    DecomposeTenToOnesFound(m, id, k);
    var st := ts[k];
    assert SticksOk(AllSticks(r), r.nextStickId) && |st.cubes| == FrameSize by {
      SticksOkRemoveAt(ts, k, hs, m.nextStickId);
    }
    assert OnesFramesOk(r.onesFrames) by {
      OnesFramesOkAppend(m.onesFrames, SortIds(st.cubes));
    }
    assert TensFramesOk(r);
    assert multiset(Cubes(r)) == multiset(Cubes(m)) by {
      DecomposeTenToOnesCubes(m, id, k);
    }
    assert CubesOk(Cubes(r), r.nextCubeId) by {
      CubesOkPermutation(Cubes(r), Cubes(m), m.nextCubeId);
    }
    assert HundredsOk(r.hundreds, r.nextHundredId);
  }

  /** Decomposing a ten keeps the invariant, the multiset of cube ids and the
      represented value. */
  lemma DecomposeTenToOnesPreserves(m: Model, id: nat)
    requires Valid(m)
    ensures var r := DecomposeTenToOnes(m, id);
      Valid(r) && multiset(Cubes(r)) == multiset(Cubes(m)) && Value(CountValue(r)) == Value(CountValue(m))
  {
    match IndexOf(StickIds(TensSticks(m)), id)
    case None =>
      FindStickFlat(m.tensFrames, id);
      assert DecomposeTenToOnes(m, id) == m;
    case Some(k) =>
      DecomposeTenToOnesFoundPreserves(m, id, k);
  }

  /** `decomposeTenToOnes` searches only the loose sticks: naming a stick that sits
      inside a hundred changes nothing. */
  lemma DecomposeTenIgnoresHundredSticks(m: Model, id: nat)
    requires Valid(m) && id in StickIds(HundredSticks(m.hundreds))
    ensures DecomposeTenToOnes(m, id) == m
  {
    var ts, hs := TensSticks(m), HundredSticks(m.hundreds);
    StickIdsAppend(ts, hs);
    assert id !in StickIds(ts) by {
      if id in StickIds(ts) {
        DistinctDisjoint(StickIds(ts), StickIds(hs), id);
      }
    }
    DecomposeTenToOnesEffect(m, id);
  }

  // ---------- composeTensFrameToHundred ----------

  /** A full tens frame leaves the loose sticks, which are repacked, and becomes a
      new hundred, with the next hundred id, after every other hundred; one more
      hundred, ten fewer tens, and nothing else changes. */
  lemma ComposeTensFrameToHundredFull(m: Model, i: int)
    requires 0 <= i < |m.tensFrames| && |m.tensFrames[i]| == FrameSize
    ensures var r := ComposeTensFrameToHundred(m, i);
      var t := m.tensFrames;
      && TensSticks(m) == Concat(t[..i]) + t[i] + Concat(t[i + 1..])
      && TensSticks(r) == Concat(t[..i]) + Concat(t[i + 1..])
      && r.tensFrames == Chunked(TensSticks(r), FrameSize)
      && r.hundreds == m.hundreds + [Hundred(m.nextHundredId, t[i])]
      && r.onesFrames == m.onesFrames
      && r.nextCubeId == m.nextCubeId && r.nextStickId == m.nextStickId
      && r.nextHundredId == m.nextHundredId + 1
      && CountValue(r) == Count(|m.hundreds| + 1, |TensSticks(m)| - FrameSize, |Concat(m.onesFrames)|)
  {
    ConcatSplit(m.tensFrames, i);
    ConcatRemoveAt(m.tensFrames, i);
  }

  /** A full tens frame becomes a new hundred after every other hundred, the
      remaining loose sticks keep their order and come out packed; one more
      hundred, ten fewer tens. Any other frame index is a no-op. */
  lemma ComposeTensFrameToHundredEffect(m: Model, i: int)
    ensures var r := ComposeTensFrameToHundred(m, i);
      if 0 <= i < |m.tensFrames| && |m.tensFrames[i]| == FrameSize then
        var t := m.tensFrames;
        && TensSticks(m) == Concat(t[..i]) + t[i] + Concat(t[i + 1..])
        && TensSticks(r) == Concat(t[..i]) + Concat(t[i + 1..])
        && Packed(r.tensFrames, FrameSize)
        && r.hundreds == m.hundreds + [Hundred(m.nextHundredId, t[i])]
        && r.onesFrames == m.onesFrames
        && r.nextCubeId == m.nextCubeId && r.nextStickId == m.nextStickId
        && r.nextHundredId == m.nextHundredId + 1
        && CountValue(m).tens >= FrameSize
        && CountValue(r) == Count(CountValue(m).hundreds + 1, CountValue(m).tens - FrameSize, CountValue(m).ones)
      else
        r == m
  {
    if 0 <= i < |m.tensFrames| && |m.tensFrames[i]| == FrameSize {
      ComposeTensFrameToHundredFull(m, i);
      ChunkedIsPacked(TensSticks(ComposeTensFrameToHundred(m, i)), FrameSize);
    }
  }

  /** The cubes of the composed sticks move with them into the new hundred. */
  lemma ComposeTensFrameToHundredCubes(m: Model, i: int)
    requires 0 <= i < |m.tensFrames| && |m.tensFrames[i]| == FrameSize
    ensures multiset(Cubes(ComposeTensFrameToHundred(m, i))) == multiset(Cubes(m))
  {
    var r := ComposeTensFrameToHundred(m, i);
    ComposeTensFrameToHundredFull(m, i);
    var t := m.tensFrames;
    var a, f, b := Concat(t[..i]), t[i], Concat(t[i + 1..]);
    var hs := HundredSticks(m.hundreds);
    assert multiset(StickCubes(TensSticks(m))) == multiset(StickCubes(a + b)) + multiset(StickCubes(f)) by {
      StickCubesAppend(a + f, b);
      StickCubesAppend(a, f);
      StickCubesAppend(a, b);
    }
    assert StickCubes(HundredSticks(r.hundreds)) == StickCubes(hs) + StickCubes(f) by {
      HundredSticksAppend(m.hundreds, [Hundred(m.nextHundredId, f)]);
      HundredSticksSingle(Hundred(m.nextHundredId, f));
      StickCubesAppend(hs, f);
    }
  }

  /** The composed sticks move, as a block, from the loose sticks to the end of the
      hundreds' sticks, so the sticks stay valid. */
  lemma ComposeTensFrameToHundredSticks(m: Model, i: int)
    requires 0 <= i < |m.tensFrames| && |m.tensFrames[i]| == FrameSize
    requires SticksOk(AllSticks(m), m.nextStickId)
    ensures SticksOk(AllSticks(ComposeTensFrameToHundred(m, i)), m.nextStickId)
  {
    var r := ComposeTensFrameToHundred(m, i);
    ComposeTensFrameToHundredFull(m, i);
    var t := m.tensFrames;
    var a, f, b := Concat(t[..i]), t[i], Concat(t[i + 1..]);
    var hs := HundredSticks(m.hundreds);
    assert AllSticks(m) == a + f + (b + hs);
    SticksOkMoveToEnd(a, f, b + hs, m.nextStickId);
    HundredSticksAppend(m.hundreds, [Hundred(m.nextHundredId, f)]);
    HundredSticksSingle(Hundred(m.nextHundredId, f));
    assert AllSticks(r) == a + (b + hs) + f;
  }

  /** Composing tens into a hundred keeps the invariant, the multiset of cube ids
      and the represented value. */
  lemma ComposeTensFrameToHundredPreserves(m: Model, i: int)
    requires Valid(m)
    ensures var r := ComposeTensFrameToHundred(m, i);
      Valid(r) && multiset(Cubes(r)) == multiset(Cubes(m)) && Value(CountValue(r)) == Value(CountValue(m))
  {
    var r := ComposeTensFrameToHundred(m, i);
    if 0 <= i < |m.tensFrames| && |m.tensFrames[i]| == FrameSize {
      ComposeTensFrameToHundredFull(m, i);
      var t := m.tensFrames;
      var f := t[i];
      assert TensFramesOk(r);
      assert multiset(Cubes(r)) == multiset(Cubes(m)) by {
        ComposeTensFrameToHundredCubes(m, i);
      }
      assert CubesOk(Cubes(r), r.nextCubeId) by {
        CubesOkPermutation(Cubes(r), Cubes(m), m.nextCubeId);
      }
      assert SticksOk(AllSticks(r), r.nextStickId) by {
        ComposeTensFrameToHundredSticks(m, i);
      }
      assert HundredsOk(r.hundreds, r.nextHundredId) by {
        HundredsOkAppend(m.hundreds, Hundred(m.nextHundredId, f), m.nextHundredId);
      }
    } else {
      assert r == m;
    }
  }

  // ---------- decomposeHundredToTens ----------

  /** When a hundred carries the id, the first one is spliced out of the hundreds
      and its sticks, unchanged and in order, follow every loose stick; one hundred
      fewer, as many more tens as it had sticks, and nothing else changes. */
  lemma DecomposeHundredToTensFound(m: Model, id: nat, k: nat)
    requires IndexOf(HundredIds(m.hundreds), id) == Some(k)
    ensures var r := DecomposeHundredToTens(m, id);
      && k < |m.hundreds|
      && TensSticks(r) == TensSticks(m) + m.hundreds[k].sticks
      && r.tensFrames == Chunked(TensSticks(r), FrameSize)
      && r.hundreds == RemoveAt(m.hundreds, k)
      && r.onesFrames == m.onesFrames
      && r.nextCubeId == m.nextCubeId && r.nextStickId == m.nextStickId
      && r.nextHundredId == m.nextHundredId
      && CountValue(r) == Count(|m.hundreds| - 1, |TensSticks(m)| + |m.hundreds[k].sticks|, |Concat(m.onesFrames)|)
  {
  }

  /** The first hundred with the id is replaced by its sticks, appended unchanged
      after every loose stick, and the tens frames come out packed; one hundred
      fewer, as many more tens as it had sticks. An id no hundred carries is a
      no-op. */
  lemma DecomposeHundredToTensEffect(m: Model, id: nat)
    ensures var r := DecomposeHundredToTens(m, id);
      match IndexOf(HundredIds(m.hundreds), id)
      case None => r == m
      case Some(k) =>
        && k < |m.hundreds|
        && TensSticks(r) == TensSticks(m) + m.hundreds[k].sticks
        && Packed(r.tensFrames, FrameSize)
        && r.hundreds == RemoveAt(m.hundreds, k)
        && r.onesFrames == m.onesFrames
        && r.nextCubeId == m.nextCubeId && r.nextStickId == m.nextStickId
        && r.nextHundredId == m.nextHundredId
        && CountValue(m).hundreds >= 1
        && CountValue(r) == Count(CountValue(m).hundreds - 1, CountValue(m).tens + |m.hundreds[k].sticks|, CountValue(m).ones)
  {
    match IndexOf(HundredIds(m.hundreds), id)
    case None =>
    case Some(k) =>
      DecomposeHundredToTensFound(m, id, k);
      ChunkedIsPacked(TensSticks(m) + m.hundreds[k].sticks, FrameSize);
  }

  /** The cubes of the decomposed hundred stay in its sticks. */
  lemma DecomposeHundredToTensCubes(m: Model, id: nat, k: nat)
    requires IndexOf(HundredIds(m.hundreds), id) == Some(k)
    ensures multiset(Cubes(DecomposeHundredToTens(m, id))) == multiset(Cubes(m))
  {
    var r := DecomposeHundredToTens(m, id);
    DecomposeHundredToTensFound(m, id, k);
    HundredCubesRemoveAt(m.hundreds, k);
    StickCubesAppend(TensSticks(m), m.hundreds[k].sticks);
  }

  /** The freed sticks move, as a block, from the hundreds' sticks to the end of
      the loose sticks, so the sticks stay valid. */
  lemma DecomposeHundredToTensSticks(m: Model, id: nat, k: nat)
    requires IndexOf(HundredIds(m.hundreds), id) == Some(k)
    requires SticksOk(AllSticks(m), m.nextStickId)
    ensures SticksOk(AllSticks(DecomposeHundredToTens(m, id)), m.nextStickId)
  {
    var r := DecomposeHundredToTens(m, id);
    DecomposeHundredToTensFound(m, id, k);
    var ts, f := TensSticks(m), m.hundreds[k].sticks;
    var p, q := HundredSticks(m.hundreds[..k]), HundredSticks(m.hundreds[k + 1..]);
    HundredSticksRemoveAt(m.hundreds, k);
    assert AllSticks(m) == ts + p + f + q;
    SticksOkSwap(ts, p, f, q, m.nextStickId);
    assert AllSticks(r) == ts + f + p + q;
  }

  /** Decomposing a hundred keeps the invariant, the multiset of cube ids and the
      represented value. */
  lemma DecomposeHundredToTensPreserves(m: Model, id: nat)
    requires Valid(m)
    ensures var r := DecomposeHundredToTens(m, id);
      Valid(r) && multiset(Cubes(r)) == multiset(Cubes(m)) && Value(CountValue(r)) == Value(CountValue(m))
  {
    var r := DecomposeHundredToTens(m, id);
    match IndexOf(HundredIds(m.hundreds), id)
    case None =>
      assert r == m;
    case Some(k) =>
      DecomposeHundredToTensFound(m, id, k);
      var ts, f := TensSticks(m), m.hundreds[k].sticks;
      assert |f| == FrameSize by {
        assert m.hundreds[k] in m.hundreds;
      }
      assert TensFramesOk(r);
      assert multiset(Cubes(r)) == multiset(Cubes(m)) by {
        DecomposeHundredToTensCubes(m, id, k);
      }
      assert CubesOk(Cubes(r), r.nextCubeId) by {
        CubesOkPermutation(Cubes(r), Cubes(m), m.nextCubeId);
      }
      assert SticksOk(AllSticks(r), r.nextStickId) by {
        DecomposeHundredToTensSticks(m, id, k);
      }
      assert HundredsOk(r.hundreds, r.nextHundredId) by {
        HundredsOkRemove(m.hundreds, k, m.nextHundredId);
      }
  }
}
