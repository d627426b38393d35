/** How the transitions fit together: the summary counts every cube, and each
    compose is undone by decomposing what it made. */
module RoundTrips {
  import opened Wrappers
  import opened Utils
  import opened Sorting
  import opened PlaceValue
  import opened Views
  import opened Regrouping

  /** In a valid state the summary's value is the number of cubes on the board:
      a hundred holds a hundred cubes, a stick ten. */
  lemma ValueIsCubeCount(m: Model)
    requires Valid(m)
    ensures Value(CountValue(m)) == |Cubes(m)|
  {
    var ts, hs := TensSticks(m), HundredSticks(m.hundreds);
    assert forall st | st in ts :: st in AllSticks(m);
    assert forall st | st in hs :: st in AllSticks(m);
    StickCubesLength(ts);
    StickCubesLength(hs);
    HundredSticksLength(m.hundreds);
  }

  /** An id at or above a counter is not in use, so it is found after everything
      that was there when it is appended. */
  lemma IndexOfFresh(ids: seq<nat>, bound: nat)
    requires Below(ids, bound)
    ensures IndexOf(ids + [bound], bound) == Some(|ids|)
  {
    IndexOfAppendRight(ids, [bound], bound, 0);
  }

  /** Decomposing the stick just composed from ones frame `i` gives back the loose
      sticks and the tens frames as they were, and returns the frame's cubes, in
      id order, as the last ones frame; the summary is back where it started. */
  lemma ComposeOnesThenDecomposeTen(m: Model, i: int)
    requires Valid(m) && 0 <= i < |m.onesFrames| && |m.onesFrames[i]| == FrameSize
    ensures var c := ComposeOnesFrameToTen(m, i);
      var d := DecomposeTenToOnes(c, m.nextStickId);
      && d.tensFrames == m.tensFrames
      && d.hundreds == m.hundreds
      && d.onesFrames == c.onesFrames + [SortIds(m.onesFrames[i])]
      && CountValue(d) == CountValue(m)
  {
    var c := ComposeOnesFrameToTen(m, i);
    var ts := TensSticks(m);
    var st := Stick(m.nextStickId, SortIds(m.onesFrames[i]));
    ComposeOnesFrameToTenEffect(m, i);
    assert StickIds(TensSticks(c)) == StickIds(ts) + [m.nextStickId];
    assert Below(StickIds(ts), m.nextStickId) by {
      StickIdsAppend(ts, HundredSticks(m.hundreds));
      forall x | x in StickIds(ts) ensures x < m.nextStickId {
        assert x in StickIds(AllSticks(m));
      }
    }
    IndexOfFresh(StickIds(ts), m.nextStickId);
    DecomposeTenToOnesFound(c, m.nextStickId, |ts|);
    assert RemoveAt(ts + [st], |ts|) == ts;
    SortIdsOfSorted(st.cubes);
  }

  /** Decomposing the hundred just composed from tens frame `i` gives back the
      hundreds as they were; its sticks, unchanged and in order, follow the
      remaining loose sticks; the summary is back where it started. */
  lemma ComposeTensThenDecomposeHundred(m: Model, i: int)
    requires Valid(m) && 0 <= i < |m.tensFrames| && |m.tensFrames[i]| == FrameSize
    ensures var c := ComposeTensFrameToHundred(m, i);
      var d := DecomposeHundredToTens(c, m.nextHundredId);
      var t := m.tensFrames;
      && d.hundreds == m.hundreds
      && d.onesFrames == m.onesFrames
      && TensSticks(d) == Concat(t[..i]) + Concat(t[i + 1..]) + t[i]
      && CountValue(d) == CountValue(m)
  {
    var c := ComposeTensFrameToHundred(m, i);
    var h := Hundred(m.nextHundredId, m.tensFrames[i]);
    ComposeTensFrameToHundredFull(m, i);
    assert HundredIds(c.hundreds) == HundredIds(m.hundreds) + [m.nextHundredId];
    IndexOfFresh(HundredIds(m.hundreds), m.nextHundredId);
    DecomposeHundredToTensFound(c, m.nextHundredId, |m.hundreds|);
    assert RemoveAt(m.hundreds + [h], |m.hundreds|) == m.hundreds;
  }
}
