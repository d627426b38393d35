/** How the flattened views of the state (cubes of sticks, sticks of hundreds,
    their ids) behave when sticks and hundreds are appended, removed or moved. */
module Views {
  import opened Wrappers
  import opened Utils
  import opened Sorting
  import opened PlaceValue

  lemma StickCubesAppend(a: seq<Stick>, b: seq<Stick>)
    ensures StickCubes(a + b) == StickCubes(a) + StickCubes(b)
  {
    assert CubeLists(a + b) == CubeLists(a) + CubeLists(b);
    ConcatAppend(CubeLists(a), CubeLists(b));
  }

  lemma StickCubesSingle(st: Stick)
    ensures StickCubes([st]) == st.cubes
  {
    assert CubeLists([st]) == [st.cubes];
    assert Concat([st.cubes]) == st.cubes + Concat([]);
  }

  lemma StickIdsAppend(a: seq<Stick>, b: seq<Stick>)
    ensures StickIds(a + b) == StickIds(a) + StickIds(b)
  {
  }

  lemma HundredSticksAppend(a: seq<Hundred>, b: seq<Hundred>)
    ensures HundredSticks(a + b) == HundredSticks(a) + HundredSticks(b)
  {
    assert StickLists(a + b) == StickLists(a) + StickLists(b);
    ConcatAppend(StickLists(a), StickLists(b));
  }

  lemma HundredSticksSingle(h: Hundred)
    ensures HundredSticks([h]) == h.sticks
  {
    assert StickLists([h]) == [h.sticks];
    assert Concat([h.sticks]) == h.sticks + Concat([]);
  }

  /** Removing hundred `k` removes exactly its sticks from the flattened view. */
  lemma HundredSticksRemoveAt(hs: seq<Hundred>, k: nat)
    requires k < |hs|
    ensures HundredSticks(hs) == HundredSticks(hs[..k]) + hs[k].sticks + HundredSticks(hs[k + 1..])
    ensures HundredSticks(RemoveAt(hs, k)) == HundredSticks(hs[..k]) + HundredSticks(hs[k + 1..])
  {
    assert hs == hs[..k] + [hs[k]] + hs[k + 1..];
    HundredSticksAppend(hs[..k] + [hs[k]], hs[k + 1..]);
    HundredSticksAppend(hs[..k], [hs[k]]);
    HundredSticksSingle(hs[k]);
    HundredSticksAppend(hs[..k], hs[k + 1..]);
  }

  /** Removing stick `k` removes exactly its cubes, as a multiset. */
  lemma StickCubesRemoveAt(ts: seq<Stick>, k: nat)
    requires k < |ts|
    ensures multiset(StickCubes(ts)) == multiset(StickCubes(RemoveAt(ts, k))) + multiset(ts[k].cubes)
  {
    assert StickCubes(ts) == StickCubes(ts[..k]) + ts[k].cubes + StickCubes(ts[k + 1..]) by {
      assert ts == ts[..k] + [ts[k]] + ts[k + 1..];
      StickCubesAppend(ts[..k] + [ts[k]], ts[k + 1..]);
      StickCubesAppend(ts[..k], [ts[k]]);
      StickCubesSingle(ts[k]);
    }
    StickCubesAppend(ts[..k], ts[k + 1..]);
  }

  /** Removing hundred `k` removes exactly the cubes of its sticks, as a multiset. */
  lemma HundredCubesRemoveAt(hs: seq<Hundred>, k: nat)
    requires k < |hs|
    ensures multiset(StickCubes(HundredSticks(hs))) ==
      multiset(StickCubes(HundredSticks(RemoveAt(hs, k)))) + multiset(StickCubes(hs[k].sticks))
  {
    var p, q := HundredSticks(hs[..k]), HundredSticks(hs[k + 1..]);
    HundredSticksRemoveAt(hs, k);
    StickCubesAppend(p + hs[k].sticks, q);
    StickCubesAppend(p, hs[k].sticks);
    StickCubesAppend(p, q);
  }

  lemma HundredIdsRemoveAt(hs: seq<Hundred>, k: nat)
    requires k < |hs|
    ensures HundredIds(RemoveAt(hs, k)) == RemoveAt(HundredIds(hs), k)
  {
  }

  /** Ten cubes per stick: the sticks hold ten times as many cubes as there are sticks. */
  lemma {:induction false} StickCubesLength(sts: seq<Stick>)
    requires forall st | st in sts :: |st.cubes| == FrameSize
    ensures |StickCubes(sts)| == FrameSize * |sts|
    decreases |sts|
  {
    if sts != [] {
      assert sts == [sts[0]] + sts[1..];
      StickCubesAppend([sts[0]], sts[1..]);
      StickCubesSingle(sts[0]);
      StickCubesLength(sts[1..]);
    }
  }

  /** Ten sticks per hundred: the hundreds hold ten times as many sticks as there are hundreds. */
  lemma {:induction false} HundredSticksLength(hs: seq<Hundred>)
    requires forall h | h in hs :: |h.sticks| == FrameSize
    ensures |HundredSticks(hs)| == FrameSize * |hs|
    decreases |hs|
  {
    if hs != [] {
      assert hs == [hs[0]] + hs[1..];
      HundredSticksAppend([hs[0]], hs[1..]);
      HundredSticksSingle(hs[0]);
      HundredSticksLength(hs[1..]);
    }
  }

  /** A sub-multiset of distinct ids is distinct. */
  lemma DistinctSub(a: seq<nat>, b: seq<nat>)
    requires multiset(a) <= multiset(b) && Distinct(b)
    ensures Distinct(a)
  {
    forall x | x in multiset(a) ensures multiset(a)[x] == 1 {
      assert x in multiset(b);
    }
  }

  /** In a distinct sequence, an id of the first part is not in the second. */
  lemma DistinctDisjoint(a: seq<nat>, b: seq<nat>, x: nat)
    requires Distinct(a + b) && x in a
    ensures x !in b
  {
    assert multiset(a + b) == multiset(a) + multiset(b);
    assert x in multiset(a);
    assert x in multiset(a + b);
    assert multiset(b)[x] == 0;
  }

  /** Every id in a sequence is below a bound if every id of a super-multiset is. */
  lemma BelowSub(a: seq<nat>, b: seq<nat>, bound: nat)
    requires multiset(a) <= multiset(b) && Below(b, bound)
    ensures Below(a, bound)
  {
    forall x | x in a ensures x < bound {
      assert x in multiset(a);
      assert x in multiset(b);
      assert x in b;
    }
  }

  /** The position `findIndex` reports is the first holding the id. */
  lemma {:induction false} IndexOfIsFirst(ids: seq<nat>, id: nat, j: nat)
    requires j < |ids| && ids[j] == id
    ensures IndexOf(ids, id).Some? && IndexOf(ids, id).value <= j
    decreases |ids|
  {
    if ids[0] != id {
      assert ids[1..][j - 1] == id;
      IndexOfIsFirst(ids[1..], id, j - 1);
    }
  }

  /** Looking an id up in a concatenation: an id found in the first part is found
      at the same index. */
  lemma {:induction false} IndexOfAppendLeft(a: seq<nat>, b: seq<nat>, id: nat, k: nat)
    requires IndexOf(a, id) == Some(k)
    ensures IndexOf(a + b, id) == Some(k)
    decreases |a|
  {
    var c := a + b;
    assert c[0] == a[0];
    if a[0] != id {
      assert c[1..] == a[1..] + b;
      IndexOfAppendLeft(a[1..], b, id, k - 1);
    }
  }

  /** Looking an id up in a concatenation: an id missing from the first part is
      found where the second part has it, shifted by the first part's length. */
  lemma {:induction false} IndexOfAppendRight(a: seq<nat>, b: seq<nat>, id: nat, k: nat)
    requires id !in a && IndexOf(b, id) == Some(k)
    ensures IndexOf(a + b, id) == Some(|a| + k)
    decreases |a|
  {
    if a == [] {
      assert a + b == b;
    } else {
      var c := a + b;
      assert c[0] == a[0] != id;
      assert c[1..] == a[1..] + b;
      assert id !in a[1..];
      IndexOfAppendRight(a[1..], b, id, k);
    }
  }

  /** The slot `findStickById` reports is the first holding the id, and when it
      reports nothing no slot holds the id. */
  lemma {:induction false} FindStickIsFirst(frames: seq<seq<Stick>>, id: nat)
    ensures FindStick(frames, id).Some? ==>
      forall f, s :: 0 <= f < |frames| && 0 <= s < |frames[f]| && frames[f][s].id == id ==>
        !Earlier(f, s, FindStick(frames, id).value.frame, FindStick(frames, id).value.slot)
    ensures FindStick(frames, id).None? ==>
      forall f, s :: 0 <= f < |frames| && 0 <= s < |frames[f]| ==> frames[f][s].id != id
    decreases |frames|
  {
    if frames != [] {
      var rest, ids := frames[1..], StickIds(frames[0]);
      FindStickIsFirst(rest, id);
      forall f, s | 0 <= f < |frames| && 0 <= s < |frames[f]| && frames[f][s].id == id
        ensures FindStick(frames, id).Some?
        ensures !Earlier(f, s, FindStick(frames, id).value.frame, FindStick(frames, id).value.slot)
      {
        if f == 0 {
          IndexOfIsFirst(ids, id, s);
        } else {
          assert rest[f - 1][s].id == id;
          if IndexOf(ids, id).None? {
            assert FindStick(rest, id).Some?;
          }
        }
      }
    }
  }

  /** A stick found in the first frame is found at its slot in the flat sequence. */
  lemma FindStickFirst(frames: seq<seq<Stick>>, id: nat, s: nat)
    requires frames != [] && IndexOf(StickIds(frames[0]), id) == Some(s)
    ensures FindStick(frames, id) == Some(Slot(0, s))
    ensures IndexOf(StickIds(Concat(frames)), id) == Some(|Concat(frames[..0])| + s)
  {
    var rest := frames[1..];
    StickIdsAppend(frames[0], Concat(rest));
    IndexOfAppendLeft(StickIds(frames[0]), StickIds(Concat(rest)), id, s);
    assert Concat(frames) == frames[0] + Concat(rest);
    assert frames[..0] == [];
  }

  /** An id missing from the first frame is found in the flat sequence where the
      later frames put it, shifted by the length of the first frame. */
  lemma IndexOfLater(frames: seq<seq<Stick>>, id: nat, f: nat, slot: nat)
    requires frames != [] && IndexOf(StickIds(frames[0]), id).None? && f < |frames| - 1
    requires IndexOf(StickIds(Concat(frames[1..])), id) == Some(|Concat(frames[1..][..f])| + slot)
    ensures IndexOf(StickIds(Concat(frames)), id) == Some(|Concat(frames[..f + 1])| + slot)
  {
    var rest := frames[1..];
    var a, b := StickIds(frames[0]), StickIds(Concat(rest));
    var k := |Concat(rest[..f])| + slot;
    assert StickIds(Concat(frames)) == a + b by {
      assert Concat(frames) == frames[0] + Concat(rest);
      StickIdsAppend(frames[0], Concat(rest));
    }
    assert IndexOf(a + b, id) == Some(|a| + k) by {
      IndexOfAppendRight(a, b, id, k);
    }
    assert |Concat(frames[..f + 1])| == |a| + |Concat(rest[..f])| by {
      ConcatPrefixSucc(frames, f);
    }
  }

  /** A stick in no frame is nowhere in the flat sequence. */
  lemma FindStickNowhere(frames: seq<seq<Stick>>, id: nat)
    requires frames != [] && IndexOf(StickIds(frames[0]), id).None?
    requires FindStick(frames[1..], id).None? && IndexOf(StickIds(Concat(frames[1..])), id).None?
    ensures FindStick(frames, id).None? && IndexOf(StickIds(Concat(frames)), id).None?
  {
    var rest := frames[1..];
    StickIdsAppend(frames[0], Concat(rest));
    assert Concat(frames) == frames[0] + Concat(rest);
  }

  /** `findStickById` searches frame by frame, slot by slot: it finds exactly the
      first stick with that id in the flattened sequence of loose sticks, at flat
      position (items in earlier frames) + slot. */
  lemma {:induction false} FindStickFlat(frames: seq<seq<Stick>>, id: nat)
    ensures FindStick(frames, id).None? <==> IndexOf(StickIds(Concat(frames)), id).None?
    ensures FindStick(frames, id).Some? ==>
      var p := FindStick(frames, id).value;
      IndexOf(StickIds(Concat(frames)), id) == Some(|Concat(frames[..p.frame])| + p.slot)
    decreases |frames|
  {
    if frames != [] {
      FindStickFlat(frames[1..], id);
      match IndexOf(StickIds(frames[0]), id)
      case Some(s) =>
        FindStickFirst(frames, id, s);
      case None =>
        match FindStick(frames[1..], id)
        case None =>
          FindStickNowhere(frames, id);
        case Some(q) =>
          assert FindStick(frames, id) == Some(Slot(q.frame + 1, q.slot));
          IndexOfLater(frames, id, q.frame, q.slot);
    }
  }

  // ---------- The invariant under rearrangement ----------

  /** The cube half of the invariant depends only on the multiset of cube ids. */
  lemma CubesOkPermutation(a: seq<CubeId>, b: seq<CubeId>, bound: nat)
    requires multiset(a) == multiset(b) && CubesOk(b, bound)
    ensures CubesOk(a, bound)
  {
    DistinctMultiset(a, b);
    BelowSub(a, b, bound);
  }

  /** A new stick, full, sorted and carrying the counter's id, may join valid sticks
      anywhere; the counter then moves past it. */
  lemma SticksOkInsert(x: seq<Stick>, st: Stick, y: seq<Stick>, bound: nat)
    requires SticksOk(x + y, bound)
    requires |st.cubes| == FrameSize && Sorted(st.cubes) && st.id == bound
    ensures SticksOk(x + [st] + y, bound + 1)
  {
    var ids := StickIds(x + y);
    StickIdsAppend(x, y);
    StickIdsAppend(x + [st], y);
    StickIdsAppend(x, [st]);
    assert bound !in ids;
    DistinctAppend(ids, bound);
    assert multiset(StickIds(x + [st] + y)) == multiset(ids + [bound]);
    DistinctMultiset(StickIds(x + [st] + y), ids + [bound]);
    forall v | v in StickIds(x + [st] + y) ensures v < bound + 1 {
      assert v in multiset(ids + [bound]);
      assert v in ids + [bound];
      if v != bound {
        assert v in ids;
      }
    }
  }

  /** Valid sticks stay valid when one of them is taken away. */
  lemma SticksOkRemove(x: seq<Stick>, st: Stick, y: seq<Stick>, bound: nat)
    requires SticksOk(x + [st] + y, bound)
    ensures SticksOk(x + y, bound)
  {
    StickIdsAppend(x, y);
    StickIdsAppend(x + [st], y);
    StickIdsAppend(x, [st]);
    assert multiset(StickIds(x + y)) <= multiset(StickIds(x + [st] + y));
    DistinctSub(StickIds(x + y), StickIds(x + [st] + y));
    BelowSub(StickIds(x + y), StickIds(x + [st] + y), bound);
  }

  /** Valid loose sticks followed by other sticks stay valid when loose stick `k`
      is taken away, and that stick was full and sorted. */
  lemma SticksOkRemoveAt(ts: seq<Stick>, k: nat, hs: seq<Stick>, bound: nat)
    requires k < |ts| && SticksOk(ts + hs, bound)
    ensures SticksOk(RemoveAt(ts, k) + hs, bound)
    ensures |ts[k].cubes| == FrameSize && Sorted(ts[k].cubes)
  {
    assert ts[k] in ts + hs;
    assert ts + hs == ts[..k] + [ts[k]] + (ts[k + 1..] + hs) by {
      assert ts == ts[..k] + [ts[k]] + ts[k + 1..];
    }
    assert RemoveAt(ts, k) + hs == ts[..k] + (ts[k + 1..] + hs);
    SticksOkRemove(ts[..k], ts[k], ts[k + 1..] + hs, bound);
  }

  /** Valid sticks stay valid when two blocks of them trade places. */
  lemma SticksOkSwap(x: seq<Stick>, y: seq<Stick>, z: seq<Stick>, w: seq<Stick>, bound: nat)
    requires SticksOk(x + y + z + w, bound)
    ensures SticksOk(x + z + y + w, bound)
  {
    StickIdsAppend(x + y + z, w);
    StickIdsAppend(x + y, z);
    StickIdsAppend(x, y);
    StickIdsAppend(x + z + y, w);
    StickIdsAppend(x + z, y);
    StickIdsAppend(x, z);
    assert multiset(StickIds(x + z + y + w)) == multiset(StickIds(x + y + z + w));
    DistinctMultiset(StickIds(x + z + y + w), StickIds(x + y + z + w));
    BelowSub(StickIds(x + z + y + w), StickIds(x + y + z + w), bound);
  }

  /** Valid sticks stay valid when a block of them moves to the end. */
  lemma SticksOkMoveToEnd(a: seq<Stick>, f: seq<Stick>, b: seq<Stick>, bound: nat)
    requires SticksOk(a + f + b, bound)
    ensures SticksOk(a + b + f, bound)
  {
    assert a + f + b == a + f + b + [];
    SticksOkSwap(a, f, b, [], bound);
    assert a + b + f + [] == a + b + f;
  }

  /** A new hundred of ten sticks carrying the counter's id may be appended. */
  lemma HundredsOkAppend(hs: seq<Hundred>, h: Hundred, bound: nat)
    requires HundredsOk(hs, bound)
    requires |h.sticks| == FrameSize && h.id == bound
    ensures HundredsOk(hs + [h], bound + 1)
  {
    assert HundredIds(hs + [h]) == HundredIds(hs) + [bound];
    assert bound !in HundredIds(hs);
    DistinctAppend(HundredIds(hs), bound);
  }

  /** Valid hundreds stay valid when one of them is spliced out. */
  lemma HundredsOkRemove(hs: seq<Hundred>, k: nat, bound: nat)
    requires k < |hs| && HundredsOk(hs, bound)
    ensures HundredsOk(RemoveAt(hs, k), bound)
  {
    var ids := HundredIds(hs);
    HundredIdsRemoveAt(hs, k);
    assert ids == ids[..k] + [ids[k]] + ids[k + 1..];
    assert multiset(RemoveAt(ids, k)) <= multiset(ids);
    DistinctSub(RemoveAt(ids, k), ids);
    BelowSub(RemoveAt(ids, k), ids, bound);
    assert hs == hs[..k] + [hs[k]] + hs[k + 1..];
    forall h | h in RemoveAt(hs, k) ensures |h.sticks| == FrameSize {
      assert h in hs;
    }
  }
}
