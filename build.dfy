/** What `buildNumber(n)` leaves behind: the summary of `n`, every cube of the
    id-sorted pool assigned in order to hundreds, loose sticks and loose cubes, a
    valid state, and which ids survive a shrink or are added by a growth. */
module Building {
  import opened Utils
  import opened Sorting
  import opened PlaceValue
  import opened Views

  /** Consecutive ids are distinct. */
  lemma FreshIdsDistinct(start: nat, count: nat)
    ensures Distinct(FreshIds(start, count))
    ensures Below(FreshIds(start, count), start + count)
    ensures Sorted(FreshIds(start, count))
    ensures forall x | x in FreshIds(start, count) :: start <= x
    decreases count
  {
    if count > 0 {
      FreshIdsDistinct(start, count - 1);
      assert FreshIds(start, count) == FreshIds(start, count - 1) + [start + count - 1];
      DistinctAppend(FreshIds(start, count - 1), start + count - 1);
    }
  }

  /** Growing valid cubes with fresh ids from the counter keeps them valid. */
  lemma {:induction false} GrowOk(s: seq<CubeId>, start: nat, count: nat)
    requires CubesOk(s, start)
    ensures CubesOk(s + FreshIds(start, count), start + count)
    decreases count
  {
    if count > 0 {
      GrowOk(s, start, count - 1);
      var t := s + FreshIds(start, count - 1);
      assert s + FreshIds(start, count) == t + [start + count - 1];
      assert start + count - 1 !in t;
      DistinctAppend(t, start + count - 1);
    } else {
      assert s + FreshIds(start, 0) == s;
    }
  }

  /** `buildNumber(0)` clears the board: one empty ones frame, one empty tens
      frame, no hundred, and no counter moves. */
  lemma BuildZero(m: Model)
    ensures Build(m, 0) == m.(onesFrames := [[]], tensFrames := [[]], hundreds := [])
    ensures Valid(Build(m, 0))
  {
    var pool := Pool(m, 0);
    assert pool == [];
    assert MakeSticks(pool[0..], m.nextStickId, 0) == [];
    assert MakeHundreds(pool, m.nextStickId, m.nextHundredId, 0) == [];
    var b := Build(m, 0);
    assert Concat(b.onesFrames) == [] && TensSticks(b) == [];
    assert StickLists([]) == [] && CubeLists([]) == [];
    assert Cubes(b) == [] && AllSticks(b) == [];
  }

  /** The pool is in ascending id order, its ids are distinct and below the cube
      counter as it stands after the growth. */
  lemma PoolOk(m: Model, n: nat)
    requires CubesOk(Cubes(m), m.nextCubeId)
    ensures Sorted(Pool(m, n))
    ensures CubesOk(Pool(m, n), Build(m, n).nextCubeId)
  {
    var sorted := SortIds(Cubes(m));
    assert CubesOk(sorted, m.nextCubeId) by {
      CubesOkPermutation(sorted, Cubes(m), m.nextCubeId);
    }
    if |sorted| < n {
      var grown := FreshIds(m.nextCubeId, n - |sorted|);
      GrowOk(sorted, m.nextCubeId, n - |sorted|);
      FreshIdsDistinct(m.nextCubeId, n - |sorted|);
      SortedAppend(sorted, grown, m.nextCubeId);
    } else {
      DistinctPrefix(sorted, n);
      forall x | x in sorted[..n] ensures x < m.nextCubeId {
        assert x in sorted;
      }
    }
  }

  /** Cutting one more stick appends it, with the next id and the next ten cubes. */
  lemma MakeSticksSnoc(cubes: seq<CubeId>, firstId: nat, count: nat)
    requires |cubes| >= FrameSize * (count + 1)
    ensures MakeSticks(cubes, firstId, count + 1) ==
      MakeSticks(cubes, firstId, count) + [Stick(firstId + count, cubes[FrameSize * count..FrameSize * count + FrameSize])]
  {
  }

  /** Cutting one more hundred appends it, with the next id, the next ten stick ids
      and the next hundred cubes; the sticks it is cut into only see those cubes. */
  lemma MakeHundredsSnoc(cubes: seq<CubeId>, firstStickId: nat, firstHundredId: nat, count: nat)
    requires |cubes| >= 100 * (count + 1)
    ensures MakeHundreds(cubes, firstStickId, firstHundredId, count + 1) ==
      MakeHundreds(cubes, firstStickId, firstHundredId, count) +
      [Hundred(firstHundredId + count, MakeSticks(cubes[100 * count..], firstStickId + FrameSize * count, FrameSize))]
  {
    var a, b := cubes[100 * count..100 * count + 100], cubes[100 * count..];
    var id := firstStickId + FrameSize * count;
    assert MakeSticks(a, id, FrameSize) == MakeSticks(b, id, FrameSize) by {
      forall k | 0 <= k < FrameSize
        ensures a[FrameSize * k..FrameSize * k + FrameSize] == b[FrameSize * k..FrameSize * k + FrameSize]
      {
        var i := FrameSize * k;
        assert i + FrameSize <= 100;
        SliceOfSlice(cubes, 100 * count, 100 * count + 100, i, i + FrameSize);
        SliceOfSlice(cubes, 100 * count, |cubes|, i, i + FrameSize);
      }
    }
  }

  /** The sticks cut ten at a time hold the first `10 * count` cubes, in order. */
  lemma {:induction false} MakeSticksCubes(cubes: seq<CubeId>, firstId: nat, count: nat)
    requires |cubes| >= FrameSize * count
    ensures StickCubes(MakeSticks(cubes, firstId, count)) == cubes[..FrameSize * count]
    decreases count
  {
    if count > 0 {
      var k := count - 1;
      var st := Stick(firstId + k, cubes[FrameSize * k..FrameSize * k + FrameSize]);
      MakeSticksCubes(cubes, firstId, k);
      assert MakeSticks(cubes, firstId, count) == MakeSticks(cubes, firstId, k) + [st];
      StickCubesAppend(MakeSticks(cubes, firstId, k), [st]);
      StickCubesSingle(st);
      assert cubes[..FrameSize * count] == cubes[..FrameSize * k] + st.cubes;
    } else {
      assert MakeSticks(cubes, firstId, 0) == [];
      assert CubeLists([]) == [];
    }
  }

  /** Sticks cut from ascending cubes are full and in ascending order, and carry
      consecutive ids. */
  lemma MakeSticksOk(cubes: seq<CubeId>, firstId: nat, count: nat)
    requires |cubes| >= FrameSize * count && Sorted(cubes)
    ensures forall st | st in MakeSticks(cubes, firstId, count) :: |st.cubes| == FrameSize && Sorted(st.cubes)
    ensures StickIds(MakeSticks(cubes, firstId, count)) == FreshIds(firstId, count)
  {
    var sts := MakeSticks(cubes, firstId, count);
    forall st | st in sts ensures |st.cubes| == FrameSize && Sorted(st.cubes) {
      var k :| 0 <= k < count && sts[k] == st;
      assert st.cubes == cubes[FrameSize * k..FrameSize * k + FrameSize];
    }
  }

  /** Cutting one more hundred appends its ten sticks to the sticks of the hundreds. */
  lemma MakeHundredsSticksSnoc(cubes: seq<CubeId>, firstStickId: nat, firstHundredId: nat, j: nat)
    requires |cubes| >= 100 * (j + 1)
    ensures HundredSticks(MakeHundreds(cubes, firstStickId, firstHundredId, j + 1)) ==
      HundredSticks(MakeHundreds(cubes, firstStickId, firstHundredId, j)) +
      MakeSticks(cubes[100 * j..100 * j + 100], firstStickId + FrameSize * j, FrameSize)
  {
    var block := cubes[100 * j..100 * j + 100];
    var h := Hundred(firstHundredId + j, MakeSticks(block, firstStickId + FrameSize * j, FrameSize));
    var prev := MakeHundreds(cubes, firstStickId, firstHundredId, j);
    assert MakeHundreds(cubes, firstStickId, firstHundredId, j + 1) == prev + [h];
    HundredSticksAppend(prev, [h]);
    HundredSticksSingle(h);
  }

  /** The hundreds cut a hundred at a time hold the first `100 * count` cubes, in order. */
  lemma {:induction false} MakeHundredsCubes(cubes: seq<CubeId>, firstStickId: nat, firstHundredId: nat, count: nat)
    requires |cubes| >= 100 * count
    ensures StickCubes(HundredSticks(MakeHundreds(cubes, firstStickId, firstHundredId, count))) == cubes[..100 * count]
    decreases count
  {
    if count > 0 {
      var j := count - 1;
      var block := cubes[100 * j..100 * j + 100];
      var before := HundredSticks(MakeHundreds(cubes, firstStickId, firstHundredId, j));
      var sts := MakeSticks(block, firstStickId + FrameSize * j, FrameSize);
      MakeHundredsCubes(cubes, firstStickId, firstHundredId, j);
      MakeHundredsSticksSnoc(cubes, firstStickId, firstHundredId, j);
      StickCubesAppend(before, sts);
      MakeSticksCubes(block, firstStickId + FrameSize * j, FrameSize);
      assert block[..100] == block;
      assert cubes[..100 * count] == cubes[..100 * j] + block;
    } else {
      assert MakeHundreds(cubes, firstStickId, firstHundredId, 0) == [];
      assert StickLists([]) == [];
      assert CubeLists([]) == [];
    }
  }

  /** The sticks of the hundreds carry consecutive ids from `firstStickId`. */
  lemma {:induction false} MakeHundredsStickIds(cubes: seq<CubeId>, firstStickId: nat, firstHundredId: nat, count: nat)
    requires |cubes| >= 100 * count
    ensures StickIds(HundredSticks(MakeHundreds(cubes, firstStickId, firstHundredId, count))) ==
      FreshIds(firstStickId, FrameSize * count)
    decreases count
  {
    if count > 0 {
      var j := count - 1;
      var block := cubes[100 * j..100 * j + 100];
      var before := HundredSticks(MakeHundreds(cubes, firstStickId, firstHundredId, j));
      var sts := MakeSticks(block, firstStickId + FrameSize * j, FrameSize);
      MakeHundredsStickIds(cubes, firstStickId, firstHundredId, j);
      MakeHundredsSticksSnoc(cubes, firstStickId, firstHundredId, j);
      StickIdsAppend(before, sts);
      assert StickIds(sts) == FreshIds(firstStickId + FrameSize * j, FrameSize);
      assert FreshIds(firstStickId, FrameSize * count) ==
        FreshIds(firstStickId, FrameSize * j) + FreshIds(firstStickId + FrameSize * j, FrameSize);
    } else {
      assert MakeHundreds(cubes, firstStickId, firstHundredId, 0) == [];
      assert StickLists([]) == [];
    }
  }

  /** Hundreds cut from ascending cubes hold full sticks in ascending order. */
  lemma {:induction false} MakeHundredsFull(cubes: seq<CubeId>, firstStickId: nat, firstHundredId: nat, count: nat)
    requires |cubes| >= 100 * count && Sorted(cubes)
    ensures forall st | st in HundredSticks(MakeHundreds(cubes, firstStickId, firstHundredId, count)) ::
      |st.cubes| == FrameSize && Sorted(st.cubes)
    decreases count
  {
    if count > 0 {
      var j := count - 1;
      var block := cubes[100 * j..100 * j + 100];
      var before := HundredSticks(MakeHundreds(cubes, firstStickId, firstHundredId, j));
      var sts := MakeSticks(block, firstStickId + FrameSize * j, FrameSize);
      MakeHundredsFull(cubes, firstStickId, firstHundredId, j);
      MakeHundredsSticksSnoc(cubes, firstStickId, firstHundredId, j);
      assert Sorted(block);
      MakeSticksOk(block, firstStickId + FrameSize * j, FrameSize);
    } else {
      assert MakeHundreds(cubes, firstStickId, firstHundredId, 0) == [];
      assert StickLists([]) == [];
    }
  }

  /** The hundreds cut a hundred at a time hold the first `100 * count` cubes in
      order, in full ascending sticks whose ids run on from `firstStickId`. */
  lemma MakeHundredsSticks(cubes: seq<CubeId>, firstStickId: nat, firstHundredId: nat, count: nat)
    requires |cubes| >= 100 * count && Sorted(cubes)
    ensures var sts := HundredSticks(MakeHundreds(cubes, firstStickId, firstHundredId, count));
      && StickCubes(sts) == cubes[..100 * count]
      && StickIds(sts) == FreshIds(firstStickId, FrameSize * count)
      && forall st | st in sts :: |st.cubes| == FrameSize && Sorted(st.cubes)
  {
    MakeHundredsCubes(cubes, firstStickId, firstHundredId, count);
    MakeHundredsStickIds(cubes, firstStickId, firstHundredId, count);
    MakeHundredsFull(cubes, firstStickId, firstHundredId, count);
  }

  /** Hundreds cut from the pool have ten sticks each and consecutive ids. */
  lemma MakeHundredsOk(cubes: seq<CubeId>, firstStickId: nat, firstHundredId: nat, count: nat)
    requires |cubes| >= 100 * count
    ensures var hs := MakeHundreds(cubes, firstStickId, firstHundredId, count);
      (forall h | h in hs :: |h.sticks| == FrameSize) && HundredIds(hs) == FreshIds(firstHundredId, count)
  {
  }

  /** A layout hands the pool out in order: the first `100 * h` cubes to the
      hundreds, the next `10 * t` to the loose sticks, the rest to the ones. */
  lemma LayoutAssigns(m: Model, pool: seq<CubeId>, h: nat, t: nat, grown: nat)
    requires 100 * h + FrameSize * t <= |pool|
    ensures var b := Layout(m, pool, h, t, grown);
      && StickCubes(HundredSticks(b.hundreds)) == pool[..100 * h]
      && StickCubes(TensSticks(b)) == pool[100 * h..100 * h + FrameSize * t]
      && Concat(b.onesFrames) == pool[100 * h + FrameSize * t..]
  {
    MakeHundredsCubes(pool, m.nextStickId, m.nextHundredId, h);
    MakeSticksCubes(pool[100 * h..], m.nextStickId + FrameSize * h, t);
    assert pool[100 * h..][..FrameSize * t] == pool[100 * h..100 * h + FrameSize * t];
  }

  /** A layout holds exactly the cubes of its pool. */
  lemma LayoutCubes(m: Model, pool: seq<CubeId>, h: nat, t: nat, grown: nat)
    requires 100 * h + FrameSize * t <= |pool|
    ensures multiset(Cubes(Layout(m, pool, h, t, grown))) == multiset(pool)
  {
    var b := Layout(m, pool, h, t, grown);
    var x, y, z := pool[..100 * h], pool[100 * h..100 * h + FrameSize * t], pool[100 * h + FrameSize * t..];
    LayoutAssigns(m, pool, h, t, grown);
    assert Cubes(b) == z + y + x;
    assert pool == x + y + z;
  }

  /** The id-sorted pool is handed out in order: the first `100 * h` cubes to the
      hundreds, the next `10 * t` to the loose sticks, the rest to the ones. */
  lemma BuildAssignsPool(m: Model, n: nat)
    ensures var b, pool := Build(m, n), Pool(m, n);
      var h, t := n / 100, (n % 100) / 10;
      && StickCubes(HundredSticks(b.hundreds)) == pool[..100 * h]
      && StickCubes(TensSticks(b)) == pool[100 * h..100 * h + FrameSize * t]
      && Concat(b.onesFrames) == pool[100 * h + FrameSize * t..]
  {
    Digits(n);
    LayoutAssigns(m, Pool(m, n), n / 100, (n % 100) / 10, Grown(m, n));
  }

  /** `buildNumber(n)` shows `n / 100` hundreds, `(n % 100) / 10` tens and `n % 10`
      ones, holds exactly `n` cubes, and no counter goes down. */
  lemma BuildCount(m: Model, n: nat)
    ensures var b := Build(m, n);
      && CountValue(b) == Count(n / 100, (n % 100) / 10, n % 10)
      && Value(CountValue(b)) == n
      && |Cubes(b)| == n
      && b.nextCubeId >= m.nextCubeId && b.nextStickId >= m.nextStickId && b.nextHundredId >= m.nextHundredId
  {
    Digits(n);
    BuildAssignsPool(m, n);
    var b, pool := Build(m, n), Pool(m, n);
    var h, t := n / 100, (n % 100) / 10;
    var ones, tens := |Concat(b.onesFrames)|, |TensSticks(b)|;
    assert |StickCubes(TensSticks(b))| == FrameSize * t;
    StickCubesLength(TensSticks(b));
    assert tens == t;
    assert ones == n % 10;
    assert |b.hundreds| == h;
    assert CountValue(b) == Count(h, t, n % 10);
    assert |Cubes(b)| == ones + FrameSize * t + 100 * h;
  }

  /** The cubes after a build are the pool, as a multiset. */
  lemma BuildCubes(m: Model, n: nat)
    ensures multiset(Cubes(Build(m, n))) == multiset(Pool(m, n))
  {
    Digits(n);
    LayoutCubes(m, Pool(m, n), n / 100, (n % 100) / 10, Grown(m, n));
  }

  /** Full ascending sticks numbered consecutively from `start`, the later block
      first, are valid below the end of the numbering. */
  lemma SticksOkConsecutive(later: seq<Stick>, earlier: seq<Stick>, start: nat, k: nat, t: nat)
    requires StickIds(earlier) == FreshIds(start, k) && StickIds(later) == FreshIds(start + k, t)
    requires forall st | st in later :: |st.cubes| == FrameSize && Sorted(st.cubes)
    requires forall st | st in earlier :: |st.cubes| == FrameSize && Sorted(st.cubes)
    ensures SticksOk(later + earlier, start + k + t)
  {
    var all := FreshIds(start, k + t);
    var ids := StickIds(later + earlier);
    StickIdsAppend(later, earlier);
    FreshIdsDistinct(start, k + t);
    assert all == StickIds(earlier) + StickIds(later);
    assert multiset(ids) == multiset(all);
    DistinctMultiset(ids, all);
    BelowSub(ids, all, start + k + t);
  }

  /** The sticks of a build are full and ascending, and carry the stick ids handed
      out during it: the hundreds' sticks first, then the loose ones. */
  lemma BuildSticksOk(m: Model, n: nat)
    requires CubesOk(Cubes(m), m.nextCubeId)
    ensures SticksOk(AllSticks(Build(m, n)), Build(m, n).nextStickId)
  {
    var b, pool := Build(m, n), Pool(m, n);
    var h, t := n / 100, (n % 100) / 10;
    PoolOk(m, n);
    var tens := MakeSticks(pool[100 * h..], m.nextStickId + FrameSize * h, t);
    var hs := MakeHundreds(pool, m.nextStickId, m.nextHundredId, h);
    assert AllSticks(b) == tens + HundredSticks(hs);
    MakeSticksOk(pool[100 * h..], m.nextStickId + FrameSize * h, t);
    MakeHundredsSticks(pool, m.nextStickId, m.nextHundredId, h);
    SticksOkConsecutive(tens, HundredSticks(hs), m.nextStickId, FrameSize * h, t);
  }

  /** Building from a state whose cubes are valid leaves a valid state. */
  lemma BuildValid(m: Model, n: nat)
    requires CubesOk(Cubes(m), m.nextCubeId)
    ensures Valid(Build(m, n))
  {
    var b, pool := Build(m, n), Pool(m, n);
    var h, t := n / 100, (n % 100) / 10;
    PoolOk(m, n);
    var tens := MakeSticks(pool[100 * h..], m.nextStickId + FrameSize * h, t);
    var hs := MakeHundreds(pool, m.nextStickId, m.nextHundredId, h);
    assert OnesFramesOk(b.onesFrames) by {
      ChunkedIsPacked(pool[100 * h + FrameSize * t..], FrameSize);
    }
    assert TensFramesOk(b);
    assert CubesOk(Cubes(b), b.nextCubeId) by {
      BuildCubes(m, n);
      CubesOkPermutation(Cubes(b), pool, b.nextCubeId);
    }
    assert SticksOk(AllSticks(b), b.nextStickId) by {
      BuildSticksOk(m, n);
    }
    assert HundredsOk(b.hundreds, b.nextHundredId) by {
      MakeHundredsOk(pool, m.nextStickId, m.nextHundredId, h);
      FreshIdsDistinct(m.nextHundredId, h);
    }
  }

  /** From the range the build button allows, there is exactly one tens frame and
      exactly one ones frame. */
  lemma BuildSmall(m: Model, n: nat)
    requires n <= 999
    ensures |Build(m, n).tensFrames| == 1 && |Build(m, n).onesFrames| == 1
    ensures |Build(m, n).hundreds| <= 9
  {
    Digits(n);
    var b, pool := Build(m, n), Pool(m, n);
    var h, t := n / 100, (n % 100) / 10;
    assert h <= 9;
    var ones := pool[100 * h + FrameSize * t..];
    var tens := MakeSticks(pool[100 * h..], m.nextStickId + FrameSize * h, t);
    assert b.onesFrames == Chunked(ones, FrameSize) && |ones| < FrameSize;
    assert b.tensFrames == Chunked(tens, FrameSize) && |tens| < FrameSize;
    assert |b.hundreds| == h;
  }

  /** Cubes that are, as a multiset, the first `n` of an ascending sequence are what
      is left of it once the rest is removed, and none exceeds a removed one. */
  lemma KeepLowest(cubes: seq<CubeId>, sorted: seq<CubeId>, n: nat)
    requires Sorted(sorted) && n <= |sorted| && multiset(cubes) == multiset(sorted[..n])
    ensures multiset(cubes) + multiset(sorted[n..]) == multiset(sorted)
    ensures forall x, y | x in cubes && y in sorted[n..] :: x <= y
  {
    assert sorted == sorted[..n] + sorted[n..];
    SortedCut(sorted, n);
    forall x, y | x in cubes && y in sorted[n..] ensures x <= y {
      assert x in multiset(cubes);
      assert x in sorted[..n];
    }
  }

  /** A shrink pops the highest ids: the cubes kept are the lowest `n` ids, every one
      of them no higher than any cube removed, and the cube counter stays put. */
  lemma BuildShrinks(m: Model, n: nat)
    requires CubesOk(Cubes(m), m.nextCubeId) && n <= |Cubes(m)|
    ensures var b, sorted := Build(m, n), SortIds(Cubes(m));
      && multiset(Cubes(b)) + multiset(sorted[n..]) == multiset(Cubes(m))
      && (forall x, y | x in Cubes(b) && y in sorted[n..] :: x <= y)
      && b.nextCubeId == m.nextCubeId
  {
    var b, sorted := Build(m, n), SortIds(Cubes(m));
    BuildCubes(m, n);
    assert Pool(m, n) == sorted[..n];
    KeepLowest(Cubes(b), sorted, n);
  }

  /** A growth keeps every cube and adds fresh ids from the counter, all above every
      existing id, and moves the counter past them. */
  lemma BuildGrows(m: Model, n: nat)
    requires CubesOk(Cubes(m), m.nextCubeId) && |Cubes(m)| < n
    ensures var b, added := Build(m, n), FreshIds(m.nextCubeId, n - |Cubes(m)|);
      && multiset(Cubes(b)) == multiset(Cubes(m)) + multiset(added)
      && (forall x, y | x in Cubes(m) && y in added :: x < y)
      && b.nextCubeId == m.nextCubeId + |added|
  {
    var sorted := SortIds(Cubes(m));
    var added := FreshIds(m.nextCubeId, n - |Cubes(m)|);
    assert Pool(m, n) == sorted + added;
    assert Build(m, n).nextCubeId == m.nextCubeId + Grown(m, n) by {
      Digits(n);
    }
    BuildCubes(m, n);
    FreshIdsDistinct(m.nextCubeId, n - |Cubes(m)|);
    forall x, y | x in Cubes(m) && y in added ensures x < y {
      assert x < m.nextCubeId;
    }
  }
}
