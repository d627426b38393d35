/** The state engine of script.js as the program runs it: one object whose fields
    are the source's `state`, `mode` and `locked`, updated in place by the id
    allocators, `buildNumber`, the four regrouping actions and the click handlers.
    Each method is proved to have exactly the effect the functions of `PlaceValue`
    describe. */
module Manipulative {
  import opened Wrappers
  import opened Utils
  import opened Sorting
  import opened PlaceValue
  import opened Views
  import opened Regrouping
  import opened Building

  /** The interaction mode the compose and decompose buttons select. */
  datatype Mode = Compose | Decompose

  /** Pushes every item, one at a time. */
  method PushAll<T>(out: seq<T>, items: seq<T>) returns (r: seq<T>)
    ensures r == out + items
  {
    r := out;
    for k := 0 to |items|
      invariant r == out + items[..k]
    {
      r := r + [items[k]];
    }
    assert items[..|items|] == items;
  }

  /** Pushes every item of every frame, frame by frame. */
  method PushFrames<T>(out: seq<T>, frames: seq<seq<T>>) returns (r: seq<T>)
    ensures r == out + Concat(frames)
  {
    r := out;
    for f := 0 to |frames|
      invariant r == out + Concat(frames[..f])
    {
      r := PushAll(r, frames[f]);
      ConcatSnoc(frames[..f], frames[f]);
      assert frames[..f + 1] == frames[..f] + [frames[f]];
    }
    assert frames[..|frames|] == frames;
  }

  /** Pushes the cubes of every stick, stick by stick. */
  method PushStickCubes(out: seq<CubeId>, sts: seq<Stick>) returns (r: seq<CubeId>)
    ensures r == out + StickCubes(sts)
  {
    r := out;
    for k := 0 to |sts|
      invariant r == out + StickCubes(sts[..k])
    {
      r := PushAll(r, sts[k].cubes);
      assert sts[..k + 1] == sts[..k] + [sts[k]];
      StickCubesAppend(sts[..k], [sts[k]]);
      StickCubesSingle(sts[k]);
    }
    assert sts[..|sts|] == sts;
  }

  /** The middle loop of `flattenCubes`: the cubes of the sticks of every tens
      frame, frame by frame. */
  method PushFrameCubes(out: seq<CubeId>, frames: seq<seq<Stick>>) returns (r: seq<CubeId>)
    ensures r == out + StickCubes(Concat(frames))
  {
    r := out;
    for f := 0 to |frames|
      invariant r == out + StickCubes(Concat(frames[..f]))
    {
      r := PushStickCubes(r, frames[f]);
      FrameCubesSnoc(frames, f);
    }
    assert frames[..|frames|] == frames;
  }

  /** The last loop of `flattenCubes`: the cubes of the sticks of every hundred. */
  method PushHundredCubes(out: seq<CubeId>, hs: seq<Hundred>) returns (r: seq<CubeId>)
    ensures r == out + StickCubes(HundredSticks(hs))
  {
    r := out;
    for k := 0 to |hs|
      invariant r == out + StickCubes(HundredSticks(hs[..k]))
    {
      r := PushStickCubes(r, hs[k].sticks);
      HundredCubesSnoc(hs, k);
    }
    assert hs[..|hs|] == hs;
  }

  class Engine {
    var nextCubeId: nat
    var nextStickId: nat
    var nextHundredId: nat
    var onesFrames: seq<seq<CubeId>>
    var tensFrames: seq<seq<Stick>>
    var hundreds: seq<Hundred>
    var mode: Mode
    var locked: bool

    /** The `state` object as a value. */
    function Snapshot(): Model
      reads this
    {
      Model(nextCubeId, nextStickId, nextHundredId, onesFrames, tensFrames, hundreds)
    }

    /** The invariant every completed action leaves behind. */
    ghost predicate Valid()
      reads this
    {
      PlaceValue.Valid(Snapshot())
    }

    /** Page load: the declared state (all counters at 1, nothing on the
        board), compose mode, unlocked, then `buildNumber(0)`, whose whole
        effect on that state is one empty ones frame and one empty tens frame
        (`Building.BuildZero`). */
    constructor ()
      ensures mode == Compose && !locked
      ensures Valid()
      ensures Snapshot() == Build(Initial(), 0)
    {
      nextCubeId, nextStickId, nextHundredId := 1, 1, 1;
      onesFrames, tensFrames, hundreds := [[]], [[]], [];
      mode, locked := Compose, false;
      new;
      BuildZero(Initial());
    }

    // ---------- Allocation ----------

    /** `makeCube`: the counter's id, then the counter moves on. */
    method MakeCube() returns (id: CubeId)
      modifies this`nextCubeId
      ensures id == old(nextCubeId) && nextCubeId == old(nextCubeId) + 1
    {
      id := nextCubeId;
      nextCubeId := nextCubeId + 1;
    }

    /** `makeStick`: a stick of the given cubes with the counter's id. */
    method MakeStick(cubes: seq<CubeId>) returns (st: Stick)
      modifies this`nextStickId
      ensures st == Stick(old(nextStickId), cubes) && nextStickId == old(nextStickId) + 1
    {
      st := Stick(nextStickId, cubes);
      nextStickId := nextStickId + 1;
    }

    /** `makeHundred`: a hundred of the given sticks with the counter's id. */
    method MakeHundred(sticks: seq<Stick>) returns (h: Hundred)
      modifies this`nextHundredId
      ensures h == Hundred(old(nextHundredId), sticks) && nextHundredId == old(nextHundredId) + 1
    {
      h := Hundred(nextHundredId, sticks);
      nextHundredId := nextHundredId + 1;
    }

    /** The inner loop of `buildNumber`: `count` sticks cut ten cubes at a time
        from `pool`, starting at index `start`. */
    method CutSticks(pool: seq<CubeId>, start: nat, count: nat) returns (sts: seq<Stick>, end: nat)
      requires start + FrameSize * count <= |pool|
      modifies this`nextStickId
      ensures end == start + FrameSize * count
      ensures sts == MakeSticks(pool[start..], old(nextStickId), count)
      ensures nextStickId == old(nextStickId) + count
    {
      sts, end := [], start;
      for s := 0 to count
        invariant end == start + FrameSize * s
        invariant sts == MakeSticks(pool[start..], old(nextStickId), s)
        invariant nextStickId == old(nextStickId) + s
      {
        var cubes := pool[end..end + FrameSize];
        SliceOfSlice(pool, start, |pool|, FrameSize * s, FrameSize * s + FrameSize);
        assert pool[start..|pool|] == pool[start..];
        end := end + FrameSize;
        var st := MakeStick(cubes);
        MakeSticksSnoc(pool[start..], old(nextStickId), s);
        sts := sts + [st];
      }
    }

    /** The growing loop of `buildNumber`: `add` new cubes from `makeCube` pushed
        after the current ones. */
    method AddCubes(current: seq<CubeId>, add: nat) returns (r: seq<CubeId>)
      modifies this`nextCubeId
      ensures r == current + FreshIds(old(nextCubeId), add)
      ensures nextCubeId == old(nextCubeId) + add
    {
      r := current;
      for i := 0 to add
        invariant r == current + FreshIds(old(nextCubeId), i)
        invariant nextCubeId == old(nextCubeId) + i
      {
        var c := MakeCube();
        r := r + [c];
      }
    }

    /** The shrinking loop of `buildNumber`: the last cube popped `remove` times. */
    method PopCubes(current: seq<CubeId>, remove: nat) returns (r: seq<CubeId>)
      requires remove <= |current|
      ensures r == current[..|current| - remove]
    {
      r := current;
      for i := 0 to remove
        invariant r == current[..|current| - i]
      {
        r := r[..|r| - 1];
      }
    }

    /** The first half of `buildNumber(n)`: every cube sorted by id, then grown
        with new cubes from `makeCube` or cut down by popping the highest ids, to
        exactly `n` cubes. */
    method CubePool(n: nat) returns (current: seq<CubeId>)
      modifies this`nextCubeId
      ensures current == Pool(old(Snapshot()), n)
      ensures nextCubeId == old(nextCubeId) + Grown(old(Snapshot()), n)
    {
      ghost var m := Snapshot();
      current := FlattenCubes();
      current := SortIds(current);
      if |current| < n {
        current := AddCubes(current, n - |current|);
      } else if |current| > n {
        current := PopCubes(current, |current| - n);
      } else {
        assert current == current[..n];
      }
    }

    /** The hundreds loop of `buildNumber`: `count` hundreds of ten new sticks each,
        cut from the start of `pool`. */
    method CutHundreds(pool: seq<CubeId>, count: nat) returns (hs: seq<Hundred>, end: nat)
      requires 100 * count <= |pool|
      modifies this`nextStickId, this`nextHundredId
      ensures end == 100 * count
      ensures hs == MakeHundreds(pool, old(nextStickId), old(nextHundredId), count)
      ensures nextStickId == old(nextStickId) + FrameSize * count
      ensures nextHundredId == old(nextHundredId) + count
    {
      hs, end := [], 0;
      for i := 0 to count
        invariant end == 100 * i
        invariant hs == MakeHundreds(pool, old(nextStickId), old(nextHundredId), i)
        invariant nextStickId == old(nextStickId) + FrameSize * i
        invariant nextHundredId == old(nextHundredId) + i
      {
        var sticks;
        sticks, end := CutSticks(pool, end, FrameSize);
        var hd := MakeHundred(sticks);
        MakeHundredsSnoc(pool, old(nextStickId), old(nextHundredId), i);
        hs := hs + [hd];
      }
    }

    /** `buildNumber(n)`: the cube pool of `n` cubes in id order is cut into
        `n / 100` hundreds, then `(n % 100) / 10` loose sticks, then `n % 10` loose
        cubes, and every frame is rebuilt. */
    method BuildNumber(n: nat)
      modifies this`nextCubeId, this`nextStickId, this`nextHundredId
      modifies this`onesFrames, this`tensFrames, this`hundreds
      ensures Snapshot() == Build(old(Snapshot()), n)
    {
      var current := CubePool(n);
      var h, t, o := n / 100, (n % 100) / 10, n % 10;
      Digits(n);
      LayOut(current, h, t, o);
    }

    /** The second half of `buildNumber`: the board is cleared, then `h` hundreds,
        `t` loose sticks and `o` loose cubes are cut from the pool in that order. */
    method LayOut(pool: seq<CubeId>, h: nat, t: nat, o: nat)
      requires 100 * h + FrameSize * t + o == |pool|
      modifies this`nextStickId, this`nextHundredId
      modifies this`onesFrames, this`tensFrames, this`hundreds
      ensures Snapshot() == Layout(old(Snapshot()), pool, h, t, 0)
    {
      onesFrames, tensFrames, hundreds := [], [], [];
      var idx;
      hundreds, idx := CutHundreds(pool, h);
      var tensSticks;
      tensSticks, idx := CutSticks(pool, idx, t);
      tensFrames := Chunk(tensSticks, FrameSize);
      CanonicalizeTensFrames();
      var onesCubes := pool[idx..idx + o];
      assert onesCubes == pool[100 * h + FrameSize * t..];
      onesFrames := Chunk(onesCubes, FrameSize);
    }

    // ---------- Views ----------

    /** `flattenCubes`: the loose cubes, then the cubes of the loose sticks, then
        the cubes of the hundreds' sticks. */
    method FlattenCubes() returns (out: seq<CubeId>)
      ensures out == Cubes(Snapshot())
    {
      out := PushFrames([], onesFrames);
      out := PushFrameCubes(out, tensFrames);
      out := PushHundredCubes(out, hundreds);
    }

    /** `flattenTensSticks`: the loose sticks in frame order, then slot order. */
    method FlattenTensSticks() returns (sticks: seq<Stick>)
      ensures sticks == TensSticks(Snapshot())
    {
      sticks := PushFrames([], tensFrames);
    }

    /** `findStickById`: scans the tens frames frame by frame, slot by slot, and
        reports the first slot holding a stick with the id. */
    method FindStickById(id: nat) returns (r: Option<Slot>)
      ensures r == FindStick(tensFrames, id)
    {
      for f := 0 to |tensFrames|
        invariant forall g, s :: 0 <= g < f && 0 <= s < |tensFrames[g]| ==> tensFrames[g][s].id != id
      {
        for i := 0 to |tensFrames[f]|
          invariant forall s :: 0 <= s < i ==> tensFrames[f][s].id != id
        {
          if tensFrames[f][i].id == id {
            r := Some(Slot(f, i));
            FirstSlotIsFound(tensFrames, id, f, i);
            return;
          }
        }
      }
      r := None;
      NoSlotIsNotFound(tensFrames, id);
    }

    // ---------- Canonical tens frames ----------

    /** `canonicalizeTensFrames`: the loose sticks, flattened, are chunked again
        into full frames of ten and a last partial one. */
    method CanonicalizeTensFrames()
      modifies this`tensFrames
      ensures tensFrames == Chunked(old(TensSticks(Snapshot())), FrameSize)
      ensures TensSticks(Snapshot()) == old(TensSticks(Snapshot()))
    {
      var sticks := FlattenTensSticks();
      tensFrames := Chunk(sticks, FrameSize);
    }

    // ---------- The four regrouping actions ----------

    /** `composeOnesFrameToTen(i)`: unless ones frame `i` holds exactly ten cubes
        nothing happens; otherwise the frame is spliced out (an emptied list gets one
        empty frame), a new stick of its cubes sorted by id is pushed onto the last
        tens frame, and the tens frames are canonicalized. The lock is held while the
        state changes and released at the end. */
    method ComposeOnesFrameToTen(i: int)
      modifies this`nextStickId, this`onesFrames, this`tensFrames, this`locked
      ensures Snapshot() == PlaceValue.ComposeOnesFrameToTen(old(Snapshot()), i)
      ensures locked == (old(locked) && Snapshot() == old(Snapshot()))
      ensures old(Valid()) ==> Valid()
    {
      ghost var m := Snapshot();
      if !(0 <= i < |onesFrames|) || |onesFrames[i]| != FrameSize {
        return;
      }
      locked := true;
      var frameCubes := onesFrames[i];
      onesFrames := RemoveAt(onesFrames, i);
      if |onesFrames| == 0 {
        onesFrames := onesFrames + [[]];
      }
      var newStick := MakeStick(SortIds(frameCubes));
      PushStickOntoLastFrame(newStick);
      CanonicalizeTensFrames();
      locked := false;
      assert Snapshot() == PlaceValue.ComposeOnesFrameToTen(m, i);
      assert nextStickId != m.nextStickId;
      if PlaceValue.Valid(m) {
        ComposeOnesFrameToTenPreserves(m, i);
        assert Valid();
      }
    }

    /** The push of a new stick onto the last tens frame (after giving an empty
        list one empty frame). */
    method PushStickOntoLastFrame(st: Stick)
      modifies this`tensFrames
      ensures TensSticks(Snapshot()) == old(TensSticks(Snapshot())) + [st]
    {
      if |tensFrames| == 0 {
        tensFrames := tensFrames + [[]];
        assert Concat(tensFrames) == [] + Concat(tensFrames[1..]);
      }
      var last := |tensFrames| - 1;
      ConcatPushLast(tensFrames, st);
      tensFrames := tensFrames[last := tensFrames[last] + [st]];
    }

    /** `decomposeTenToOnes(id)`: unless a loose stick has the id nothing happens;
        otherwise the first such stick is spliced out of its frame, the tens frames
        are canonicalized, and its cubes, sorted by id, are pushed as a new ones
        frame. */
    method DecomposeTenToOnes(id: nat)
      modifies this`onesFrames, this`tensFrames, this`locked
      ensures Snapshot() == PlaceValue.DecomposeTenToOnes(old(Snapshot()), id)
      ensures locked == (old(locked) && Snapshot() == old(Snapshot()))
      ensures old(Valid()) ==> Valid()
    {
      ghost var m := Snapshot();
      if PlaceValue.Valid(m) {
        DecomposeTenToOnesPreserves(m, id);
      }
      var found := FindStickById(id);
      if found.None? {
        return;
      }
      locked := true;
      var p := found.value;
      var stick := tensFrames[p.frame][p.slot];
      var cubes := stick.cubes;
      tensFrames := tensFrames[p.frame := RemoveAt(tensFrames[p.frame], p.slot)];
      CanonicalizeTensFrames();
      onesFrames := onesFrames + [SortIds(cubes)];
      locked := false;
    }

    /** `composeTensFrameToHundred(i)`: unless tens frame `i` holds exactly ten
        sticks nothing happens; otherwise the frame is spliced out, the tens frames
        are canonicalized, and a new hundred of those sticks is pushed. */
    method ComposeTensFrameToHundred(i: int)
      modifies this`nextHundredId, this`tensFrames, this`hundreds, this`locked
      ensures Snapshot() == PlaceValue.ComposeTensFrameToHundred(old(Snapshot()), i)
      ensures locked == (old(locked) && Snapshot() == old(Snapshot()))
      ensures old(Valid()) ==> Valid()
    {
      ghost var m := Snapshot();
      if PlaceValue.Valid(m) {
        ComposeTensFrameToHundredPreserves(m, i);
      }
      if !(0 <= i < |tensFrames|) || |tensFrames[i]| != FrameSize {
        return;
      }
      locked := true;
      var frameSticks := tensFrames[i];
      tensFrames := RemoveAt(tensFrames, i);
      CanonicalizeTensFrames();
      var h := MakeHundred(frameSticks);
      hundreds := hundreds + [h];
      locked := false;
    }

    /** `decomposeHundredToTens(id)`: unless a hundred has the id nothing happens;
        otherwise the first such hundred is spliced out, its sticks are pushed as a
        new tens frame, and the tens frames are canonicalized. */
    method DecomposeHundredToTens(id: nat)
      modifies this`tensFrames, this`hundreds, this`locked
      ensures Snapshot() == PlaceValue.DecomposeHundredToTens(old(Snapshot()), id)
      ensures locked == (old(locked) && Snapshot() == old(Snapshot()))
      ensures old(Valid()) ==> Valid()
    {
      ghost var m := Snapshot();
      if PlaceValue.Valid(m) {
        DecomposeHundredToTensPreserves(m, id);
      }
      var found := IndexOf(HundredIds(hundreds), id);
      if found.None? {
        return;
      }
      locked := true;
      var k := found.value;
      var sticks := hundreds[k].sticks;
      hundreds := RemoveAt(hundreds, k);
      if |tensFrames| == 0 {
        tensFrames := [[]];
      }
      ConcatSnoc(tensFrames, sticks);
      tensFrames := tensFrames + [sticks];
      CanonicalizeTensFrames();
      locked := false;
    }

    // ---------- Click handlers ----------

    /** A click on ones frame `i`: ignored while locked, outside compose mode, or
        unless the frame holds exactly ten cubes. */
    method ClickOnesFrame(i: int)
      modifies this`nextStickId, this`onesFrames, this`tensFrames, this`locked
      ensures Snapshot() == if !old(locked) && mode == Compose then PlaceValue.ComposeOnesFrameToTen(old(Snapshot()), i) else old(Snapshot())
      ensures locked == old(locked)
      ensures old(Valid()) ==> Valid()
    {
      if locked || mode != Compose || !(0 <= i < |onesFrames|) || |onesFrames[i]| != FrameSize {
        return;
      }
      ComposeOnesFrameToTen(i);
    }

    /** A click on tens frame `i`: ignored while locked, outside compose mode, or
        unless the frame holds exactly ten sticks. */
    method ClickTensFrame(i: int)
      modifies this`nextHundredId, this`tensFrames, this`hundreds, this`locked
      ensures Snapshot() == if !old(locked) && mode == Compose then PlaceValue.ComposeTensFrameToHundred(old(Snapshot()), i) else old(Snapshot())
      ensures locked == old(locked)
      ensures old(Valid()) ==> Valid()
    {
      if locked || mode != Compose || !(0 <= i < |tensFrames|) || |tensFrames[i]| != FrameSize {
        return;
      }
      ComposeTensFrameToHundred(i);
    }

    /** A click on a stick: ignored while locked, outside decompose mode, or when
        the stick is drawn inside a hundred. */
    method ClickStick(id: nat, inHundred: bool)
      modifies this`onesFrames, this`tensFrames, this`locked
      ensures Snapshot() == if !old(locked) && mode == Decompose && !inHundred then PlaceValue.DecomposeTenToOnes(old(Snapshot()), id) else old(Snapshot())
      ensures locked == old(locked)
      ensures old(Valid()) ==> Valid()
    {
      if locked || mode != Decompose || inHundred {
        return;
      }
      DecomposeTenToOnes(id);
    }

    /** A click on a hundred: ignored while locked or outside decompose mode. */
    method ClickHundred(id: nat)
      modifies this`tensFrames, this`hundreds, this`locked
      ensures Snapshot() == if !old(locked) && mode == Decompose then PlaceValue.DecomposeHundredToTens(old(Snapshot()), id) else old(Snapshot())
      ensures locked == old(locked)
      ensures old(Valid()) ==> Valid()
    {
      if locked || mode != Decompose {
        return;
      }
      DecomposeHundredToTens(id);
    }

    /** The build button: ignored while locked; otherwise the parsed input clamped
        to 0..999 is built. */
    method ClickBuild(input: Parsed)
      modifies this`nextCubeId, this`nextStickId, this`nextHundredId
      modifies this`onesFrames, this`tensFrames, this`hundreds
      ensures Snapshot() == if locked then old(Snapshot()) else Build(old(Snapshot()), ClampInt(input, 0, 999))
      ensures old(Valid()) ==> Valid()
    {
      if locked {
        return;
      }
      ghost var m := Snapshot();
      var n := ClampInt(input, 0, 999);
      BuildNumber(n);
      if PlaceValue.Valid(m) {
        BuildValid(m, n);
      }
    }

    /** The compose and decompose buttons: ignored while locked. */
    method ClickMode(target: Mode)
      modifies this`mode
      ensures mode == if locked then old(mode) else target
    {
      if !locked {
        mode := target;
      }
    }
  }

  /** One more tens frame contributes the cubes of its sticks last. */
  lemma FrameCubesSnoc(frames: seq<seq<Stick>>, f: nat)
    requires f < |frames|
    ensures StickCubes(Concat(frames[..f + 1])) == StickCubes(Concat(frames[..f])) + StickCubes(frames[f])
  {
    assert frames[..f + 1] == frames[..f] + [frames[f]];
    ConcatSnoc(frames[..f], frames[f]);
    StickCubesAppend(Concat(frames[..f]), frames[f]);
  }

  /** One more hundred contributes the cubes of its sticks last. */
  lemma HundredCubesSnoc(hs: seq<Hundred>, k: nat)
    requires k < |hs|
    ensures StickCubes(HundredSticks(hs[..k + 1])) == StickCubes(HundredSticks(hs[..k])) + StickCubes(hs[k].sticks)
  {
    assert hs[..k + 1] == hs[..k] + [hs[k]];
    HundredSticksAppend(hs[..k], [hs[k]]);
    HundredSticksSingle(hs[k]);
    StickCubesAppend(HundredSticks(hs[..k]), hs[k].sticks);
  }

  /** A slot holding the id with no earlier slot holding it is the one
      `findStickById` reports. */
  lemma FirstSlotIsFound(frames: seq<seq<Stick>>, id: nat, f: nat, i: nat)
    requires f < |frames| && i < |frames[f]| && frames[f][i].id == id
    requires forall g, s :: 0 <= g < f && 0 <= s < |frames[g]| ==> frames[g][s].id != id
    requires forall s :: 0 <= s < i ==> frames[f][s].id != id
    ensures FindStick(frames, id) == Some(Slot(f, i))
  {
    FindStickIsFirst(frames, id);
    var p := FindStick(frames, id).value;
    assert !Earlier(f, i, p.frame, p.slot);
    assert !Earlier(p.frame, p.slot, f, i);
  }

  /** When no slot holds the id, `findStickById` reports nothing. */
  lemma NoSlotIsNotFound(frames: seq<seq<Stick>>, id: nat)
    requires forall g, s :: 0 <= g < |frames| && 0 <= s < |frames[g]| ==> frames[g][s].id != id
    ensures FindStick(frames, id) == None
  {
  }
}
