/** The place-value state of script.js as a value: cubes reduced to their ids,
    ten-sticks, hundred-blocks, the ones and tens frames and the three id counters;
    and the effect of each state change (build, and the four regrouping
    transitions) as a function of the state before it. */
module PlaceValue {
  import opened Wrappers
  import opened Utils
  import opened Sorting

  /** Every frame, stick and hundred has room for this many children. */
  const FrameSize: nat := 10

  type CubeId = nat

  /** A ten-stick: its id and its cubes, slot by slot. */
  datatype Stick = Stick(id: nat, cubes: seq<CubeId>)

  /** A hundred-block: its id and its ten-sticks, slot by slot. */
  datatype Hundred = Hundred(id: nat, sticks: seq<Stick>)

  /** The source's `state` object. */
  datatype Model = Model(
    nextCubeId: nat,
    nextStickId: nat,
    nextHundredId: nat,
    onesFrames: seq<seq<CubeId>>,
    tensFrames: seq<seq<Stick>>,
    hundreds: seq<Hundred>)

  /** The summary `countValue` returns. */
  datatype Count = Count(hundreds: nat, tens: nat, ones: nat)

  /** The state declared at the top of script.js, before the first build. */
  function Initial(): Model
  {
    Model(1, 1, 1, [], [], [])
  }

  /** The number a summary represents. */
  function Value(c: Count): nat
  {
    100 * c.hundreds + 10 * c.tens + c.ones
  }

  // ---------- Views of the state ----------

  function CubeLists(sts: seq<Stick>): (r: seq<seq<CubeId>>)
    ensures |r| == |sts|
  {
    seq(|sts|, k requires 0 <= k < |sts| => sts[k].cubes)
  }

  /** The cubes of a sequence of sticks, stick by stick. */
  function StickCubes(sts: seq<Stick>): seq<CubeId>
  {
    Concat(CubeLists(sts))
  }

  function StickLists(hs: seq<Hundred>): (r: seq<seq<Stick>>)
    ensures |r| == |hs|
  {
    seq(|hs|, k requires 0 <= k < |hs| => hs[k].sticks)
  }

  /** The sticks of a sequence of hundreds, hundred by hundred. */
  function HundredSticks(hs: seq<Hundred>): seq<Stick>
  {
    Concat(StickLists(hs))
  }

  function StickIds(sts: seq<Stick>): (r: seq<nat>)
    ensures |r| == |sts|
  {
    seq(|sts|, k requires 0 <= k < |sts| => sts[k].id)
  }

  function HundredIds(hs: seq<Hundred>): (r: seq<nat>)
    ensures |r| == |hs|
  {
    seq(|hs|, k requires 0 <= k < |hs| => hs[k].id)
  }

  /** `flattenTensSticks`: the loose sticks in frame order, then slot order. */
  function TensSticks(m: Model): seq<Stick>
  {
    Concat(m.tensFrames)
  }

  /** Every stick of the state, loose ones first, then those inside hundreds. */
  function AllSticks(m: Model): seq<Stick>
  {
    TensSticks(m) + HundredSticks(m.hundreds)
  }

  /** `flattenCubes`: the loose cubes, then the cubes of the loose sticks, then
      the cubes of the hundreds. */
  function Cubes(m: Model): seq<CubeId>
  {
    Concat(m.onesFrames) + StickCubes(TensSticks(m)) + StickCubes(HundredSticks(m.hundreds))
  }

  /** `countValue`: the number of hundreds, of loose sticks and of loose cubes. */
  function CountValue(m: Model): (c: Count)
    ensures c.hundreds == |m.hundreds|
    ensures c.tens == |TensSticks(m)|
    ensures c.ones == |Concat(m.onesFrames)|
  {
    Count(|m.hundreds|, TotalLength(m.tensFrames), TotalLength(m.onesFrames))
  }

  // ---------- The invariant ----------

  predicate Below(ids: seq<nat>, bound: nat)
  {
    forall x | x in ids :: x < bound
  }

  /** Ones frames: at least one frame, none over-full (a frame that is not last
      may be partial or empty: frames are spliced out and appended, never repacked). */
  predicate OnesFramesOk(frames: seq<seq<CubeId>>)
  {
    |frames| >= 1 && forall f | f in frames :: |f| <= FrameSize
  }

  /** Tens frames: the canonical chunking of the loose sticks. */
  predicate TensFramesOk(m: Model)
  {
    m.tensFrames == Chunked(TensSticks(m), FrameSize)
  }

  /** Cubes: distinct ids, all below the cube counter. */
  predicate CubesOk(cubes: seq<CubeId>, nextCubeId: nat)
  {
    Below(cubes, nextCubeId) && Distinct(cubes)
  }

  /** Sticks: ten cubes each, in ascending id order; distinct ids below the stick counter. */
  predicate SticksOk(sts: seq<Stick>, nextStickId: nat)
  {
    (forall st | st in sts :: |st.cubes| == FrameSize && Sorted(st.cubes))
    && Below(StickIds(sts), nextStickId) && Distinct(StickIds(sts))
  }

  /** Hundreds: ten sticks each; distinct ids below the hundred counter. */
  predicate HundredsOk(hs: seq<Hundred>, nextHundredId: nat)
  {
    (forall h | h in hs :: |h.sticks| == FrameSize)
    && Below(HundredIds(hs), nextHundredId) && Distinct(HundredIds(hs))
  }

  /** The invariant every completed build and transition leaves behind. */
  predicate Valid(m: Model)
  {
    OnesFramesOk(m.onesFrames) && TensFramesOk(m)
    && CubesOk(Cubes(m), m.nextCubeId)
    && SticksOk(AllSticks(m), m.nextStickId)
    && HundredsOk(m.hundreds, m.nextHundredId)
  }

  // ---------- Lookups ----------

  /** `findIndex(x => x.id === id)` over the ids: the first position holding `id`. */
  function IndexOf(ids: seq<nat>, id: nat): (r: Option<nat>)
    ensures r.Some? ==> r.value < |ids| && ids[r.value] == id
    ensures r.None? <==> id !in ids
  {
    if ids == [] then None
    else if ids[0] == id then Some(0)
    else
      match IndexOf(ids[1..], id)
      case None => None
      case Some(k) => Some(k + 1)
  }

  /** A stick's place in the tens frames. */
  datatype Slot = Slot(frame: nat, slot: nat)

  /** Whether slot `(f, s)` comes before slot `(g, t)` in frame-then-slot order. */
  predicate Earlier(f: nat, s: nat, g: nat, t: nat)
  {
    f < g || (f == g && s < t)
  }

  /** `findStickById`: the first slot, in frame order then slot order, whose stick
      has `id` (that no earlier slot has it is `Views.FindStickIsFirst`). */
  function FindStick(frames: seq<seq<Stick>>, id: nat): (r: Option<Slot>)
    ensures r.Some? ==> r.value.frame < |frames| && r.value.slot < |frames[r.value.frame]|
    ensures r.Some? ==> frames[r.value.frame][r.value.slot].id == id
  {
    if frames == [] then None
    else
      match IndexOf(StickIds(frames[0]), id)
      case Some(s) => Some(Slot(0, s))
      case None =>
        match FindStick(frames[1..], id)
        case None => None
        case Some(p) =>
          assert frames[1..][p.frame] == frames[p.frame + 1];
          Some(Slot(p.frame + 1, p.slot))
  }

  // ---------- The four regrouping transitions ----------

  /** `composeOnesFrameToTen(i)`: a ones frame of exactly ten cubes becomes a new
      stick (cubes sorted by id, id from the stick counter) pushed after every loose
      stick; the frame is spliced out of the ones frames (an empty list gets one
      empty frame back) and the tens frames are repacked. Anything else is a no-op. */
  function ComposeOnesFrameToTen(m: Model, i: int): Model
  {
    if 0 <= i < |m.onesFrames| && |m.onesFrames[i]| == FrameSize then
      var rest := RemoveAt(m.onesFrames, i);
      var stick := Stick(m.nextStickId, SortIds(m.onesFrames[i]));
      m.(onesFrames := if rest == [] then [[]] else rest,
         tensFrames := Chunked(TensSticks(m) + [stick], FrameSize),
         nextStickId := m.nextStickId + 1)
    else
      m
  }

  /** `decomposeTenToOnes(id)`: the first loose stick with that id leaves its
      frame, the tens frames are repacked, and its cubes, sorted by id, are
      appended as a new ones frame. Sticks inside hundreds are not searched; an
      id that is not found is a no-op. */
  function DecomposeTenToOnes(m: Model, id: nat): Model
  {
    match FindStick(m.tensFrames, id)
    case None => m
    case Some(p) =>
      var frame := m.tensFrames[p.frame];
      var stick := frame[p.slot];
      m.(tensFrames := Chunked(Concat(m.tensFrames[p.frame := RemoveAt(frame, p.slot)]), FrameSize),
         onesFrames := m.onesFrames + [SortIds(stick.cubes)])
  }

  /** `composeTensFrameToHundred(i)`: a tens frame of exactly ten sticks is
      spliced out, the remaining tens frames are repacked, and a new hundred made of
      those sticks in slot order is appended. Anything else is a no-op. */
  function ComposeTensFrameToHundred(m: Model, i: int): Model
  {
    if 0 <= i < |m.tensFrames| && |m.tensFrames[i]| == FrameSize then
      m.(tensFrames := Chunked(Concat(RemoveAt(m.tensFrames, i)), FrameSize),
         hundreds := m.hundreds + [Hundred(m.nextHundredId, m.tensFrames[i])],
         nextHundredId := m.nextHundredId + 1)
    else
      m
  }

  /** `decomposeHundredToTens(id)`: the first hundred with that id is spliced out
      and its sticks, unchanged and in order, are appended after every loose stick
      before the tens frames are repacked. An id that is not found is a no-op. */
  function DecomposeHundredToTens(m: Model, id: nat): Model
  {
    match IndexOf(HundredIds(m.hundreds), id)
    case None => m
    case Some(k) =>
      m.(hundreds := RemoveAt(m.hundreds, k),
         tensFrames := Chunked(TensSticks(m) + m.hundreds[k].sticks, FrameSize))
  }

  // ---------- Build ----------

  /** `count` consecutive ids from `start`: what `count` calls of `makeCube` hand out. */
  function FreshIds(start: nat, count: nat): (r: seq<nat>)
    ensures |r| == count
  {
    seq(count, k requires 0 <= k < count => start + k)
  }

  /** How many new cubes `buildNumber(n)` has to make. */
  function Grown(m: Model, n: nat): nat
  {
    if |Cubes(m)| < n then n - |Cubes(m)| else 0
  }

  /** The cube pool of `buildNumber(n)`: every cube of the state sorted by id, then
      grown with fresh ids or cut down by popping the highest ids, to `n` cubes. */
  function Pool(m: Model, n: nat): (r: seq<CubeId>)
    ensures |r| == n
  {
    var sorted := SortIds(Cubes(m));
    if |sorted| < n then sorted + FreshIds(m.nextCubeId, n - |sorted|) else sorted[..n]
  }

  /** `count` sticks cut from `cubes` ten at a time, with consecutive ids from `firstId`. */
  function MakeSticks(cubes: seq<CubeId>, firstId: nat, count: nat): (r: seq<Stick>)
    requires |cubes| >= FrameSize * count
    ensures |r| == count
  {
    seq(count, k requires 0 <= k < count => Stick(firstId + k, cubes[FrameSize * k..FrameSize * k + FrameSize]))
  }

  /** `count` hundreds cut from `cubes` a hundred at a time; hundred `j` has id
      `firstHundredId + j` and its ten sticks have ids from `firstStickId + 10 * j`. */
  function MakeHundreds(cubes: seq<CubeId>, firstStickId: nat, firstHundredId: nat, count: nat): (r: seq<Hundred>)
    requires |cubes| >= 100 * count
    ensures |r| == count
  {
    seq(count, j requires 0 <= j < count =>
      Hundred(firstHundredId + j, MakeSticks(cubes[100 * j..100 * j + 100], firstStickId + FrameSize * j, FrameSize)))
  }

  /** The decimal digits `buildNumber` reads off `n`: `n / 100` hundreds and
      `(n % 100) / 10` tens fit inside `n`, and what is left is `n % 10`. */
  lemma Digits(n: nat)
    ensures (n % 100) / 10 < 10 && n % 10 < 10
    ensures 100 * (n / 100) + FrameSize * ((n % 100) / 10) + n % 10 == n
  {
    var h, r := n / 100, n % 100;
    var t, o := r / 10, r % 10;
    assert n == 100 * h + r;
    assert r == 10 * t + o && 0 <= o < 10;
    LastDigit(n, 10 * h + t, o);
  }

  /** Euclidean division by ten is unique. */
  lemma LastDigit(n: int, q: int, r: int)
    requires n == 10 * q + r && 0 <= r < 10
    ensures n % 10 == r
  {
  }

  /** What `buildNumber` leaves once it holds the sorted `pool`: `h` hundreds cut
      first, then `t` loose sticks, then the remaining cubes as loose cubes; `grown`
      cubes were minted on the way. */
  function Layout(m: Model, pool: seq<CubeId>, h: nat, t: nat, grown: nat): Model
    requires 100 * h + FrameSize * t <= |pool|
  {
    Model(
      m.nextCubeId + grown,
      m.nextStickId + FrameSize * h + t,
      m.nextHundredId + h,
      Chunked(pool[100 * h + FrameSize * t..], FrameSize),
      Chunked(MakeSticks(pool[100 * h..], m.nextStickId + FrameSize * h, t), FrameSize),
      MakeHundreds(pool, m.nextStickId, m.nextHundredId, h))
  }

  /** `buildNumber(n)`: the pool is cut, in id order, into `n / 100` hundreds, then
      `(n % 100) / 10` loose sticks, then `n % 10` loose cubes; every frame is rebuilt. */
  function Build(m: Model, n: nat): Model
  {
    Digits(n);
    Layout(m, Pool(m, n), n / 100, (n % 100) / 10, Grown(m, n))
  }
}
