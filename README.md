# Place-value manipulative: a Dafny model of its state engine

`script.js` drives a base-ten manipulative for the numbers 0–999 in the browser. Unit
cubes sit in *ones frames* of up to ten. Ten-sticks of ten cubes sit in *tens frames*
of up to ten. Hundred-blocks hold ten sticks each. The user can build a number
directly, or regroup: a full ones frame becomes a stick, a stick breaks back into a
ones frame, a full tens frame becomes a hundred, and a hundred breaks back into
sticks. After every change to the tens side, the tens frames are repacked
canonically (34 tens always show as 10+10+10+4).

This project models that engine with the DOM and the animation removed.

- **Data.** Cubes are reduced to their ids. `PlaceValue.Model` is the `state` object:
  the three id counters, the ones frames, the tens frames and the hundreds.
- **Effects as values.** Each state change (build and the four regrouping actions) is
  written as a pure function of the state before it, in module `PlaceValue`.
- **Imperative engine.** `Manipulative.Engine` is a class whose fields are `state`,
  `mode` and `locked`. Its methods do the source's own steps: the post-increments of
  `makeCube`/`makeStick`/`makeHundred`, the pushes and pops of `buildNumber`, the
  `splice`/`push` of the four actions, the nested loops of `flattenCubes` and
  `findStickById`, and the loop of `chunk`. Each method is proved to leave exactly
  the state that its pure counterpart describes.
- **Properties.** The lemmas prove what the engine promises about those functions:
  - what the packer returns;
  - the value, cube count and id assignment of a build;
  - the exact effect of each action, including its no-op cases;
  - that every action preserves the state invariant `PlaceValue.Valid`, the cube
    multiset and the represented value;
  - two compose-then-decompose round trips;
  - the "build 579, then break every hundred" scenario.

`PlaceValue.Valid` is the invariant every completed action leaves behind:

- the ones frames form a non-empty list of frames of at most ten cubes;
- the tens frames are the canonical chunking of the loose sticks;
- all cube ids are distinct and below the cube counter;
- every stick has ten cubes in ascending id order;
- stick ids are distinct and below the stick counter;
- every hundred has ten sticks;
- hundred ids are distinct and below the hundred counter.

Modules:

- `Wrappers`: `Option`.
- `Utils`: `clampInt`, `chunk`, concatenation and splice lemmas.
- `Sorting`: the id sort.
- `PlaceValue`: the state and the pure transitions.
- `Views`: lemmas about the flattened views and the lookups.
- `Building`: properties of `buildNumber`.
- `Regrouping`: properties of the four actions.
- `RoundTrips`: properties across several actions.
- `Scenarios`: worked scenarios.
- `Manipulative`: the imperative engine.

Where the code and its documented intent differ, the model follows the code:

- **Ones frames are never repacked.** The code only splices one out or appends one.
  So the invariant on the ones side is "at most ten per frame, at least one frame",
  not "every non-final frame is full".
- **Hundred decompose does not re-sort.** It appends the hundred's sticks with their
  cubes unchanged. The id sort in that function only orders the animation list.

## Model

| member | source | states |
|---|---|---|
| Utils.ClampInt | script.js:80-83 | NaN gives the lower bound. With lo <= hi the result lies in [lo, hi], equals n when n is in range, and is lo or hi when n is below or above. |
| Utils.Chunked | script.js:85-90 | Chunking always yields at least one group, and concatenating the groups gives back the input exactly, in order. |
| Utils.ChunkedIsPacked | script.js:85-90 | Every group but the last has exactly `size` items. The last is non-empty when the input is. Empty input yields exactly one empty group. |
| Utils.PackedIsChunked | script.js:111-117 | Re-chunking the flattening of packed frames returns those frames, so canonicalizing canonical frames changes nothing (idempotence). |
| Utils.PackedIffCanonical | script.js:111-117 | A frame list is left unchanged by flatten-then-chunk if and only if it is packed (full frames, then one last frame). |
| Utils.Chunk | script.js:85-90 | The slicing loop returns exactly `Chunked(arr, size)`. |
| Utils.ConcatSpliceSlot | script.js:546-547 | Splicing slot `s` out of frame `f` removes, from the flattened sequence, exactly the element at that slot's flat position, and nothing else. |
| Sorting.SortIds | script.js:133 | The id sort returns an ascending sequence that is a permutation of its input. |
| Sorting.SortedUnique | script.js:133 | Two ascending sequences with the same multiset are equal, so the sorted order of a set of ids is unique. |
| Sorting.SortIdsOfSorted | script.js:133 | Sorting an already ascending sequence returns it unchanged. |
| PlaceValue.CountValue | script.js:119-124 | The hundreds are the number of hundred-blocks, the tens the number of loose sticks over all tens frames, the ones the number of loose cubes over all ones frames. |
| PlaceValue.IndexOf | script.js:482-485 | A found position is in range and holds the id. Nothing is found exactly when the id does not occur. |
| Views.IndexOfIsFirst | script.js:482-485 | When the id occurs at position j, `findIndex` finds it, at j or earlier (the first occurrence). |
| PlaceValue.FindStick | script.js:472-480 | A found slot is in range and holds a stick with the id. |
| Views.FindStickIsFirst | script.js:472-480 | No slot before the found one, in frame-then-slot order, holds the id. Nothing is found exactly when no slot holds it. |
| Views.FindStickFlat | script.js:472-480 | The nested scan finds a stick iff the flattened loose-stick list contains the id, and the found slot's flat position is the first index of the id there. |
| PlaceValue.Pool | script.js:133-143 | The cube pool of `buildNumber(n)` holds exactly `n` cubes. |
| PlaceValue.Digits | script.js:150-152 | The tens and ones digits are below 10 and `100 * h + 10 * t + o == n`. |
| Building.FreshIdsDistinct | script.js:63-77 | Ids handed out by consecutive counter calls are distinct, ascending, at least the counter's start and below its end. |
| Building.PoolOk | script.js:133-143 | From a state whose cube ids are distinct and below the counter, the pool is in ascending id order and its ids are distinct and below the new counter. |
| Building.MakeSticksOk | script.js:167-173 | Sticks cut ten at a time from ascending cubes have ten cubes each, in ascending order, and consecutive ids from the stick counter. |
| Building.MakeHundredsOk | script.js:156-165 | Every hundred cut from the pool has ten sticks, and hundred ids run consecutively from the hundred counter. |
| Building.MakeHundredsSticks | script.js:156-165 | The hundreds' sticks hold the first `100 * h` pool cubes in order, have consecutive ids, and each has ten ascending cubes. |
| Building.BuildAssignsPool | script.js:154-179 | The id-sorted pool goes out in order: the first `100 * h` cubes to the hundreds, the next `10 * t` to the loose sticks, the rest to the ones. |
| Building.BuildCubes | script.js:132-183 | After a build the cubes on the board are exactly the pool, as a multiset. |
| Building.BuildCount | script.js:132-183 | `buildNumber(n)` shows `n / 100` hundreds, `(n % 100) / 10` tens and `n % 10` ones. It represents `n` with exactly `n` cubes, and no id counter goes down. |
| Building.BuildShrinks | script.js:138-143 | When shrinking, the surviving cubes and the popped ones together are the old cubes, every survivor has a lower id than every popped cube, and no cube id is handed out. |
| Building.BuildGrows | script.js:135-137 | When growing, the new cubes are the next ids of the cube counter, each greater than every existing id, and the board holds the old cubes plus exactly those. |
| Building.BuildSticksOk | script.js:156-173 | After a build every stick has ten ascending cubes, and stick ids are distinct and below the stick counter. |
| Building.BuildValid | script.js:132-183 | From any state whose cube ids are distinct and below the counter, a build yields a state satisfying the invariant. |
| Building.BuildSmall | script.js:174-180 | For `n <= 999` a build leaves exactly one tens frame, exactly one ones frame and at most nine hundreds. |
| Building.BuildZero | script.js:654-655 | `buildNumber(0)` leaves one empty ones frame, one empty tens frame and no hundred. It touches no counter, and the result satisfies the invariant. |
| Regrouping.ComposeOnesFrameToTenEffect | script.js:488-528 | Unless ones frame `i` exists with exactly ten cubes, nothing changes. Otherwise the frame is spliced out (a lone frame becomes one empty frame) and the loose sticks gain, last, a stick with the old stick counter and the frame's cubes sorted. The tens frames are packed, the hundreds unchanged, and the count moves ten ones to one ten. |
| Regrouping.ComposeOnesFrameToTenCubes | script.js:510-518 | Composing a full ones frame keeps the multiset of cubes on the board. |
| Regrouping.ComposeOnesFrameToTenPreserves | script.js:488-528 | From a valid state the action leaves a valid state with the same cube multiset and the same represented value. |
| Regrouping.DecomposeTenToOnesEffect | script.js:530-560 | An id no loose stick has is a no-op. Otherwise the first such stick leaves the loose-stick list and the tens frames are packed. Its cubes, sorted, become a new last ones frame with the earlier ones frames unchanged. Hundreds and counters are unchanged, and the count loses one ten and gains as many ones as the stick had cubes. |
| Regrouping.DecomposeTenToOnesCubes | script.js:546-551 | Breaking a stick keeps the multiset of cubes on the board. |
| Regrouping.DecomposeTenToOnesPreserves | script.js:530-560 | From a valid state the action leaves a valid state with the same cube multiset and the same represented value. |
| Regrouping.DecomposeTenIgnoresHundredSticks | script.js:472-480 | In a valid state, the id of a stick inside a hundred is not found among the loose sticks, so decomposing it is a no-op. |
| Regrouping.ComposeTensFrameToHundredEffect | script.js:562-608 | Unless tens frame `i` exists with exactly ten sticks, nothing changes. Otherwise the frame's sticks leave the loose-stick list, the rest are packed, and a hundred with the old hundred counter and those sticks in slot order is appended. The count moves ten tens to one hundred. |
| Regrouping.ComposeTensFrameToHundredCubes | script.js:596-599 | Composing a full tens frame keeps the multiset of cubes on the board. |
| Regrouping.ComposeTensFrameToHundredSticks | script.js:596-599 | Moving a full frame of sticks into a new hundred keeps every stick well formed, with distinct ids below the stick counter. |
| Regrouping.ComposeTensFrameToHundredPreserves | script.js:562-608 | From a valid state the action leaves a valid state with the same cube multiset and the same represented value. |
| Regrouping.DecomposeHundredToTensEffect | script.js:610-651 | An id no hundred has is a no-op. Otherwise the first such hundred is spliced out, its sticks (cubes unchanged) are appended after every loose stick, the tens frames are packed, and the count loses one hundred and gains as many tens as the hundred had sticks. |
| Regrouping.DecomposeHundredToTensCubes | script.js:638-642 | Breaking a hundred keeps the multiset of cubes on the board. |
| Regrouping.DecomposeHundredToTensSticks | script.js:638-642 | Moving a hundred's sticks to the tens side keeps every stick well formed, with distinct ids below the stick counter. |
| Regrouping.DecomposeHundredToTensPreserves | script.js:610-651 | From a valid state the action leaves a valid state with the same cube multiset and the same represented value. |
| RoundTrips.ValueIsCubeCount | script.js:119-124 | In a valid state the represented value `100h + 10t + o` equals the number of cubes on the board. |
| RoundTrips.IndexOfFresh | script.js:71-77 | An id equal to the counter, appended after ids below it, is found at the end: the id `makeStick`/`makeHundred` just handed out is found. |
| RoundTrips.ComposeOnesThenDecomposeTen | script.js:488-560 | Composing a full ones frame, then breaking the new stick, restores the tens frames, the hundreds and the count. The frame's cubes come back, sorted, as the last ones frame. |
| RoundTrips.ComposeTensThenDecomposeHundred | script.js:562-651 | Composing a full tens frame, then breaking the new hundred, restores the hundreds, the ones and the count. The frame's sticks move to the end of the loose sticks. |
| Scenarios.TensFrameShape | script.js:1-3 | In a valid state with `t >= 1` loose sticks there are `ceil(t / 10)` tens frames, all full but the last, which holds the rest (34 tens show as 10+10+10+4). |
| Scenarios.BuildFromInitialPool | script.js:132-137 | Building from the declared initial state draws the cubes 1..n. |
| Scenarios.DecomposeEachCount | script.js:610-651 | Breaking the hundreds with ids `first..first+count-1` one by one keeps the state valid and turns `count` hundreds into `10 * count` more tens. |
| Scenarios.BuildThenDecomposeAll | script.js:610-651 | After building `n` from the initial state and breaking every hundred, the state is valid with `n / 10` tens and `n % 10` ones. |
| Scenarios.Build579DecomposeAll | script.js:638-642 | Building 570..579 and breaking all five hundreds leaves 57 tens packed as five full frames and one frame of seven. |
| Manipulative.PushFrames | script.js:96 | Pushing every item of every frame appends the frames' concatenation. |
| Manipulative.PushStickCubes | script.js:97-98 | Pushing every cube of every stick appends the sticks' cubes in order. |
| Manipulative.PushFrameCubes | script.js:97 | The tens loop of `flattenCubes` appends the cubes of the loose sticks in frame, slot and cube order. |
| Manipulative.PushHundredCubes | script.js:98 | The hundreds loop of `flattenCubes` appends the cubes of the hundreds' sticks in order. |
| Manipulative.Engine.constructor | script.js:19-31 | Page load starts from the declared state (counters at 1), in compose mode and unlocked. It ends in the state `buildNumber(0)` produces from there, which satisfies the invariant. |
| Manipulative.Engine.MakeCube | script.js:63-69 | Returns the cube counter's value and advances the counter by one. |
| Manipulative.Engine.MakeStick | script.js:71-73 | Returns a stick with the stick counter's value and the given cubes, and advances the counter by one. |
| Manipulative.Engine.MakeHundred | script.js:75-77 | Returns a hundred with the hundred counter's value and the given sticks, and advances the counter by one. |
| Manipulative.Engine.AddCubes | script.js:135-137 | Pushing `add` new cubes appends the next `add` counter ids and advances the cube counter by `add`. |
| Manipulative.Engine.PopCubes | script.js:138-143 | Popping `remove` cubes leaves the prefix without the last `remove`. |
| Manipulative.Engine.CubePool | script.js:133-143 | The sorted, grown or shrunk cube list is exactly `Pool(state, n)`, and the cube counter advances by the number of cubes made. |
| Manipulative.Engine.CutSticks | script.js:167-173 | The slicing loop returns `count` sticks of consecutive ten-cube slices with consecutive ids, moves the index on by `10 * count`, and advances the stick counter by `count`. |
| Manipulative.Engine.CutHundreds | script.js:156-165 | The nested loop returns `count` hundreds of ten sticks each, cut from the start of the pool, and advances the stick and hundred counters accordingly. |
| Manipulative.Engine.LayOut | script.js:146-180 | Clearing the board and cutting hundreds, loose sticks and ones from the pool leaves exactly the layout that `Build` describes. |
| Manipulative.Engine.BuildNumber | script.js:132-183 | The new state is exactly `Build(old state, n)`, whose count, cube ids and invariant are the `Building` lemmas above. |
| Manipulative.Engine.FlattenCubes | script.js:94-100 | Returns the loose cubes, then the loose sticks' cubes, then the hundreds' cubes. |
| Manipulative.Engine.FlattenTensSticks | script.js:102-109 | Returns the loose sticks in frame order, then slot order. |
| Manipulative.Engine.FindStickById | script.js:472-480 | The nested index loops return exactly `FindStick`: the first slot holding the id, or nothing. |
| Manipulative.Engine.CanonicalizeTensFrames | script.js:111-117 | The tens frames become the chunking of the loose sticks, and the loose-stick sequence is unchanged. |
| Manipulative.Engine.PushStickOntoLastFrame | script.js:516-517 | Pushing a stick onto the last tens frame (after giving an empty list one frame) appends it to the loose-stick sequence. |
| Manipulative.Engine.ComposeOnesFrameToTen | script.js:488-528 | The new state is exactly the pure transition of the old one, the lock is released at the end, and the invariant is preserved. |
| Manipulative.Engine.DecomposeTenToOnes | script.js:530-560 | The new state is exactly the pure transition of the old one, the lock is released at the end, and the invariant is preserved. |
| Manipulative.Engine.ComposeTensFrameToHundred | script.js:562-608 | The new state is exactly the pure transition of the old one, the lock is released at the end, and the invariant is preserved. |
| Manipulative.Engine.DecomposeHundredToTens | script.js:610-651 | The new state is exactly the pure transition of the old one, the lock is released at the end, and the invariant is preserved. |
| Manipulative.Engine.ClickOnesFrame | script.js:217-222 | While locked or outside compose mode the click changes nothing; otherwise it composes ones frame `i`. The lock is as it was before the click, and the invariant is preserved. |
| Manipulative.Engine.ClickTensFrame | script.js:253-258 | While locked or outside compose mode the click changes nothing; otherwise it composes tens frame `i`. The lock is as it was before the click, and the invariant is preserved. |
| Manipulative.Engine.ClickStick | script.js:306-312 | While locked, outside decompose mode, or for a stick drawn inside a hundred, the click changes nothing; otherwise it breaks the stick. The lock is as it was before the click, and the invariant is preserved. |
| Manipulative.Engine.ClickHundred | script.js:277-281 | While locked or outside decompose mode the click changes nothing; otherwise it breaks the hundred. The lock is as it was before the click, and the invariant is preserved. |
| Manipulative.Engine.ClickBuild | script.js:56-60 | While locked nothing changes; otherwise the input clamped to 0..999 is built. The invariant is preserved. |
| Manipulative.Engine.ClickMode | script.js:53-54 | The compose and decompose buttons switch the mode unless locked. |

## Left out

- Rendering, element creation and the destination-slot builders (script.js:186-315,
  426-469). Their one change to the state is to push an empty frame onto an empty
  ones or tens frame list (script.js:195, 230). That cannot happen in a state
  satisfying `PlaceValue.Valid`, which every modelled action keeps, so it is omitted
  along with the `chunk` guards below. The cube's `el` handle, its dataset and its
  styling are dropped, and `c.el.remove()` in the shrink loop of `buildNumber` with them.
- Animation (script.js:318-423): floating-point rectangles, `requestAnimationFrame`
  and timers. The id sorts that only order an animation list (script.js:587-590,
  629-632) are left out with it.
- The asynchronous interleaving of the lock. Each action runs to completion. `locked`
  is a flag that makes the click handlers no-ops, and an action sets it and clears it
  again as `setLocked` does. Disabling the buttons and showing the badge are left out.
- `parseInt` of the input box: `ClickBuild` receives the parsed value (`NaN` or an
  integer) as a parameter.
- `setMode`'s button classes and help text: only the mode itself is modelled.
- `updateReadout` formats `countValue` for display and is left out. `countValue`
  itself is modelled.
- The `if(... length === 0)` guards after each call of `chunk`: `chunk` never returns
  an empty list (`Utils.Chunked` proves at least one group), so these guards never
  fire and the model omits them. The same holds for the guard right after the push
  of a new ones frame (script.js:551).
- `Array.prototype.sort` with an id comparator is modelled by `Sorting.SortIds`, an
  insertion sort on ids. Only its result matters, and `Sorting.SortedUnique` shows that
  result is unique.
- Utils.Chunk: requires `size > 0`. With size 0 the source loops forever on a
  non-empty input, and every call in the source passes 10.
- Manipulative.Engine.BuildNumber: takes `n: nat`. A negative `n` cannot reach it
  through the clamp; called directly, the source would pop an empty array and fail
  on `c.el`.
- Manipulative.Engine.constructor: assigns the state that `buildNumber(0)` leaves on
  the declared initial state instead of calling `BuildNumber(0)`.
  `Building.BuildZero` proves the two equal.
- Building.BuildValid, Building.BuildShrinks and Building.BuildGrows: stated for
  states whose cube ids are distinct and below the cube counter. Every state the
  page can reach satisfies this.
- Stick and hundred ids only ever come from their counters. The model keeps them as
  `nat` fields and does not check them against other DOM attributes.
