# GearBoard rail keyboard — a Dafny model

GearBoard is an on-screen keyboard in which a "stick" (a disc) is dragged
along a network of rails, in the manner of a gear lever. Three horizontal
trunk rails and one vertical rail are fixed. Each of the 72 symbols sits
on a short vertical stem hanging from a trunk rail. Releasing the stick on
a symbol selects it. Typing the selection reshuffles the symbols. The
selection then either appends a character, deletes the last one
(`←`, U+2190) or commits the text (`↵`, U+21B5).

The model covers the page's core logic, in these modules:

- `Geometry`: points, squared distance, `clamp`, the normalising
  `Segment` constructor, and `getClosestPoint`.
- `Network`: the running-minimum scan of `moveToClosestPoint` over the
  ordered rail list. `Nearest` is a reference definition.
  `ClosestOnNetwork` is the loop, proved against it.
- `Shuffle`: the symbol catalogue and `prepareLetters`. The random
  choices become a caller-supplied `draws` sequence. The in-place swap
  loop is run on an `array` and proved equal to the recursive
  `Shuffled`. `Shuffled` is proved to be a permutation. Every ordering is
  reachable (`DrawsFor`), and on distinct symbols different draws give
  different orderings. So draws and orderings correspond one to one.
- `Grid`: the trunk rails, the 6 × 12 letter grid of `reassignLetters`,
  the stem every `Letter` pushes, and the release test of `mouseUp`.
  It proves that a release point is within reach of at most one letter.
- `Buffer`: what the pending selection does to the written text in
  `typeSelected`.
- `Board`: the page's global state as a class `Session` with the event
  handlers `mouseDown`, `mouseMove`, `mouseUp` and `typeSelected`.
  The class invariant says that the rail list starts with the trunk,
  holds every stem and is well formed, that the letters are the layout of
  72 symbols, and that the stick lies on a rail.

Distances are compared squared, since the square root is monotone.
`distance < 20` becomes `Dist2 < 20 * 20`, `< radius + 5` becomes
`< 25 * 25`, and the release test `< 10` becomes `< 10 * 10`. The empty
selection `""` is `None`. The buffer of one-character strings is a
`string`, so joining it is the identity.

`moveToClosestPoint` requests a background restore when the pointer's
distance to the rails is positive, not when the stick moves. So a drag
straight onto a rail point moves the stick without a restore, and the
disc drawn at the old place is not erased (`Board.DragOntoRailSkipsRestore`).
The model keeps this behaviour as written.

## Model

| member | source | states |
|---|---|---|
| Geometry.Dist2 | main.js:10-14 | the squared distance is non-negative and zero exactly when the points coincide |
| Geometry.Clamp | main.js:16-18 | the result is at most `max`; on a proper interval it is at least `min`; a value inside the interval is returned unchanged; an empty interval yields `max` |
| Geometry.ClampIsNearest | main.js:16-18 | over a proper interval, no point of the interval is closer to the value than its clamp |
| Geometry.MakeSegment | main.js:25-30 | the stored segment is normalised (`x1 <= x2`, `y1 <= y2`) and keeps exactly the given coordinates on each axis |
| Geometry.MakeSegmentIgnoresOrder | main.js:25-30 | swapping the end points, or the x coordinates alone, builds the same segment |
| Geometry.ClosestPoint | main.js:41-47 | the projection lies on a normalised segment; it keeps the segment's x on a vertical segment and its y otherwise; a point already on a well-formed segment is its own projection |
| Geometry.ClosestPointIsNearest | main.js:41-47 | on a well-formed segment no point is closer to the pointer than the projection |
| Network.Nearest | main.js:105-114 | the index the scan settles on has the least gap of all segments, and every earlier segment has a strictly larger gap, so ties go to the first |
| Network.NearestIsUnique | main.js:105-114 | those two properties determine the chosen index |
| Network.NearestPoint | main.js:104-115 | on a well-formed network the stick lands on a rail |
| Network.NearestPointIsClosest | main.js:104-115 | no point of any well-formed rail is closer to the pointer than where the stick lands |
| Network.NearestPointFixesNetworkPoints | main.js:104-118 | a pointer on the network is where the stick lands, at distance zero, so no background restore is requested, even when the stick jumped there from elsewhere |
| Network.NearestAppendDuplicate | main.js:105-114 | appending one rail already in the list keeps the chosen index |
| Network.NearestIndexIgnoresDuplicates | main.js:105-114 | appending any rails already in the list keeps the chosen index |
| Network.NearestIgnoresDuplicates | main.js:105-114 | appending rails that are already in the list changes neither the chosen rail nor the landing point |
| Network.NearestExtend | main.js:108-113 | one more step of the scan moves the choice to the next rail only when its gap is strictly smaller |
| Network.ClosestOnNetwork | main.js:104-116 | the loop's closest point is `NearestPoint` and its least distance is the squared distance to it |
| Shuffle.CatalogShape | main.js:78-79 | the catalogue holds 72 symbols and ends with delete-last and commit |
| Shuffle.Swap | main.js:82 | the two positions are exchanged and every other position is unchanged |
| Shuffle.SwapPermutes | main.js:82 | a swap keeps the multiset of symbols |
| Shuffle.Shuffled | main.js:80-83 | the shuffle keeps the length; `ShuffledPermutes` proves it a permutation, and `DrawsFor` with `ShuffledIsInjective` that it matches draws and orderings one to one |
| Shuffle.ShuffleInPlace | main.js:80-83 | the in-place swap loop leaves the array holding `Shuffled` of its old contents |
| Shuffle.PrepareLetters | main.js:77-85 | the result is the 72-symbol catalogue shuffled by the given draws |
| Shuffle.ShuffledPermutes | main.js:80-83 | for any valid draws, the shuffle is a permutation of its input |
| Shuffle.PreparedLettersAreCatalogOrder | main.js:77-85 | what `prepareLetters` returns holds every catalogue symbol exactly as often as the catalogue does |
| Shuffle.DrawsFor | main.js:80-83 | every rearrangement of the input is the shuffle for some valid draws |
| Shuffle.ShuffledIsInjective | main.js:80-83 | on distinct symbols, equal shuffles come from equal draws |
| Grid.TrunkShape | main.js:204-209 | the trunk is three well-formed horizontal tracks from x = 40 to x = 960 at heights 90, 270 and 450, and a vertical track at x = 500 that crosses each of them |
| Grid.Anchor | main.js:215-219 | a letter sits between x = 40 and x = 960, never on the vertical track, and 50 above its shaft's trunk height on an even row and 50 below it on an odd row |
| Grid.Stem | main.js:57 | the stem is a well-formed vertical rail of length 50 through the letter, whose far end is at its shaft's trunk height |
| Grid.LetterOnStem | main.js:212-221 | the layout has 72 letters; letter `i` carries the `i`-th shuffled symbol and sits on the stem pushed with it |
| Grid.AnchorBounds | main.js:215-219 | letter centres lie between x = 40 and x = 960, never at the vertical trunk's x = 500, and on six rows |
| Grid.RowsApart | main.js:215-219 | letters on different rows are at least 80 apart in y |
| Grid.ColumnsApart | main.js:215-219 | letters in different columns are at least 80 apart in x |
| Grid.AnchorsSeparated | main.js:215-219 | two different cells are at least 80 apart on some axis |
| Grid.AnchorsApart | main.js:215-219 | two different letters are at least 80 apart |
| Grid.StemMeetsTrunk | main.js:53-58 | each stem is a well-formed vertical rail of length 50 through its letter, and its far end lies on the trunk rail of its shaft |
| Grid.FirstWithinFindsFirst | main.js:149-155 | the release scan selects the first letter closer than 10 to the stick |
| Grid.FirstWithin | main.js:149-155 | the selection is empty exactly when no letter is closer than 10; otherwise it is the symbol of a letter within reach with none within reach before it |
| Grid.AtMostOneWithin | main.js:150 | no point is closer than 10 to two different letter positions |
| Grid.LayoutSelects | main.js:145-156 | on the grid, releasing within reach of letter `i` selects the symbol of cell `i` |
| Buffer.Apply | main.js:165-177 | only commit surfaces text, and it surfaces the whole buffer, empties it and shows the placeholder; only an empty selection leaves buffer and display alone; delete-last shortens the buffer to a prefix one shorter, or keeps it empty; any other symbol is appended; otherwise the display shows the new buffer |
| Buffer.EmptySelectionIsInert | main.js:165-166 | an empty selection changes neither the buffer nor the display |
| Buffer.BackspaceDropsLast | main.js:167-168 | delete-last removes the final symbol and leaves an empty buffer empty |
| Buffer.BackspaceUndoesTyping | main.js:167-177 | delete-last after typing an ordinary symbol restores the buffer and displays it |
| Buffer.EnterEmitsAndClears | main.js:169-173 | commit surfaces the whole buffer, empties it and shows the placeholder |
| Buffer.TypingAppends | main.js:174-177 | typing ordinary symbols appends exactly those symbols |
| Buffer.TypeThenCommit | main.js:169-177 | typing a word into an empty buffer and then committing surfaces that word |
| Buffer.EmptyRoundsKeepBuffer | main.js:165-166 | any number of rounds with nothing selected keep the buffer |
| Buffer.TypingSession | main.js:159-178 | typing "h", "i", deleting and committing surfaces "h" |
| Board.Session.constructor | main.js:204-227 | start-up builds trunk then stems, lays out the first shuffle, selects the first letter, empties the buffer and puts the stick at (40, 40), on a rail |
| Board.Session.ReassignLetters | main.js:212-221 | the letters become the layout of the shuffled symbols, and one copy of the 72 stems is appended to the rails |
| Board.Session.MoveToClosestPoint | main.js:104-120 | the stick moves to `NearestPoint` of the pointer and stays on a rail; a background restore is requested exactly when the stick does not end up at the pointer, whether or not it moved |
| Board.Session.MouseDown | main.js:128-134 | a press closer than 20 to the stick starts a drag and moves the stick; any other press changes nothing; a press on the stick itself never moves it |
| Board.Session.MouseMove | main.js:136-143 | only while dragging and closer than 25 to the stick does the stick move, to `NearestPoint` |
| Board.Session.MouseUp | main.js:145-156 | the drag ends; the selection is the first letter within reach, empty exactly when none is, and the symbol of the one cell within reach when there is one |
| Board.Session.TypeSelected | main.js:159-178 | the letters are a fresh shuffle laid out again; the stems are appended once more without changing where any pointer lands; the buffer, the surfaced text and the display follow `Buffer.Apply`; the selection and stick are kept |
| Board.ConsistentAfterReassign | main.js:212-221 | a layout pass over any 72 symbols leaves the rails well formed, starting with the trunk and holding every stem |
| Board.DragOntoRailSkipsRestore | main.js:136-143 | a drag from the start position (40, 40) to (40, 50) is within reach, and the stick jumps to that rail point with no background restore requested |
| Board.StemsAreWellFormed | main.js:53-58 | all 72 stems are well formed |
| Board.WellFormedAfterStems | main.js:57 | appending the stems keeps the rail list well formed and makes it hold every stem |

## Left out

- Drawing is not modelled: the canvas, `drawBackground`, `drawLetters`,
  the saved background image, colours and fonts. The redraw in
  `moveToClosestPoint` is reduced to a boolean saying whether the
  background would be restored.
- The DOM is not modelled: the `alert` and the `innerHTML` update become
  the `emitted` and `display` results of `TypeSelected`. Event wiring is
  left out too.
- Coordinates are integers. Fractional pointer offsets are not modelled,
  and neither are floating-point square roots or rounding in the
  distance tests.
- `Math.random` is replaced by caller-supplied draws. That the shuffle is
  uniformly random is statistical and not stated. What is proved is its
  deterministic core: draws and orderings correspond one to one.
- Shuffle.ShuffledIsInjective: stated for any sequence of distinct
  symbols. That the 72 catalogue symbols are distinct is not proved.
- Board.Session.MoveToClosestPoint: requires a non-empty rail list (the
  class invariant keeps the trunk). The `Infinity` result of `main.js` for an
  empty list therefore never arises.
- Board.Session.Valid: does not include that `shuffled` is an ordering
  of the catalogue. Each reshuffle establishes it separately, through
  `Shuffle.PreparedLettersAreCatalogOrder`.
- `Letter.prototype.radius`, `Stick.prototype.draw` and
  `Segment.prototype.drawOuter`/`drawInner` affect only drawing and are
  not modelled.
