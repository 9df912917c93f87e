# wallgame core, modelled in Dafny

wallgame is a camera-driven wall game. A webcam watches a wall and the
pictures go through a pixel pipeline:

- YUYV frames are decoded to RGB24;
- RGB24 is converted to grayscale;
- the image is thresholded, smoothed and hysteresis-thresholded;
- a circle accumulator is turned back into a picture.

The tracked ball position is fed into a collision detector. The detector
reports a hit when the ball turns around in front of the wall. The hits
travel to a Java test front end, which splits each chunk of text into
coordinate pairs and appends one Hit per pair. Around the pipeline sit:

- the camera driver state machine and its format selector;
- the plugin's state table;
- the support libraries: an intrusive doubly linked list with its
  iterator, shell sorts, a console tokenizer, a key=value configuration
  store, and the game configuration access layer with its INI field
  iterator.

This project models that core, one Dafny module per source file:

| module | source |
|---|---|
| `CTypes` | the C integer types (`wg_uint` is 32 bits, wrap-around written out as `Wrap32`), `Status`, `Option` |
| `TestGame` | src/game/TestGame.java: `Hit` and the chunk reader loop of `run()` |
| `CollisionDetect` | src/webcam/collision_detect.c |
| `LinkedList` | src/common/wg_linked_list.c and src/common/wg_iterator.c |
| `Sort` | src/common/wg_sort.c |
| `ConsoleParser` | src/gameplay/gpm_console_parser.c |
| `Image` | src/image/img.c and the accessors and iterator of src/include/img.h |
| `ImageGs` | src/image/img_gs.c |
| `EfEngine` | the integer filters of src/webcam/ef_engine.c |
| `Yuyv` | src/webcam/img_yuyv.c |
| `Bgrx` | src/webcam/include/img_bgrx.h |
| `CamTypes`, `FormatSelector`, `Camera` | src/cam/cam_format_selector.c and src/webcam/cam.c |
| `Plugin` | `go_to_state` of src/webcam/wg_plugin.c |
| `WgConfig` | src/webcam/wg_config.c |
| `CmAccess` | src/config/cm_access.c |
| `GpmIni` | src/gameplay/gpm_ini.c |
| `GuiPrim` | src/webcam/gui_prim.c |
| `Vid` | `get_pow_2` and `get_ceil_even` of src/webcam/vid.c |

The model follows the source's own form:

- Objects whose fields the C code updates in place are classes with
  `modifies` clauses: the detector, the list and its iterator, images,
  the image iterator, the accumulator, the camera, frames, the
  configuration store, the INI field iterator and rectangles.
- Pixel loops, searches and sorts are methods with loops.
- Each of those methods is proved against a specification function of
  the old state, such as `Thresholded`, `Bins`, `MaxMin`, `Crop`,
  `Groups` or `SmoothRows`. The properties the source promises are then
  proved about those functions as lemmas.

The model is of the debugging build. In that build the range checks
(`CHECK_FOR_RANGE_*`) return `WG_FAILURE`, and `CHECK_FOR_NULL_PARAM`
expands to nothing. Pointers are never NULL in the model. When an
allocation or a driver call can fail, its outcome is a parameter of the
operation:

- `rowsOk`/`dataOk` stand for the two `calloc`s of `img_fill`;
- `allocOk` stands for the `calloc` of `allocate_token` in the console
  parser;
- a `Device` record stands for the V4L2 driver;
- `setFormat` stands for `VIDIOC_S_FMT`;
- `readResult`/`emptyResult` stand for the camera callbacks;
- `draw` stands for the colour factory.

Where the source and its description disagree, the model follows the
source:

- `TestGame.HitList.Run`: `run()` appends the Hits of the pairs before a
  non-numeric token. The `NumberFormatException` then ends the reader
  thread, because it is not an `IOException`. So a bad chunk both
  appends partially and stops the reader. It is not all-or-nothing.
- When `split` receives a chunk that starts with whitespace, it yields a
  leading empty token, and `Integer.valueOf("")` throws. The model keeps
  this (`TestGame.LeadingBlankEndsReader`).

A few observations, which are not defects the model corrects:

- `Yuyv`:
  - the coefficient 516 (`RED_D`) is applied to byte 3 of the group,
    which the source calls U;
  - the coefficient 409 (`BLUE_E`) is applied to byte 1, which the
    source calls V;
  - the model keeps the bytes as the source uses them.
- `ImageGs.Gray` of white is 254. The three 16-bit weights sum to 65533.
- `Camera.Open`:
  - `cam_open` never stores the mode it opened with;
  - when decompressor selection fails after a successful open, it returns
    the failure, with the state left at STOP and the descriptor -1.
- `Camera.Close`: `cam_close` does not reset the descriptor to -1.
- `WgConfig.Lookup`: `get_value` also matches a key that is only a prefix
  of a stored line's key.

## Model

| member | source | states |
|---|---|---|
| `CTypes.Wrap32` | src/image/img.c:63 | a 32-bit unsigned result: it is the value itself when it fits and is congruent to it modulo 2^32 otherwise |
| `TestGame.HitOfPoint` | src/game/TestGame.java:48-51 | `Hit(Point p, Color c)` keeps exactly p's coordinates and the colour |
| `TestGame.HitXYColor` | src/game/TestGame.java:44-46 | `Hit(x, y, color)` keeps exactly x, y and the colour |
| `TestGame.HitOfPointBlue` | src/game/TestGame.java:40-42 | `Hit(Point p)` keeps p's coordinates and is blue |
| `TestGame.HitXY` | src/game/TestGame.java:35-38 | `Hit(x, y)` keeps x and y and is blue |
| `TestGame.HitDefault` | src/game/TestGame.java:31-33 | `Hit()` is the blue hit at (0, 0) |
| `TestGame.Split` | src/game/TestGame.java:151 | Java's `String.split("\\s+")` never ends in an empty field, except that splitting the empty string gives the one empty field |
| `TestGame.DropSpaces` | src/game/TestGame.java:151 | skipping a whitespace run leaves a suffix that does not start with whitespace, and it is strictly shorter when the text started with whitespace |
| `TestGame.Fields` | src/game/TestGame.java:151 | splitting on whitespace runs always yields at least one field (Java's `split` before trailing empties are removed) |
| `TestGame.StripTrailingEmpty` | src/game/TestGame.java:151 | dropping trailing empty strings keeps a prefix whose last element is not empty |
| `TestGame.FieldsNoSpace` | src/game/TestGame.java:151 | no field contains whitespace, and only the first and last fields can be empty |
| `TestGame.FieldsHeadStart` | src/game/TestGame.java:151 | text that does not start with whitespace has a non-empty first field |
| `TestGame.SplitTokens` | src/game/TestGame.java:151 | the tokens of `split("\\s+")` contain no whitespace, and every token but the first is non-empty |
| `TestGame.FieldsOfWordThenRest` | src/game/TestGame.java:151 | a word without whitespace followed by more text is glued onto the first field of the rest |
| `TestGame.FieldsOfWord` | src/game/TestGame.java:151 | a single word splits into itself |
| `TestGame.FieldsOfJoin` | src/game/TestGame.java:151 | splitting words joined by single spaces gives the words back |
| `TestGame.SplitJoin` | src/game/TestGame.java:151 | round trip: `split` of space-joined non-empty words yields exactly those words |
| `TestGame.ParseInt` | src/game/TestGame.java:156-158 | `Integer.valueOf` in 32 bits: a token it accepts is non-empty and does not start with whitespace |
| `TestGame.NatToString` | src/game/TestGame.java:156-158 | the decimal text of a natural number is a non-empty run of digits |
| `TestGame.NatToStringValue` | src/game/TestGame.java:156-158 | the decimal text of n has digit value n |
| `TestGame.ParseNatString` | src/game/TestGame.java:156-158 | `Integer.valueOf` of the decimal text of n, for n up to 2^31-1, gives n |
| `TestGame.ParseNegString` | src/game/TestGame.java:156-158 | `Integer.valueOf` of "-" followed by the decimal text of n, for n up to 2^31, gives -n |
| `TestGame.ParseIntToString` | src/game/TestGame.java:156-158 | round trip: parsing the text of any int gives it back, and that text is one non-empty token |
| `TestGame.ParsePairs` | src/game/TestGame.java:152-160 | the pair loop appends at most n/2 Hits, and exactly n/2 when it runs to the end |
| `TestGame.PairsFromStep` | src/game/TestGame.java:154-160 | one iteration: two numeric tokens append Hit(x, y, colour), and otherwise the loop stops there |
| `TestGame.PairsFromEnd` | src/game/TestGame.java:154 | the loop ends cleanly when fewer than two tokens remain |
| `TestGame.AllNumericPairs` | src/game/TestGame.java:152-160 | an all-numeric chunk of n tokens appends exactly n/2 Hits, and Hit k is (tok[2k], tok[2k+1]) with the k-th colour |
| `TestGame.PartialAppend` | src/game/TestGame.java:154-160 | when pair m holds the first non-numeric token, the m earlier Hits stay appended and the reader stops |
| `TestGame.OddTokenDropped` | src/game/TestGame.java:152 | only the first (n/2)*2 tokens matter, so a trailing odd token is ignored |
| `TestGame.PointTokens` | src/game/TestGame.java:151-158 | encoding points gives 2 tokens per point, namely the decimal x and y |
| `TestGame.EncodedChunkRoundTrip` | src/game/TestGame.java:151-160 | a chunk of space-separated coordinates yields one Hit per point with the same coordinates, in order |
| `TestGame.LeadingBlankEndsReader` | src/game/TestGame.java:151-156 | a chunk starting with whitespace has an empty first token, so it appends nothing and stops the reader |
| `TestGame.Draws` | src/game/TestGame.java:160 | the colours of one chunk are the next n draws of the colour factory, in order |
| `TestGame.RunHitsAt` | src/game/TestGame.java:143-163 | the hits the reader appends from chunk i on are those of chunk i, followed by the later chunks' only when chunk i was read to its end |
| `TestGame.Owed` | src/game/TestGame.java:143-163 | the remaining appends split into this chunk's and the later chunks' |
| `TestGame.HitList.constructor` | src/game/TestGame.java:128 | the hit list starts empty |
| `TestGame.HitList.ReadChunk` | src/game/TestGame.java:151-160 | one chunk appends exactly the Hits of its pairs to the end of the list and reports whether the reader survives |
| `TestGame.HitList.ReadTokens` | src/game/TestGame.java:152-160 | the token loop only appends, and it appends the parsed pairs in token order |
| `TestGame.PairsColors` | src/game/TestGame.java:160 | the i-th hit made from a token list carries the i-th colour drawn |
| `TestGame.ChunkStep` | src/game/TestGame.java:151-160 | one chunk gives at most one hit per two tokens, and the i-th hit carries the i-th colour drawn for that chunk |
| `TestGame.RunHits` | src/game/TestGame.java:143-166 | over a run of chunks, successive hits carry successive draws of the random colour source, starting from the given draw count |
| `TestGame.PairsRandomColors` | src/game/TestGame.java:160 | every hit of a chunk takes one of the colours drawn for it |
| `TestGame.RunHitsRandomColors` | src/game/TestGame.java:195-205 | when the colours are those `ColorFactory.getRandom()` returns, every hit of the run is opaque with each channel below 255 |
| `TestGame.HitList.Run` | src/game/TestGame.java:137-170 | `run()` only appends to the hit list, never removes or reorders, and appends the Hits of the chunks in arrival order until a bad chunk stops it |
| `CollisionDetect.IsValidPointIff` | src/webcam/collision_detect.c:131-134 | a point is valid iff both coordinates differ from -1 |
| `CollisionDetect.Next` | src/webcam/collision_detect.c:91-92 | advancing the position index stays inside the ring of `CD_POSITION_NUM` slots |
| `CollisionDetect.Slot` | src/webcam/collision_detect.c:153-157 | the m-th slot after a start slot, modulo the ring size |
| `CollisionDetect.StartIndex` | src/webcam/collision_detect.c:149-151 | the oldest slot of the pipeline window, from which `CD_PIPELINE_SIZE` steps reach the current index |
| `CollisionDetect.StartIndexAsWritten` | src/webcam/collision_detect.c:149-151 | as written, the start index lies in the position buffer exactly when the index is at least the pipeline size, and then it equals the corrected start index |
| `CollisionDetect.StartIndexAsWrittenOutOfRange` | src/webcam/collision_detect.c:149-151 | as written, a negative start is mapped to `CD_POSITION_NUM - i`, which lies outside the ring |
| `CollisionDetect.HitIndex` | src/webcam/collision_detect.c:163-164 | the hit slot `HIT_COUNT_NUM` steps back from i, inside the ring |
| `CollisionDetect.HitIndexAsWritten` | src/webcam/collision_detect.c:163-164 | as written, the `wg_uint` difference equals the corrected hit index when i ≥ `HIT_COUNT_NUM`, and wraps to a value past the position buffer when i is smaller |
| `CollisionDetect.HitIndexAsWrittenOutOfRange` | src/webcam/collision_detect.c:163-164 | as written, `i -= HIT_COUNT_NUM` takes the signed `wg_int` index below 0 at ring index 0 or 1, C's truncating `%` keeps it negative, and the store into the `wg_uint` `*index` wraps it to a value outside the ring |
| `CollisionDetect.Window` | src/webcam/collision_detect.c:149-158 | corrected (the collision_detect.c:151 finding): the x coordinates `is_hit_detected` reads are the last `CD_PIPELINE_SIZE` positions of the ring, oldest first, starting at `CD_POSITION_NUM + i` where the code writes `CD_POSITION_NUM - i` |
| `CollisionDetect.Reversal` | src/webcam/collision_detect.c:153-176 | the sign-change counting loop reports a hit only at window offset 1 or 2 |
| `CollisionDetect.ReversalIsTurn` | src/webcam/collision_detect.c:153-176 | a hit is reported at offset j exactly when the motion keeps its first direction up to j and then reverses twice in a row |
| `CollisionDetect.MonotoneNoReversal` | src/webcam/collision_detect.c:158-176 | motion that keeps one direction is never a hit |
| `CollisionDetect.Add` | src/webcam/collision_detect.c:77-128 | one step of the state machine keeps the index inside the ring, and an invalid point outside START keeps the stored positions and the index (in HIT_RECORDED it moves the state to STOP). The list of reported hits only grows, by at most one |
| `CollisionDetect.AddAll` | src/webcam/collision_detect.c:77-128 | feeding a sequence of points keeps the detector well formed |
| `CollisionDetect.FiveValidPointsStart` | src/webcam/collision_detect.c:86-101 | from INIT or STOP, `CD_PIPELINE_SIZE` valid points fill the pipeline in order and reach START |
| `CollisionDetect.InvalidPointEffect` | src/webcam/collision_detect.c:85-122 | an invalid point: INIT, STOP and FILL_PIPELINE do not change; START goes to STOP with index 0; HIT_RECORDED goes to STOP |
| `CollisionDetect.ValidPointEffect` | src/webcam/collision_detect.c:86-122 | a valid point in INIT or STOP enters FILL_PIPELINE with index 1 and the point in slot 0; in HIT_RECORDED nothing changes |
| `CollisionDetect.StartStep` | src/webcam/collision_detect.c:104-113 | in START a valid point is stored at the index, the index advances, and the state becomes HIT_RECORDED exactly when a reversal is detected, the reported hit being the position at the hit slot |
| `CollisionDetect.HitRecordedReportsOnce` | src/webcam/collision_detect.c:118-122 | in HIT_RECORDED valid points change nothing, so a hit is reported once |
| `CollisionDetect.Detector.constructor` | src/webcam/collision_detect.c:32-45 | a fresh instance with an allocated ring and no callback |
| `CollisionDetect.Detector.DefinePane` | src/webcam/collision_detect.c:32-45 | `cd_define_pane` stores the pane and sets state INIT, no callback and index 0 |
| `CollisionDetect.Detector.ResetPane` | src/webcam/collision_detect.c:48-56 | `cd_reset_pane` sets index 0 and state STOP and keeps the rest |
| `CollisionDetect.Detector.SetHitCallback` | src/webcam/collision_detect.c:67-74 | the callback is installed; nothing else changes |
| `CollisionDetect.Detector.IsHitDetected` | src/webcam/collision_detect.c:137-179 | the loop finds a hit iff the window reverses; corrected (the collision_detect.c:151 and 163-164 findings): the window starts at the corrected `StartIndex` and the hit slot is `HIT_COUNT_NUM` before the point of detection modulo the ring, where as written the index can go negative |
| `CollisionDetect.Detector.AddPosition` | src/webcam/collision_detect.c:77-128 | `cd_add_position` performs exactly one step of the state machine on the ring and always returns success; corrected: the step uses the corrected window start and hit slot of the collision_detect.c:151 and 163-164 findings |
| `CollisionDetect.HitIndexOfRing` | src/webcam/collision_detect.c:163-164 | the hit slot of window offset k is the slot `HIT_COUNT_NUM` before it |
| `CollisionDetect.NextSlot` | src/webcam/collision_detect.c:156-157 | stepping the ring index moves one slot further in the window |
| `CollisionDetect.RingReachesIndex` | src/webcam/collision_detect.c:158 | the scan from the window start reaches the current index only after `CD_PIPELINE_SIZE` steps, so the loop ends |
| `LinkedList.Reverse` | src/common/wg_linked_list.c:242-255 | element i of the reversal is element n-1-i |
| `LinkedList.DList.constructor` | src/common/wg_linked_list.c:25-34 | `dlist_init` gives the empty list |
| `LinkedList.DList.Add` | src/common/wg_linked_list.c:64-78 | `dlist_add` inserts right after the head (newest first) and the size grows by one |
| `LinkedList.DList.Remove` | src/common/wg_linked_list.c:43-54 | `dlist_remove` unlinks exactly that node and keeps the others in order, and the size drops by one |
| `LinkedList.DList.IsEmpty` | src/common/wg_linked_list.c:88-95 | empty iff the list has no element |
| `LinkedList.DList.Size` | src/common/wg_linked_list.c:104-114 | the counting loop returns the number of elements |
| `LinkedList.DList.Get` | src/common/wg_linked_list.c:184-195 | `dlist_get(n)` is the n-th element counted from the newest, and NULL when n is at least the size |
| `LinkedList.DList.GetLast` | src/common/wg_linked_list.c:205-212 | the newest element, or NULL when empty |
| `LinkedList.DList.GetFirst` | src/common/wg_linked_list.c:222-229 | the oldest element, or NULL when empty |
| `LinkedList.DList.PopFirst` | src/common/wg_linked_list.c:266-276 | removes and returns the oldest element, or returns NULL and keeps the list when empty |
| `LinkedList.DList.ToArray` | src/common/wg_linked_list.c:242-255 | writes all elements oldest first at the start of the array, returns the size, and writes nothing past them |
| `LinkedList.ListIterator.constructor` | src/common/wg_iterator.c:25-35 | `iterator_list_init` starts at both ends of the list |
| `LinkedList.ListIterator.Next` | src/common/wg_iterator.c:67-79 | yields the element at the old end and moves toward the newest, returning NULL once `is_last` holds |
| `LinkedList.ListIterator.Prev` | src/common/wg_iterator.c:45-57 | yields the element at the new end and moves toward the oldest, returning NULL once `is_first` holds |
| `LinkedList.AddAllIsReverse` | src/common/wg_linked_list.c:64-78 | adding elements one by one leaves them newest first in front of the old list |
| `LinkedList.PopAllOfReverse` | src/common/wg_linked_list.c:266-276 | popping the oldest repeatedly from a reversed sequence gives the original order |
| `LinkedList.FifoOrder` | src/common/wg_linked_list.c:64-78 | `dlist_add` followed by `dlist_pop_first` is first-in first-out |
| `LinkedList.LifoTop` | src/common/wg_linked_list.c:205-212 | on a `DList`, `dlist_add` followed by `dlist_get_last` returns the added element, and the rest of the list is the old list |
| `LinkedList.LifoLast` | src/common/wg_linked_list.c:205-212 | after any run of adds, `get_last` is the element added last |
| `Sort.OneSortedIsSorted` | src/common/wg_sort.c:112-117 | a gap-1 sorted prefix is sorted, and the last gap of both sorts is 1 |
| `Sort.SwapKeepsMultiset` | src/common/wg_sort.c:119-128 | moving an element during insertion keeps the multiset |
| `Sort.HoleStart` | src/common/wg_sort.c:120-121 | taking `data[i]` out opens a hole at i over a gap-sorted prefix |
| `Sort.HoleStep` | src/common/wg_sort.c:122-125 | shifting a larger gapped element up moves the hole down by the gap |
| `Sort.HoleClose` | src/common/wg_sort.c:126 | dropping the element into the hole extends the gap-sorted prefix by one |
| `Sort.ShiftDown` | src/common/wg_sort.c:122-125 | the inner loop stops at the element's place and only moves elements |
| `Sort.InsertGapped` | src/common/wg_sort.c:119-127 | one gapped insertion extends the gap-sorted prefix and permutes the array |
| `Sort.GapPass` | src/common/wg_sort.c:119-128 | one pass makes `data[0..num)` sorted for the gap, permutes the elements and leaves the rest alone |
| `Sort.SortUint` | src/common/wg_sort.c:104-132 | `wg_sort_uint_` leaves `data[0..num)` ascending and a permutation of the old contents, and the array unchanged when num ≤ 1 |
| `Sort.SortDouble` | src/common/wg_sort.c:11-36 | `wg_sort_double` with gaps num/2, num/4, …, 1 leaves the prefix ascending and permuted, and the array unchanged when num ≤ 1 |
| `Sort.UnchangedTailKeepsPrefix` | src/common/wg_sort.c:104-132 | a permutation that leaves the tail alone permutes the prefix |
| `ConsoleParser.SpanEnd` | src/gameplay/gpm_console_parser.c:112-146 | a scope scans the longest run of its character class |
| `ConsoleParser.StringEnd` | src/gameplay/gpm_console_parser.c:60-88 | a string ends at the first '"' that is not preceded by '\\', and every earlier '"' was escaped |
| `ConsoleParser.TokenText` | src/gameplay/gpm_console_parser.c:243-245 | token text is truncated to `MAX_TOKEN_SIZE` |
| `ConsoleParser.FillToken` | src/gameplay/gpm_console_parser.c:210-248 | `fill_token` keeps the kind, start and end |
| `ConsoleParser.Step` | src/gameplay/gpm_console_parser.c:44-192 | one scope of the parse loop advances, and only the end scope yields `TOK_END` |
| `ConsoleParser.IntRound` | src/gameplay/gpm_console_parser.c:112-127 | a digit run becomes one `TOK_INT` token whose value is `atoi` of the run |
| `ConsoleParser.IdentifierRound` | src/gameplay/gpm_console_parser.c:130-146 | an identifier starts with a letter or '_' and runs over letters, digits and '_' |
| `ConsoleParser.StringRound` | src/gameplay/gpm_console_parser.c:60-88 | a terminated string becomes a `TOK_STRING` token of the text between the quotes |
| `ConsoleParser.BlankRound` | src/gameplay/gpm_console_parser.c:163-169 | blanks are skipped |
| `ConsoleParser.UnknownRound` | src/gameplay/gpm_console_parser.c:149-162 | any other character is one single-character `TOK_UNKNOWN` |
| `ConsoleParser.EndRound` | src/gameplay/gpm_console_parser.c:170-183 | the end of input is one `TOK_END` token |
| `ConsoleParser.StepShape` | src/gameplay/gpm_console_parser.c:91-104 | the dispatcher picks the scope by the first character, and every emitted token is well formed and lies before the next position |
| `ConsoleParser.Tokenize` | src/gameplay/gpm_console_parser.c:44-192 | the tokenizer loop from position p yields at most one token per remaining character plus the end token, and a successful run yields at least one token |
| `ConsoleParser.TokenizeShape` | src/gameplay/gpm_console_parser.c:44-192 | all tokens are well formed, in text order, after the start |
| `ConsoleParser.ParseShape` | src/gameplay/gpm_console_parser.c:32-41 | `gpm_console_parse` yields well formed tokens in text order |
| `ConsoleParser.EndTokenOnce` | src/gameplay/gpm_console_parser.c:170-183 | a successful parse ends with exactly one `TOK_END`, and `TOK_END` appears nowhere else |
| `ConsoleParser.FailureIsUnterminatedString` | src/gameplay/gpm_console_parser.c:83-84 | the parse fails only on an unterminated string |
| `ConsoleParser.NoQuoteParses` | src/gameplay/gpm_console_parser.c:60-88 | text without '"' always parses |
| `ConsoleParser.BlanksOnly` | src/gameplay/gpm_console_parser.c:163-183 | blank text gives exactly the `TOK_END` token |
| `ConsoleParser.ScanSpan` | src/gameplay/gpm_console_parser.c:112-146 | the scanning loop stops where the run of its class ends |
| `ConsoleParser.ScanString` | src/gameplay/gpm_console_parser.c:60-88 | the string loop finds the closing quote, or reports none |
| `ConsoleParser.ParseScope` | src/gameplay/gpm_console_parser.c:44-192 | one pass of the parse loop does what one scope prescribes |
| `ConsoleParser.TokenizeUnfold` | src/gameplay/gpm_console_parser.c:44-192 | the tokens of the text are the current scope's token followed by those of the rest |
| `ConsoleParser.FirstFailedAlloc` | src/gameplay/gpm_console_parser.c:259-273 | the first token whose `allocate_token` calloc fails, all earlier ones having succeeded |
| `ConsoleParser.Parse` | src/gameplay/gpm_console_parser.c:32-192 | the parse returns the tokens in text order up to the first failed token allocation, and succeeds iff every allocation succeeds and no string is unterminated |
| `Bgrx.Shl32` | src/webcam/include/img_bgrx.h:10-14 | a 32-bit left shift; a shift by 0 keeps the value |
| `Bgrx.RgbToBgrx` | src/webcam/include/img_bgrx.h:10-14 | `RGB_2_BGRX` packs r<<16 \| g<<8 \| b into 24 bits |
| `Bgrx.BgrxB` | src/webcam/include/img_bgrx.h:15-17 | `BGRX_B` is the low byte |
| `Bgrx.BgrxG` | src/webcam/include/img_bgrx.h:18-20 | `BGRX_G` is the second byte |
| `Bgrx.BgrxR` | src/webcam/include/img_bgrx.h:21-23 | `BGRX_R` is the third byte |
| `Bgrx.RoundTrip` | src/webcam/include/img_bgrx.h:10-23 | extracting from a packed value returns r, g and b |
| `Bgrx.TopByteZero` | src/webcam/include/img_bgrx.h:10-14 | the top byte of a packed value is zero |
| `Bgrx.UnpackPack` | src/webcam/include/img_bgrx.h:10-23 | packing the extracted bytes of a 24-bit value gives it back |
| `Image.RowStarts` | src/image/img.c:73-77 | one row start per row |
| `Image.FillStatus` | src/image/img.c:57-70 | `img_fill` succeeds iff both allocations succeed |
| `Image.FillStatusAsWritten` | src/image/img.c:57-70 | as written, `img_fill`'s status depends only on the row-pointer allocation: it is what the corrected status gives when the data allocation succeeds, whatever the data allocation did |
| `Image.FillAsWrittenIgnoresDataAllocation` | src/image/img.c:66-70 | as written, a failed pixel allocation is not noticed, because line 67 tests `row_array` again |
| `Image.SubimageCheck` | src/image/img.c:138-140 | the range check passes iff x + width ≤ source width and y + height ≤ source height |
| `Image.SubimageCheckAsWritten` | src/image/img.c:138-140 | as written, a passing check implies width ≤ source width, and implies that the region lies inside the source only when x+width and y+height do not wrap in `wg_uint` |
| `Image.SubimageCheckAsWrittenWraps` | src/image/img.c:138-140 | as written, the 32-bit sum x + width wraps and admits x = 2^32-1 |
| `Image.SubimageChecksAgree` | src/image/img.c:138-140 | without wrap-around the written and the intended checks agree |
| `Image.SubimageArith` | src/image/img.c:128-152 | the row sizes of a fitting subimage are exact products and the copied band lies inside the source block |
| `Image.Crop` | src/image/img.c:142-149 | the bytes of an h-row crop number h times the row bytes |
| `Image.CropStep` | src/image/img.c:142-149 | a crop of i+1 rows is the crop of i rows followed by source row y+i |
| `Image.CropAt` | src/image/img.c:142-149 | byte (r, c) of the crop is byte c of source row y+r at offset x |
| `Image.CropWhole` | src/image/img.c:164-173 | cropping all rows at offset 0 with full rows is the whole block |
| `Image.FastMemcpy` | src/image/img.c:268-272 | the copy writes exactly n source bytes at the offset and keeps the rest |
| `Image.CopyRect` | src/image/img.c:142-149 | the row copy loop makes the destination block the crop of the source |
| `Image.Image.constructor` | src/image/img.c:102-112 | a descriptor with nothing in it |
| `Image.Image.Fill` | src/image/img.c:45-91 | on success row_size = width·comp_num, `row_distance` = row_size, size = height·row_size, row i starts at i·row_size, all pixels are zero and the type is stored; corrected (the img.c:67 finding): a failed pixel allocation is reported as failure and nothing changes, where as written it returns success with `image` NULL |
| `Image.Image.Cleanup` | src/image/img.c:102-112 | `img_cleanup` zeroes the whole descriptor |
| `Image.Image.GetRow` | src/include/img.h:99-107 | `img_get_row` rejects a row past the height and otherwise gives row·row_distance, inside the block |
| `Image.Image.GetPixel` | src/include/img.h:120-131 | `img_get_pixel` rejects an out-of-range row or column and otherwise gives rows[row] + col·components, inside the block |
| `Image.Image.PixelInBlock` | src/include/img.h:128 | a pixel address plus its components lies inside the block |
| `Image.Image.GetData` | src/include/img.h:272-283 | `img_get_data` gives the block, num = width·height reduced modulo 2^32 as the `wg_uint` product (exactly width·height when that fits), and size = components per pixel |
| `Image.Image.GetSubimage` | src/image/img.c:128-152 | row r of the destination is `[x·comp, (x+w)·comp)` of source row y+r; corrected (the img.c:139-140 finding): it fails without writing when the window does not fit, where as written a wrapping `x + width` such as x = 2^32-1 passes the check |
| `Image.Image.SubimageFits` | src/image/img.c:128-152 | a window that passes the check lies in the source block |
| `Image.Image.Copy` | src/image/img.c:164-173 | `img_copy` gives equal dimensions, type and pixel bytes |
| `Image.IterInit` | src/include/img.h:180-196 | `img_get_iterator` starts before the first row |
| `Image.NextRow` | src/include/img.h:222-235 | `next_row` resets the column index and gives the next row iff `has_next_row` held |
| `Image.NextCol` | src/include/img.h:261-269 | `next_col` gives a column iff `has_next_col` held and advances the column index |
| `Image.NextCols` | src/include/img.h:261-269 | n calls of `next_col` give n results |
| `Image.NextRows` | src/include/img.h:222-235 | n calls of `next_row` give n results |
| `Image.ColumnScan` | src/include/img.h:246-269 | successive `next_col` calls give the column addresses `comp_per_pixel` apart and NULL after width calls |
| `Image.RowScan` | src/include/img.h:207-235 | successive `next_row` calls give the row starts in order and NULL past the last row |
| `Image.ImgIterator.constructor` | src/include/img.h:180-196 | the iterator object starts in the initial iterator state |
| `Image.ImgIterator.NextRowStep` | src/include/img.h:222-235 | the method performs `next_row` on the object |
| `Image.ImgIterator.NextColStep` | src/include/img.h:261-269 | the method performs `next_col` on the object |
| `ImageGs.GsShapeBlock` | src/image/img_gs.c:57-58 | a grayscale image is one contiguous block of width·height bytes |
| `ImageGs.Gray` | src/image/img_gs.c:72-76 | (C1·r + C2·g + C3·b) >> 16 fits in 32 bits and in a byte |
| `ImageGs.GrayOfGrey` | src/image/img_gs.c:72-76 | the gray of (v, v, v) is v-1 for v > 0, because the weights sum to 65533 |
| `ImageGs.GsOfRgb` | src/image/img_gs.c:63-78 | one gray byte per RGB pixel |
| `ImageGs.GrayRows` | src/image/img_gs.c:63-78 | the row loops write the gray of every pixel in order |
| `ImageGs.Rgb2Grayscale` | src/image/img_gs.c:35-81 | non-RGB input is rejected; the result keeps width and height and holds the gray of every pixel |
| `ImageGs.Count` | src/image/img_gs.c:120-125 | the number of pixels equal to v |
| `ImageGs.Bins` | src/image/img_gs.c:107-125 | 256 bins |
| `ImageGs.SumZero` | src/image/img_gs.c:107-109 | cleared bins sum to zero |
| `ImageGs.SumUpdate` | src/image/img_gs.c:123 | incrementing one bin raises the sum by one |
| `ImageGs.SumBound` | src/image/img_gs.c:107-125 | no bin exceeds the total |
| `ImageGs.BinsCount` | src/image/img_gs.c:120-125 | bin v counts the pixels equal to v, modulo 2^32 |
| `ImageGs.BinsSum` | src/image/img_gs.c:107-125 | the bins sum to the number of pixels, width·height |
| `ImageGs.HistogramCheckAsWritten` | src/image/img_gs.c:105 | as written, the size check passes exactly when the histogram has a bin for value 254 (`GS_PIXEL_MAX - 1`), one short of the largest grey value |
| `ImageGs.HistogramCheck` | src/image/img_gs.c:105 | corrected (finding img_gs.c:105): the size check passes exactly when the histogram has a bin for every grey value up to 255 (`GS_PIXEL_MAX`) |
| `ImageGs.HistogramCheckAsWrittenAdmitsMissingBin` | src/image/img_gs.c:105 | as written, a histogram of 255 bins passes the check, so pixel 255 writes past it |
| `ImageGs.HistogramCheckCoversPixels` | src/image/img_gs.c:105 | the corrected check passes iff every pixel value has a bin |
| `ImageGs.BinsNext` | src/image/img_gs.c:123 | counting one more pixel increments its bin |
| `ImageGs.CountPixels` | src/image/img_gs.c:120-125 | the row loops fill the bins of the image |
| `ImageGs.Histogram` | src/image/img_gs.c:93-128 | fails on non-GS input; otherwise clears all bins and bin v counts the pixels equal to v; corrected (the img_gs.c:105 finding): it also fails on a histogram of fewer than 256 bins, where as written 255 bins pass |
| `ImageGs.MaxMin` | src/image/img_gs.c:184-209 | an empty image gives (0, 255) |
| `ImageGs.MaxMinBounds` | src/image/img_gs.c:184-209 | max is at least every pixel and min at most every pixel |
| `ImageGs.MaxMinAttained` | src/image/img_gs.c:184-209 | max and min are pixels of a non-empty image |
| `ImageGs.MaxMinStep` | src/image/img_gs.c:203-204 | one loop step keeps running max and min |
| `ImageGs.ScanMaxMin` | src/image/img_gs.c:200-206 | the row loops compute max and min |
| `ImageGs.GsMaxMin` | src/image/img_gs.c:176-212 | non-GS input fails and leaves the outputs; otherwise it gives max and min |
| `ImageGs.NormAll` | src/image/img_gs.c:161-169 | one output per pixel |
| `ImageGs.Normalized` | src/image/img_gs.c:131-173 | the normalized image has as many pixels |
| `ImageGs.NormalizeRows` | src/image/img_gs.c:161-169 | the row loops rescale every pixel |
| `ImageGs.Normalize` | src/image/img_gs.c:131-173 | non-GS input fails unchanged; otherwise every pixel is rescaled from [min, max] onto [new_min, new_max] |
| `ImageGs.ScaledOffset` | src/image/img_gs.c:164-167 | the scaled offset lies in [0, new range] and maps 0 to 0 and the full range to the full range |
| `ImageGs.FfFloatByte` | src/image/img_gs.c:27-29 | `FF_FLOAT` of a byte is that byte times 256 |
| `ImageGs.NormPixelRange` | src/image/img_gs.c:164-167 | a pixel in [min, max] maps into [new_min, new_max], min to new_min and max to new_max |
| `ImageGs.NormPixelValue` | src/image/img_gs.c:164-167 | the pixel value of the fixed-point rescale |
| `ImageGs.NormAllRange` | src/image/img_gs.c:160-169 | every rescaled pixel lies in [new_min, new_max] |
| `ImageGs.NormalizeRange` | src/image/img_gs.c:131-173 | normalization maps the image into [new_min, new_max], sending its min to new_min and its max to new_max |
| `ImageGs.NormalizedHasRange` | src/image/img_gs.c:155-160 | with max ≠ min the pixels go through the rescale |
| `ImageGs.NormAllAt` | src/image/img_gs.c:161-169 | output i is the rescale of pixel i |
| `ImageGs.NormalizeUniform` | src/image/img_gs.c:160 | an image with max == min is left unchanged |
| `ImageGs.Diff` | src/image/img_gs.c:300-302 | one difference per pixel |
| `ImageGs.DiffRows` | src/image/img_gs.c:297-303 | the row loops replace each pixel of image 1 with \|p1 - p2\| |
| `ImageGs.Sub` | src/image/img_gs.c:276-306 | non-GS input fails unchanged; otherwise image 1 holds \|p1 - p2\| pixel by pixel, in place |
| `ImageGs.SubSameSize` | src/image/img_gs.c:276-306 | for equal sizes the difference is taken pixel by pixel of the two blocks |
| `ImageGs.DrawPixel` | src/image/img_gs.c:246-273 | writes the colour only when 0 ≤ x < width and 0 ≤ y < height, and nothing else |
| `EfEngine.ThresholdPixel` | src/webcam/ef_engine.c:87 | a pixel becomes 255 iff it is at least the threshold, else 0 |
| `EfEngine.Thresholded` | src/webcam/ef_engine.c:83-89 | one output per pixel |
| `EfEngine.ThresholdedBinary` | src/webcam/ef_engine.c:83-89 | every output is 255 or 0, and 255 exactly where the pixel reaches the threshold |
| `EfEngine.ThresholdedIdempotent` | src/webcam/ef_engine.c:83-89 | thresholding twice is thresholding once |
| `EfEngine.ThresholdRows` | src/webcam/ef_engine.c:83-89 | the row loops threshold every pixel in place |
| `EfEngine.Threshold` | src/webcam/ef_engine.c:70-92 | non-GS input fails unchanged; otherwise the image is thresholded |
| `EfEngine.Accumulator.constructor` | src/webcam/ef_engine.c:185-186 | an accumulator of width·height zero votes |
| `EfEngine.MaxVotesIsMax` | src/webcam/ef_engine.c:232-245 | the maximum is at least every vote and is one of them, or 0 when empty |
| `EfEngine.MaxVotesStep` | src/webcam/ef_engine.c:235-239 | one loop step keeps the running maximum |
| `EfEngine.FirstMaxStep` | src/webcam/ef_engine.c:235-239 | a strictly larger vote moves the position; otherwise it stays |
| `EfEngine.FirstMaxWhole` | src/webcam/ef_engine.c:232-245 | the scan ends at the first position of the maximum |
| `EfEngine.ScanAccMax` | src/webcam/ef_engine.c:232-245 | the loops find the maximum vote at its first row-major position, or (0, 0, 0) when all are zero |
| `EfEngine.AccGetMax` | src/webcam/ef_engine.c:205-248 | a non-accumulator fails and leaves the outputs; otherwise the first maximum |
| `EfEngine.ScaledVote` | src/webcam/ef_engine.c:293 | 255·v/max is 255 iff v is the maximum, and 0 for no votes |
| `EfEngine.ScaledBounds` | src/webcam/ef_engine.c:293 | 255·v/max ≤ 255 |
| `EfEngine.ScaledVoteMono` | src/webcam/ef_engine.c:293 | scaling keeps the order of votes |
| `EfEngine.ScaledVotes` | src/webcam/ef_engine.c:288-296 | one gray pixel per cell |
| `EfEngine.ScaledVotesMeaning` | src/webcam/ef_engine.c:281-296 | a pixel is 255 iff its cell holds the non-zero maximum, zero cells give 0, and the order of votes is kept |
| `EfEngine.ScaleRows` | src/webcam/ef_engine.c:288-296 | the loops scale every cell |
| `EfEngine.AccMax` | src/webcam/ef_engine.c:281-286 | the loop finds the maximum vote |
| `EfEngine.Acc2Gs` | src/webcam/ef_engine.c:251-299 | a non-accumulator fails; otherwise a GS image of the same size holding 255·acc/max, all zero when max is 0 |
| `EfEngine.Row5` | src/webcam/ef_engine.c:380-413 | a row of the 5×5 window sums to at most 5·255 |
| `EfEngine.Window` | src/webcam/ef_engine.c:380-413 | the 5×5 window sums to at most 25·255 |
| `EfEngine.WindowRange` | src/webcam/ef_engine.c:380-413 | the mean of a window lies between the smallest and largest pixel |
| `EfEngine.SmoothRow` | src/webcam/ef_engine.c:380-413 | an output row has w-4 pixels |
| `EfEngine.SmoothRows` | src/webcam/ef_engine.c:380-413 | the output has (w-4)·(h-4) pixels |
| `EfEngine.SmoothAt` | src/webcam/ef_engine.c:380-413 | output pixel (r, c) is the integer mean of the 5×5 window at (r, c) |
| `EfEngine.Row5Range` | src/webcam/ef_engine.c:380-413 | a window row sum lies between 5·lo and 5·hi |
| `EfEngine.SmoothRange` | src/webcam/ef_engine.c:380-413 | smoothing stays within the range of the input |
| `EfEngine.SmoothRowsNext` | src/webcam/ef_engine.c:380-413 | one more row of output appends that row |
| `EfEngine.SmoothRowAt` | src/webcam/ef_engine.c:380-413 | pixel c of an output row is the mean of its window |
| `EfEngine.SmoothUniform` | src/webcam/ef_engine.c:380-413 | a uniform image smooths to the same value |
| `EfEngine.SmoothWalk` | src/webcam/ef_engine.c:380-413 | the pointer walk writes every window mean in order |
| `EfEngine.Smooth` | src/webcam/ef_engine.c:356-419 | non-GS input fails; otherwise a (w-4)×(h-4) GS image whose pixels are the 5×5 means |
| `EfEngine.Off` | src/webcam/ef_engine.c:470-479 | the offset of an in-range pixel lies in the block |
| `EfEngine.NonWhite` | src/webcam/ef_engine.c:482-501 | the number of pixels not yet 255 |
| `EfEngine.NonWhiteMono` | src/webcam/ef_engine.c:482-501 | whitening pixels never raises that number |
| `EfEngine.NonWhiteWhiten` | src/webcam/ef_engine.c:482-501 | whitening one non-white pixel lowers it by one, so the recursion ends |
| `EfEngine.HistConnect` | src/webcam/ef_engine.c:482-501 | only interior pixels at least `low` are whitened; every such neighbour of (row, col) becomes 255; and every pixel the call whitens has its admitted neighbours at least `low` white after it |
| `EfEngine.ClosedCompose` | src/webcam/ef_engine.c:482-501 | two successive passes that each grow from every pixel they whiten make one such pass |
| `EfEngine.ClosedWhiten` | src/webcam/ef_engine.c:493-495 | whitening a pixel and then growing from it, as `*gs_pixel = 255; hist_connect(...)` does, grows from every pixel whitened |
| `EfEngine.ClosedReachesChain` | src/webcam/ef_engine.c:482-501 | in such a pass, a path of admitted 8-neighbours at least `low` and not white that starts at a whitened pixel is white all along |
| `EfEngine.HystRows` | src/webcam/ef_engine.c:504-536 | only interior pixels change, to 255; every interior pixel at least `upp` becomes 255; every pixel the pass whitens has its admitted neighbours at least `low` white |
| `EfEngine.HystRowsAsWritten` | src/webcam/ef_engine.c:504-536 | as written, the pixel examined is the one to the left of (row, col) |
| `EfEngine.HystThr` | src/webcam/ef_engine.c:504-536 | non-GS input fails unchanged; otherwise the corrected hysteresis: an interior pixel at least `upp` becomes 255, only interior pixels at least `low` change, and every whitened pixel has its admitted neighbours at least `low` white |
| `EfEngine.HystGrowsFromSeeds` | src/webcam/ef_engine.c:482-536 | after the corrected pass, every pixel joined to a non-white seed at least `upp` by a path of admitted 8-neighbours at least `low` and not white is 255 |
| `EfEngine.SeedsAsWritten` | src/webcam/ef_engine.c:524-528 | as written, the seed test reads the pixel one column to the left of each checked pixel: for every checked position, that left neighbour is among the seeds |
| `EfEngine.SeedsAsWrittenOfFour` | src/webcam/ef_engine.c:524-528 | on a 4×4 image the loop as written examines pixel 4, which is on the border, instead of the interior pixel 5 |
| `EfEngine.HystAsWrittenMissesSeed` | src/webcam/ef_engine.c:524-528 | with the only strong pixel at the interior position, the code as written leaves it at 150 |
| `EfEngine.HystSeedsInterior` | src/webcam/ef_engine.c:524-533 | the corrected loop turns that pixel to 255 |
| `Yuyv.Clamp` | src/webcam/img_yuyv.c:121-148 | 0 for negatives, 255 above 255, the identity otherwise |
| `Yuyv.ClampMono` | src/webcam/img_yuyv.c:138-147 | clamping keeps order |
| `Yuyv.PixelRgb` | src/webcam/img_yuyv.c:22-50 | one pixel's three channels, each clamp((298·(Y-16) + k·chroma + 128) >> 8) |
| `Yuyv.GroupRgb` | src/webcam/img_yuyv.c:94-115 | a 4-byte group gives six bytes, two pixels sharing the chroma bytes |
| `Yuyv.PixelMonoInLuma` | src/webcam/img_yuyv.c:22-50 | each channel grows with Y |
| `Yuyv.ShrMono` | src/webcam/img_yuyv.c:22-50 | the shift keeps order |
| `Yuyv.ChannelOfLuma` | src/webcam/img_yuyv.c:22-50 | with neutral chroma, Y ≤ 16 gives black and Y ≥ 235 gives white |
| `Yuyv.NeutralChromaIsGray` | src/webcam/img_yuyv.c:22-50 | chroma (128, 128) gives a gray pixel |
| `Yuyv.LumaRange` | src/webcam/img_yuyv.c:22-50 | studio range: Y ≤ 16 is 0 and Y ≥ 235 is 255 |
| `Yuyv.Groups` | src/webcam/img_yuyv.c:87-115 | n groups give 6n bytes |
| `Yuyv.GroupsNext` | src/webcam/img_yuyv.c:94-115 | group k appends its two pixels |
| `Yuyv.GroupsAt` | src/webcam/img_yuyv.c:94-115 | bytes 6k to 6k+5 of the output come from input bytes 4k to 4k+3 |
| `Yuyv.ConvertGroups` | src/webcam/img_yuyv.c:87-115 | the loop writes the pixels of every group and nothing past them |
| `Yuyv.GroupsFit` | src/webcam/img_yuyv.c:83-87 | the (width·height)/2 groups fit in the RGB image |
| `Yuyv.Yuyv2Rgb24` | src/webcam/img_yuyv.c:70-118 | the output is a width×height 3-component RGB image holding the converted groups, zero beyond, and the call returns success |
| `CamTypes.Camera.constructor` | src/webcam/cam.c:62-77 | a camera record before `cam_init` |
| `CamTypes.Frame.constructor` | src/webcam/cam.c:367-392 | a frame starts INVALID |
| `FormatSelector.Fourcc` | src/cam/cam_format_selector.c:37-41 | a four-character code holds its characters low byte first |
| `FormatSelector.FourccCodes` | src/cam/cam_format_selector.c:37-41 | the table's codes are YUYV, MJPG and JPEG |
| `FormatSelector.FirstMatch` | src/cam/cam_format_selector.c:156-166 | the first table entry with the format |
| `FormatSelector.GetDecompressor` | src/cam/cam_format_selector.c:151-167 | succeeds iff the format is in the table, giving its decompressor; otherwise `CAM_FAILURE` with the output left |
| `FormatSelector.IsFormatSupported` | src/cam/cam_format_selector.c:177-183 | holds iff some table entry has the format |
| `FormatSelector.FirstDecisive` | src/cam/cam_format_selector.c:104-130 | the formats before the first decisive one were all answered `CAM_INVAL` |
| `FormatSelector.SelectionStatus` | src/cam/cam_format_selector.c:97-138 | selection ends in success, busy, or failure once the table is exhausted |
| `FormatSelector.SelectDecompressor` | src/cam/cam_format_selector.c:97-138 | tries the formats in order and stores the first accepted format and its decompressor |
| `FormatSelector.SelectionConsistent` | src/cam/cam_format_selector.c:104-130 | the stored format is supported and its table decompressor is the one stored, and the driver accepted it |
| `FormatSelector.YuyvPreferred` | src/cam/cam_format_selector.c:104-130 | a driver that accepts YUYV gets YUYV |
| `FormatSelector.SelectUserDecompressor` | src/cam/cam_format_selector.c:58-84 | changes the camera only when both the lookup and the set succeed |
| `Camera.Init` | src/webcam/cam.c:62-77 | `cam_init` leaves mode INVALID, state UNINIT and fd -1, and copies the device path |
| `Camera.FallbackMode` | src/webcam/cam.c:451-465 | `get_fallback_mode` always answers READWRITE or UNKNOWN, and for every mode but UNKNOWN the answer is strictly lower in the preference order STREAMING, INVALID, READWRITE, UNKNOWN |
| `Camera.FallbackChainEnds` | src/webcam/cam.c:451-465 | `get_fallback_mode` reaches UNKNOWN in two steps, and UNKNOWN is its only fixed point |
| `Camera.SelectMode` | src/webcam/cam.c:468-489 | prefers streaming, then read/write, else `CAM_NO_SUPPORT` |
| `Camera.Attempt` | src/webcam/cam.c:117-162 | one pass of the open loop moves to the fallback mode when it retries |
| `Camera.OpenLoopAsWritten` | src/webcam/cam.c:117-162 | the do-while loop of `cam_open` as written, within a bound on passes: when it ends with the device open, a callback table is installed |
| `Camera.StuckAtUnknown` | src/webcam/cam.c:117-162 | as written, once a failed open falls back to UNKNOWN, the pass skips `select_mode`, retries the same failing table and stays at UNKNOWN, so the loop never ends however many passes are allowed |
| `Camera.AsWrittenEndsAsCorrected` | src/webcam/cam.c:117-162 | whenever the loop as written ends (from a mode other than UNKNOWN), it ends with the same open flag and callback table as the corrected `Camera.OpenLoop`; the two differ only where the fallback reaches UNKNOWN |
| `Camera.AsWrittenOpenNeverReturns` | src/webcam/cam.c:117-162 | as written, `cam_open` never returns on such a device |
| `Camera.OpenLoop` | src/webcam/cam.c:117-162 | the corrected loop, which stops at UNKNOWN; an open device has a callback table |
| `Camera.OpenLoopGivesUp` | src/webcam/cam.c:117-162 | the corrected loop reports failure on a device that never opens |
| `Camera.OpenLoopPreference` | src/webcam/cam.c:468-489 | streaming wins when the device streams, then read/write |
| `Camera.OpenPasses` | src/webcam/cam.c:117-162 | the loop method does what the corrected loop describes; a failed format query leaves the zeroed format that `cam_output_format_get` writes before `VIDIOC_G_FMT` (wg_cam_output.c:59-61), and a failed open or capability query leaves the format as it was |
| `Camera.Open` | src/webcam/cam.c:92-195 | `cam_open` requires UNINIT; a failed format query leaves the format zeroed; a failed open, capability or format query, or (in the debugging build) a failed listing of the format descriptions, leaves the descriptor -1 and the state UNINIT; corrected (the cam.c:117-162 finding): it also fails when the fallback chain reaches UNKNOWN, where as written the loop never gives up |
| `Camera.Close` | src/webcam/cam.c:208-228 | from START or STOP it ends in UNINIT; from UNINIT or without a descriptor it fails and changes nothing |
| `Camera.Start` | src/webcam/cam.c:239-256 | requires STOP and a callback table, and moves to START |
| `Camera.Stop` | src/webcam/cam.c:267-279 | requires a callback table, and moves to STOP |
| `Camera.StartStop` | src/webcam/cam.c:239-279 | start then stop returns to STOP with the device kept |
| `Camera.Read` | src/webcam/cam.c:291-316 | reads only EMPTY or INVALID frames and marks them FULL on success |
| `Camera.DiscardFrameAsWritten` | src/webcam/cam.c:332-355 | as written, success is reported for any frame that is not INVALID, even when emptying it failed |
| `Camera.DiscardFailureReportedAsSuccess` | src/webcam/cam.c:339-349 | as written, a FULL frame whose emptying fails stays FULL and the call reports success |
| `Camera.DiscardFrame` | src/webcam/cam.c:332-355 | corrected: success means the frame is EMPTY, and a failure of `empty_frame` is reported |
| `Camera.DiscardFailureReported` | src/webcam/cam.c:339-349 | the corrected call reports that failure |
| `Camera.FreeFrame` | src/webcam/cam.c:367-392 | an INVALID frame fails; otherwise the frame is emptied and cleaned up, ending INVALID on success |
| `Plugin.GoToState` | src/webcam/wg_plugin.c:169-226 | the transition table: UNINITIALIZED→CALLIBRATE; CALLIBRATE→CALLIBRATE, START, GET_COLOR; START→STOP; STOP→START, CALLIBRATE; GET_COLOR→GET_PANE, CALLIBRATE; GET_PANE→CALLIBRATE, and nothing else |
| `Plugin.NeverBackToUninitialized` | src/webcam/wg_plugin.c:169-226 | no state leads back to UNINITIALIZED |
| `Plugin.EntryPoints` | src/webcam/wg_plugin.c:180-223 | START is entered only from CALLIBRATE or STOP, GET_PANE only from GET_COLOR, GET_COLOR only from CALLIBRATE |
| `Plugin.StartNeedsCallibrate` | src/webcam/wg_plugin.c:169-226 | every run from UNINITIALIZED passes through CALLIBRATE first |
| `Plugin.CallibrateReachable` | src/webcam/wg_plugin.c:169-226 | CALLIBRATE is reachable from every state in at most two steps |
| `WgConfig.Take` | src/webcam/wg_config.c:92 | `strncpy` into a buffer of n keeps the first min(n, length) characters |
| `WgConfig.CreateLine` | src/webcam/wg_config.c:176-200 | `create_line` truncates to `CONFIG_MAX_LINE_SIZE` and strips one trailing newline |
| `WgConfig.KeyValueText` | src/webcam/wg_config.c:111-120 | the new line is the key, '=' and as much of the value as fits in 80 characters |
| `WgConfig.NewLine` | src/webcam/wg_config.c:111-120 | a stored line starts with the key and the delimiter |
| `WgConfig.FirstLine` | src/webcam/wg_config.c:161-171 | the first line, oldest first, that starts with the key |
| `WgConfig.Lookup` | src/webcam/wg_config.c:77-96 | a key is found iff some line starts with it, and the value is the text after the key and one delimiter character |
| `WgConfig.Added` | src/webcam/wg_config.c:98-123 | corrected: an existing key's line is replaced with key=value; a new key appends that line |
| `WgConfig.FirstLineAt` | src/webcam/wg_config.c:161-171 | the first matching line is found |
| `WgConfig.AddThenLookup` | src/webcam/wg_config.c:98-123 | adding a key and then getting it gives back the stored value |
| `WgConfig.StoredValueExact` | src/webcam/wg_config.c:111-120 | a value that fits and has no trailing newline is stored as it is |
| `WgConfig.AddedAsWritten` | src/webcam/wg_config.c:98-123 | as written, adding a value for a key that is present replaces only the first line with that key and keeps every other line; adding one for a key that is absent appends one line after the unchanged store |
| `WgConfig.AsWrittenOverwriteLosesKey` | src/webcam/wg_config.c:109-110 | as written, overwriting an existing key stores the value alone, and the key is lost |
| `WgConfig.Config.constructor` | src/webcam/wg_config.c:53 | `wg_config_init`'s `list_init` gives a store with no lines |
| `WgConfig.Config.GetLine` | src/webcam/wg_config.c:149-174 | the `get_value` loop finds the first line starting with the key, iff there is one |
| `WgConfig.Config.GetValue` | src/webcam/wg_config.c:77-96 | succeeds iff the key is found, and copies at most `size` characters of its value; it fails with the buffer left alone |
| `WgConfig.Config.AddValueAsWritten` | src/webcam/wg_config.c:98-123 | as written: an existing key's line is overwritten with the value only |
| `WgConfig.Config.AddValue` | src/webcam/wg_config.c:98-123 | corrected: the line is key=value, and the key finds the stored value afterwards |
| `WgConfig.AddThenGetKey1` | src/webcam/ut/wg_config/unit_test.c:27-30 | adding key1/value1 and then getting key1 succeeds with "value1" |
| `CmAccess.ReadSection` | src/config/cm_access.c:55-77 | only SERVER and GAMES_LIST sections are read; every other type fails |
| `CmAccess.FirstInvalid` | src/config/cm_access.c:416-424 | the first INVALID field |
| `CmAccess.FindInvalidKey` | src/config/cm_access.c:408-425 | returns the first INVALID index, and found iff it is below num |
| `CmAccess.FirstNamed` | src/config/cm_access.c:436-451 | the first STRING field with the name |
| `CmAccess.FindKey` | src/config/cm_access.c:427-452 | found iff some STRING field's name equals the name, and pos is then the first such index |
| `CmAccess.GameKey` | src/config/cm_access.c:141-153 | a new slot's key is "game" followed by its digit |
| `CmAccess.SlotAsWritten` | src/config/cm_access.c:134-153 | as written, a game counts as listed iff a key, not a value, equals its name |
| `CmAccess.FirstListed` | src/config/cm_access.c:134-153 | the first STRING entry whose value is the game |
| `CmAccess.ChosenSlot` | src/config/cm_access.c:141-153 | corrected: an existing entry is reused; otherwise the first free slot with key "gameN"; no slot when none is free |
| `CmAccess.AsWrittenDuplicatesGame` | src/config/cm_access.c:134-136 | as written, writing a listed game again takes a new slot |
| `CmAccess.WriteTwiceKeepsOneEntry` | src/config/cm_access.c:141-153 | after a game is written, writing it again reuses its entry |
| `CmAccess.WriteGameSlotAsWritten` | src/config/cm_access.c:115-181 | `cm_write_game` as written chooses its slot by name lookup |
| `CmAccess.FindGame` | src/config/cm_access.c:427-452 | the `find_key` loop applied to values: found iff some STRING field holds the game |
| `CmAccess.WriteGameSlot` | src/config/cm_access.c:115-181 | corrected `cm_write_game` chooses the slot the intended rule gives |
| `GpmIni.NextValid` | src/gameplay/gpm_ini.c:189-200 | the next field from an index that is not INVALID |
| `GpmIni.VisitsValidFields` | src/gameplay/gpm_ini.c:161-201 | the iterator delivers every non-INVALID field and only those, in increasing index order |
| `GpmIni.FieldIterator.constructor` | src/gameplay/gpm_ini.c:161-172 | the iterator covers indices 0 to `CONFIG_MAX_FIELDS_NUM` - 1 |
| `GpmIni.FieldIterator.Next` | src/gameplay/gpm_ini.c:182-201 | skips INVALID fields, delivers the next other field and moves past it, and fails at the end |
| `GpmIni.FieldById` | src/gameplay/gpm_ini.c:260-280 | fails when the id is at least the maximum or the field is INVALID, and otherwise gives that field |
| `GpmIni.FieldByIdAgreesWithIterator` | src/gameplay/gpm_ini.c:182-280 | a field is found by id exactly when the iterator delivers it |
| `GpmIni.GameByIndex` | src/gameplay/gpm_ini.c:125-134 | rejects an index of at least `CONFIG_MAX_GAMES_NUM` |
| `GpmIni.GameByNameAsWritten` | src/gameplay/gpm_ini.c:214-248 | succeeds iff a STRING entry holds the name, but the index is one past the match |
| `GpmIni.AsWrittenSelectsNextSlot` | src/gameplay/gpm_ini.c:225-247 | as written, a game in slot 0 is reported in slot 1 |
| `GpmIni.GameByName` | src/gameplay/gpm_ini.c:214-248 | corrected: the index is that of the first matching entry |
| `GuiPrim.Point2dNew` | src/webcam/gui_prim.c:11-19 | the point keeps x and y |
| `GuiPrim.FromPoints` | src/webcam/gui_prim.c:35-51 | `wg_rect_new_from_point` gives a rectangle that contains both given points |
| `GuiPrim.FromPointsShape` | src/webcam/gui_prim.c:35-51 | the origin is the minimum x and the minimum y, and the extents are \|x2 - x1\| and \|y2 - y1\| |
| `GuiPrim.FromPointsSymmetric` | src/webcam/gui_prim.c:35-51 | the result does not depend on the order of the points or on which corners are given |
| `GuiPrim.FromPointsSmallest` | src/webcam/gui_prim.c:35-51 | it is the smallest rectangle containing both points |
| `GuiPrim.Rect.constructor` | src/webcam/gui_prim.c:22-32 | an empty rectangle at the origin |
| `GuiPrim.Rect.Init` | src/webcam/gui_prim.c:22-32 | `wg_rect_new` stores origin and extents |
| `GuiPrim.Rect.InitFromPoints` | src/webcam/gui_prim.c:35-51 | `wg_rect_new_from_points` stores the rectangle spanned by the points |
| `GuiPrim.Rect.Move` | src/webcam/gui_prim.c:54-62 | `wg_rect_move` adds dx and dy to the origin and keeps the extents |
| `GuiPrim.MoveKeepsContents` | src/webcam/gui_prim.c:54-62 | moving translates which points the rectangle contains |
| `Vid.IsPow2Bits` | src/webcam/vid.c:19 | `IS_POW_2`, the two's complement test `(~v+1) & v == v`, holds exactly when `v & (v-1)` is zero |
| `Vid.SingleBitIsPowerOfTwo` | src/webcam/vid.c:22-35 | a value with one bit set is a power of two, and conversely |
| `Vid.LowestBit` | src/webcam/vid.c:19 | a non-zero value passing `IS_POW_2` is a power of two |
| `Vid.IsPow2BitsCharacterised` | src/webcam/vid.c:19 | `IS_POW_2` holds exactly of 0 and the powers of two |
| `Vid.Doubling` | src/webcam/vid.c:29-31 | the doubling loop gives the smallest power of two at least the value, or 0 on overflow |
| `Vid.DoublingResult` | src/webcam/vid.c:29-31 | the loop's end state is that power of two |
| `Vid.GetPow2` | src/webcam/vid.c:22-35 | the value itself when `IS_POW_2` holds (0 included); otherwise the smallest power of two at least the value, or 0 on overflow |
| `Vid.GetCeilEven` | src/webcam/vid.c:38-41 | an even value is kept; an odd one becomes value + 1 |
| `Vid.CeilEvenBounds` | src/webcam/vid.c:38-41 | for a non-overflowing input the result is even, at least the value and at most value + 1 |

## Left out

- The network and the GUI. `TestGame`'s sockets, Swing panel and thread
  are left out: the chunks arrive as a sequence, and the colour factory's
  random stream is a parameter.
- `TestGame.HitList.Run`: a chunk is modelled as the string that was
  read. The 1024-byte read, the UTF-8 decoding and `Thread.interrupted()`
  are left out.
- `TestGame.HitList.Run`: a connection closed without data makes
  `is.read` return -1, and `new String(buffer, 0, -1, …)` then throws
  StringIndexOutOfBoundsException, which ends the reader thread. The model
  has no such chunk: an empty chunk adds no hit and the loop goes on.
- `TestGame.ParseInt`: `Integer.valueOf` also accepts non-ASCII Unicode
  digits. The model accepts an optional sign and ASCII digits only.
- Allocation failure is a parameter for the two allocations of
  `img_fill` and the `calloc` of `allocate_token` for each token of the
  console parser. `create_line` also checks its `malloc` and returns NULL
  (wg_config.c:184-187), but `wg_config_add_value` then dereferences
  that NULL (wg_config.c:118-119). `WgConfig.Config.AddValue` has no
  parameter for it and always takes the allocation to succeed. `ef_smooth`
  and `img_yuyv_2_rgb24` ignore the status `img_fill` returns
  (ef_engine.c:380, img_yuyv.c:83); there the model takes the fill to
  succeed.
- NULL pointers: `CHECK_FOR_NULL_PARAM` is empty in this build, and the
  model never passes NULL.
- `ConsoleParser.IntRound`: `atoi` of a digit run is its exact value. The
  overflow past `INT_MAX` and the locale are left out.
- `ConsoleParser.Parse` requires a text without NUL. The C code reads
  up to the first NUL, its terminator, and the model's text is what comes
  before it.
- `ConsoleParser.Parse`: the token list is kept in text order. The source
  pushes tokens onto a list, which keeps them newest first; the order of
  the list is not modelled.
- `LinkedList`:
  - the nodes are modelled as a sequence of distinct elements, so the
    address arithmetic behind `list_entry` and the sentinel head's
    pointers are not modelled;
  - `dlist_forall`, `dlist_forall_safe` and `dlist_fix_after_copy` are
    left out.
- `LinkedList.ListIterator`: the counters are modelled as indices, not as
  node pointers.
- `CollisionDetect.Detector.IsHitDetected`: the differences `dx_0` and
  `dx_1` are `wg_int`s; the model subtracts over the integers, so a
  coordinate difference past the 32-bit range, which the C code would
  wrap, is not modelled.
- `Image.NextCol`: on an iterator whose column pointer is NULL the C code
  advances the pointer to `NULL + comp_per_pixel`; the model keeps no
  column there.
- `Sort`:
  - the inline assembler `wg_sort_uint` and the `qsort` variant are left
    out;
  - both sorts are modelled over `int`, since on NaN-free input the
    comparisons are the same for `wg_uint` and `double`; floating point,
    and NaN with it, is left out.
- `Image.Image.Fill` with height 0: `calloc(0, …)` may return NULL or
  not, and the model takes the allocation outcomes as parameters.
- `Image.Image.GetSubimage` requires that the destination has no more
  components than the source and that the two blocks differ. The source
  checks neither.
- `Image.Image.Copy` does not model the pixbuf conversion in the rest of
  img.c.
- `ImageGs`:
  - the grayscale functions require one component per pixel, as every
    GS image the library makes has;
  - `ImageGs.Rgb2Grayscale` requires three components per pixel and rows
    laid out back to back, as every RGB24 image the library makes has;
    the source steps by `comp_per_pixel`;
  - `ImageGs.Sub` requires distinct blocks and image 1 no larger than
    image 2;
  - saving images is left out.
- `ImageGs.DrawPixel`: the variadic colour argument is a parameter,
  reduced to a byte.
- `EfEngine`:
  - the accumulator's 4-byte cells are modelled as words, not as byte
    groups;
  - the Hough transform, `ef_detect_circle`, the tan cache and the other
    floating-point filters are left out.
- `EfEngine.ScaledVote`: the product `GS_PIXEL_MAX * votes` is taken
  without wrap-around, as it is where `size_t` has 64 bits (LP64); a
  32-bit `size_t` is not modelled.
- `EfEngine.Smooth` requires width and height of at least 4.
- `EfEngine.HystThr` and `EfEngine.HystRows` require width and height of
  at least 2.
- `EfEngine.HistConnect`, `EfEngine.HystRows`, `EfEngine.HystThr`: the
  growth is stated as a closure (every whitened pixel has its admitted
  neighbours at least `low` white); `EfEngine.HystGrowsFromSeeds` derives
  the connected paths from it. The recursion depth, which can overflow
  the C stack on large images, is not modelled.
- `Yuyv.Yuyv2Rgb24` requires 3·width < 2^32 and an input of at least
  two bytes per pixel. Its allocation is taken to succeed, and `in_size`
  is not checked, as in the source.
- `Bgrx`: only the header macros are modelled. The conversion loops of
  img_bgrx.c are lower-priority duplicates and are left out.
- `Camera`:
  - the V4L2 ioctls, mmap, poll and open are left out, and a
    deterministic `Device` record gives their outcomes;
  - `cam_print_u32_as_string`, `cam_set_resolution` and the
    decompressors themselves are left out;
  - the debugging block of `cam_open` (cam.c:164-181) is kept only for
    its status: `Device.descList` stands for what
    `cam_output_format_description_list` returns, and the printing of the
    formats and capabilities is left out;
  - strings contain no NUL.
- `Camera.Open` requires a mode other than UNKNOWN. `cam_init` zeroes
  `cam_ops` (cam.c:67), and UNKNOWN skips `select_mode` in the switch, so
  UNKNOWN at entry calls a NULL `cam_ops.open` (cam.c:155). The
  non-returning run of `Camera.AsWrittenOpenNeverReturns` is another
  one: it starts from INVALID, STREAMING or READWRITE and falls back to
  UNKNOWN.
- `WgConfig`:
  - the file I/O of `wg_config_init`, `read_file`, `wg_config_sync` and
    `wg_config_cleanup` is left out;
  - a key is assumed shorter than 80 characters in `add_value`;
  - `create_line` on a text of 80 or more characters reads the
    terminator past the 80 it copies, and that byte is taken to be NUL.
- `WgConfig.Config.GetValue`: a key of 80 characters or more makes the C
  code read past a line's buffer. The model compares with the line's
  text.
- `CmAccess`:
  - the libini reads and writes are left out, and
    `read_server_section`, `read_games_list_section` and
    `read_game_section` are parameters;
  - when `cm_write_game` creates a new slot, `snprintf` fills only
    `cf.name`, so `cf.type` and `cf.value` are uninitialised when
    `add_key_value` reads them (cm_access.c:146-148); the model does not
    represent this.
- `GpmIni`:
  - `gpm_ini_read`, `gpm_ini_get_server` and
    `gpm_ini_get_max_num_of_games` are left out;
  - the module's arrays are parameters;
  - `read_games_list_section` counts the games list size as index - 1,
    which is not modelled.
- `GuiPrim.Rect.Move` requires the moved origin to fit in a `wg_int`. The
  source's signed overflow is undefined.
- `GuiPrim.FromPoints`: the extents are the exact differences. The
  source computes `xx2 - xx1` and `yy2 - yy1` in `wg_int` (gui_prim.c:47),
  which overflows once a span passes 2^31-1. The exact value is what
  `wg_rect_new` receives only on a target where that subtraction wraps
  modulo 2^32.

## Findings

| source | as written | input that shows it | evidently intended | confidence | as-written member | corrected member |
|---|---|---|---|---|---|---|
| src/webcam/collision_detect.c:151 | a negative window start i becomes `CD_POSITION_NUM - i` | `position_index` 2 with `CD_PIPELINE_SIZE` 5 gives i = -3 and start 35 in a ring of 32 | `CD_POSITION_NUM + i` | not executed | `CollisionDetect.StartIndexAsWrittenOutOfRange` | `CollisionDetect.StartIndex` |
| src/webcam/collision_detect.c:163-164 | `i -= HIT_COUNT_NUM` takes the signed scan index below 0; the truncating `%` keeps it negative and the store into `*index` wraps it | a hit found at ring index 0 or 1 | step back modulo `CD_POSITION_NUM` | not executed | `CollisionDetect.HitIndexAsWrittenOutOfRange` | `CollisionDetect.HitIndex` |
| src/image/img.c:67 | after allocating `raw_data` it tests `row_array` again | row allocation succeeds, pixel allocation fails: success is returned | test `raw_data` | not executed | `Image.FillAsWrittenIgnoresDataAllocation` | `Image.FillStatus` |
| src/image/img.c:139-140 | the 32-bit sums x + width and y + height wrap | x = 2^32-1, width 1, source width 1 passes | compare without wrap-around | not executed | `Image.SubimageCheckAsWrittenWraps` | `Image.SubimageCheck` |
| src/image/img_gs.c:105 | the check lets a 255-bin histogram through | size 255 and a pixel of 255 writes bin 255, past the array | at least 256 bins | not executed | `ImageGs.HistogramCheckAsWrittenAdmitsMissingBin` | `ImageGs.HistogramCheckCoversPixels` |
| src/webcam/ef_engine.c:525-528 | the pixel pointer starts at column 0 while `col` starts at 1, so (row, col-1) is tested | a 4×4 image whose only strong pixel is at (1, 1) is left at 150 | test pixel (row, col) | not executed | `EfEngine.HystAsWrittenMissesSeed` | `EfEngine.HystSeedsInterior` |
| src/webcam/cam.c:117-162 | at UNKNOWN the fallback mode is UNKNOWN again and the loop retries forever | a device whose open always fails | give up once UNKNOWN is reached | not executed | `Camera.AsWrittenOpenNeverReturns` | `Camera.OpenLoopGivesUp` |
| src/webcam/cam.c:339-349 | the FULL case falls through into EMPTY, which overwrites the status of `empty_frame` with success | a FULL frame whose `empty_frame` fails | report the failure | not executed | `Camera.DiscardFailureReportedAsSuccess` | `Camera.DiscardFailureReported` |
| src/webcam/wg_config.c:109-110 | overwriting an existing key stores only the value | add "k"="1", then "k"="2": the line becomes "2" and "k" is not found | store "key=value" | not executed | `WgConfig.AsWrittenOverwriteLosesKey` | `WgConfig.AddThenLookup` |
| src/config/cm_access.c:134-136 | an existing game is searched among key names, not values | a games list holding game0=snake, then writing snake: it takes slot game1 | search the values | not executed | `CmAccess.AsWrittenDuplicatesGame` | `CmAccess.WriteTwiceKeepsOneEntry` |
| src/gameplay/gpm_ini.c:225-247 | the reported index, and the game section taken, are the loop counter after its increment | "snake" in slot 0 is reported at index 1 | the matching slot's index | not executed | `GpmIni.AsWrittenSelectsNextSlot` | `GpmIni.GameByName` |
