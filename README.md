# make_qr_label, modelled in Dafny

The program `make_qr_label` reads a text file and writes one PNG label for each non-empty
line. Each label holds a QR code for `http://csgyn.com/t/?qr=<line>`, a
200 x 200 logo over the middle of the code and the line itself as a caption
underneath. The lines are handed to worker threads in cohorts of `thread_cnt`,
and a progress bar is printed as cohorts complete.

This project models the two functions that carry the program's logic, both
in `main.cpp`:

- `make_qr_label`, the work done for one line:
  - **Strings** (module `Label`, `label.dfy`): the QR payload (base URL
    followed by the line) and the output file name (the line followed by
    `.png`), with their inverses, and the empty-line filter that turns a
    file into tasks.
  - **Raster** (module `Render`, `render.dfy`): the canvas size, the white
    fill, the nested loops that paint every module byte as a 25 x 25 block
    of pixels while advancing a cursor through the encoder's bytes, the copy
    of the logo into a block at one offset used for both axes, and the
    caption anchor. The canvas is an `array2<Pixel>` updated in place, as the
    source updates the `Mat` buffer.
- `start_multithread_task`, the scheduler (module `Scheduler`,
  `scheduler.dfy`):
  - A `ThreadPool` class holds the slot array `thread_pool`, the cursor
    `thread_idx`, and ghost sets of launched and joined tasks.
  - Creating a thread is *launch into the next slot*; each join loop is
    *join the cohort*.
  - The dispatch loop carries `idx` and `last_percentage` and produces the
    printed lines. `CohortStart` defines `idx` after each line, `Percentage`
    defines the printed value, and `ProgressLog` defines the printed text.
- The `%d` and `%3d` output formats and character counting live in module
  `Decimal` (`decimal.dfy`).

Conventions the model keeps from the source:

- **Axes.** Module byte `k = col * W + row` is painted at pixel rows
  `[25 + 25 col, +25)` and pixel columns `[25 + 25 row, +25)`. So the slow
  index of the row-major data selects the pixel row, despite the loop
  variable names.
- **Division.** C++ `/` truncates toward zero. It is written out as
  `Render.Half` wherever its operand can be negative.
- **The trailing join.** As written it joins all `thread_cnt` slots. The
  model proves that this join is undefined on every run, and uses the join of
  the slots actually launched (see Findings).

## Model

| member | source | states |
|---|---|---|
| Decimal.NatToDecimal | main.cpp:132 | `%d` of a non-negative number is a non-empty run of decimal digits with no leading zero |
| Decimal.DecimalRoundTrip | main.cpp:145 | reading back the printed digits of `n` gives `n` |
| Decimal.DecimalInjective | main.cpp:145 | two different numbers never print the same digits |
| Decimal.PadLeft | main.cpp:132 | `%3d` yields max(3, digits) characters, the digits right-aligned after spaces |
| Decimal.PaddedDecimalChars | main.cpp:132 | every character of a `%3d` field is a space or a digit |
| Decimal.Repeat | main.cpp:133-135 | the `#` loop writes exactly `percentage` characters, all `#` |
| Decimal.CountRepeat | main.cpp:133-135 | a run of `k` copies of `c` holds exactly `k` occurrences of `c` |
| Label.QrPayload | main.cpp:39-51 | the payload is exactly the base URL followed by the line (length and both parts) |
| Label.FileName | main.cpp:53-55 | the file name is exactly the line followed by `.png` |
| Label.LineOfPayload | main.cpp:48-51 | the decoder of a payload is defined exactly on strings that start with the base URL |
| Label.LineOfFileName | main.cpp:53-55 | the line is recoverable from a name exactly when it ends in `.png` |
| Label.PayloadRoundTrip | main.cpp:48-51 | stripping the base URL from a line's payload gives back the line |
| Label.PayloadOfLineOfPayload | main.cpp:48-51 | every payload with the base URL prefix is the payload of the line after it |
| Label.FileNameRoundTrip | main.cpp:53-55 | stripping `.png` from a line's file name gives back the line |
| Label.FileNameOfLineOfFileName | main.cpp:53-55 | every name ending in `.png` is the file name of the text before it |
| Label.NamesInjective | main.cpp:48-55 | distinct lines get distinct payloads and distinct file names |
| Label.NonEmptyLines | main.cpp:158-165 | no kept line is empty, and never more lines are kept than read |
| Label.NonEmptyLinesCounts | main.cpp:162-164 | every non-empty line is kept exactly as many times as it occurs, and no empty line is kept; a line is kept iff it was read and is non-empty |
| Label.NonEmptyLinesSnoc | main.cpp:158-165 | reading one more line appends it to the kept lines exactly when it is non-empty |
| Label.NonEmptyLinesAppend | main.cpp:158-165 | filtering keeps file order: filtering `a + b` gives the kept lines of `a` followed by those of `b` |
| Render.CanvasCols | main.cpp:59-61 | the canvas width is the module square with a 25-pixel border on the left and on the right |
| Render.CanvasRows | main.cpp:59-61 | the canvas height is always its width plus the 75-row caption band |
| Render.QrPixel | main.cpp:70-86 | a pixel of the QR area is black iff the byte of the module it belongs to is dark, and white otherwise |
| Render.ModuleColour | main.cpp:70-86 | a module is painted black exactly when the low bit of its byte is set, white otherwise |
| Render.Half | main.cpp:93 | `a / 2` truncated toward zero, for both signs of `a` |
| Render.ModuleIndex | main.cpp:67-89 | the byte painted at a pixel inside the QR area is a valid index into the `W * W` bytes |
| Render.BlockOfModule | main.cpp:67-89 | byte `col * W + row` covers rows `[25 + 25 col, +25)` and columns `[25 + 25 row, +25)` and gives them its colour |
| Render.PaintedModuleReadsBack | main.cpp:67-89 | the top-left pixel of byte `k`'s block is black iff byte `k` marks a dark module |
| Render.BorderOutsideQrArea | main.cpp:59-61 | the 25-pixel border and the 75-row caption band lie outside the painted square |
| Render.FillWhite | main.cpp:64 | after the fill every pixel of the canvas is white (0xff in all three channels) |
| Render.NewCanvas | main.cpp:59-64 | a fresh canvas with `50 + 25 W` columns and 75 more rows than columns, all white |
| Render.PaintModules | main.cpp:67-89 | the cursor advances exactly `W * W` times; each pixel of the QR area gets its module's colour; every other pixel is unchanged |
| Render.LogoOffset | main.cpp:93-94 | the one offset `(cols - 200) / 2`, truncated toward zero, used for both axes: twice it is `cols - 200` or one less, for either sign |
| Render.LogoFitsIff | main.cpp:93-95 | the logo block at offset `(cols - 200) / 2` on both axes fits the canvas iff `cols >= 200` |
| Render.LogoCentredOnSquare | main.cpp:93-95 | the single offset centres the logo on the square `cols x cols`: side gaps differ by at most 1, and the bottom gap exceeds the top gap by the 75-row band (plus that pixel) |
| Render.CompositeLogo | main.cpp:93-95 | the copy happens iff the block fits; the block then holds the logo pixel by pixel, and every pixel outside it is unchanged |
| Render.CaptionAnchor | main.cpp:98-100 | the text is centred horizontally (margins differ by at most 1, inside the canvas when it is wide enough), and its baseline is exactly `textHeight / 2` (rounded down) rows above the bottom edge |
| Render.CaptionBandBlank | main.cpp:61-95 | every row at or below `cols` (the caption band) is still white when the caption is drawn |
| Render.BorderBlank | main.cpp:61-95 | from 8 modules up (every QR code has at least 21), the logo stays inside the QR area, so the whole border is white |
| Render.LogoCoversBorderWhenNarrow | main.cpp:93-95 | with 6 or 7 modules (narrower than any QR code) the logo fits but its offset is inside the 25-pixel border, so the bound of `BorderBlank` is tight |
| Render.RenderLabel | main.cpp:57-101 | the finished canvas has the stated size; the logo is placed iff `cols >= 200`; each pixel is logo, module or white as `LabelPixel` says; the anchor is `CaptionAnchor` of the canvas |
| Scheduler.CohortStart | main.cpp:121-127 | `idx` after `seen` lines never exceeds `seen` |
| Scheduler.CohortStartTrails | main.cpp:121-127 | `idx` trails the lines seen by less than one cohort: `idx <= seen < idx + N` |
| Scheduler.CohortsCompleted | main.cpp:121-127 | `idx` is `N` times the number of completed cohorts |
| Scheduler.CohortStartClosedForm | main.cpp:121-127 | `idx == (seen / N) * N`, a multiple of `N`, and `seen - idx == seen % N` |
| Scheduler.CohortStartMonotone | main.cpp:126 | `idx` never decreases as lines are seen |
| Scheduler.CohortStartStep | main.cpp:119-127 | `idx` grows by one cohort exactly when the line just launched fills the last free slot |
| Scheduler.Percentage | main.cpp:129 | the printed value is `idx * 100 / total` rounded down: `p * total <= idx * 100 < (p + 1) * total` |
| Scheduler.PercentageAtMost100 | main.cpp:129 | `idx * 100 / total` is at most 100 |
| Scheduler.PercentageMonotone | main.cpp:129 | the percentage never decreases from one line to the next |
| Scheduler.ReachesHundredIff | main.cpp:121-129 | the bar reaches 100% after the last line iff `N` divides `total` |
| Scheduler.ProgressLine | main.cpp:132-136 | a progress line is a `%3d` field of at least 3 characters (its digits read back by `ProgressLineReportsPercentage`), then `% `, then `percentage` `#` characters, then a newline |
| Scheduler.ProgressLineReportsPercentage | main.cpp:132 | the `%3d` field of a progress line is spaces followed by digits that read back as the percentage |
| Scheduler.ProgressLineHashes | main.cpp:132-136 | a printed progress line holds exactly `percentage` `#` characters |
| Scheduler.ProgressLogStep | main.cpp:129-138 | one more line adds a progress line iff the percentage differs from `last_percentage`, and then it is that percentage's line |
| Scheduler.ProgressPercentsIncrease | main.cpp:129-138 | the printed percentages strictly increase, lie in (0, 100], end at the current percentage, and none is printed while it is 0 |
| Scheduler.PrintedPercentWasReached | main.cpp:129-138 | every printed percentage is a non-zero value the percentage took after some line |
| Scheduler.ReachedPercentIsPrinted | main.cpp:129-138 | every non-zero value the percentage takes after some line is printed |
| Scheduler.FinishedMessage | main.cpp:145 | the closing message starts with `Finished ` and ends with ` QRCode.` and a newline |
| Scheduler.FinishedMessageReportsTotal | main.cpp:145 | the closing message is `Finished `, the decimal digits of `total`, then ` QRCode.` and a newline |
| Scheduler.JoinEach | main.cpp:122-124 | joining slot by slot keeps one entry per slot |
| Scheduler.JoinEachDefinedIff | main.cpp:122-124 | joining a run of slots is defined iff every slot holds a running thread, and then it joins each one |
| Scheduler.TrailingJoinAsWrittenUndefined | main.cpp:141-143 | when the slot at `thread_idx` holds no running thread, joining all `thread_cnt` slots is undefined |
| Scheduler.LaunchKeepsInvariant | main.cpp:119 | launching a new task into slot `thread_idx` keeps the pool invariant, so at most `N` launched tasks are ever unjoined |
| Scheduler.JoinStep | main.cpp:122-124 | joining the next slot of the cohort finishes its task and keeps the join progress |
| Scheduler.JoinDone | main.cpp:122-125 | once the cohort is joined, every launched task is finished, no slot runs, and the cohort was joined slot by slot |
| Scheduler.ThreadPool.constructor | main.cpp:110-112 | a pool of `N` empty slots, cursor 0, nothing launched |
| Scheduler.ThreadPool.Launch | main.cpp:119 | the task runs in slot `thread_idx`, the cursor moves on by one, no other slot changes, the invariant holds |
| Scheduler.ThreadPool.JoinLaunched | main.cpp:122-125 | joins exactly the slots below the cursor (defined by `JoinEach`), finishes every launched task, resets the cursor, and leaves the other slots alone |
| Scheduler.ThreadPool.Dispatch | main.cpp:119-125 | the cohort is joined iff this launch fills the pool. Without a join, the task runs in slot `thread_idx`, no other slot changes, and the cursor moves on by one. With a join, every slot holds its task as Joined (the new task in the last slot), every launched task is finished, and the cursor is 0 |
| Scheduler.FirstTasksMembers | main.cpp:118-119 | after `n` lines the launched tasks are exactly `0 .. n-1` |
| Scheduler.DispatchOne | main.cpp:118-127 | one line: the pool stays valid, the new task is launched, `idx` follows `CohortStart`, `thread_idx` stays below `N` with `idx + thread_idx` the lines seen, and the finished tasks are exactly the first `idx` (the completed cohorts) |
| Scheduler.ReportProgress | main.cpp:129-138 | `last_percentage` becomes the current percentage and the output grows by exactly `ProgressLogStep`'s line |
| Scheduler.DispatchLines | main.cpp:118-139 | after the loop every line is launched, every full cohort was joined inside the loop (the finished tasks are exactly the first `CohortStart(N, total)`), `thread_idx == total % N`, and the output is `ProgressLog` |
| Scheduler.StartMultithreadTask | main.cpp:108-147 | returns 0, prints the progress log and then the finished message, joins every task; the slots after the loop hold the unjoined tasks of the last partial cohort in `[0, total % N)` and nothing running from `total % N` on, and the trailing join as written is undefined on them |

## Left out

- The QR encoder (`QRcode_encodeString`, `QRcode_free`) is an external library. Its output matrix is an input here (`Render.QrMatrix`).
- A `NULL` result from the encoder is not modelled. The source dereferences it without a check.
- OpenCV's `imread`, `resize`, `getTextSize`, `putText` and `imwrite` are left out. So are glyph rasterisation and PNG encoding.
- The logo pixels and the measured text size are inputs. The caption's own pixels are not drawn.
- Real threads are left out. `pthread_create` and `pthread_join` become launch and join events on slots, run in program order. Interleavings are not modelled.
- A task is identified by its line's index. The scheduler model does not itself run `Render.RenderLabel` for the line.
- Each thread receives `line.c_str()` of a loop-local copy that is destroyed while the thread may still run. That lifetime defect is not modelled: each task is taken to see its own line.
- `qr_content` is not NUL-terminated before it goes to the encoder, so the encoder reads past the buffer. `Label.QrPayload` models the intended concatenation.
- Scheduler.StartMultithreadTask: requires `thread_cnt >= 1`. The source takes the value from `atoi` without a check, and 0 or a negative count gives an invalid stack array.
- Scheduler.Percentage: unbounded integers. The source's 32-bit `idx * 100` overflows once more than about 21 million lines are done.
- Render.CompositeLogo: when the block does not fit, OpenCV raises an error nothing catches. The model returns `placed == false` with the canvas unchanged instead of aborting.
- Render.CompositeLogo: the logo is taken to be 200 x 200, its size after start-up. Other sizes are not modelled.
- Command-line handling, `usage`, `main` and file reading are I/O glue and are not modelled. That includes the 1023-character `getline` limit. Only the empty-line filter is modelled (`Label.NonEmptyLines`).

## Findings

| source | as written | input that shows it | evidently intended | confidence | as-written member | corrected member |
|---|---|---|---|---|---|---|
| main.cpp:141-143 | after the loop, `pthread_join` is called on all `thread_cnt` slots | any run. With 1 line and `thread_cnt` 1, slot 0 was already joined by the cohort join. With 1 line and `thread_cnt` 2, slot 1 never held a thread. After the loop the slot at `thread_idx` is always joined or empty | join only the slots `[0, thread_idx)` of the last, partial cohort | not executed | Scheduler.TrailingJoinAsWrittenUndefined | Scheduler.ThreadPool.JoinLaunched |
