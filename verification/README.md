# Particle fluid with a live shader console — a Dafny model of its core

The program runs a 2D particle fluid. Each frame rebuilds a uniform-grid
neighbour index, and each particle's density pass reads its neighbours
from that index. The same window renders through a stack of views. A
console thread lets the user edit the active view's fragment shader line
by line while it runs.

This project models the structural core of both halves. All of it is pure
functions and small methods over immutable data.

- `spatial_index.dfy` (module `SpatialIndex`): the neighbour index of
  `src/main.cpp`.
  - Grid cells and `Discretize` (the floor of position times the inverse
    cell size).
  - The 9 or 27 neighbourhood offsets, built by the constructor's nested
    loops.
  - `Insert`, `Clear` and the `Neighbors` query. `Neighbors` appends the
    buckets in offset order to the caller's list, so a query result is a
    sequence. That it holds no duplicates after a rebuild is
    `QueryNoDuplicates`.
  - The hash table of buckets is a map from cells, because the hash only
    decides where a bucket is stored.
- `spatial_hash.dfy` (module `SpatialHash`): the Teschner bucket hash.
  Unsigned 32-bit values are naturals below 2^32. Each wrap-around is
  written as a remainder, and exclusive or is a bitwise function on
  naturals.
- `simulation.dfy` (module `Simulation`): the parts of `init()` and
  `step()` that create particles and use the index.
  - The initial block of 21 x 21 grid points, with the particle-count cap.
    `init(N)` adds grid points while the count does not exceed N, so from
    empty it creates `min(441, N + 1)` particles; `init(0)` creates one.
  - The index rebuild at every step.
  - The density pass's neighbour filter: it skips the particle itself and
    keeps candidates within the radius of support.
  - Particles are named by their position in the particle sequence, which
    stands for the particle addresses the index stores.
- `lines.dfy` (module `Lines`): a reference notion of the lines of a text
  (`Split` and `Join`, and their laws). The console's line functions are
  proved against it.
- `line_edit.dfy` (module `LineEdit`): `getLineFromEnd` and
  `replaceLineFromEnd` of `src/gl-windows.cpp`.
  - Both are written as the same backward scans the code performs,
    including the step over a `'\r'` before a `'\n'`.
  - A text that begins with `"\r\n"` is outside the scans' domain
    (`NoWrap`). On some such texts the unsigned index wraps.
- `repl.dfy` (module `Repl`): the console's key handling in `runREPL`.
  - The typed input and the history index.
  - Enter (append a line, or overwrite the selected line with the
    replacer as written), backspace, printable characters, escape, UP and
    DOWN.
  - Page keys, which are forwarded to the window.
  - The reaction to a view switch.
- `views.dfy` (module `Views`): the viewer's bookkeeping.
  - The view stack and the active view.
  - PAGEUP and PAGEDOWN.
  - The hot-reload rule: a pending shader is committed only if it
    compiles. Compilation is an oracle parameter.
  - The texture-unit counters of `createGLImage`, `createGLFramebuffer`
    and `pushGLView`.
- `wrappers.dfy` (module `Wrappers`): `Option`.

## Model

| member | source | states |
|---|---|---|
| SpatialIndex.BuildOffsets | src/main.cpp:127-134 | The constructor's loops give 9 offsets in 2D mode and 27 in 3D mode. The n-th offset is the n-th step of the i, j (, k) loops. No offset repeats. An offset is listed exactly when each coordinate lies in -1..1 (z = 0 in 2D). The zero offset is among them. |
| SpatialIndex.OffsetAtInverse | src/main.cpp:128-134 | Every loop position yields a neighbourhood offset, and the position can be recovered from that offset. |
| SpatialIndex.OffsetIndexInverse | src/main.cpp:128-134 | Every neighbourhood offset occurs at some loop position. |
| SpatialIndex.OffsetsCharacterized | src/main.cpp:127-134 | A table listing the offsets in loop order holds each neighbourhood offset exactly once, and nothing else. |
| SpatialIndex.NewIndex | src/main.cpp:118-135 | A new index has no buckets. Its stored inverse times the cell size is 1. Its offsets are exactly the neighbourhood of its mode, without repeats, in the constructor's loop order. |
| SpatialIndex.Insert | src/main.cpp:137-140 | The item is appended at the end of the bucket of its position's cell. Every other bucket, the offsets and the cell size are unchanged. |
| SpatialIndex.Clear | src/main.cpp:155-158 | Every bucket is empty afterwards. The offsets and the cell size are kept. |
| SpatialIndex.Neighbors | src/main.cpp:142-153 | The caller's list is kept as a prefix. The query appends the buckets of the query cell plus each offset, in offset order. A cell without a bucket adds nothing. |
| SpatialIndex.GatherCleared | src/main.cpp:142-158 | After `Clear`, a query appends nothing. |
| SpatialIndex.BucketsAfterInsertAll | src/main.cpp:137-158 | After clearing and inserting a sequence of entries, each cell's bucket holds exactly the items entered at that cell, in insertion order. |
| SpatialIndex.ItemsAtCount | src/main.cpp:137-140 | With distinct items, an entered item occurs once in the bucket of its own cell and in no other bucket. |
| SpatialIndex.GatherCount | src/main.cpp:142-153 | An item held once, in one bucket only, is gathered once if that bucket's cell is visited, and otherwise never. |
| SpatialIndex.GatherMissing | src/main.cpp:142-153 | An item that is in no bucket is never gathered. |
| SpatialIndex.QueryFindsNeighbors | src/main.cpp:127-153 | Locality: after a rebuild with distinct items, a query returns an entered item exactly once if its cell is in the neighbourhood of the query cell, and not at all otherwise. |
| SpatialIndex.QueryOnlyEntered | src/main.cpp:137-153 | A query never returns an item that was not entered. |
| SpatialIndex.FloorLocality | src/main.cpp:177-180 | Two coordinates less than one cell size apart are discretized to the same cell coordinate or to adjacent ones. |
| SpatialIndex.CloseCellsAreNeighbors | src/main.cpp:177-180 | Two points less than a cell size apart on every axis get cells within each other's 3D neighbourhood. |
| SpatialHash.ProductWraps | src/main.cpp:168-171 | A signed coordinate times an unsigned prime, with the coordinate converted to unsigned first, is the integer product reduced modulo 2^32. |
| SpatialHash.XorBits | src/main.cpp:171 | Each bit of the combined value is set exactly when the operands' bits differ. |
| SpatialHash.XorBelow | src/main.cpp:171 | The exclusive or of two values below 2^k is below 2^k. |
| SpatialHash.HashWidth | src/main.cpp:161-172 | The hash is a value between 0 and 2^32 - 1. |
| SpatialHash.HashFlat | src/main.cpp:166-172 | For a cell with z = 0, as every cell of the 2D simulation has, the hash combines only the x and y terms. |
| SpatialHash.ProductsInjective | src/main.cpp:168-171 | Two coordinates with the same product modulo 2^32, for any of the three primes, have the same 32-bit value. |
| SpatialHash.HashCollides | src/main.cpp:166-182 | The hash itself is not injective: the cells (1, 0, 0) and (0, 238370179, 0) collide. So the table must compare cells, and a map from cells is a faithful model. |
| Simulation.Init | src/main.cpp:82-105 | Each grid point is added while the particle count does not exceed N. Existing particles stay as a prefix. The result has `min(441, N + 1 - existing)` new particles, or none if the count already exceeds N. From empty that is `min(441, N + 1)`. The k-th new particle sits at the k-th grid point in row-by-row order. Its previous position is jittered by a thousandth of the noise, its force is zero, sigma is 3 and beta is 4. |
| Simulation.GridCoversRanges | src/main.cpp:86-89 | The row and column loops, stepping by r/2 from -w (x) and from bottom + w (y), visit exactly 21 values, both ends included. |
| Simulation.GridPointInBlock | src/main.cpp:86-97 | Every grid point lies inside the block the loops bound. |
| Simulation.Entries | src/main.cpp:255-258 | The rebuild enters each particle once, in particle order, at its position in the plane z = 0. |
| Simulation.Rebuild | src/main.cpp:253-258 | The index after clearing and inserting every particle. Offsets and cell size are kept. Each bucket lists the particles in its cell, in particle order. |
| Simulation.EntriesDistinct | src/main.cpp:255-258 | No particle is entered twice. |
| Simulation.RebuiltValid | src/main.cpp:253-258 | Every bucket item of the rebuilt index names an existing particle. |
| Simulation.GatherValid | src/main.cpp:273-275 | Everything a query over such an index returns names an existing particle. |
| Simulation.FilterNeighbors | src/main.cpp:276-311 | The density loop computes the reference filter `KeepNeighbors`. Its result never contains particle i. Every particle it keeps passes the distance test. |
| Simulation.KeepSound | src/main.cpp:276-291 | The filter keeps only particles other than i that pass the distance test. |
| Simulation.KeepCount | src/main.cpp:276-311 | A candidate other than i that passes the test is kept as often as it occurs among the candidates. Every other particle is kept zero times. |
| Simulation.KeepIsSubsequence | src/main.cpp:276-311 | The kept neighbours appear in candidate order: they form a subsequence of the query result. |
| Simulation.DensityNeighbors | src/main.cpp:273-311 | A particle's neighbour list is the filter applied to the query at its position. It excludes the particle itself and keeps only particles that pass the distance test. |
| Simulation.CloseParticlesNeighborCells | src/main.cpp:285-291 | Two particles whose squared distance is below r^2 get cells in each other's 2D neighbourhood when the cell size is r. |
| Simulation.DensityFindsAllWithinRadius | src/main.cpp:253-291 | Completeness: after the rebuild with cell size r, the density pass lists every other particle within the radius of support exactly once. |
| Simulation.QuerySeesSelfOnce | src/main.cpp:275-282 | The query at a particle's own position returns that particle exactly once. This is why the loop skips it. |
| Simulation.QueryNoDuplicates | src/main.cpp:253-275 | After the rebuild, no query returns a particle more than once. |
| LineEdit.GetLineFromEnd | src/gl-windows.cpp:663-680 | The fetched line never contains a line feed. An empty text yields "" and leaves the out-of-bounds flag unwritten. |
| LineEdit.GetLineFromEndLines | src/gl-windows.cpp:663-680 | Let L be the n lines of a non-empty, line-feed-only text, after dropping one leading line feed. Index l < n fetches line L[n-1-l] and does not flag out of bounds. A larger index flags out of bounds and fetches the first line. |
| LineEdit.ReplaceLineFromEndAsWritten | src/gl-windows.cpp:685-704 | An empty text is returned unchanged. The replaced range, which starts one past the loop index, is characterised by ReplaceAgreesOnLfOnly and CrlfReplaceLosesLineFeed. |
| LineEdit.ReplaceLineFromEnd | src/gl-windows.cpp:685-704 | An empty text is returned unchanged. The replaced range, which starts just after the line feed, is characterised by ReplaceLineFromEndLines and ReplaceGetRoundTrip. |
| LineEdit.ReplaceAgreesOnLfOnly | src/gl-windows.cpp:690-702 | On line-feed-only text, the replacer as written and the corrected one give the same result. |
| LineEdit.ReplaceOutOfRange | src/gl-windows.cpp:701-703 | An index past the last line leaves the text unchanged, for both replacers. |
| LineEdit.ReplaceLineFromEndLines | src/gl-windows.cpp:685-704 | Take a line-feed-only text that does not start with a line feed, and a replacement line without line feeds. Replacing line li (counted from the end) changes exactly that line: the new text's lines are the old n lines with entry n-1-li replaced. |
| LineEdit.ReplaceLineFromEndJoin | src/gl-windows.cpp:685-704 | The same result, stated on the text: it is the join of the edited lines. |
| LineEdit.ReplaceGetRoundTrip | src/gl-windows.cpp:663-704 | Writing back the fetched line leaves the text unchanged. This holds for every accepted text that does not begin with a line feed, carriage returns included. |
| LineEdit.ReplaceGetRoundTripLfOnly | src/gl-windows.cpp:663-704 | The replacer as written has the same round trip on line-feed-only text. |
| LineEdit.CrlfReplaceLosesLineFeed | src/gl-windows.cpp:690-702 | On "a\r\nb", fetching and writing back the last line with the replacer as written gives "a\rb". The corrected replacer gives back "a\r\nb". |
| Repl.FindFirstNotSpaceFinds | src/gl-windows.cpp:815 | The search finds the first non-space character. It reports none exactly when the string is all spaces. |
| Repl.TrimDropsLeadingSpaces | src/gl-windows.cpp:815 | Erasing up to the first non-space leaves a suffix that is empty or starts with a non-space. Only spaces are dropped. An all-space string becomes empty. |
| Repl.TrimIdempotent | src/gl-windows.cpp:815 | Trimming twice is the same as trimming once. |
| Repl.OnKey | src/gl-windows.cpp:759-839 | Key-up events change nothing. Escape, and only escape, ends the loop. A source is submitted exactly when Enter is pressed with non-empty input. PAGEUP and PAGEDOWN, and only they, are forwarded, with their own code. Enter uses the line replacer as written. |
| Repl.TypeThenBackspace | src/gl-windows.cpp:780-792 | A printable character followed by backspace restores the console. |
| Repl.UpAdvances | src/gl-windows.cpp:804-818 | When the next line up exists, UP moves the index up by one and shows that line without its leading spaces. |
| Repl.UpStays | src/gl-windows.cpp:804-818 | At the first line, UP keeps the index and shows the first line. |
| Repl.UpOnEmptySource | src/gl-windows.cpp:804-818 | On an empty source the fetch never writes its flag, so UP increments the index without bound and shows nothing. |
| Repl.DownShows | src/gl-windows.cpp:819-838 | From an index above 1, DOWN moves the index down by one and shows the line at the new index. |
| Repl.DownToEnd | src/gl-windows.cpp:819-838 | DOWN at index 0 does nothing. From index 1 it clears the input and returns to index 0. |
| Repl.UpThenDown | src/gl-windows.cpp:804-838 | DOWN undoes UP. The index returns to where it was, and the input shows that line again (or is cleared at index 0). |
| Repl.EnterEmptyInput | src/gl-windows.cpp:765-779 | Enter with nothing typed submits nothing and changes nothing. |
| Repl.EnterAppendsLine | src/gl-windows.cpp:765-771 | Enter at index 0 submits the source plus two spaces, the input and a line feed. In terms of lines, the last line is extended by the indented input and a new empty line follows. The console resets. |
| Repl.EnterReplacesLine | src/gl-windows.cpp:772-777 | On a line-feed-only source, Enter at an index that names a line submits the source with exactly that line replaced by the input. The index returns to 0. |
| Repl.EnterOnCrlfSource | src/gl-windows.cpp:772-777 | On "a\r\nb\n" with "z" typed at index 1, Enter submits "a\rz\n": the line feed before the line is lost. The corrected replacer would give "a\r\nz\n". |
| Repl.EnterPastLastLine | src/gl-windows.cpp:772-777 | Enter at an index past the last line submits the source unchanged, so the typed line is lost. |
| Repl.OnKeyKeepsValid | src/gl-windows.cpp:759-839 | On a non-empty line-feed-only source, every key event keeps the input free of line breaks and the index within the source's lines. Every submitted source is line-feed-only again. |
| Repl.InitialValid | src/gl-windows.cpp:717-718 | The console starts with empty input at index 0, which is valid for any source. |
| Repl.OnViewChangeAsWritten | src/gl-windows.cpp:731-740 | A view switch discards the input but keeps the history index. |
| Repl.OnViewChange | src/gl-windows.cpp:731-740 | The corrected switch leaves a console that is valid for every source. |
| Repl.ViewChangeDropsInput | src/gl-windows.cpp:731-777 | Take an index valid in one view. After a switch to the view with source "x\n", that index is no longer valid. The next typed line is then dropped by Enter. With the corrected switch it is appended. |
| Views.NatToStringDenotes | src/gl-windows.cpp:1118-1120 | The unit number written into a sampler declaration is a string of decimal digits with no leading zero, and it denotes the number. |
| Views.NatToStringInjective | src/gl-windows.cpp:1118-1120 | Different units get different numerals. |
| Views.Submit | src/gl-windows.cpp:765-777 | The console's source becomes the active view's pending source and the reload flag is raised. The active view, the unit count and the number of views are unchanged, and nothing else in any view changes. |
| Views.HotReload | src/gl-windows.cpp:601-632 | The flag is always lowered afterwards. The active view, the unit count and the number of views are unchanged. |
| Views.SubmitThenReload | src/gl-windows.cpp:601-632 | A submitted source becomes the active view's source exactly when it compiles with the view's uniforms. Otherwise the old source stays. Other views are untouched. |
| Views.HotReloadIdempotent | src/gl-windows.cpp:601-632 | A second reload changes nothing. |
| Views.HotReloadKeepsCompiling | src/gl-windows.cpp:606-615 | If every committed source compiles, the same holds after a reload. |
| Views.PageUp | src/gl-windows.cpp:335-337 | PAGEUP selects a view that exists and leaves the views themselves unchanged. |
| Views.PageDown | src/gl-windows.cpp:338-340 | PAGEDOWN selects a view that exists and leaves the views themselves unchanged. |
| Views.PageKeysInverse | src/gl-windows.cpp:334-340 | PAGEDOWN undoes PAGEUP, and PAGEUP undoes PAGEDOWN. |
| Views.PageKeysMoveOnlyActive | src/gl-windows.cpp:334-340 | The page keys change only the active view. With more than one view, each key always moves it. |
| Views.OnWindowKey | src/gl-windows.cpp:334-342 | A key other than the two page keys changes nothing. The view stack keeps its size. |
| Views.CreateImage | src/gl-windows.cpp:1107-1153 | The image is refused, leaving everything unchanged, exactly when every unit is taken. A count within the device's units stays within them. The active view and the number of views are kept. |
| Views.CreateImageUnits | src/gl-windows.cpp:1107-1153 | With every unit taken, the image is refused and nothing changes. Otherwise the image takes the next unit, and the view's count grows by one. The view's offset is set only the first time. A sampler "img<unit>" is declared at that unit. Other views are untouched. |
| Views.CreateImageKeepsUnits | src/gl-windows.cpp:1110-1152 | Creating an image keeps the units in bounds: the global count stays within the device's units, and each view's unit range lies below it. |
| Views.AddFramebufferImages | src/gl-windows.cpp:226-259 | The color and depth images take two units: the global count and the active view's framebuffer count both grow by two. Other views are untouched. |
| Views.CreateFramebufferAsWritten | src/gl-windows.cpp:218-259 | The framebuffer as written is refused exactly when no unit is free. When accepted it takes two units. |
| Views.CreateFramebufferAsWrittenUnits | src/gl-windows.cpp:218-259 | As written, every view's range stays below the count, but the count can reach one past the number of units. |
| Views.FramebufferOverrunsUnits | src/gl-windows.cpp:218-259 | With one unit left, the framebuffer as written declares DEPTHMAP at unit maxUnits, which does not exist, and breaks the bound. The corrected one refuses. |
| Views.CreateFramebuffer | src/gl-windows.cpp:218-259 | The corrected framebuffer is refused exactly when fewer than two units are free. When accepted it takes two units, and a count within the device's units stays within them. |
| Views.CreateFramebufferKeepsUnits | src/gl-windows.cpp:218-259 | The corrected framebuffer keeps the units in bounds. |
| Views.PushView | src/gl-windows.cpp:1158-1167 | The stack grows by one, and the new top view is the active one. The framebuffer is the one as written. |
| Views.PushViewGrows | src/gl-windows.cpp:1158-1167 | The stack grows by one default view, which becomes active. The views below are untouched. If one unit is free, the framebuffer's two images go to the new view, starting at the old count. Otherwise no unit is taken. |
| Views.PushViewUnits | src/gl-windows.cpp:1158-1167 | As written, a push keeps each view's units below the count, but the count can reach one past the number of units. |
| Views.PushViewOverrunsUnits | src/gl-windows.cpp:1158-1167 | With one unit left, the push as written puts the framebuffer at units maxUnits - 1 and maxUnits and breaks the bound. With four of five units taken the count becomes six. The corrected push takes no unit. |
| Views.PushViewChecked | src/gl-windows.cpp:1158-1167 | The corrected push grows the stack by one, and the new top view is the active one. |
| Views.PushViewCheckedGrows | src/gl-windows.cpp:1158-1167 | The corrected push adds the same default view, but gives it the framebuffer's two units only when two are free. |
| Views.PushViewKeepsUnits | src/gl-windows.cpp:1158-1167 | The corrected push keeps the units in bounds. |
| Views.StartUnitsOk | src/gl-windows.cpp:141-164 | The initial single default view satisfies the unit bounds. |
| Views.SubmitKeepsUnits | src/gl-windows.cpp:765-777 | Submitting a source keeps the unit bounds. |
| Views.ReloadAndPagesKeepUnits | src/gl-windows.cpp:601-632 | Reloads and the page keys keep the unit bounds. |

## Left out

- GL calls, window and console output, the status line, `clearConsole` and `printREPLIntro`. They affect no modelled state.
- The Ctrl+S and Ctrl+O file dialogs of the console (src/gl-windows.cpp:840-888). They are file I/O behind blocking system dialogs.
- Concurrency. The console runs on its own thread and shares `inputThreadFlag_` and the view states with the render loop. The simulation's passes are `omp parallel for` loops. The model treats each event and each pass as one atomic step.
- The numerics of the step: integration, boundary and attractor forces, the kernel weights, pressure and viscosity. The model keeps only the neighbour structure they read.
- Simulation.Init: the particle fields it does not set (velocity, mass, densities, pressures, colour) are not modelled. The two `rand01()` draws per particle become the `noise` parameter.
- Simulation.Init: the float loop counters are modelled exactly. The grid values are multiples of 1/4, so the float sums are exact and the loops visit 21 values each.
- SpatialIndex.Discretize: uses exact real arithmetic. Float rounding of `pos * invCellSize` near cell boundaries is not modelled, so the completeness results (`DensityFindsAllWithinRadius`, `CloseCellsAreNeighbors`) hold for exact arithmetic only.
- SpatialIndex.NewIndex: requires a non-zero cell size. The source computes `1.0f / cellSize` and would store infinity, which reals cannot represent. The program only uses cell size r = 2.5.
- The bucket count 4093 and the placement of buckets in the hash table. The map model depends only on cells, and the hash decides only where a bucket lives.
- SpatialHash.ProductsInjective: injectivity is stated per axis. The whole hash is shown non-injective by a collision, not characterised further.
- The 32-bit wrap-around of the unsigned history index. `UpOnEmptySource` shows the index can grow without bound. Wrapping needs 2^32 UP presses, so the model uses unbounded naturals.
- Non-key console events and the batch of up to 128 input records: the model handles one key event at a time. The `break` on escape is the `quit` flag.
- LineEdit.GetLineFromEndLines: the line-level characterisation is stated for line-feed-only text. On text with carriage returns only the round trip (`ReplaceGetRoundTrip`) and the CRLF counterexample are stated.
- LineEdit.NoWrap: texts that begin with "\r\n" are outside the line functions' domain. On such a text, a scan that reaches the line feed at index 1 without having found the wanted line steps its unsigned index from 0 to 2^32 - 1, and its next read `s[i]` is out of range. The exclusion is wider than that: when the wanted line ends at that line feed, the code returns normally (line 0 of "\r\nab" is "ab").
- Framebuffer handles, texture formats, the completeness check that exits the process (src/gl-windows.cpp:274-298), and `assert(initialized_)`.

## Findings

| source | as written | input that shows it | evidently intended | confidence | as-written member | corrected member |
|---|---|---|---|---|---|---|
| src/gl-windows.cpp:690-702 | After a CRLF break the loop index has already moved onto the `'\r'`, and the replaced range starts one past it, on the `'\n'`. | Writing back the fetched last line of "a\r\nb" gives "a\rb". Enter with "z" at index 1 of "a\r\nb\n" submits "a\rz\n". | The range starts after the line feed, so that writing back a fetched line changes nothing. | not executed | LineEdit.CrlfReplaceLosesLineFeed | LineEdit.ReplaceGetRoundTrip |
| src/gl-windows.cpp:218-259 | `createGLFramebuffer` checks that one unit is free and then takes two. | Pushing a view with maxUnits - 1 units taken: DEPTHMAP is declared at unit maxUnits and the count becomes maxUnits + 1. | The framebuffer is refused unless two units are free. | not executed | Views.PushViewOverrunsUnits | Views.PushViewKeepsUnits |
| src/gl-windows.cpp:731-740 | A view switch discards the input but keeps the history index, which then counts lines of another view's source. | Index 2 selected in "a\nb\nc\n", then a switch to "x\n": the next typed line "y" is dropped by Enter. | The index is reset with the input, so the line is appended. | not executed | Repl.ViewChangeDropsInput | Repl.OnViewChange |

The console and the view stack keep the code's behaviour. Enter uses the
replacer as written, and `Repl.EnterOnCrlfSource` shows the first finding
at the console. `Views.PushView` uses the framebuffer as written. The
corrected definitions sit beside them: `LineEdit.ReplaceLineFromEnd`,
which agrees with the console's on line-feed-only text
(`LineEdit.ReplaceAgreesOnLfOnly`), and `Views.PushViewChecked`.
