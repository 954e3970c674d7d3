# fx browser state in Dafny

fx is a small X11 directory browser. This project models its browser state,
the `window_context` class of `src/window_context.cpp`, without any X11 or
operating-system calls:

- **Name order.** `str_cmp` compares names byte by byte as plain (signed)
  `char`. `partition` and `quicksort` sort the children array in place with
  Hoare partitioning, re-reading the pivot through its pointer.
  See `ordering.dfy` and `quicksort.dfy`.
- **Path canonicalizer.** `path_join` edits the length-tracked path buffer in
  place, for `.`, `..`, the root and a plain append. See `paths.dfy`.
- **Permission heuristic.** `has_permission` decides access from the POSIX
  mode bits and the identity captured at start-up. See `permission.dfy`.
- **Browser state.** `browser.dfy` defines the state as a value and gives
  each handler a function on it:
  - `read_child_dirs` loads up to 1024 names, probes each with `stat`,
    writes the sentinel and sorts.
  - `redraw` does layout only: it records each drawn row's bottom and sets
    `max_y`, `can_scroll` and `max_scrollrow`.
  - The handlers themselves: `navigate`, the click loop and the wheel of
    `on_button_press`, `on_motion`, `on_key_press`, `set_debug_mode`,
    `on_expose` and `get_selected_segment`.
  - Lemmas about these functions state what the browser promises.
- **The class.** `window.dfy` holds the `WindowContext` class. It keeps the
  path buffers and the children as arrays, and its methods do what the C++
  member functions do, step by step. Each method is proved to take the
  abstract state `Abs()` where the matching function of `browser.dfy` says,
  and to keep the invariant `Valid()`.

**Operating-system calls.**
- The operating system is the value `FileSystem`:
  - `listing[p]` is what `opendir`/`readdir` yield at path `p`.
  - `stats[p]` is what `stat` answers for `p`.
  - A missing key is a failed call.
- `check_error`'s `throw errno` becomes an `Err`/`Fail` result carrying the
  failing path.
- The open directory stream is the sequence of names `readdir` would still
  return.

**Arithmetic and comparison details the model keeps.**
- **Signed bytes.** `str_cmp` compares `char` values, and `char` is signed
  on the x86-64 Linux target assumed here. So a name with a byte from 128 to
  255 sorts before an ASCII name at that position.
- **`size_t` division.** `ROW_HEIGHT` is a `size_t`
  (include/window_context.h:15), so `(mouse_y - 10) / ROW_HEIGHT` and
  `(height - 20) / ROW_HEIGHT` are unsigned 64-bit divisions whose result
  is converted back to `int`.
  - For a pointer over the header band (y 0-9), the row is -1321528400 or
    -1321528399, not 0.
  - A window lower than 20 pixels gets a large negative `screen_rows`.
  - `DivRowHeight` models this (LP64, GCC's modulo conversion).
- **Click zone.** A click hits an entry when it lies in `[y_bot - 10,
  y_bot]`, which is narrower than the row height.
- **Back-buffer hysteresis.** A shrink to exactly a quarter of `max_area`
  reallocates, because the comparison is `new_area * 4 <= max_area`.
- **Growth test.** Growth is judged against the previous window size, not
  against the buffer.

## Model

| member | source | states |
|---|---|---|
| Ordering.Signed | src/window_context.cpp:30-31 | a byte read as plain `char` is in [-128, 128) and congruent to the byte modulo 256 |
| Ordering.Compare | src/window_context.cpp:26-48 | the comparison yields -1, 0 or 1, and two empty names are equal |
| Ordering.StrCmp | src/window_context.cpp:26-48 | the loop over the common prefix returns exactly `Compare`, the reference order |
| Ordering.CompareZeroIffEqual | src/window_context.cpp:40-47 | `str_cmp` is 0 exactly when the two names are the same bytes |
| Ordering.CompareAntisymmetric | src/window_context.cpp:26-48 | `str_cmp(a, b) == -str_cmp(b, a)` |
| Ordering.CompareTransitive | src/window_context.cpp:26-48 | "at most" under `str_cmp` is transitive, so it is a total preorder the sort can rely on |
| Ordering.CompareFirstDifference | src/window_context.cpp:29-38 | after a common prefix, the first differing byte decides, compared as signed `char` |
| Ordering.ComparePrefix | src/window_context.cpp:40-41 | a proper prefix sorts before the longer name |
| Ordering.LeTotal | src/window_context.cpp:26-48 | any two entries are ordered one way or the other |
| Ordering.LeBothWays | src/window_context.cpp:40-47 | entries ordered both ways have the same name |
| Ordering.SortByName | src/window_context.cpp:75-83 | the reference sort (insertion by name) is a permutation of its input |
| Ordering.SortByNameSorted | src/window_context.cpp:75-83 | the reference sort's output is sorted under `str_cmp` |
| Ordering.SortedUnique | src/window_context.cpp:46-47 | two sorted permutations of the same names, with distinct names, are equal: for a real directory the sorted order is unique |
| Ordering.SortedIsSortByName | src/window_context.cpp:75-83 | any sorted permutation of distinctly named entries equals the reference sort |
| Ordering.DistinctNamesPermuted | src/window_context.cpp:46-47 | permuting entries keeps their names pairwise distinct |
| Paths.LastSlash | src/window_context.cpp:406-408 | the backward scan stops at the last '/', or at 0 when there is none after index 0 |
| Paths.FindLastSlash | src/window_context.cpp:406-408 | the `while (slashpos && wd[--slashpos] != '/')` loop returns `LastSlash` of the path |
| Paths.Copy | src/window_context.cpp:401 | `memcpy` writes the bytes at the offset and leaves the rest of the buffer as it was |
| Paths.PutName | src/window_context.cpp:401-403 | the name is written after the first `at` bytes and NUL-terminated |
| Paths.CutLast | src/window_context.cpp:404-417 | `..` cuts the path at its last '/', keeping "/" when that slash is the root, and NUL-terminates it |
| Paths.PathJoin | src/window_context.cpp:390-424 | the buffer's first `wd_len` bytes become `Join(old path, name)`, the new length is that path's length, and the NUL stays at its end |
| Paths.Join | src/window_context.cpp:390-424 | the joined path is never empty, is at most the path, a '/' and the name long, and `..` never lengthens it |
| Paths.JoinCanonical | src/window_context.cpp:390-424 | joining a valid name onto an absolute path without a trailing or doubled '/' yields such a path again |
| Paths.JoinParentRoundTrip | src/window_context.cpp:394-423 | joining a child name and then `..` gives back the original path |
| Paths.JoinParentStripsLastComponent | src/window_context.cpp:404-417 | `..` removes exactly the last component; "/" remains when only one component was left |
| Paths.JoinExamples | src/window_context.cpp:390-424 | `"/"+"etc" = "/etc"`, `"/etc"+".." = "/"`, `"/a/b"+".." = "/a"`, `"/"+".." = "/"`, `"/a"+"." = "/a"` |
| Permissions.GrantsBit | src/window_context.cpp:441-447 | each `S_I[RX](USR\|GRP\|OTH)` constant is the bit of the mode for that class and right |
| Permissions.HasPermissionIsPermitted | src/window_context.cpp:441-447 | access holds iff some applicable class (other always, owner on uid match, group on gid match) grants execute for a directory, read otherwise |
| Permissions.HasPermissionMonotone | src/window_context.cpp:441-447 | adding permission bits never removes access |
| Permissions.HasPermissionExamples | src/window_context.cpp:441-447 | 0755 directories open to all; 0700 only to the owner; 0644 files read by all; a 0440 file read by its owner and group but not by others |
| Quicksort.ScanUp | src/window_context.cpp:57-59 | the `do i++ while (a[i] < *pivot)` scan stops at the first element not below the current `a[lo]`, past only smaller ones |
| Quicksort.ScanDown | src/window_context.cpp:61-63 | the `do j-- while (a[j] > *pivot)` scan stops at the first element not above `a[lo]`, never below `lo` |
| Quicksort.Swap | src/window_context.cpp:69-71 | the two slots exchange their entries and nothing else changes |
| Quicksort.Partition | src/window_context.cpp:50-73 | returns `p` with `lo <= p < hi`, both scans reading inside `[lo, hi]` only; the range is permuted, the outside unchanged, and every element of `a[lo..p]` is at most every element of `a[p+1..hi]`, with the pivot re-read after each swap |
| Quicksort.PartitionDone | src/window_context.cpp:65-67 | when the scans cross, `j` splits the range into a lower and an upper part |
| Quicksort.SwapRestores | src/window_context.cpp:51 | after a swap the scan invariants hold again, including the first swap, which moves the pivot slot's entry |
| Quicksort.Quicksort | src/window_context.cpp:76-83 | `a[lo..hi]` ends sorted and a permutation of its old contents; outside it nothing changes; out-of-range bounds change nothing |
| Quicksort.Combine | src/window_context.cpp:78-81 | two sorted halves of a partition compose to a sorted permutation of the whole range |
| BrowserState.ToInt32 | src/window_context.cpp:245-246 | the conversion to `int` keeps the value modulo 2^32 |
| BrowserState.DivRowHeight | src/window_context.cpp:347 | for a non-negative `int` the unsigned division is ordinary division by 13 |
| BrowserState.Row | src/window_context.cpp:245-246 | at or below the header the row is `(y - 10) / 13` |
| BrowserState.ScreenRows | src/window_context.cpp:347 | `screen_rows` is negative under 20 pixels and, clamped at 0, is the number of rows that fit |
| BrowserState.HeaderRows | src/window_context.cpp:245-246 | over the header, y 0-6 gives row -1321528400 and y 7-9 gives -1321528399 |
| BrowserState.ShortWindowRows | src/window_context.cpp:347 | heights 0-3, 4-16 and 17-19 give `screen_rows` -1321528401, -1321528400 and -1321528399 |
| BrowserState.SmallNegativeQuotient | src/window_context.cpp:245-246 | a numerator in [-29, 0) converted to `size_t` and divided by 13 gives one of those three values |
| BrowserState.RowFits | src/window_context.cpp:306 | screen row `j` passes the `y > height - 10` test iff it is below the number of rows that fit |
| BrowserState.RedrawSpec | src/window_context.cpp:300-349 | redraw changes only the row bottoms, `max_y`, `can_scroll` and `max_scrollrow`; every slot keeps its name |
| BrowserState.Drawn | src/window_context.cpp:303-308 | every drawn slot is named and the last drawn row still tops the status line; when drawing stops early, the next slot is the sentinel or its row would cross the status line |
| BrowserState.DrawnNamesOnly | src/window_context.cpp:303-308 | how many rows are drawn depends on the names only, not on stale row bottoms |
| BrowserState.RedrawIdempotent | src/window_context.cpp:300-349 | a second redraw changes nothing |
| BrowserState.RedrawIgnoresDisplayFlags | src/window_context.cpp:300-349 | layout ignores the status, the debug flag and the pointer, which only affect painting |
| BrowserState.RedrawKeepsWf | src/window_context.cpp:300-349 | redraw keeps the state invariant |
| BrowserState.Count | src/window_context.cpp:286-289 | the entry count is the index of the sentinel (or 1024) |
| BrowserState.DrawnCount | src/window_context.cpp:303-308 | the rows drawn from slot `i` at screen row `j` are `min(entries left, rows that fit below j)` |
| BrowserState.RedrawRows | src/window_context.cpp:300-349 | `max_y` is the bottom below the last drawn row, `max_scrollrow = scrollrow + drawn - screen_rows + 2`, and each drawn slot records the bottom of its own row |
| BrowserState.DrawnFromScrollRow | src/window_context.cpp:303-308 | from the scroll row, the rows drawn are `min(entries below it, rows that fit)` |
| BrowserState.PlacedRows | src/window_context.cpp:329 | `y_bot` of each drawn slot is the bottom of its screen row, and the rest of the slot is kept |
| BrowserState.ScrollSpec | src/window_context.cpp:208-220 | a wheel event keeps the window, buffer, identity, path and status, and moves the scroll row by one at most: up only while `can_scroll`, down only while `can_scroll` and below `max_scrollrow` |
| BrowserState.WheelRow | src/window_context.cpp:208-220 | wheel-up lowers the row by at most one; wheel-down raises it by one exactly when it is below `max_scrollrow` |
| BrowserState.ScrollClamp | src/window_context.cpp:208-220 | when two screen rows fit, from a laid-out screen whose scroll row is in range, a wheel step moves the scroll row by at most one, only while `can_scroll`: down only below `max_scrollrow`, never below 0; the screen stays laid out and in range |
| BrowserState.ScrollKeepsWf | src/window_context.cpp:208-220 | wheel events keep the invariant |
| BrowserState.RescrollKeepsLayout | src/window_context.cpp:208-220 | redrawing at another scroll row keeps the entries and the height |
| BrowserState.MaxScrollRowBound | src/window_context.cpp:345-349 | on a laid-out screen `max_scrollrow <= entries - screen_rows + 2` |
| BrowserState.ScrollSequenceClamped | src/window_context.cpp:208-220 | no sequence of wheel events takes the scroll row past `max(0, entries - screen_rows + 2)` when two rows fit |
| BrowserState.OverScrollShortWindow | src/window_context.cpp:213-219 | with one row on screen, wheel-down can move the scroll row past the last entry, onto a stale slot behind the sentinel, which redraw then lays out |
| BrowserState.ShortWindowWheelDown | src/window_context.cpp:208-220 | when no row fits (height under 33), every wheel-down press advances the scroll row by one and the screen stays laid out |
| BrowserState.ShortWindowScrollsOn | src/window_context.cpp:213-219 | in such a window, `k` wheel-down presses advance the scroll row by `k`, without bound |
| BrowserState.Fill | src/window_context.cpp:267-284 | the loop takes `min(names left, slots left)` names and keeps the array size |
| BrowserState.FillContents | src/window_context.cpp:268-281 | slot `i + j` holds the `j`-th name with mode, uid and gid from `stat` of its probe path, keeping its old `y_bot` |
| BrowserState.FillKeepsRest | src/window_context.cpp:267-284 | slots before the start and after the last name taken are untouched |
| BrowserState.FillOkIff | src/window_context.cpp:276-277 | the loop succeeds iff every probe path taken stats, and a failure reports one of those paths |
| BrowserState.Terminated | src/window_context.cpp:286-289 | the array keeps its 1024 slots |
| BrowserState.TerminatedSentinel | src/window_context.cpp:286-289 | when the array is not full, the slot at the fill index gets an empty name, and no other slot changes |
| BrowserState.SortPrefix | src/window_context.cpp:291 | sorting the first `i` slots leaves the rest, the sentinel included, as it was |
| BrowserState.LoadSpec | src/window_context.cpp:262-292 | a load changes only the children and the stream |
| BrowserState.LoadShape | src/window_context.cpp:262-292 | a successful load is the probed slots with their prefix sorted, and the stream advanced by the count |
| BrowserState.LoadCount | src/window_context.cpp:262-292 | after a load of `n` names the sentinel is at `min(n, 1024)` and the surplus names stay in the stream |
| BrowserState.LoadSorted | src/window_context.cpp:262-292 | the loaded entries are sorted under `str_cmp` and distinct |
| BrowserState.LoadListed | src/window_context.cpp:262-292 | every loaded entry is a listed name with its own `stat` data, and every listed name taken appears |
| BrowserState.LoadKeepsWf | src/window_context.cpp:262-292 | loading keeps the invariant |
| BrowserState.SortedLoad | src/window_context.cpp:286-291 | the filled, terminated and sorted array is exactly the load's result |
| BrowserState.Initial | src/window_context.cpp:112-142 | the start-up state has no entries and a back buffer of the window's size, and is well shaped iff the path is non-empty |
| BrowserState.StartSpec | src/window_context.cpp:85-143 | a working directory that does not open fails with its path; a successful start is there, at scroll row 0, with the given identity and `max_area = w * h` |
| BrowserState.StartLands | src/window_context.cpp:112-142 | a successful start is in the working directory, at scroll row 0, pointer 0, `max_y` 4096, no status, debug off, `max_area = w * h`, with `min(n, 1024)` entries |
| BrowserState.NavigateLoads | src/window_context.cpp:426-439 | when the joined path opens, navigation is the load there, taken to scroll row 0 |
| BrowserState.NavigateSpec | src/window_context.cpp:426-439 | a joined path that does not open fails with that path; a success lands on the joined path at scroll row 0, with window, buffer and identity kept |
| BrowserState.NavigateLands | src/window_context.cpp:426-439 | a successful navigation is at the joined path, at scroll row 0, with `min(n, 1024)` entries, and keeps the invariant |
| BrowserState.Hit | src/window_context.cpp:195 | a click zone lies inside its row's band: at most 12 pixels above the recorded bottom |
| BrowserState.Activate | src/window_context.cpp:196-205 | the status becomes "No permission" without access and is cleared with it; only navigation into an accessible directory can fail; window, buffer and identity are kept |
| BrowserState.ActivateOutcome | src/window_context.cpp:196-205 | no permission: status "No permission", path kept; accessible directory: navigated, scroll 0, status cleared; accessible file: status cleared, path kept |
| BrowserState.ClickSkipsMisses | src/window_context.cpp:188-207 | named slots that are not hit are passed over |
| BrowserState.ClickSpec | src/window_context.cpp:188-207 | whatever the loop activates, a successful click keeps the window, buffer and identity |
| BrowserState.ButtonSpec | src/window_context.cpp:186-223 | buttons other than the primary one never fail and keep the path; a successful press keeps window, buffer and identity |
| BrowserState.ClickNoHit | src/window_context.cpp:188-207 | a click that hits no listed slot changes nothing |
| BrowserState.ClickSingleNonDirectory | src/window_context.cpp:188-207 | a single hit on a file or an inaccessible entry only sets the status |
| BrowserState.ClickFirstHitDirectory | src/window_context.cpp:188-207 | the first hit on an accessible directory navigates, clears the status, redraws, and the loop goes on over the new listing (no `break`) |
| BrowserState.ScrolledTopRowHitsTwice | src/window_context.cpp:188-207 | after scrolling down one row, a click on the top row hits both the undrawn slot 0 (stale `y_bot`) and slot 1 |
| BrowserState.MotionSpec | src/window_context.cpp:244-255 | the pointer y is recorded; path, scroll row, status and debug flag are kept; below `max_y` nothing else changes |
| BrowserState.MotionRedrawsOnRowChange | src/window_context.cpp:244-255 | inside the list, motion redraws exactly when the hovered row changes |
| BrowserState.MotionHeaderRows | src/window_context.cpp:245-250 | header to first row redraws; y 6 to y 7 in the header also redraws though both hover the same off-list row |
| BrowserState.KeySpec | src/window_context.cpp:225-242 | the debug flag flips exactly on 'd'; any other key changes nothing |
| BrowserState.KeyCode | src/window_context.cpp:225-242 | the result is 1 (`USER_QUIT_EXIT_CODE`) exactly for 'q', and 0 otherwise |
| BrowserState.DebugToggleTwice | src/window_context.cpp:225-242 | 'd' twice restores the debug flag and leaves a redrawn screen; 'q' returns 1 and 'd' returns 0 |
| BrowserState.Resized | src/window_context.cpp:155-179 | the window takes the new size; growth reallocates the buffer at it; a buffer that covered the old window covers the new one; `max_area` is kept or becomes `w * h` |
| BrowserState.ExposeSpec | src/window_context.cpp:155-184 | the window takes the new size, the path, scroll row and identity are kept, and `max_area` is kept or becomes `w * h` |
| BrowserState.ExposeKeepsCover | src/window_context.cpp:155-184 | the buffer still covers the window; growth in either side reallocates at `w * h`; `max_area` changes only on growth or a shrink to a quarter or less, and without growth it becomes `w * h` iff `w * h * 4 <= max_area` (or is already that) |
| BrowserState.ExposeExamples | src/window_context.cpp:164-179 | 200x200 to 100x100 reallocates; to 101x100 does not; 100x400 to 101x100 reallocates at 101x100 |
| BrowserState.SelectedRow | src/window_context.cpp:380-388 | a row exists iff `10 <= mouse_y <= max_y`, and then it is the non-negative row whose band holds the pointer |
| BrowserState.ClickZoneAgainstHover | src/window_context.cpp:195 | a row's bottom pixel line clicks it while the next row is highlighted; its top three lines are highlighted but click nothing of it |
| Window.WindowContext.constructor | src/window_context.cpp:112-142 | the fields hold the start-up state: the path, the open directory, empty slots, pointer 0, `max_y` 4096, no status, the window size |
| Window.WindowContext.Redraw | src/window_context.cpp:294-349 | the state becomes `RedrawSpec` of the old state, and the invariant holds |
| Window.WindowContext.DrawRows | src/window_context.cpp:300-343 | the loop stops after `Drawn` rows, at the bottom of the next row, having placed those rows' `y_bot` |
| Window.WindowContext.SetStatus | src/window_context.cpp:449-452 | only the status changes |
| Window.WindowContext.SetDebugMode | src/window_context.cpp:257-260 | the flag is set and the screen redrawn |
| Window.WindowContext.ActivateSlot | src/window_context.cpp:196-205 | fails iff `Activate` does, with its fault; otherwise the state is `Activate`'s |
| Window.WindowContext.ReadChildDirs | src/window_context.cpp:262-292 | fails iff `LoadSpec` does, with the failing probe path; otherwise the state is the load's |
| Window.WindowContext.SortSlots | src/window_context.cpp:286-291 | the sentinel is written, the filled prefix is sorted and a permutation, and the rest is unchanged |
| Window.WindowContext.FillChildren | src/window_context.cpp:263-284 | returns -1 iff `Fill` fails, with the probe path left in `tmp_path`; otherwise the count, the filled slots and the advanced stream |
| Window.WindowContext.ProbeSlot | src/window_context.cpp:268-281 | `tmp_path` becomes the joined probe path; on a successful `stat` only slot `i` changes, to the name and its `stat` data |
| Window.WindowContext.Navigate | src/window_context.cpp:426-439 | fails iff `NavigateSpec` does, with its fault; otherwise the state is `NavigateSpec`'s |
| Window.WindowContext.ChangeDir | src/window_context.cpp:427-435 | the path becomes the join; it opens iff the joined path is listed, and then the stream is that listing |
| Window.WindowContext.Reload | src/window_context.cpp:437-438 | fails iff the load does; otherwise the load, at scroll row 0 |
| Window.WindowContext.Click | src/window_context.cpp:188-207 | fails iff `ClickSpec` does, with its fault; otherwise the state is `ClickSpec`'s |
| Window.WindowContext.Scroll | src/window_context.cpp:208-220 | the state becomes `ScrollSpec` of the old state |
| Window.WindowContext.OnButtonPress | src/window_context.cpp:186-223 | returns `NO_EXIT`; fails iff `ButtonSpec` does; otherwise the state is `ButtonSpec`'s |
| Window.WindowContext.OnKeyPress | src/window_context.cpp:225-242 | returns 1 for 'q' and 0 otherwise; the state becomes `KeySpec`'s |
| Window.WindowContext.OnMotion | src/window_context.cpp:244-255 | returns `NO_EXIT`; the state becomes `MotionSpec`'s |
| Window.WindowContext.OnExpose | src/window_context.cpp:155-184 | returns `NO_EXIT`; the state becomes `ExposeSpec`'s, and the invariant holds |
| Window.Start | src/window_context.cpp:85-143 | fails iff `StartSpec` does, with its fault; otherwise a fresh context whose state is `StartSpec`'s |
| Window.SortedSlots | src/window_context.cpp:291 | the quicksort result, read as prefix and tail, is what the load needs |
| Window.DrawStep | src/window_context.cpp:303-343 | one turn of the redraw loop keeps its invariant |

## Left out

- X11 is left out: the display, window, colours, pixmap calls and all
  painting. This covers the hover and no-permission fills, the debug
  rectangles, `draw_filetype`, the header, the status line, and
  `XCopyArea`. Painting does not change the state. This includes
  `is_selected`'s comparison against the unsigned `y - ROW_HEIGHT`.
- `XGetKeyboardMapping` is left out: `OnKeyPress` takes the key symbol as a
  `char`.
- The window size reported by `XGetWindowAttributes` is a parameter.
- `getcwd`, `opendir`, `readdir`, `stat` and `closedir` are answers read from
  a `FileSystem` value. `closedir` is taken to succeed. A failure of
  `getcwd` is outside the model: `Window.Start` takes the path it returns.
- The destructor and `src/main.cpp` (the event loop) are not part of this
  model.
- Window.WindowContext.ReadChildDirs: after a failed `stat`, the state left
  behind is not specified. The C++ code throws with the slots half filled;
  only the fault is stated.
- Window.WindowContext.Navigate: after a failure only the fault is stated, not the state the throw leaves behind.
- Window.WindowContext.Reload: after a failure only the fault is stated, not the state the throw leaves behind.
- Window.WindowContext.ActivateSlot: after a failure only the fault is stated, not the state the throw leaves behind.
- Window.WindowContext.Click: after a failure only the fault is stated, not the state the throw leaves behind.
- Window.WindowContext.OnButtonPress: after a failure only the fault is stated, not the state the throw leaves behind.
- Window.Start: after a failure only the fault is stated; the C++ constructor throws and no object exists.
- Integer overflow of `int` in `w * h`, `new_area * 4` and
  `max_scrollrow` is not modelled. Window sizes are `Dim` values below
  2^31, and areas are unbounded.
- `max_scrollrow` is never initialised by the constructor; the model starts
  it at 0. Slot fields the C++ code leaves uninitialised (`y_bot`, `mode`,
  `uid`, `gid` of unused slots) start at 0 too.
- `tmp_path` is not part of the abstract state `Abs()`. Only
  `ReadChildDirs`'s failure path and `ProbeSlot` state its contents.
- Names longer than 255 bytes, and the `memcpy` of 256 bytes from
  `d_name`, are not modelled. Names are valid (non-empty, no '/' or NUL,
  at most 255 bytes) and distinct within a listing. Paths leave room for
  one more name within PATH_MAX instead of the buffer bounds.
- `read_child_dirs` is modelled with `start_at` 0 only, the one argument
  the code ever passes.
- BrowserState.SelectedRow: `get_selected_segment` returns
  `&children[curr_row]` without a bound check and is never called. The
  model returns the row index, without indexing the array.
- Ordering.SortByName: the quicksort is equal to this reference sort only
  when names are distinct, which every real directory guarantees. For
  arbitrary input, `Quicksort.Quicksort` states sortedness and
  permutation.
- The arithmetic follows an LP64 target: 64-bit `size_t` and 32-bit `int`.
  Other data models are not covered.
- `char` is taken to be signed, as on x86-64 Linux. On targets where it is
  unsigned (ARM and AArch64 Linux), bytes 128-255 sort after ASCII, and that
  order is not covered.
