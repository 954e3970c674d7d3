/**
 * The browser state of window_context as a value, and what each event
 * handler of src/window_context.cpp does to it, as functions. The class in
 * window.dfy keeps the same state in fields and arrays and proves each of its
 * methods against these functions; the lemmas here state what the handlers
 * promise.
 */
module BrowserState {
  import opened Types
  import opened Ordering
  import opened Paths
  import opened Permissions

  /** X11 button numbers: primary button, wheel up, wheel down. */
  const Button1: int := 1
  const Button4: int := 4
  const Button5: int := 5

  /** Height of the path header; bottom y of the first listed row. */
  const HeaderHeight: int := 10
  const FirstRowBottom: int := 23

  /** The initial max_y, "an arbitrary, large number". */
  const InitialMaxY: int := 4096

  const NoPermission: string := "No permission"

  /**
   * Everything the handlers read or write, minus X11 handles and colours:
   * the current path, the rest of the open directory stream (what readdir
   * would still return), the children array, pointer and layout state, the
   * status line, the debug flag, the window size, the back buffer size and
   * its area, and the identity captured at startup.
   */
  datatype Browser = Browser(
    cwd: seq<byte>,
    stream: seq<seq<byte>>,
    children: seq<Entry>,
    mouseY: Int32,
    maxY: int,
    canScroll: bool,
    scrollRow: nat,
    maxScrollRow: int,
    status: string,
    debug: bool,
    width: Dim,
    height: Dim,
    maxArea: nat,
    backW: Dim,
    backH: Dim,
    uid: nat,
    gid: nat)

  /** The shape every handler needs: a full children array and a non-empty path. */
  predicate Shaped(b: Browser) {
    |b.children| == MaxChildren && |b.cwd| > 0
  }

  /** What no pointer or key event changes: the identity, the window size and the back buffer. */
  predicate SameWindow(a: Browser, b: Browser) {
    && a.uid == b.uid && a.gid == b.gid
    && a.width == b.width && a.height == b.height
    && a.backW == b.backW && a.backH == b.backH && a.maxArea == b.maxArea
  }

  /** Names as a directory listing gives them: valid and pairwise distinct. */
  predicate NamesOk(ns: seq<seq<byte>>) {
    && (forall k :: 0 <= k < |ns| ==> ValidName(ns[k]))
    && (forall k, m :: 0 <= k < m < |ns| ==> ns[k] != ns[m])
  }

  /**
   * A filesystem the browser can run on: every directory it can open has a
   * path with room for one more name inside PATH_MAX, and lists valid,
   * distinct names.
   */
  predicate WellFormed(fs: FileSystem) {
    forall p :: p in fs.listing ==> |p| + MaxPathSegmentSize <= PathMax && NamesOk(fs.listing[p])
  }

  /**
   * The invariant of the browser state: the path is canonical and fits the
   * buffer with room for a probe, every slot holds a valid name or is empty,
   * and the back buffer covers the window and `maxArea` is its area.
   */
  predicate Wf(b: Browser) {
    && Shaped(b)
    && Canonical(b.cwd) && |b.cwd| + MaxPathSegmentSize <= PathMax
    && NamesOk(b.stream)
    && SlotsOk(b.children)
    && b.width <= b.backW && b.height <= b.backH && b.maxArea == b.backW * b.backH
  }

  /** Every slot holds a valid name or is empty. */
  predicate SlotsOk(c: seq<Entry>) {
    forall k :: 0 <= k < |c| ==> c[k].name == [] || ValidName(c[k].name)
  }

  // ---------------------------------------------------------------- rows

  /** GCC's conversion of an out-of-range value to `int`: reduction modulo 2^32. */
  function ToInt32(x: int): (r: Int32)
    ensures (x - r) % 0x1_0000_0000 == 0
  {
    var m := x % 0x1_0000_0000;
    if m < 0x8000_0000 then m else m - 0x1_0000_0000
  }

  /**
   * `v / ROW_HEIGHT` stored in an `int`. ROW_HEIGHT is a `size_t`, so on an
   * LP64 target v is converted to the unsigned 64-bit type first (a negative
   * v becomes v + 2^64) and the quotient is converted back to `int`.
   */
  function DivRowHeight(v: int): (q: Int32)
    ensures 0 <= v < 0x8000_0000 ==> q == v / RowHeight
  {
    ToInt32((v % 0x1_0000_0000_0000_0000) / RowHeight)
  }

  /**
   * The row index on_motion computes for a pointer y
   * (src/window_context.cpp:245-246); from the header down it is the floor
   * of the distance below the header over the row height.
   */
  function Row(y: Int32): (r: Int32)
    ensures HeaderHeight <= y ==> r == (y - HeaderHeight) / RowHeight
  {
    DivRowHeight(y - HeaderHeight)
  }

  /** How many rows fit between the header and the status line. */
  function Fit(h: int): nat {
    if h < 20 then 0 else (h - 20) / RowHeight
  }

  /**
   * `screen_rows` of redraw: the height below the header and status line over
   * the row height, again through `size_t`. It counts the rows that fit, and
   * a window under 20 pixels high gets a negative count.
   */
  function ScreenRows(h: Dim): (sr: Int32)
    ensures h < 20 ==> sr < 0
    ensures Fit(h) == Max(0, sr)
  {
    DivRowHeight(h - 20)
  }

  /**
   * The pointer over the header band gets no list row: y from 0 to 6 is
   * taken to row -1321528400 and y from 7 to 9 to row -1321528399, so the
   * band is split in two and each part differs from every row below it.
   */
  lemma HeaderRows(y: Int32)
    ensures 0 <= y <= 6 ==> Row(y) == -1321528400
    ensures 7 <= y < HeaderHeight ==> Row(y) == -1321528399
  {
    if 0 <= y < HeaderHeight {
      SmallNegativeQuotient(y - HeaderHeight);
    }
  }

  /** A window under 20 pixels high: its screen rows, one value per height band. */
  lemma ShortWindowRows(h: Dim)
    ensures h < 4 ==> ScreenRows(h) == -1321528401
    ensures 4 <= h < 17 ==> ScreenRows(h) == -1321528400
    ensures 17 <= h < 20 ==> ScreenRows(h) == -1321528399
  {
    if h < 20 {
      SmallNegativeQuotient(h - 20);
    }
  }

  /**
   * A small negative numerator: 2^64 is 13 * 1418980313362273201 + 3, and that
   * quotient is 2973438897, or -1321528399 as an `int`, modulo 2^32.
   */
  lemma SmallNegativeQuotient(v: int)
    requires -29 <= v < 0
    ensures DivRowHeight(v) == -1321528399 - (if v >= -3 then 0 else if v >= -16 then 1 else 2)
  {
    var k := if v >= -3 then 0 else if v >= -16 then 1 else 2;
    var q := 1418980313362273201;
    assert v % 0x1_0000_0000_0000_0000 == 13 * (q - k) + (3 + v + 13 * k);
    assert (v % 0x1_0000_0000_0000_0000) / RowHeight == q - k;
    assert q - k == 330382099 * 0x1_0000_0000 + (2973438897 - k);
    assert (q - k) % 0x1_0000_0000 == 2973438897 - k;
  }

  /** Bottom y of screen row `r`; rows are RowHeight apart from FirstRowBottom. */
  function RowBottom(r: int): int {
    FirstRowBottom + RowHeight * r
  }

  /** Screen row `j` is drawn exactly when `j < Fit(h)`: its bottom is above the status line. */
  lemma RowFits(h: int, j: nat)
    ensures RowBottom(j) <= h - 10 <==> j < Fit(h)
  {
    if h >= 20 {
      assert 13 * Fit(h) <= h - 20 < 13 * Fit(h) + 13;
    }
  }

  // ---------------------------------------------------------------- layout

  /**
   * The number of rows redraw's loop draws from slot `i` with the row bottom
   * at `y`: it stops at the end of the array, at the sentinel, or below the
   * status line.
   */
  function Drawn(c: seq<Entry>, i: nat, y: int, h: int): (n: nat)
    requires |c| == MaxChildren
    decreases MaxChildren - i
    ensures n == 0 || i + n <= MaxChildren
    ensures forall k :: i <= k < i + n ==> c[k].name != []
    ensures n > 0 ==> y + RowHeight * (n - 1) <= h - 10
    ensures i + n < MaxChildren ==> c[i + n].name == [] || y + RowHeight * n > h - 10
  {
    if i >= MaxChildren || c[i].name == [] || y > h - 10 then 0
    else
      1 + Drawn(c, i + 1, y + RowHeight, h)
  }

  /** Slots `s .. s+n-1` get the bottoms of screen rows 0 .. n-1; every other slot keeps its stale value. */
  function Placed(c: seq<Entry>, s: nat, n: nat): (r: seq<Entry>)
    ensures |r| == |c|
  {
    seq(|c|, k requires 0 <= k < |c| => if s <= k < s + n then c[k].(yBot := RowBottom(k - s)) else c[k])
  }

  /**
   * The state part of redraw (src/window_context.cpp:300-349): record each
   * drawn row's bottom, set `maxY` below the last drawn row, and derive
   * `canScroll` and `maxScrollRow` from the index where drawing stopped.
   */
  function RedrawSpec(b: Browser): (r: Browser)
    requires Shaped(b)
    ensures Shaped(r)
    ensures r == b.(children := r.children, maxY := r.maxY, canScroll := r.canScroll, maxScrollRow := r.maxScrollRow)
    ensures forall k :: 0 <= k < MaxChildren ==> r.children[k].name == b.children[k].name
  {
    var n := Drawn(b.children, b.scrollRow, FirstRowBottom, b.height);
    var sr := ScreenRows(b.height);
    b.(children := Placed(b.children, b.scrollRow, n),
       maxY := RowBottom(n),
       canScroll := b.scrollRow + n >= sr,
       maxScrollRow := b.scrollRow + n - sr + 2)
  }

  /** A state that redraw would not change: what every redraw leaves behind. */
  predicate LaidOut(b: Browser) {
    Shaped(b) && RedrawSpec(b) == b
  }

  /** Drawing depends on the names only, not on the stale row positions. */
  lemma {:induction false} DrawnNamesOnly(c: seq<Entry>, d: seq<Entry>, i: nat, y: int, h: int)
    requires |c| == |d| == MaxChildren
    requires forall k :: 0 <= k < MaxChildren ==> c[k].name == d[k].name
    ensures Drawn(c, i, y, h) == Drawn(d, i, y, h)
    decreases MaxChildren - i
  {
    if i < MaxChildren && c[i].name != [] && y <= h - 10 {
      DrawnNamesOnly(c, d, i + 1, y + RowHeight, h);
    }
  }

  /** Redraw is idempotent: a second redraw without an event in between changes nothing. */
  lemma RedrawIdempotent(b: Browser)
    requires Shaped(b)
    ensures LaidOut(RedrawSpec(b))
  {
    var r := RedrawSpec(b);
    var n := Drawn(b.children, b.scrollRow, FirstRowBottom, b.height);
    DrawnNamesOnly(b.children, r.children, b.scrollRow, FirstRowBottom, b.height);
    assert Placed(r.children, b.scrollRow, n) == r.children;
  }

  /** Status, debug flag and pointer position play no part in the layout. */
  lemma RedrawIgnoresDisplayFlags(b: Browser, s: string, d: bool, m: Int32)
    requires Shaped(b)
    ensures RedrawSpec(b.(status := s, debug := d, mouseY := m)) == RedrawSpec(b).(status := s, debug := d, mouseY := m)
  {
  }

  lemma RedrawKeepsWf(b: Browser)
    requires Wf(b)
    ensures Wf(RedrawSpec(b))
  {
    var r := RedrawSpec(b);
    assert forall k :: 0 <= k < MaxChildren ==> r.children[k].name == b.children[k].name;
  }

  /** Index of the first empty slot from `i` on: the sentinel, or the capacity when there is none. */
  function Count(c: seq<Entry>, i: nat): (n: nat)
    requires |c| == MaxChildren && i <= MaxChildren
    decreases MaxChildren - i
    ensures i <= n <= MaxChildren
    ensures forall k :: i <= k < n ==> c[k].name != []
    ensures n < MaxChildren ==> c[n].name == []
  {
    if i == MaxChildren || c[i].name == [] then i else Count(c, i + 1)
  }

  /** The number of listed entries: the index of the sentinel. */
  function EntryCount(c: seq<Entry>): nat
    requires |c| == MaxChildren
  {
    Count(c, 0)
  }

  lemma {:induction false} CountFrom(c: seq<Entry>, i: nat)
    requires |c| == MaxChildren && i <= Count(c, 0)
    ensures Count(c, i) == Count(c, 0)
    decreases i
  {
    if i > 0 {
      CountFrom(c, i - 1);
      assert c[i - 1].name != [];
    }
  }

  lemma {:induction false} CountNamesOnly(c: seq<Entry>, d: seq<Entry>, i: nat)
    requires |c| == |d| == MaxChildren && i <= MaxChildren
    requires forall k :: 0 <= k < MaxChildren ==> c[k].name == d[k].name
    ensures Count(c, i) == Count(d, i)
    decreases MaxChildren - i
  {
    if i < MaxChildren && c[i].name != [] {
      CountNamesOnly(c, d, i + 1);
    }
  }

  /**
   * From a slot before the sentinel, redraw draws as many rows as there are
   * entries left or as fit in the window, whichever is fewer.
   */
  lemma DrawnCount(c: seq<Entry>, i: nat, j: nat, h: int)
    requires |c| == MaxChildren && i <= MaxChildren
    ensures Drawn(c, i, RowBottom(j), h) == Min(Count(c, i) - i, Max(0, Fit(h) - j))
  {
    forall r: nat ensures RowBottom(r) <= h - 10 <==> r < Fit(h) {
      RowFits(h, r);
    }
    DrawnCountAt(c, i, j, h, Fit(h));
  }

  /** DrawnCount, with the number of rows that fit given as `f`. */
  lemma {:induction false} DrawnCountAt(c: seq<Entry>, i: nat, j: nat, h: int, f: nat)
    requires |c| == MaxChildren && i <= MaxChildren
    requires forall r: nat :: RowBottom(r) <= h - 10 <==> r < f
    ensures Drawn(c, i, RowBottom(j), h) == Min(Count(c, i) - i, Max(0, f - j))
    decreases MaxChildren - i
  {
    var fits := RowBottom(j) <= h - 10;
    assert fits <==> j < f;
    if i < MaxChildren && c[i].name != [] && fits {
      DrawnCountAt(c, i + 1, j + 1, h, f);
      DrawnStep(c, i, j, h, f);
    } else {
      DrawnNone(c, i, j, h, f);
    }
  }

  /** No row more: the base case of DrawnCountAt. */
  lemma DrawnNone(c: seq<Entry>, i: nat, j: nat, h: int, f: nat)
    requires |c| == MaxChildren && i <= MaxChildren && (RowBottom(j) <= h - 10 <==> j < f)
    requires i == MaxChildren || c[i].name == [] || RowBottom(j) > h - 10
    ensures Drawn(c, i, RowBottom(j), h) == Min(Count(c, i) - i, Max(0, f - j))
  {
    MinZero(Count(c, i) - i, f - j);
  }

  /** One row more: the inductive step of DrawnCountAt. */
  lemma DrawnStep(c: seq<Entry>, i: nat, j: nat, h: int, f: nat)
    requires |c| == MaxChildren && i < MaxChildren && c[i].name != [] && RowBottom(j) <= h - 10 && j < f
    requires Drawn(c, i + 1, RowBottom(j + 1), h) == Min(Count(c, i + 1) - (i + 1), Max(0, f - (j + 1)))
    ensures Drawn(c, i, RowBottom(j), h) == Min(Count(c, i) - i, Max(0, f - j))
  {
    assert RowBottom(j) + RowHeight == RowBottom(j + 1);
    assert Drawn(c, i, RowBottom(j), h) == 1 + Drawn(c, i + 1, RowBottom(j + 1), h);
    assert Count(c, i) == Count(c, i + 1);
    MinStep(Count(c, i) - i, f - j, Count(c, i + 1) - (i + 1), f - (j + 1));
  }

  lemma MinStep(a: int, d: int, a': int, d': int)
    requires a >= 1 && d >= 1 && a' == a - 1 && d' == d - 1
    ensures Min(a, Max(0, d)) == 1 + Min(a', Max(0, d'))
  {
  }

  lemma MinZero(a: int, d: int)
    requires a == 0 || d <= 0
    requires a >= 0
    ensures Min(a, Max(0, d)) == 0
  {
  }

  /** After a redraw from a scroll row before the sentinel, `maxY` is the bottom of the visible list. */
  lemma RedrawRows(b: Browser)
    requires Shaped(b) && b.scrollRow <= EntryCount(b.children)
    ensures var n := Min(EntryCount(b.children) - b.scrollRow, Fit(b.height));
      && RedrawSpec(b).maxY == RowBottom(n)
      && RedrawSpec(b).maxScrollRow == b.scrollRow + n - ScreenRows(b.height) + 2
      && (forall k :: b.scrollRow <= k < b.scrollRow + n ==> RedrawSpec(b).children[k].yBot == RowBottom(k - b.scrollRow))
  {
    var n := Drawn(b.children, b.scrollRow, FirstRowBottom, b.height);
    DrawnFromScrollRow(b);
    PlacedRows(b.children, b.scrollRow, n);
  }

  /** The number of rows drawn from the scroll row, when it is not past the sentinel. */
  lemma DrawnFromScrollRow(b: Browser)
    requires Shaped(b) && b.scrollRow <= EntryCount(b.children)
    ensures Drawn(b.children, b.scrollRow, FirstRowBottom, b.height) == Min(EntryCount(b.children) - b.scrollRow, Fit(b.height))
  {
    CountFrom(b.children, b.scrollRow);
    DrawnCount(b.children, b.scrollRow, 0, b.height);
    assert RowBottom(0) == FirstRowBottom;
  }

  /** Placed slots carry the bottoms of consecutive screen rows. */
  lemma PlacedRows(c: seq<Entry>, s: nat, n: nat)
    ensures forall k :: s <= k < s + n && k < |c| ==> Placed(c, s, n)[k] == c[k].(yBot := RowBottom(k - s))
  {
  }

  /**
   * Redraw's loop, one row further: `n` rows drawn from the scroll row `s`
   * are the `i - s` rows so far and those drawn from slot `i` on.
   */
  lemma DrawnNext(c: seq<Entry>, s: nat, i: nat, y: int, h: int, n: nat)
    requires |c| == MaxChildren && s <= i < MaxChildren && c[i].name != [] && y <= h - 10
    requires y == RowBottom(i - s) && n == (i - s) + Drawn(c, i, y, h)
    ensures y + RowHeight == RowBottom(i + 1 - s) && n == (i + 1 - s) + Drawn(c, i + 1, y + RowHeight, h)
  {
  }

  /** Before the first row is drawn, nothing is placed. */
  lemma PlacedNone(c: seq<Entry>, s: nat)
    ensures Placed(c, s, 0) == c
  {
  }

  /**
   * Redraw's loop, one row at a time: the next slot is still as it was, and
   * placing it changes that slot only.
   */
  lemma PlacedNext(c: seq<Entry>, s: nat, n: nat)
    requires s + n < |c|
    ensures Placed(c, s, n)[s + n] == c[s + n]
    ensures Placed(c, s, n + 1) == Placed(c, s, n)[s + n := c[s + n].(yBot := RowBottom(n))]
  {
  }

  /**
   * navigate in terms of the load it performs: the path is joined, the
   * directory there is opened, and a successful load is taken to the top.
   */
  lemma NavigateLoads(b: Browser, name: seq<byte>, fs: FileSystem)
    requires Shaped(b) && Join(b.cwd, name) in fs.listing
    ensures var l := LoadSpec(b.(cwd := Join(b.cwd, name), stream := fs.listing[Join(b.cwd, name)]), fs);
      NavigateSpec(b, name, fs) == if l.Ok? then Ok(l.value.(scrollRow := 0)) else Err(l.fault)
  {
  }

  // ---------------------------------------------------------------- scrolling

  /** The wheel part of on_button_press (src/window_context.cpp:208-220): only while `canScroll`. */
  function ScrollSpec(b: Browser, button: int): (r: Browser)
    requires Shaped(b)
    ensures Shaped(r) && SameWindow(b, r) && r.cwd == b.cwd && r.status == b.status
    ensures r.scrollRow == b.scrollRow
      || (b.canScroll && button == Button4 && r.scrollRow + 1 == b.scrollRow)
      || (b.canScroll && button == Button5 && b.scrollRow < b.maxScrollRow && r.scrollRow == b.scrollRow + 1)
  {
    if b.canScroll && (button == Button4 || button == Button5) then RedrawSpec(b.(scrollRow := WheelRow(b, button)))
    else b
  }

  /** Wheel up moves the scroll row up unless it is 0; wheel down moves it down while below `maxScrollRow`. */
  function WheelRow(b: Browser, button: int): (r: nat)
    ensures button == Button4 ==> r <= b.scrollRow && r + 1 >= b.scrollRow
    ensures button != Button4 ==> r >= b.scrollRow && (r > b.scrollRow <==> b.scrollRow < b.maxScrollRow)
    ensures r <= b.scrollRow + 1
  {
    if button == Button4 then (if b.scrollRow > 0 then b.scrollRow - 1 else b.scrollRow)
    else if b.scrollRow < b.maxScrollRow then b.scrollRow + 1 else b.scrollRow
  }

  /** The largest scroll row the wheel can reach in a window of fixed height. */
  function ClampMax(b: Browser): int
    requires Shaped(b)
  {
    Max(0, EntryCount(b.children) - ScreenRows(b.height) + 2)
  }

  /**
   * One wheel event keeps the scroll row within `[0, ClampMax]` when at least
   * two rows fit: it moves by at most one, only while `canScroll`, and never
   * past `maxScrollRow`.
   */
  lemma ScrollClamp(b: Browser, button: int)
    requires LaidOut(b) && ScreenRows(b.height) >= 2 && b.scrollRow <= ClampMax(b)
    ensures var r := ScrollSpec(b, button);
      && LaidOut(r) && ClampMax(r) == ClampMax(b) && r.scrollRow <= ClampMax(r)
      && (r.scrollRow == b.scrollRow || (b.canScroll && r.scrollRow == b.scrollRow - 1 && button == Button4)
          || (b.canScroll && r.scrollRow == b.scrollRow + 1 && button == Button5 && b.scrollRow < b.maxScrollRow))
  {
    if b.canScroll && (button == Button4 || button == Button5) {
      RescrollKeepsLayout(b, WheelRow(b, button));
      if button == Button5 && b.scrollRow < b.maxScrollRow {
        MaxScrollRowBound(b);
      }
    }
  }

  /** A wheel event keeps the invariant. */
  lemma ScrollKeepsWf(b: Browser, button: int)
    requires Wf(b)
    ensures Wf(ScrollSpec(b, button))
  {
    if b.canScroll && (button == Button4 || button == Button5) {
      RedrawKeepsWf(b.(scrollRow := WheelRow(b, button)));
    }
  }

  /** Redrawing at another scroll row keeps the names and the height, and lays the screen out. */
  lemma RescrollKeepsLayout(b: Browser, row: nat)
    requires Shaped(b)
    ensures var r := RedrawSpec(b.(scrollRow := row));
      && LaidOut(r) && r.height == b.height && r.scrollRow == row
      && EntryCount(r.children) == EntryCount(b.children)
  {
    var x := b.(scrollRow := row);
    var r := RedrawSpec(x);
    RedrawIdempotent(x);
    assert forall k :: 0 <= k < MaxChildren ==> r.children[k].name == b.children[k].name;
    CountNamesOnly(r.children, b.children, 0);
  }

  /**
   * On a laid-out screen whose scroll row is not past the sentinel, the
   * largest scroll row redraw allows is at most the entry count less the
   * screen rows plus two.
   */
  lemma MaxScrollRowBound(b: Browser)
    requires LaidOut(b) && ScreenRows(b.height) >= 2 && b.scrollRow <= ClampMax(b)
    ensures b.maxScrollRow <= EntryCount(b.children) - ScreenRows(b.height) + 2
  {
    RedrawRows(b);
  }

  /** Any sequence of wheel events. */
  function Scrolls(b: Browser, buttons: seq<int>): (r: Browser)
    requires Shaped(b)
    ensures Shaped(r)
    decreases |buttons|
  {
    if buttons == [] then b else Scrolls(ScrollSpec(b, buttons[0]), buttons[1..])
  }

  /**
   * In a window of fixed height where two or more rows fit, no sequence of
   * wheel events takes the scroll row outside `[0, ClampMax]` (30 entries
   * and 10 rows give 22).
   */
  lemma {:induction false} ScrollSequenceClamped(b: Browser, buttons: seq<int>)
    requires LaidOut(b) && ScreenRows(b.height) >= 2 && b.scrollRow <= ClampMax(b)
    ensures Scrolls(b, buttons).scrollRow <= ClampMax(b)
    decreases |buttons|
  {
    if buttons != [] {
      var r := ScrollSpec(b, buttons[0]);
      ScrollClamp(b, buttons[0]);
      ScrollSequenceClamped(r, buttons[1..]);
    }
  }

  /**
   * When only one row fits, the wheel scrolls past the sentinel: from the
   * sentinel's own index one more step is allowed, and the next redraw puts
   * the stale slot after the sentinel on screen row 0.
   */
  lemma OverScrollShortWindow(b: Browser)
    requires Wf(b) && LaidOut(b) && ScreenRows(b.height) == 1
    requires 0 < b.scrollRow == EntryCount(b.children) < MaxChildren - 1
    requires b.children[b.scrollRow + 1].name != []
    ensures var r := ScrollSpec(b, Button5);
      && r.scrollRow == EntryCount(b.children) + 1
      && r.children[r.scrollRow].yBot == FirstRowBottom
  {
    RedrawRows(b);
    var x := b.(scrollRow := b.scrollRow + 1);
    assert Drawn(x.children, x.scrollRow, FirstRowBottom, x.height) >= 1 by {
      RowFits(b.height, 0);
    }
  }

  /**
   * When no screen row fits (a window lower than 33 pixels, where the
   * unsigned division makes `screen_rows` zero or negative), `canScroll`
   * always holds and `maxScrollRow` always lies above the scroll row, so
   * wheel-down advances by one on every press.
   */
  lemma ShortWindowWheelDown(b: Browser)
    requires LaidOut(b) && ScreenRows(b.height) <= 0
    ensures var r := ScrollSpec(b, Button5);
      && LaidOut(r) && r.height == b.height && r.scrollRow == b.scrollRow + 1
  {
    RescrollKeepsLayout(b, b.scrollRow + 1);
  }

  /** So `k` presses of wheel-down in such a window advance the scroll row by `k`, without bound. */
  lemma {:induction false} ShortWindowScrollsOn(b: Browser, k: nat)
    requires LaidOut(b) && ScreenRows(b.height) <= 0
    ensures Scrolls(b, seq(k, _ => Button5)).scrollRow == b.scrollRow + k
    decreases k
  {
    if k > 0 {
      var presses := seq(k, _ => Button5);
      assert presses[0] == Button5 && presses[1..] == seq(k - 1, _ => Button5);
      ShortWindowWheelDown(b);
      ShortWindowScrollsOn(ScrollSpec(b, Button5), k - 1);
    }
  }

  // ---------------------------------------------------------------- loading

  /** What read_child_dirs' loop leaves: the array and the index reached. */
  datatype Filled = Filled(children: seq<Entry>, count: nat)

  /**
   * The loop of read_child_dirs (src/window_context.cpp:267-284) from slot
   * `i`: take the next name from the stream, probe `Join(cwd, name)` with
   * stat, record name, mode, uid and gid (the row position stays stale), and
   * stop at capacity or at the end of the stream. A probe that stat cannot
   * answer fails the load.
   */
  function Fill(c: seq<Entry>, cwd: seq<byte>, s: seq<seq<byte>>, i: nat, fs: FileSystem): (r: Result<Filled>)
    requires |c| == MaxChildren && i <= MaxChildren && |cwd| > 0
    decreases MaxChildren - i
    ensures r.Ok? ==> |r.value.children| == MaxChildren && r.value.count == i + Min(|s|, MaxChildren - i)
  {
    if i == MaxChildren || s == [] then Ok(Filled(c, i))
    else
      var p := Join(cwd, s[0]);
      if p !in fs.stats then Err(StatFailed(p))
      else Fill(c[i := Probed(s[0], fs.stats[p], c[i].yBot)], cwd, s[1..], i + 1, fs)
  }

  /** The loop ends at capacity or at the end of the stream, with the array as it is. */
  lemma FillDone(c: seq<Entry>, cwd: seq<byte>, s: seq<seq<byte>>, i: nat, fs: FileSystem)
    requires |c| == MaxChildren && i <= MaxChildren && |cwd| > 0 && (i == MaxChildren || s == [])
    ensures Fill(c, cwd, s, i, fs) == Ok(Filled(c, i))
  {
  }

  /** A slot records the mode and owner of a stat result. */
  predicate StatMatches(e: Entry, st: Stat) {
    e.mode == st.mode && e.uid == st.uid && e.gid == st.gid
  }

  /** A slot after its probe: the name, the stat result, and the old row position. */
  function Probed(name: seq<byte>, st: Stat, yBot: int): Entry {
    Entry(name, st.mode, st.uid, st.gid, yBot)
  }

  /**
   * What the loop writes: slot `i + j` holds the `j`-th name taken, with the
   * stat result of its probe path.
   */
  lemma {:induction false} FillContents(c: seq<Entry>, cwd: seq<byte>, s: seq<seq<byte>>, i: nat, fs: FileSystem)
    requires |c| == MaxChildren && i <= MaxChildren && |cwd| > 0 && Fill(c, cwd, s, i, fs).Ok?
    ensures forall j :: 0 <= j < Fill(c, cwd, s, i, fs).value.count - i ==> Join(cwd, s[j]) in fs.stats
    ensures forall j :: 0 <= j < Fill(c, cwd, s, i, fs).value.count - i ==>
      Fill(c, cwd, s, i, fs).value.children[i + j] == Probed(s[j], fs.stats[Join(cwd, s[j])], c[i + j].yBot)
    decreases MaxChildren - i
  {
    if i < MaxChildren && s != [] {
      var p := Join(cwd, s[0]);
      var c' := c[i := Probed(s[0], fs.stats[p], c[i].yBot)];
      FillContents(c', cwd, s[1..], i + 1, fs);
      FillKeepsRest(c', cwd, s[1..], i + 1, fs);
      var f := Fill(c, cwd, s, i, fs).value;
      assert f == Fill(c', cwd, s[1..], i + 1, fs).value;
      forall j | 0 < j < f.count - i
        ensures Join(cwd, s[j]) in fs.stats
        ensures f.children[i + j] == Probed(s[j], fs.stats[Join(cwd, s[j])], c[i + j].yBot)
      {
        assert s[1..][j - 1] == s[j];
        assert f.children[(i + 1) + (j - 1)] == Probed(s[1..][j - 1], fs.stats[Join(cwd, s[1..][j - 1])], c'[(i + 1) + (j - 1)].yBot);
      }
    }
  }

  /** Slots outside the filled range keep what they held. */
  lemma {:induction false} FillKeepsRest(c: seq<Entry>, cwd: seq<byte>, s: seq<seq<byte>>, i: nat, fs: FileSystem)
    requires |c| == MaxChildren && i <= MaxChildren && |cwd| > 0 && Fill(c, cwd, s, i, fs).Ok?
    ensures forall k :: 0 <= k < i ==> Fill(c, cwd, s, i, fs).value.children[k] == c[k]
    ensures forall k :: Fill(c, cwd, s, i, fs).value.count <= k < MaxChildren ==> Fill(c, cwd, s, i, fs).value.children[k] == c[k]
    decreases MaxChildren - i
  {
    if i < MaxChildren && s != [] {
      var p := Join(cwd, s[0]);
      var c' := c[i := Probed(s[0], fs.stats[p], c[i].yBot)];
      FillKeepsRest(c', cwd, s[1..], i + 1, fs);
    }
  }

  /** The load fails exactly when one of the names it takes has no stat result. */
  lemma {:induction false} FillOkIff(c: seq<Entry>, cwd: seq<byte>, s: seq<seq<byte>>, i: nat, fs: FileSystem)
    requires |c| == MaxChildren && i <= MaxChildren && |cwd| > 0
    ensures Fill(c, cwd, s, i, fs).Ok? <==> forall k :: 0 <= k < Min(|s|, MaxChildren - i) ==> Join(cwd, s[k]) in fs.stats
    ensures Fill(c, cwd, s, i, fs).Err? ==> exists k :: 0 <= k < Min(|s|, MaxChildren - i) && Fill(c, cwd, s, i, fs).fault == StatFailed(Join(cwd, s[k]))
    decreases MaxChildren - i
  {
    if i < MaxChildren && s != [] {
      var p := Join(cwd, s[0]);
      if p in fs.stats {
        var c' := c[i := Probed(s[0], fs.stats[p], c[i].yBot)];
        FillOkIff(c', cwd, s[1..], i + 1, fs);
        if Fill(c, cwd, s, i, fs).Ok? {
          forall k | 0 <= k < Min(|s|, MaxChildren - i) ensures Join(cwd, s[k]) in fs.stats {
            if k > 0 { assert s[k] == s[1..][k - 1]; }
          }
        } else {
          var k :| 0 <= k < Min(|s[1..]|, MaxChildren - i - 1) && Fill(c, cwd, s, i, fs).fault == StatFailed(Join(cwd, s[1..][k]));
          assert s[1..][k] == s[k + 1];
        }
      }
    }
  }

  /** The array after the loop: the sentinel written after the last filled slot, unless the array is full. */
  function Terminated(f: Filled): (c: seq<Entry>)
    requires |f.children| == MaxChildren
    ensures |c| == MaxChildren
  {
    if f.count < MaxChildren then f.children[f.count := f.children[f.count].(name := [])] else f.children
  }

  /** Terminating writes an empty name at the fill index, when there is room, and touches no other slot. */
  lemma TerminatedSentinel(f: Filled)
    requires |f.children| == MaxChildren
    ensures var c := Terminated(f);
      && (f.count < MaxChildren ==> c[f.count].name == [] && c[f.count].yBot == f.children[f.count].yBot)
      && (forall k :: 0 <= k < MaxChildren && k != f.count ==> c[k] == f.children[k])
  {
  }

  /** The children after a load: the first `n` slots sorted by name, the rest as they are. */
  function SortPrefix(c: seq<Entry>, n: nat): (r: seq<Entry>)
    requires n <= |c|
    ensures |r| == |c| && r[n..] == c[n..]
  {
    SortByName(c[..n]) + c[n..]
  }

  /** read_child_dirs with start_at 0 (src/window_context.cpp:262-292): fill, write the sentinel, sort. */
  function LoadSpec(b: Browser, fs: FileSystem): (r: Result<Browser>)
    requires Shaped(b)
    ensures r.Ok? ==> Shaped(r.value) && r.value == b.(children := r.value.children, stream := r.value.stream)
  {
    match Fill(b.children, b.cwd, b.stream, 0, fs)
    case Err(f) => Err(f)
    case Ok(f) => Ok(b.(children := SortPrefix(Terminated(f), f.count), stream := b.stream[f.count..]))
  }

  /**
   * The array before sorting: `n` names of the stream are taken, slot
   * `k < n` holds the `k`-th with the stat result of its probe path, and the
   * sentinel follows unless the array is full.
   */
  predicate Probes(c: seq<Entry>, n: nat, s: seq<seq<byte>>, cwd: seq<byte>, fs: FileSystem)
    requires |cwd| > 0
  {
    && |c| == MaxChildren && n == Min(|s|, MaxChildren)
    && (forall k :: 0 <= k < n ==>
          c[k].name == s[k] && Join(cwd, s[k]) in fs.stats && StatMatches(c[k], fs.stats[Join(cwd, s[k])]))
    && (n < MaxChildren ==> c[n].name == [])
  }

  /** Beyond the sentinel, the array holds what it held before the load. */
  predicate KeepsRest(c: seq<Entry>, n: nat, before: seq<Entry>) {
    |c| == |before| && forall k :: n < k < |c| ==> c[k] == before[k]
  }

  /** The shape of a successful load: the probed array, with its first `n` slots sorted. */
  lemma LoadShape(b: Browser, fs: FileSystem) returns (c: seq<Entry>, n: nat)
    requires Shaped(b) && LoadSpec(b, fs).Ok?
    ensures Probes(c, n, b.stream, b.cwd, fs) && KeepsRest(c, n, b.children)
    ensures LoadSpec(b, fs).value == b.(children := SortPrefix(c, n), stream := b.stream[n..])
  {
    var f := Fill(b.children, b.cwd, b.stream, 0, fs).value;
    FillProbes(b.children, b.cwd, b.stream, fs);
    FillKeepsRest(b.children, b.cwd, b.stream, 0, fs);
    c, n := Terminated(f), f.count;
    assert forall k :: 0 <= k < n ==> c[k] == f.children[k];
  }

  /**
   * After a load, the sentinel sits after the `min(|stream|, 1024)` names
   * taken (or the array is full), and the names beyond capacity stay unread
   * in the stream.
   */
  lemma LoadCount(b: Browser, fs: FileSystem)
    requires Shaped(b) && NamesOk(b.stream) && LoadSpec(b, fs).Ok?
    ensures var r := LoadSpec(b, fs).value; var n := Min(|b.stream|, MaxChildren);
      && EntryCount(r.children) == n
      && r.stream == b.stream[n..]
  {
    var c, n := LoadShape(b, fs);
    PrefixCount(c, n, b.stream, b.cwd, fs);
  }

  /** The listed names come out sorted by str_cmp and pairwise distinct. */
  lemma LoadSorted(b: Browser, fs: FileSystem)
    requires Shaped(b) && NamesOk(b.stream) && LoadSpec(b, fs).Ok?
    ensures var r := LoadSpec(b, fs).value; var n := Min(|b.stream|, MaxChildren);
      Sorted(r.children[..n]) && DistinctNames(r.children[..n])
  {
    var c, n := LoadShape(b, fs);
    PrefixSorted(c, n, b.stream, b.cwd, fs);
  }

  /** A loaded slot: its name is one of `names`, and it holds the stat result of its probe path. */
  predicate Listed(e: Entry, names: seq<seq<byte>>, cwd: seq<byte>, fs: FileSystem)
    requires |cwd| > 0
  {
    e.name in names && Join(cwd, e.name) in fs.stats && StatMatches(e, fs.stats[Join(cwd, e.name)])
  }

  /**
   * After a load, each listed slot holds one of the names taken with its
   * stat result, and each name taken is listed.
   */
  lemma LoadListed(b: Browser, fs: FileSystem)
    requires Shaped(b) && LoadSpec(b, fs).Ok?
    ensures var r := LoadSpec(b, fs).value; var n := Min(|b.stream|, MaxChildren);
      && (forall k :: 0 <= k < n ==> Listed(r.children[k], b.stream[..n], b.cwd, fs))
      && (forall j :: 0 <= j < n ==> exists k :: 0 <= k < n && r.children[k].name == b.stream[j])
  {
    var c, n := LoadShape(b, fs);
    PrefixListed(c, n, b.stream, b.cwd, fs);
  }

  lemma PrefixCount(c: seq<Entry>, n: nat, s: seq<seq<byte>>, cwd: seq<byte>, fs: FileSystem)
    requires |cwd| > 0 && Probes(c, n, s, cwd, fs) && NamesOk(s)
    ensures EntryCount(SortPrefix(c, n)) == n
  {
    var u := c[..n];
    var t := SortByName(u);
    var r := SortPrefix(c, n);
    forall k | 0 <= k < n ensures r[k].name != [] {
      assert r[k] == t[k] && t[k] in multiset(u);
      var m :| 0 <= m < n && u[m] == t[k];
      assert u[m].name == s[m];
    }
    if n < MaxChildren {
      assert r[n] == c[n];
    }
    EntryCountIs(r, n);
  }

  lemma PrefixSorted(c: seq<Entry>, n: nat, s: seq<seq<byte>>, cwd: seq<byte>, fs: FileSystem)
    requires |cwd| > 0 && Probes(c, n, s, cwd, fs) && NamesOk(s)
    ensures Sorted(SortPrefix(c, n)[..n]) && DistinctNames(SortPrefix(c, n)[..n])
  {
    var u := c[..n];
    assert SortPrefix(c, n)[..n] == SortByName(u);
    NamedDistinct(u, s);
    SortedDistinct(u);
  }

  /** Slots named after distinct names have distinct names. */
  lemma NamedDistinct(u: seq<Entry>, s: seq<seq<byte>>)
    requires |u| <= |s| && NamesOk(s)
    requires forall k :: 0 <= k < |u| ==> u[k].name == s[k]
    ensures DistinctNames(u)
  {
  }

  /** Sorting keeps names distinct. */
  lemma SortedDistinct(u: seq<Entry>)
    requires DistinctNames(u)
    ensures Sorted(SortByName(u)) && DistinctNames(SortByName(u))
  {
    SortByNameSorted(u);
    DistinctNamesPermuted(u, SortByName(u));
  }

  lemma PrefixListed(c: seq<Entry>, n: nat, s: seq<seq<byte>>, cwd: seq<byte>, fs: FileSystem)
    requires |cwd| > 0 && Probes(c, n, s, cwd, fs)
    ensures var r := SortPrefix(c, n);
      && (forall k :: 0 <= k < n ==> Listed(r[k], s[..n], cwd, fs))
      && (forall j :: 0 <= j < n ==> exists k :: 0 <= k < n && r[k].name == s[j])
  {
    var u := c[..n];
    ProbedListed(c, n, s, cwd, fs);
    SortedListed(u, s[..n], cwd, fs);
    var t := SortByName(u);
    var r := SortPrefix(c, n);
    assert r[..n] == t;
    forall j | 0 <= j < n ensures exists k :: 0 <= k < n && r[k].name == s[j] {
      var k :| 0 <= k < n && t[k].name == s[..n][j];
      assert r[k] == t[k];
    }
  }

  /** Before sorting, slot `k` is listed under the `k`-th name. */
  lemma ProbedListed(c: seq<Entry>, n: nat, s: seq<seq<byte>>, cwd: seq<byte>, fs: FileSystem)
    requires |cwd| > 0 && Probes(c, n, s, cwd, fs)
    ensures forall k :: 0 <= k < n ==> Listed(c[..n][k], s[..n], cwd, fs) && c[..n][k].name == s[..n][k]
  {
    forall k | 0 <= k < n ensures Listed(c[..n][k], s[..n], cwd, fs) && c[..n][k].name == s[..n][k] {
      assert s[..n][k] == s[k];
    }
  }

  /** Sorting listed slots keeps every slot listed and every name present. */
  lemma SortedListed(u: seq<Entry>, names: seq<seq<byte>>, cwd: seq<byte>, fs: FileSystem)
    requires |cwd| > 0 && |u| == |names|
    requires forall k :: 0 <= k < |u| ==> Listed(u[k], names, cwd, fs) && u[k].name == names[k]
    ensures var t := SortByName(u);
      && (forall k :: 0 <= k < |t| ==> Listed(t[k], names, cwd, fs))
      && (forall j :: 0 <= j < |u| ==> exists k :: 0 <= k < |t| && t[k].name == names[j])
  {
    var t := SortByName(u);
    PermutedListed(u, t, names, cwd, fs);
    PermutedCovers(u, t);
    forall j | 0 <= j < |u| ensures exists k :: 0 <= k < |t| && t[k].name == names[j] {
      var k :| 0 <= k < |t| && t[k] == u[j];
      assert t[k].name == names[j];
    }
    assert t == SortByName(u);
  }

  /** Every slot the loop fills holds the next name of the stream and the stat result of its probe. */
  lemma FillProbes(c: seq<Entry>, cwd: seq<byte>, s: seq<seq<byte>>, fs: FileSystem)
    requires |c| == MaxChildren && |cwd| > 0 && Fill(c, cwd, s, 0, fs).Ok?
    ensures var f := Fill(c, cwd, s, 0, fs).value;
      forall k :: 0 <= k < f.count ==>
        f.children[k].name == s[k] && Join(cwd, s[k]) in fs.stats && StatMatches(f.children[k], fs.stats[Join(cwd, s[k])])
  {
    var f := Fill(c, cwd, s, 0, fs).value;
    FillContents(c, cwd, s, 0, fs);
    forall k | 0 <= k < f.count
      ensures f.children[k].name == s[k] && Join(cwd, s[k]) in fs.stats && StatMatches(f.children[k], fs.stats[Join(cwd, s[k])])
    {
      assert f.children[0 + k] == Probed(s[k], fs.stats[Join(cwd, s[k])], c[0 + k].yBot);
    }
  }

  /** A permutation of listed slots is listed. */
  lemma PermutedListed(u: seq<Entry>, t: seq<Entry>, names: seq<seq<byte>>, cwd: seq<byte>, fs: FileSystem)
    requires |cwd| > 0 && multiset(t) == multiset(u)
    requires forall k :: 0 <= k < |u| ==> Listed(u[k], names, cwd, fs)
    ensures forall k :: 0 <= k < |t| ==> Listed(t[k], names, cwd, fs)
  {
    forall k | 0 <= k < |t| ensures Listed(t[k], names, cwd, fs) {
      assert t[k] in multiset(u);
      var m :| 0 <= m < |u| && u[m] == t[k];
    }
  }

  /** Every element of a sequence is still somewhere in a permutation of it. */
  lemma PermutedCovers(u: seq<Entry>, t: seq<Entry>)
    requires multiset(t) == multiset(u)
    ensures forall j :: 0 <= j < |u| ==> u[j] in t
  {
    forall j | 0 <= j < |u| ensures u[j] in t {
      assert u[j] in multiset(t);
    }
  }

  lemma EntryCountIs(c: seq<Entry>, n: nat)
    requires |c| == MaxChildren && n <= MaxChildren
    requires forall k :: 0 <= k < n ==> c[k].name != []
    requires n < MaxChildren ==> c[n].name == []
    ensures EntryCount(c) == n
  {
  }

  lemma LoadKeepsWf(b: Browser, fs: FileSystem)
    requires Wf(b) && LoadSpec(b, fs).Ok?
    ensures Wf(LoadSpec(b, fs).value)
  {
    var c, n := LoadShape(b, fs);
    LoadedWf(b, c, n, fs);
  }

  lemma LoadedWf(b: Browser, c: seq<Entry>, n: nat, fs: FileSystem)
    requires Wf(b) && Probes(c, n, b.stream, b.cwd, fs) && KeepsRest(c, n, b.children)
    ensures Wf(b.(children := SortPrefix(c, n), stream := b.stream[n..]))
  {
    assert SlotsOk(c) by {
      forall k | 0 <= k < |c| ensures c[k].name == [] || ValidName(c[k].name) {
        if k < n {
          assert c[k].name == b.stream[k];
        } else if k > n {
          assert c[k] == b.children[k];
        }
      }
    }
    SortedPrefixSlotsOk(c, n);
    NamesOkSuffix(b.stream, n);
  }

  lemma NamesOkSuffix(s: seq<seq<byte>>, n: nat)
    requires NamesOk(s) && n <= |s|
    ensures NamesOk(s[n..])
  {
    var t := s[n..];
    assert forall k :: 0 <= k < |t| ==> t[k] == s[n + k];
  }

  lemma SortedPrefixSlotsOk(c: seq<Entry>, n: nat)
    requires SlotsOk(c) && n <= |c|
    ensures SlotsOk(SortPrefix(c, n))
  {
    var u := c[..n];
    var t := SortByName(u);
    var r := t + c[n..];
    forall k | 0 <= k < |r| ensures r[k].name == [] || ValidName(r[k].name) {
      if k < n {
        assert t[k] in multiset(u);
        var m :| 0 <= m < n && u[m] == t[k];
        assert u[m] == c[m];
      } else {
        assert r[k] == c[k];
      }
    }
  }

  /**
   * The quicksort of read_child_dirs yields the load: a reordering of the
   * probed prefix that is sorted by name is the reference sort, because the
   * names taken from a directory listing are distinct.
   */
  lemma SortedLoad(b: Browser, fs: FileSystem, f: Filled, u: seq<Entry>)
    requires Shaped(b) && NamesOk(b.stream) && Fill(b.children, b.cwd, b.stream, 0, fs) == Ok(f)
    requires |u| == MaxChildren && f.count <= MaxChildren
    requires forall k :: f.count <= k < MaxChildren ==> u[k] == Terminated(f)[k]
    requires multiset(u[..f.count]) == multiset(Terminated(f)[..f.count]) && Sorted(u[..f.count])
    ensures LoadSpec(b, fs) == Ok(b.(children := u, stream := b.stream[f.count..]))
  {
    var c := Terminated(f);
    var n := f.count;
    FillProbes(b.children, b.cwd, b.stream, fs);
    assert forall k :: 0 <= k < n ==> c[k].name == b.stream[k] by {
      forall k | 0 <= k < n ensures c[k].name == b.stream[k] {
        assert c[k] == f.children[k];
      }
    }
    SortedIsSortPrefix(c, n, b.stream, u);
  }

  /** SortedLoad over plain sequences: a sorted reordering of distinctly named slots is SortPrefix. */
  lemma SortedIsSortPrefix(c: seq<Entry>, n: nat, s: seq<seq<byte>>, u: seq<Entry>)
    requires |u| == |c| && n <= |c| && n <= |s| && NamesOk(s)
    requires forall k :: 0 <= k < n ==> c[k].name == s[k]
    requires forall k :: n <= k < |c| ==> u[k] == c[k]
    requires multiset(u[..n]) == multiset(c[..n]) && Sorted(u[..n])
    ensures u == SortPrefix(c, n)
  {
    NamedDistinct(c[..n], s);
    DistinctNamesPermuted(c[..n], u[..n]);
    SortedIsSortByName(c[..n], u[..n]);
    assert u == u[..n] + c[n..];
  }

  /** An empty slot as the constructor leaves it: length 0, everything else zero. */
  const EmptySlot: Entry := Entry([], 0, 0, 0, 0)

  /**
   * The state the constructor (src/window_context.cpp:112-142) sets up
   * around its call to read_child_dirs: the path, the open directory, empty
   * slots, the pointer at 0, `maxY` at its large initial value, no
   * scrolling, no status, debug off, and a back buffer the size of the
   * window.
   */
  function Initial(cwd: seq<byte>, listing: seq<seq<byte>>, uid: nat, gid: nat, w: Dim, h: Dim): (b: Browser)
    ensures Shaped(b) <==> |cwd| > 0
    ensures forall k :: 0 <= k < |b.children| ==> b.children[k].name == []
    ensures b.backW == b.width == w && b.backH == b.height == h && b.maxArea == w * h
  {
    Browser(cwd, listing, seq(MaxChildren, _ => EmptySlot), 0, InitialMaxY, false, 0, 0, "", false,
      w, h, w * h, w, h, uid, gid)
  }

  /** The constructor: open the working directory (failing when it does not open), then load it. */
  function StartSpec(cwd: seq<byte>, fs: FileSystem, uid: nat, gid: nat, w: Dim, h: Dim): (r: Result<Browser>)
    requires |cwd| > 0
    ensures r.Ok? ==> Shaped(r.value) && cwd in fs.listing && r.value.cwd == cwd && r.value.scrollRow == 0
    ensures r.Ok? ==> r.value.uid == uid && r.value.gid == gid && r.value.maxArea == w * h
    ensures cwd !in fs.listing ==> r == Err(OpenDirFailed(cwd))
  {
    if cwd !in fs.listing then Err(OpenDirFailed(cwd))
    else LoadSpec(Initial(cwd, fs.listing[cwd], uid, gid, w, h), fs)
  }

  lemma InitialWf(cwd: seq<byte>, listing: seq<seq<byte>>, uid: nat, gid: nat, w: Dim, h: Dim)
    requires Canonical(cwd) && |cwd| + MaxPathSegmentSize <= PathMax && NamesOk(listing)
    ensures Wf(Initial(cwd, listing, uid, gid, w, h))
  {
  }

  /**
   * A successful start keeps the invariant, is in the working directory at
   * the top of its listing, and holds its first `min(|listing|, 1024)` names.
   */
  lemma StartLands(cwd: seq<byte>, fs: FileSystem, uid: nat, gid: nat, w: Dim, h: Dim)
    requires Canonical(cwd) && WellFormed(fs) && StartSpec(cwd, fs, uid, gid, w, h).Ok?
    ensures var r := StartSpec(cwd, fs, uid, gid, w, h).value;
      && Wf(r) && r.cwd == cwd && r.scrollRow == 0 && r.mouseY == 0 && r.maxY == InitialMaxY
      && !r.debug && !r.canScroll && r.status == "" && r.maxArea == w * h
      && cwd in fs.listing && EntryCount(r.children) == Min(|fs.listing[cwd]|, MaxChildren)
  {
    var b := Initial(cwd, fs.listing[cwd], uid, gid, w, h);
    InitialWf(cwd, fs.listing[cwd], uid, gid, w, h);
    LoadKeepsWf(b, fs);
    LoadCount(b, fs);
  }

  // ---------------------------------------------------------------- navigation and clicks

  /**
   * navigate (src/window_context.cpp:426-439): join the name onto the path,
   * reopen the directory there (a path that does not open fails), reload the
   * children, and go back to the top.
   */
  function NavigateSpec(b: Browser, name: seq<byte>, fs: FileSystem): (r: Result<Browser>)
    requires Shaped(b)
    ensures r.Ok? ==> Shaped(r.value) && SameWindow(b, r.value)
    ensures r.Ok? ==> Join(b.cwd, name) in fs.listing && r.value.cwd == Join(b.cwd, name) && r.value.scrollRow == 0
    ensures Join(b.cwd, name) !in fs.listing ==> r == Err(OpenDirFailed(Join(b.cwd, name)))
  {
    var p := Join(b.cwd, name);
    if p !in fs.listing then Err(OpenDirFailed(p))
    else
      match LoadSpec(b.(cwd := p, stream := fs.listing[p]), fs)
      case Err(f) => Err(f)
      case Ok(b1) => Ok(b1.(scrollRow := 0))
  }

  /**
   * A successful navigation lands on the joined path, at scroll row 0, with
   * the new directory's listing loaded, and keeps the invariant.
   */
  lemma NavigateLands(b: Browser, name: seq<byte>, fs: FileSystem)
    requires Wf(b) && WellFormed(fs) && ValidName(name) && NavigateSpec(b, name, fs).Ok?
    ensures var r := NavigateSpec(b, name, fs).value;
      && Wf(r) && r.cwd == Join(b.cwd, name) && r.scrollRow == 0
      && Join(b.cwd, name) in fs.listing
      && EntryCount(r.children) == Min(|fs.listing[Join(b.cwd, name)]|, MaxChildren)
  {
    var p := Join(b.cwd, name);
    var b0 := b.(cwd := p, stream := fs.listing[p]);
    JoinCanonical(b.cwd, name);
    assert Wf(b0);
    LoadKeepsWf(b0, fs);
    LoadCount(b0, fs);
  }

  /** A click zone: from ten pixels above a slot's recorded bottom to the bottom itself. */
  predicate Hit(e: Entry, y: int)
    ensures Hit(e, y) ==> e.yBot - RowHeight < y <= e.yBot
  {
    e.yBot - 10 <= y <= e.yBot
  }

  /**
   * The body of the click loop for one matching slot (src/window_context.cpp:
   * 196-205): without permission set the status; otherwise navigate into a
   * directory and clear the status; then redraw.
   */
  function Activate(b: Browser, e: Entry, fs: FileSystem): (r: Result<Browser>)
    requires Shaped(b)
    ensures r.Ok? ==> Shaped(r.value) && SameWindow(b, r.value)
    ensures r.Ok? ==> r.value.status == (if HasPermission(e, b.uid, b.gid) then "" else NoPermission)
    ensures r.Err? ==> HasPermission(e, b.uid, b.gid) && IsDir(e.mode)
  {
    if !HasPermission(e, b.uid, b.gid) then Ok(RedrawSpec(b.(status := NoPermission)))
    else if IsDir(e.mode) then
      match NavigateSpec(b, e.name, fs)
      case Err(f) => Err(f)
      case Ok(b1) => Ok(RedrawSpec(b1.(status := "")))
    else Ok(RedrawSpec(b.(status := "")))
  }

  /** What one activation does to the path, status and scroll row. */
  lemma ActivateOutcome(b: Browser, e: Entry, fs: FileSystem)
    requires Wf(b) && WellFormed(fs) && ValidName(e.name) && Activate(b, e, fs).Ok?
    ensures var r := Activate(b, e, fs).value;
      && Wf(r)
      && (!HasPermission(e, b.uid, b.gid) ==> r.status == NoPermission && r.cwd == b.cwd && r.children == RedrawSpec(b).children)
      && (HasPermission(e, b.uid, b.gid) ==> r.status == "")
      && (HasPermission(e, b.uid, b.gid) && IsDir(e.mode) ==> r.cwd == Join(b.cwd, e.name) && r.scrollRow == 0)
      && (HasPermission(e, b.uid, b.gid) && !IsDir(e.mode) ==> r.cwd == b.cwd && r.children == RedrawSpec(b).children)
  {
    if !HasPermission(e, b.uid, b.gid) {
      RedrawKeepsWf(b.(status := NoPermission));
    } else if IsDir(e.mode) {
      NavigateLands(b, e.name, fs);
      RedrawKeepsWf(NavigateSpec(b, e.name, fs).value.(status := ""));
    } else {
      RedrawKeepsWf(b.(status := ""));
    }
  }

  /**
   * The click loop of on_button_press (src/window_context.cpp:188-207) from
   * slot `i`: it stops at the sentinel, activates every slot whose click
   * zone holds `y` (there is no break after a match), and goes on over the
   * children as the activation left them.
   */
  function ClickSpec(b: Browser, y: int, i: nat, fs: FileSystem): (r: Result<Browser>)
    requires Shaped(b) && i <= MaxChildren
    decreases MaxChildren - i
    ensures r.Ok? ==> Shaped(r.value) && SameWindow(b, r.value)
  {
    if i == MaxChildren || b.children[i].name == [] then Ok(b)
    else if Hit(b.children[i], y) then
      match Activate(b, b.children[i], fs)
      case Err(f) => Err(f)
      case Ok(b1) => ClickSpec(b1, y, i + 1, fs)
    else ClickSpec(b, y, i + 1, fs)
  }

  /** on_button_press (src/window_context.cpp:186-223). */
  function ButtonSpec(b: Browser, button: int, y: int, fs: FileSystem): (r: Result<Browser>)
    requires Shaped(b)
    ensures r.Ok? ==> Shaped(r.value) && SameWindow(b, r.value)
    ensures button != Button1 ==> r.Ok? && r.value.cwd == b.cwd
  {
    if button == Button1 then ClickSpec(b, y, 0, fs) else Ok(ScrollSpec(b, button))
  }

  /** Slots from `i` up to `k` that are neither a sentinel nor hit are passed over. */
  lemma {:induction false} ClickSkipsMisses(b: Browser, y: int, i: nat, k: nat, fs: FileSystem)
    requires Shaped(b) && i <= k <= MaxChildren
    requires forall j :: i <= j < k ==> b.children[j].name != [] && !Hit(b.children[j], y)
    ensures ClickSpec(b, y, i, fs) == ClickSpec(b, y, k, fs)
    decreases k - i
  {
    if i < k {
      ClickSkipsMisses(b, y, i + 1, k, fs);
    }
  }

  /** A click that hits no listed slot changes nothing. */
  lemma ClickNoHit(b: Browser, y: int, fs: FileSystem)
    requires Shaped(b)
    requires forall j :: 0 <= j < EntryCount(b.children) ==> !Hit(b.children[j], y)
    ensures ClickSpec(b, y, 0, fs) == Ok(b)
  {
    ClickSkipsMisses(b, y, 0, EntryCount(b.children), fs);
  }

  /**
   * On a laid-out screen, a click that hits one listed slot only, and that
   * slot is not an accessible directory, sets the status ("No permission",
   * or cleared for an accessible file) and changes nothing else: the path
   * and the listing stay.
   */
  lemma ClickSingleNonDirectory(b: Browser, y: int, k: nat, fs: FileSystem)
    requires Shaped(b) && LaidOut(b) && k < EntryCount(b.children)
    requires Hit(b.children[k], y)
    requires forall j :: 0 <= j < EntryCount(b.children) && j != k ==> !Hit(b.children[j], y)
    requires !(HasPermission(b.children[k], b.uid, b.gid) && IsDir(b.children[k].mode))
    ensures ClickSpec(b, y, 0, fs) == Ok(b.(status := if HasPermission(b.children[k], b.uid, b.gid) then "" else NoPermission))
  {
    var n := EntryCount(b.children);
    var s := if HasPermission(b.children[k], b.uid, b.gid) then "" else NoPermission;
    ClickSkipsMisses(b, y, 0, k, fs);
    RedrawIgnoresDisplayFlags(b, s, b.debug, b.mouseY);
    var b1 := b.(status := s);
    assert Activate(b, b.children[k], fs) == Ok(b1);
    ClickSkipsMisses(b1, y, k + 1, n, fs);
  }

  /**
   * On a laid-out screen, when the first slot hit is an accessible
   * directory, the click navigates there, clears the status, redraws, and
   * then goes on testing the later slots of the new listing.
   */
  lemma ClickFirstHitDirectory(b: Browser, y: int, k: nat, fs: FileSystem)
    requires Shaped(b) && k < EntryCount(b.children)
    requires Hit(b.children[k], y)
    requires forall j :: 0 <= j < k ==> !Hit(b.children[j], y)
    requires HasPermission(b.children[k], b.uid, b.gid) && IsDir(b.children[k].mode)
    ensures ClickSpec(b, y, 0, fs) ==
      match NavigateSpec(b, b.children[k].name, fs)
      case Err(f) => Err(f)
      case Ok(b1) => ClickSpec(RedrawSpec(b1.(status := "")), y, k + 1, fs)
  {
    ClickSkipsMisses(b, y, 0, k, fs);
  }

  /**
   * A stale row position keeps its click zone: after scrolling down by one
   * from the top, slot 0 is no longer drawn but still claims the top row's
   * zone, so a click there activates slot 0 first and then slot 1, the row
   * actually under the pointer.
   */
  lemma ScrolledTopRowHitsTwice(b: Browser)
    requires LaidOut(b) && b.scrollRow == 0 && b.canScroll && 0 < b.maxScrollRow
    requires Drawn(b.children, 0, FirstRowBottom, b.height) >= 2
    ensures var r := ScrollSpec(b, Button5);
      && r.scrollRow == 1
      && r.children[0].name != [] && r.children[1].name != []
      && Hit(r.children[0], FirstRowBottom) && Hit(r.children[1], FirstRowBottom)
  {
    var c := b.children;
    var n0 := Drawn(c, 0, FirstRowBottom, b.height);
    PlacedRows(c, 0, n0);
    assert c[0] == Placed(c, 0, n0)[0];
    assert c[0].yBot == FirstRowBottom;
    var x := b.(scrollRow := WheelRow(b, Button5));
    assert x.scrollRow == 1;
    var n1 := Drawn(c, 1, FirstRowBottom, b.height);
    assert n1 >= 1;
    PlacedRows(c, 1, n1);
    assert RedrawSpec(x).children == Placed(c, 1, n1);
    assert Placed(c, 1, n1)[0] == c[0];
  }

  // ---------------------------------------------------------------- pointer, keys, expose

  /**
   * on_motion (src/window_context.cpp:244-255): record the pointer y, and
   * redraw when it is not below `maxY` and its row differs from the old one.
   */
  function MotionSpec(b: Browser, y: Int32): (r: Browser)
    requires Shaped(b)
    ensures Shaped(r) && SameWindow(b, r) && r.mouseY == y
    ensures r.cwd == b.cwd && r.scrollRow == b.scrollRow && r.status == b.status && r.debug == b.debug
    ensures y > b.maxY ==> r == b.(mouseY := y)
  {
    var b1 := b.(mouseY := y);
    if y <= b.maxY && Row(b.mouseY) != Row(y) then RedrawSpec(b1) else b1
  }

  /** The row redraw highlights for a pointer y: the one whose band `[bottom - 13, bottom)` holds it. */
  predicate Hovered(r: int, mouseY: int) {
    RowBottom(r) - RowHeight <= mouseY < RowBottom(r)
  }

  /** Motion within the list redraws exactly when the highlighted row changes. */
  lemma MotionRedrawsOnRowChange(b: Browser, y: Int32)
    requires Shaped(b) && b.mouseY >= HeaderHeight && y >= HeaderHeight && y <= b.maxY
    ensures MotionSpec(b, y) == (if exists r :: Hovered(r, b.mouseY) && !Hovered(r, y)
      then RedrawSpec(b.(mouseY := y)) else b.(mouseY := y))
  {
    var r0 := Row(b.mouseY);
    assert Hovered(r0, b.mouseY);
    if Row(b.mouseY) == Row(y) {
      forall r | Hovered(r, b.mouseY) ensures Hovered(r, y) {
        assert r == r0;
      }
    }
  }

  /**
   * Over the header band the unsigned division yields no list row, so moving
   * from the header onto the first row redraws, and so does crossing from
   * y 6 to y 7 inside the header, though both lie in the band of the same
   * (off-list) row -1.
   */
  lemma MotionHeaderRows(b: Browser)
    requires Shaped(b) && b.maxY >= 15
    ensures !Hovered(0, 5) && Hovered(0, 15)
    ensures b.mouseY == 5 ==> MotionSpec(b, 15) == RedrawSpec(b.(mouseY := 15))
    ensures b.mouseY == 6 ==> MotionSpec(b, 7) == RedrawSpec(b.(mouseY := 7))
    ensures Hovered(-1, 6) && Hovered(-1, 7)
  {
    HeaderRows(5);
    HeaderRows(6);
    HeaderRows(7);
  }

  /** The key part of on_key_press (src/window_context.cpp:225-242): 'd' toggles debug and redraws. */
  function KeySpec(b: Browser, key: char): (r: Browser)
    requires Shaped(b)
    ensures Shaped(r) && SameWindow(b, r) && r.cwd == b.cwd && r.scrollRow == b.scrollRow
    ensures r.debug == (b.debug != (key == 'd'))
    ensures key != 'd' ==> r == b
  {
    if key == 'd' then RedrawSpec(b.(debug := !b.debug)) else b
  }

  /** on_key_press's return value: 'q' asks to quit. */
  function KeyCode(key: char): (r: int)
    ensures r == UserQuitExitCode <==> key == 'q'
    ensures r == UserQuitExitCode || r == NoExit
  {
    if key == 'q' then UserQuitExitCode else NoExit
  }

  /** Pressing 'd' twice restores the debug flag and leaves a freshly laid-out screen. */
  lemma DebugToggleTwice(b: Browser)
    requires Shaped(b)
    ensures KeySpec(KeySpec(b, 'd'), 'd') == RedrawSpec(b)
    ensures KeyCode('q') == UserQuitExitCode && KeyCode('d') == NoExit
  {
    RedrawIgnoresDisplayFlags(b, b.status, !b.debug, b.mouseY);
    RedrawIdempotent(b);
    var r1 := RedrawSpec(b).(debug := !b.debug);
    RedrawIgnoresDisplayFlags(RedrawSpec(b), b.status, b.debug, b.mouseY);
  }

  /**
   * The back-buffer policy of on_expose (src/window_context.cpp:155-179):
   * reallocate at the new size when either side grew past the old window
   * size, or when the new area is at most a quarter of `maxArea`; otherwise
   * keep the buffer.
   */
  function Resized(b: Browser, w: Dim, h: Dim): (r: Browser)
    ensures r.width == w && r.height == h
    ensures w > b.width || h > b.height ==> r.maxArea == w * h && r.backW == w && r.backH == h
    ensures b.width <= b.backW && b.height <= b.backH ==> w <= r.backW && h <= r.backH
    ensures r.maxArea == b.maxArea || r.maxArea == w * h
  {
    if w > b.width || h > b.height || w * h * 4 <= b.maxArea then
      b.(width := w, height := h, backW := w, backH := h, maxArea := w * h)
    else
      b.(width := w, height := h)
  }

  /** on_expose: resize, then redraw. */
  function ExposeSpec(b: Browser, w: Dim, h: Dim): (r: Browser)
    requires Shaped(b)
    ensures Shaped(r) && r.width == w && r.height == h
    ensures r.cwd == b.cwd && r.scrollRow == b.scrollRow && r.uid == b.uid && r.gid == b.gid
    ensures r.maxArea == b.maxArea || r.maxArea == w * h
  {
    RedrawSpec(Resized(b, w, h))
  }

  /**
   * The back buffer always covers the window and `maxArea` is its area; the
   * area changes only on a growth or a shrink to a quarter or less.
   */
  lemma ExposeKeepsCover(b: Browser, w: Dim, h: Dim)
    requires Wf(b)
    ensures Wf(ExposeSpec(b, w, h))
    ensures var r := ExposeSpec(b, w, h);
      && r.width == w && r.height == h
      && (r.maxArea != b.maxArea ==> w > b.width || h > b.height || r.maxArea * 4 <= b.maxArea)
      && (w <= b.width && h <= b.height ==> (r.maxArea == w * h <==> w * h * 4 <= b.maxArea || w * h == b.maxArea))
      && (w > b.width || h > b.height ==> r.maxArea == w * h)
  {
    var x := Resized(b, w, h);
    assert Wf(x);
    RedrawKeepsWf(x);
    assert ExposeSpec(b, w, h).maxArea == x.maxArea;
  }

  /**
   * Exactly a quarter shrinks: 200x200 to 100x100 reallocates, 200x200 to
   * 101x100 does not. A growth in one side reallocates at the new size even
   * when that is smaller than the buffer: 100x400 to 101x100.
   */
  lemma ExposeExamples(b: Browser)
    requires Shaped(b) && b.width == 200 && b.height == 200 && b.maxArea == 40000
    ensures ExposeSpec(b, 100, 100).maxArea == 10000
    ensures ExposeSpec(b, 101, 100).maxArea == 40000
    ensures ExposeSpec(b.(width := 100, height := 400), 101, 100).maxArea == 10100
  {
  }

  /**
   * get_selected_segment (src/window_context.cpp:380-388): nothing above
   * the list or below `maxY`; otherwise the screen row under the pointer,
   * which is the row redraw highlights. The index is a screen row: the
   * source ignores the scroll row here.
   */
  function SelectedRow(mouseY: Int32, maxY: int): (r: Option<int>)
    ensures r.Some? <==> HeaderHeight <= mouseY <= maxY
    ensures r.Some? ==> r.value >= 0 && Hovered(r.value, mouseY)
  {
    if mouseY > maxY || mouseY < HeaderHeight then None else Some(Row(mouseY))
  }

  /**
   * Click zones and highlight bands disagree at the edges: the bottom pixel
   * line of a row clicks that row while the next row is highlighted, and the
   * top three pixel lines of a highlighted row click nothing of it.
   */
  lemma ClickZoneAgainstHover(e: Entry, r: int, y: int)
    requires e.yBot == RowBottom(r)
    ensures Hit(e, y) && !Hovered(r, y) <==> y == e.yBot
    ensures Hovered(r, y) && !Hit(e, y) <==> e.yBot - RowHeight <= y < e.yBot - 10
    ensures y == e.yBot ==> Hovered(r + 1, y)
  {
  }
}
