/**
 * The window_context class of src/window_context.cpp with its state in
 * fields and arrays: the path buffer, the scratch path buffer used for
 * probes, and the children array. Each method does what the corresponding
 * member function does, step by step, and is proved against the function of
 * BrowserState that describes that handler on the abstract state `Abs()`.
 *
 * X11 calls are left out: painting has no effect on this state. The
 * directory stream is the field `stream` (what readdir would still return),
 * and the answers of opendir and stat come from a FileSystem value.
 */
module Window {
  import opened Types
  import opened Ordering
  import opened Paths
  import opened Permissions
  import opened Quicksort
  import opened BrowserState

  class WindowContext {
    /** `char cwd[PATH_MAX + 1]` and `cwd_len`. */
    const cwd: array<byte>
    var cwdLen: nat
    /** `char tmp_path[PATH_MAX + 1]` and `tmp_path_len`: the probe path of read_child_dirs. */
    const tmpPath: array<byte>
    var tmpPathLen: nat
    /** The names readdir would still return from the open directory. */
    var stream: seq<seq<byte>>
    const children: array<Entry>
    var mouseY: Int32
    var maxY: int
    var canScroll: bool
    var scrollRow: nat
    var maxScrollRow: int
    var status: string
    var debug: bool
    /** `window_attrs.width` and `.height`. */
    var width: Dim
    var height: Dim
    var maxArea: nat
    /** The size of the back-buffer pixmap. */
    var backW: Dim
    var backH: Dim
    const uid: nat
    const gid: nat

    /** The browser state these fields and arrays hold. */
    ghost function Abs(): Browser
      reads this, cwd, children
      requires cwdLen <= cwd.Length
    {
      Browser(cwd[..cwdLen], stream, children[..], mouseY, maxY, canScroll, scrollRow, maxScrollRow,
        status, debug, width, height, maxArea, backW, backH, uid, gid)
    }

    /** The buffers have their C sizes, the path is NUL-terminated, and the state keeps its invariant. */
    ghost predicate Valid()
      reads this, cwd, children
    {
      && cwd.Length == PathMax + 1 && tmpPath.Length == PathMax + 1 && children.Length == MaxChildren
      && cwd != tmpPath
      && cwdLen < cwd.Length && cwd[cwdLen] == Nul
      && Wf(Abs())
    }

    /**
     * The fields the constructor sets (src/window_context.cpp:112-142), given
     * the path getcwd returned, the listing of the directory opendir opened,
     * the identity and the window size; read_child_dirs is left to Start.
     */
    constructor (path: seq<byte>, listing: seq<seq<byte>>, user: nat, group: nat, w: Dim, h: Dim)
      requires Canonical(path) && |path| + MaxPathSegmentSize <= PathMax && NamesOk(listing)
      ensures Valid() && Abs() == Initial(path, listing, user, group, w, h)
      ensures fresh(cwd) && fresh(tmpPath) && fresh(children)
    {
      cwd := new byte[PathMax + 1](k requires 0 <= k < PathMax + 1 reads {} => if k < |path| then path[k] else Nul);
      cwdLen := |path|;
      tmpPath := new byte[PathMax + 1](_ => Nul);
      tmpPathLen := 0;
      stream := listing;
      children := new Entry[MaxChildren](_ => EmptySlot);
      mouseY := 0;
      maxY := InitialMaxY;
      canScroll := false;
      scrollRow := 0;
      maxScrollRow := 0;
      status := "";
      debug := false;
      width, height := w, h;
      backW, backH := w, h;
      maxArea := w * h;
      uid, gid := user, group;
      new;
      assert cwd[..cwdLen] == path;
      assert children[..] == seq(MaxChildren, _ => EmptySlot);
      InitialWf(path, listing, user, group, w, h);
    }

    /**
     * The state part of redraw (src/window_context.cpp:294-349): walk the
     * children from the scroll row, recording each drawn row's bottom, and
     * derive `maxY`, `canScroll` and `maxScrollRow` from where the walk stopped.
     */
    method Redraw()
      requires Valid()
      modifies this`maxY, this`canScroll, this`maxScrollRow, children
      ensures Valid() && Abs() == RedrawSpec(old(Abs()))
    {
      ghost var b := Abs();
      var i, y := DrawRows();
      maxY := y;
      var screenRows := ScreenRows(height);
      canScroll := i >= screenRows;
      maxScrollRow := i - screenRows + 2;
      assert Abs() == b.(children := children[..], maxY := maxY, canScroll := canScroll, maxScrollRow := maxScrollRow);
      RedrawKeepsWf(b);
    }

    /**
     * The loop of redraw (src/window_context.cpp:303-343): from the scroll
     * row, until the sentinel, the end of the array or the status line,
     * record in each slot the bottom of the row it is drawn on.
     */
    method DrawRows() returns (i: nat, y: int)
      requires children.Length == MaxChildren
      modifies children
      ensures var n := Drawn(old(children[..]), scrollRow, FirstRowBottom, height);
        && i == scrollRow + n && y == RowBottom(n)
        && children[..] == Placed(old(children[..]), scrollRow, n)
    {
      ghost var c0 := children[..];
      var s: nat, h: int := scrollRow, height;
      ghost var n := Drawn(c0, s, FirstRowBottom, h);
      y := FirstRowBottom;
      i := s;
      PlacedNone(c0, s);
      while i < MaxChildren && children[i].name != [] && y <= h - 10
        invariant s <= i && (i <= MaxChildren || i == s)
        invariant y == RowBottom(i - s)
        invariant n == (i - s) + Drawn(c0, i, y, h)
        invariant children[..] == Placed(c0, s, i - s)
        invariant i < MaxChildren ==> children[i] == c0[i]
        decreases MaxChildren - i
      {
        ghost var before := children[..];
        children[i] := children[i].(yBot := y);
        assert children[..] == before[i := before[i].(yBot := y)];
        DrawStep(c0, s, i, y, h, n, before);
        y := y + RowHeight;
        i := i + 1;
      }
    }

    /** set_status (src/window_context.cpp:449-452): replace the status line, nothing else. */
    method SetStatus(text: string)
      requires Valid()
      modifies this`status
      ensures Valid() && Abs() == old(Abs()).(status := text)
    {
      status := text;
    }

    /** set_debug_mode (src/window_context.cpp:257-260): set the flag, then redraw. */
    method SetDebugMode(enabled: bool)
      requires Valid()
      modifies this`debug, this`maxY, this`canScroll, this`maxScrollRow, children
      ensures Valid() && Abs() == RedrawSpec(old(Abs()).(debug := enabled))
    {
      debug := enabled;
      Redraw();
    }

    /** The ending every activation shares (src/window_context.cpp:197-205): a status line, then redraw. */
    method Report(text: string)
      requires Valid()
      modifies this`status, this`maxY, this`canScroll, this`maxScrollRow, children
      ensures Valid() && Abs() == RedrawSpec(old(Abs()).(status := text))
    {
      SetStatus(text);
      Redraw();
    }

    /**
     * The body of the click loop for the slot `i` the click hit
     * (src/window_context.cpp:196-205): without permission report it;
     * otherwise navigate into a directory, clear the status, and redraw.
     */
    method ActivateSlot(i: nat, fs: FileSystem) returns (out: Outcome)
      requires Valid() && WellFormed(fs) && i < MaxChildren && children[i].name != []
      modifies this`cwdLen, cwd, this`stream, this`tmpPathLen, children, tmpPath, this`scrollRow
      modifies this`status, this`maxY, this`canScroll, this`maxScrollRow
      ensures out.Pass? <==> Activate(old(Abs()), old(children[i]), fs).Ok?
      ensures out.Fail? ==> out.fault == Activate(old(Abs()), old(children[i]), fs).fault
      ensures out.Pass? ==> Valid() && Abs() == Activate(old(Abs()), old(children[i]), fs).value
    {
      ghost var b := Abs();
      var e := children[i];
      assert e == b.children[i];
      out := Pass;
      if !HasPermission(e, uid, gid) {
        Report(NoPermission);
      } else if IsDir(e.mode) {
        out := Navigate(e.name, fs);
        if out.Pass? {
          Report("");
        }
      } else {
        Report("");
      }
    }

    /**
     * read_child_dirs(0) (src/window_context.cpp:262-292): take names from
     * the stream into consecutive slots, probing each with stat through the
     * scratch path, write the sentinel, and quicksort the filled slots. A
     * failed stat ends the load with that fault.
     */
    method ReadChildDirs(fs: FileSystem) returns (out: Outcome)
      requires Valid()
      modifies this`stream, this`tmpPathLen, children, tmpPath
      ensures out.Pass? <==> LoadSpec(old(Abs()), fs).Ok?
      ensures out.Fail? ==> out.fault == LoadSpec(old(Abs()), fs).fault
      ensures out.Pass? ==> Valid() && Abs() == LoadSpec(old(Abs()), fs).value
    {
      ghost var b := Abs();
      ghost var path := cwd[..cwdLen];
      var i := FillChildren(fs);
      if i < 0 {
        return Fail(StatFailed(tmpPath[..tmpPathLen]));
      }
      ghost var f := Filled(children[..], i);
      SortSlots(i);
      SortedLoad(b, fs, f, children[..]);
      LoadKeepsWf(b, fs);
      assert cwd[..cwdLen] == b.cwd;
      assert Abs() == b.(children := children[..], stream := b.stream[i..]);
      return Pass;
    }

    /**
     * The end of read_child_dirs (src/window_context.cpp:286-291): write the
     * sentinel after the `n` filled slots unless the array is full, then
     * quicksort slots 0 to n - 1.
     */
    method SortSlots(n: nat)
      requires children.Length == MaxChildren && n <= MaxChildren
      modifies children
      ensures var t := Terminated(Filled(old(children[..]), n));
        && (forall k :: n <= k < MaxChildren ==> children[..][k] == t[k])
        && multiset(children[..][..n]) == multiset(t[..n]) && Sorted(children[..][..n])
    {
      ghost var t := Terminated(Filled(children[..], n));
      if n < MaxChildren {
        children[n] := children[n].(name := []);
      }
      assert children[..] == t;
      Quicksort.Quicksort(children, 0, n - 1);
      SortedSlots(children[..], t, n);
    }

    /**
     * The loop of read_child_dirs. It returns the index it reached, or -1
     * after a stat that failed on the probe path left in `tmpPath`.
     */
    method FillChildren(fs: FileSystem) returns (i: int)
      requires Valid()
      modifies this`stream, this`tmpPathLen, children, tmpPath
      ensures var r := Fill(old(children[..]), cwd[..cwdLen], old(stream), 0, fs);
        && (i < 0 <==> r.Err?)
        && (i < 0 ==> tmpPathLen <= tmpPath.Length && r.fault == StatFailed(tmpPath[..tmpPathLen]))
        && (0 <= i ==> r.value == Filled(children[..], i) && stream == old(stream)[i..])
    {
      ghost var path := cwd[..cwdLen];
      ghost var c0 := children[..];
      ghost var s0 := stream;
      assert NamesOk(s0) && 0 < cwdLen && cwdLen + MaxPathSegmentSize <= PathMax;
      i := 0;
      while i < MaxChildren && stream != []
        invariant 0 <= i <= MaxChildren && i <= |s0| && stream == s0[i..]
        invariant cwd[..cwdLen] == path
        invariant Fill(c0, path, s0, 0, fs) == Fill(children[..], path, stream, i, fs)
        decreases MaxChildren - i
      {
        ghost var c := children[..];
        ghost var s := stream;
        var name := stream[0];
        stream := stream[1..];
        assert name == s0[i];
        var found := ProbeSlot(i, name, fs);
        if !found {
          return -1;
        }
        i := i + 1;
      }
      FillDone(children[..], path, stream, i, fs);
    }

    /**
     * One turn of read_child_dirs' loop (src/window_context.cpp:268-281) for
     * a name readdir returned: store the name in slot `i`, build the probe
     * path in `tmpPath` from the current path, stat it, and on success record
     * its mode and owner in the slot.
     */
    method ProbeSlot(i: nat, name: seq<byte>, fs: FileSystem) returns (found: bool)
      requires cwd.Length == PathMax + 1 && tmpPath.Length == PathMax + 1 && cwd != tmpPath
      requires children.Length == MaxChildren && i < MaxChildren
      requires 0 < cwdLen && cwdLen + MaxPathSegmentSize <= PathMax && ValidName(name)
      modifies this`tmpPathLen, children, tmpPath
      ensures tmpPathLen <= tmpPath.Length && tmpPath[..tmpPathLen] == Join(cwd[..cwdLen], name)
      ensures found <==> Join(cwd[..cwdLen], name) in fs.stats
      ensures found ==>
        children[..] == old(children[..])[i := Probed(name, fs.stats[Join(cwd[..cwdLen], name)], old(children[i].yBot))]
    {
      children[i] := children[i].(name := name);
      Copy(tmpPath, 0, cwd[..cwdLen + 1]);
      assert tmpPath[..cwdLen] == cwd[..cwdLen];
      tmpPathLen := PathJoin(tmpPath, cwdLen, name);
      var probe := tmpPath[..tmpPathLen];
      if probe !in fs.stats {
        return false;
      }
      var st := fs.stats[probe];
      children[i] := children[i].(mode := st.mode, uid := st.uid, gid := st.gid);
      return true;
    }

    /**
     * navigate (src/window_context.cpp:426-439): join the name onto the path,
     * reopen the directory there, reload the children and return to the top.
     */
    method Navigate(name: seq<byte>, fs: FileSystem) returns (out: Outcome)
      requires Valid() && WellFormed(fs) && ValidName(name)
      modifies this`cwdLen, cwd, this`stream, this`tmpPathLen, children, tmpPath, this`scrollRow
      ensures out.Pass? <==> NavigateSpec(old(Abs()), name, fs).Ok?
      ensures out.Fail? ==> out.fault == NavigateSpec(old(Abs()), name, fs).fault
      ensures out.Pass? ==> Valid() && Abs() == NavigateSpec(old(Abs()), name, fs).value
    {
      ghost var b := Abs();
      var isOpen := ChangeDir(name, fs);
      if !isOpen {
        out := Fail(OpenDirFailed(cwd[..cwdLen]));
      } else {
        NavigateLoads(b, name, fs);
        out := Reload(fs);
      }
    }

    /** The second half of navigate (src/window_context.cpp:436-438): reload the children, then scroll to the top. */
    method Reload(fs: FileSystem) returns (out: Outcome)
      requires Valid() && WellFormed(fs)
      modifies this`stream, this`tmpPathLen, children, tmpPath, this`scrollRow
      ensures out.Pass? <==> LoadSpec(old(Abs()), fs).Ok?
      ensures out.Fail? ==> out.fault == LoadSpec(old(Abs()), fs).fault
      ensures out.Pass? ==> Valid() && Abs() == LoadSpec(old(Abs()), fs).value.(scrollRow := 0)
    {
      out := ReadChildDirs(fs);
      if out.Pass? {
        ghost var b := Abs();
        scrollRow := 0;
        assert Abs() == b.(scrollRow := 0);
      }
    }

    /**
     * The click loop of on_button_press (src/window_context.cpp:188-207): up
     * to the sentinel, activate every slot whose click zone holds `y`, over
     * the children as each activation leaves them.
     */
    method Click(y: Int32, fs: FileSystem) returns (out: Outcome)
      requires Valid() && WellFormed(fs)
      modifies this`cwdLen, cwd, this`stream, this`tmpPathLen, children, tmpPath, this`scrollRow
      modifies this`status, this`maxY, this`canScroll, this`maxScrollRow
      ensures out.Pass? <==> ClickSpec(old(Abs()), y, 0, fs).Ok?
      ensures out.Fail? ==> out.fault == ClickSpec(old(Abs()), y, 0, fs).fault
      ensures out.Pass? ==> Valid() && Abs() == ClickSpec(old(Abs()), y, 0, fs).value
    {
      ghost var b0 := Abs();
      out := Pass;
      var i: nat := 0;
      while i < MaxChildren
        invariant i <= MaxChildren && Valid() && out == Pass
        invariant ClickSpec(b0, y, 0, fs) == ClickSpec(Abs(), y, i, fs)
        decreases MaxChildren - i
      {
        if children[i].name == [] {
          break;
        }
        if Hit(children[i], y) {
          ghost var bi := Abs();
          out := ActivateSlot(i, fs);
          if out.Fail? {
            assert ClickSpec(bi, y, i, fs) == Err(out.fault);
            return;
          }
        }
        i := i + 1;
      }
      assert ClickSpec(Abs(), y, i, fs) == Ok(Abs());
    }

    /** The wheel branches of on_button_press (src/window_context.cpp:208-220). */
    method Scroll(button: int)
      requires Valid()
      modifies this`scrollRow, this`maxY, this`canScroll, this`maxScrollRow, children
      ensures Valid() && Abs() == ScrollSpec(old(Abs()), button)
    {
      ghost var b := Abs();
      if canScroll && button == Button4 {
        if scrollRow > 0 {
          scrollRow := scrollRow - 1;
        }
      } else if canScroll && button == Button5 {
        if scrollRow < maxScrollRow {
          scrollRow := scrollRow + 1;
        }
      } else {
        return;
      }
      assert Abs() == b.(scrollRow := WheelRow(b, button));
      Redraw();
    }

    /** on_button_press (src/window_context.cpp:186-223): a click, a wheel step, or nothing. */
    method OnButtonPress(button: int, y: Int32, fs: FileSystem) returns (code: int, out: Outcome)
      requires Valid() && WellFormed(fs)
      modifies this`cwdLen, cwd, this`stream, this`tmpPathLen, children, tmpPath, this`scrollRow
      modifies this`status, this`maxY, this`canScroll, this`maxScrollRow
      ensures code == NoExit
      ensures out.Pass? <==> ButtonSpec(old(Abs()), button, y, fs).Ok?
      ensures out.Fail? ==> out.fault == ButtonSpec(old(Abs()), button, y, fs).fault
      ensures out.Pass? ==> Valid() && Abs() == ButtonSpec(old(Abs()), button, y, fs).value
    {
      if button == Button1 {
        out := Click(y, fs);
      } else {
        Scroll(button);
        out := Pass;
      }
      code := NoExit;
    }

    /** on_key_press (src/window_context.cpp:225-242), given the key the keycode maps to. */
    method OnKeyPress(key: char) returns (code: int)
      requires Valid()
      modifies this`debug, this`maxY, this`canScroll, this`maxScrollRow, children
      ensures code == KeyCode(key)
      ensures Valid() && Abs() == KeySpec(old(Abs()), key)
    {
      if key == 'd' {
        SetDebugMode(!debug);
      } else if key == 'q' {
        return UserQuitExitCode;
      }
      return NoExit;
    }

    /** on_motion (src/window_context.cpp:244-255). */
    method OnMotion(y: Int32) returns (code: int)
      requires Valid()
      modifies this`mouseY, this`maxY, this`canScroll, this`maxScrollRow, children
      ensures code == NoExit
      ensures Valid() && Abs() == MotionSpec(old(Abs()), y)
    {
      var currRow := Row(mouseY);
      var nextRow := Row(y);
      mouseY := y;
      if mouseY <= maxY && currRow != nextRow {
        Redraw();
      }
      return NoExit;
    }

    /**
     * on_expose (src/window_context.cpp:155-184), given the new window size:
     * reallocate the back buffer on growth or on a shrink to a quarter of
     * its area, then redraw.
     */
    method OnExpose(w: Dim, h: Dim) returns (code: int)
      requires Valid()
      modifies this`width, this`height, this`backW, this`backH, this`maxArea
      modifies this`maxY, this`canScroll, this`maxScrollRow, children
      ensures code == NoExit
      ensures Valid() && Abs() == ExposeSpec(old(Abs()), w, h)
    {
      ghost var b := Abs();
      var oldW, oldH := width, height;
      width, height := w, h;
      if w > oldW || h > oldH {
        backW, backH := w, h;
        maxArea := w * h;
      } else {
        var newArea := w * h;
        if newArea * 4 <= maxArea {
          maxArea := newArea;
          backW, backH := w, h;
        }
      }
      assert Abs() == Resized(b, w, h);
      Redraw();
      return NoExit;
    }

    /**
     * The first half of navigate (src/window_context.cpp:427-435): join the
     * name onto the path buffer, then open the directory at the new path,
     * which replaces the directory stream.
     */
    method ChangeDir(name: seq<byte>, fs: FileSystem) returns (isOpen: bool)
      requires Valid() && WellFormed(fs) && ValidName(name)
      modifies this`cwdLen, cwd, this`stream
      ensures cwdLen < cwd.Length && cwd[..cwdLen] == Join(old(cwd[..cwdLen]), name)
      ensures isOpen <==> cwd[..cwdLen] in fs.listing
      ensures isOpen ==> Valid() && Abs() == old(Abs()).(cwd := cwd[..cwdLen], stream := fs.listing[cwd[..cwdLen]])
    {
      ghost var b := Abs();
      cwdLen := PathJoin(cwd, cwdLen, name);
      var p := cwd[..cwdLen];
      if p !in fs.listing {
        return false;
      }
      stream := fs.listing[p];
      JoinCanonical(b.cwd, name);
      assert Abs() == b.(cwd := p, stream := fs.listing[p]);
      return true;
    }
  }

  /**
   * The constructor (src/window_context.cpp:85-143) from the working
   * directory on: open it (a directory that does not open is a fault), set
   * up the state, and load the children.
   */
  method Start(path: seq<byte>, fs: FileSystem, user: nat, group: nat, w: Dim, h: Dim) returns (r: Result<WindowContext>)
    requires Canonical(path) && WellFormed(fs)
    ensures r.Ok? <==> StartSpec(path, fs, user, group, w, h).Ok?
    ensures r.Err? ==> r.fault == StartSpec(path, fs, user, group, w, h).fault
    ensures r.Ok? ==> fresh(r.value) && r.value.Valid() && r.value.Abs() == StartSpec(path, fs, user, group, w, h).value
  {
    if path !in fs.listing {
      return Err(OpenDirFailed(path));
    }
    var ctx := new WindowContext(path, fs.listing[path], user, group, w, h);
    var out := ctx.ReadChildDirs(fs);
    if out.Fail? {
      return Err(out.fault);
    }
    return Ok(ctx);
  }

  /** What the quicksort of the filled slots guarantees, in the terms of SortedLoad. */
  lemma SortedSlots(u: seq<Entry>, c: seq<Entry>, n: int)
    requires 0 <= n <= |c| && SortedPermutation(u, c, 0, n - 1)
    ensures |u| == |c| && (forall k :: n <= k < |c| ==> u[k] == c[k])
    ensures multiset(u[..n]) == multiset(c[..n]) && Sorted(u[..n])
  {
    assert u[0..n] == u[..n] && c[0..n] == c[..n];
  }

  /** One turn of redraw's loop: slot `i` gets the bottom of its row, and the walk moves on. */
  lemma DrawStep(c0: seq<Entry>, s: nat, i: nat, y: int, h: int, n: nat, before: seq<Entry>)
    requires |c0| == MaxChildren && s <= i < MaxChildren && c0[i].name != [] && y <= h - 10
    requires y == RowBottom(i - s) && n == (i - s) + Drawn(c0, i, y, h)
    requires before == Placed(c0, s, i - s) && before[i] == c0[i]
    ensures y + RowHeight == RowBottom(i + 1 - s) && n == (i + 1 - s) + Drawn(c0, i + 1, y + RowHeight, h)
    ensures before[i := before[i].(yBot := y)] == Placed(c0, s, i + 1 - s)
    ensures i + 1 < MaxChildren ==> Placed(c0, s, i + 1 - s)[i + 1] == c0[i + 1]
  {
    DrawnNext(c0, s, i, y, h, n);
    PlacedNext(c0, s, i - s);
    if i + 1 < MaxChildren {
      PlacedNext(c0, s, i + 1 - s);
    }
  }
}
