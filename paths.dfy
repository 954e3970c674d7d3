/**
 * path_join (src/window_context.cpp:390-424): joins one directory entry name
 * onto a length-tracked, NUL-terminated path buffer, in place, without
 * looking at the filesystem.
 */
module Paths {
  import opened Types

  const Root: seq<byte> := [Slash]
  const DotName: seq<byte> := [Dot]
  const DotDot: seq<byte> := [Dot, Dot]

  /** A name as readdir reports it: 1 to 255 bytes, no NUL, no '/'. */
  predicate ValidName(n: seq<byte>) {
    0 < |n| < MaxPathSegmentSize && Nul !in n && Slash !in n
  }

  /** A name that descends into a child: neither "." nor "..". */
  predicate ChildName(n: seq<byte>) {
    ValidName(n) && n != DotName && n != DotDot
  }

  /**
   * An absolute path as getcwd reports it: starts with '/', no NUL, no
   * trailing '/' (except the root itself) and no empty component.
   */
  predicate Canonical(p: seq<byte>) {
    && |p| > 0 && p[0] == Slash && Nul !in p
    && (|p| > 1 ==> p[|p| - 1] != Slash)
    && (forall k :: 0 < k < |p| && p[k] == Slash ==> p[k - 1] != Slash)
  }

  /**
   * Where the backward scan `while (slashpos && wd[--slashpos] != '/')`
   * stops: the index of the last '/', or 0 when there is none.
   */
  function LastSlash(s: seq<byte>): (k: nat)
    ensures k == 0 || (k < |s| && s[k] == Slash)
    ensures forall m :: k < m < |s| ==> s[m] != Slash
  {
    if |s| == 0 then 0
    else if s[|s| - 1] == Slash then |s| - 1
    else LastSlash(s[..|s| - 1])
  }

  /** The path that path_join leaves in the buffer, as a value. */
  function Join(wd: seq<byte>, name: seq<byte>): (r: seq<byte>)
    requires |wd| > 0
    ensures |r| > 0
    ensures |r| <= |wd| + 1 + |name|
    ensures name == DotDot ==> |r| <= |wd|
  {
    if name == DotName then wd
    else if wd == Root then
      (if name == DotDot then wd else Root + name)
    else if name == DotDot then
      (var k := LastSlash(wd); if k == 0 then wd[..1] else wd[..k])
    else wd + [Slash] + name
  }

  /** `memcpy(dst + at, src, |src|)`. */
  method Copy(dst: array<byte>, at: nat, src: seq<byte>)
    requires at + |src| <= dst.Length
    modifies dst
    ensures dst[..] == old(dst[..at]) + src + old(dst[at + |src|..])
  {
    forall k | 0 <= k < |src| {
      dst[at + k] := src[k];
    }
    assert dst[..] == old(dst[..at]) + src + old(dst[at + |src|..]);
  }

  /**
   * The backward scan of the ".." case, `while (slashpos && wd[--slashpos] != '/');`,
   * starting from the end of the path.
   */
  method FindLastSlash(wd: array<byte>, wdLen: nat) returns (slashpos: nat)
    requires wdLen <= wd.Length
    ensures slashpos == LastSlash(wd[..wdLen])
  {
    ghost var s := wd[..wdLen];
    slashpos := wdLen;
    while slashpos != 0
      invariant 0 <= slashpos <= wdLen
      invariant forall m :: slashpos <= m < wdLen ==> s[m] != Slash
    {
      slashpos := slashpos - 1;
      if wd[slashpos] == Slash {
        break;
      }
    }
    var k := LastSlash(s);
    if slashpos != 0 {
      assert s[slashpos] == Slash;
    }
  }

  /** Copies `name` to `wd[at..]` and terminates it with NUL. */
  method PutName(wd: array<byte>, at: nat, name: seq<byte>)
    requires at + |name| < wd.Length
    modifies wd
    ensures wd[..at + |name|] == old(wd[..at]) + name
    ensures wd[at + |name|] == Nul
  {
    Copy(wd, at, name);
    wd[at + |name|] := Nul;
    assert wd[..at + |name|] == old(wd[..at]) + name;
  }

  /** The ".." case: cuts the path at its last '/', keeping the root '/' itself. */
  method CutLast(wd: array<byte>, wdLen: nat) returns (newLen: nat)
    requires 0 < wdLen < wd.Length
    modifies wd
    ensures var k := LastSlash(old(wd[..wdLen])); newLen == if k == 0 then 1 else k
    ensures wd[..newLen] == old(wd[..newLen]) && wd[newLen] == Nul
  {
    var slashpos := FindLastSlash(wd, wdLen);
    if slashpos == 0 {
      wd[1] := Nul;
      newLen := 1;
    } else {
      newLen := slashpos;
      wd[slashpos] := Nul;
    }
  }

  /**
   * path_join: rewrites `wd[..wdLen]` to the joined path and returns the new
   * length; the byte after the path stays NUL. The buffer must have room for
   * the longest result (the source overflows it otherwise).
   */
  method PathJoin(wd: array<byte>, wdLen: nat, name: seq<byte>) returns (newLen: nat)
    requires 0 < wdLen && wdLen + 1 + |name| < wd.Length
    modifies wd
    ensures newLen < wd.Length
    ensures wd[..newLen] == Join(old(wd[..wdLen]), name)
    ensures old(wd[wdLen]) == Nul ==> wd[newLen] == Nul
  {
    ghost var s := wd[..wdLen];
    if |name| == 1 && name[0] == Dot {
      assert name == DotName;
      return wdLen;
    } else if wdLen == 1 && wd[0] == Slash {
      assert s == Root;
      if |name| == 2 && name[0] == Dot && name[1] == Dot {
        assert name == DotDot;
        return wdLen;
      }
      PutName(wd, 1, name);
      newLen := |name| + 1;
    } else if |name| == 2 && name[0] == Dot && name[1] == Dot {
      assert name == DotDot && s != Root;
      newLen := CutLast(wd, wdLen);
      assert s[..newLen] == old(wd[..newLen]);
    } else {
      assert name != DotName && name != DotDot && s != Root;
      wd[wdLen] := Slash;
      assert wd[..wdLen + 1] == s + [Slash];
      PutName(wd, wdLen + 1, name);
      newLen := wdLen + |name| + 1;
    }
  }

  lemma LastSlashAfter(p: seq<byte>, x: seq<byte>)
    requires Slash !in x
    ensures LastSlash(p + [Slash] + x) == |p|
  {
    var s := p + [Slash] + x;
    var k := LastSlash(s);
    assert s[|p|] == Slash;
  }

  /** Joining a plain name onto the root never doubles the separator. */
  lemma LastSlashOfRootChild(x: seq<byte>)
    requires Slash !in x
    ensures LastSlash(Root + x) == 0
  {
    var s := Root + x;
    var k := LastSlash(s);
  }

  /** Joining keeps a path canonical: the invariant of the current directory. */
  lemma JoinCanonical(wd: seq<byte>, name: seq<byte>)
    requires Canonical(wd) && ValidName(name)
    ensures Canonical(Join(wd, name))
  {
    var r := Join(wd, name);
    if name == DotName || (wd == Root && name == DotDot) {
    } else if wd == Root {
      assert r == Root + name;
      assert r[|r| - 1] == name[|name| - 1];
    } else if name == DotDot {
      var k := LastSlash(wd);
      if k > 0 {
        assert r == wd[..k];
        assert wd[k] == Slash;
      }
    } else {
      assert r == wd + [Slash] + name;
      forall m | 0 < m < |r| && r[m] == Slash ensures r[m - 1] != Slash {
        if m < |wd| {
          assert r[m] == wd[m] && r[m - 1] == wd[m - 1];
        }
      }
      assert r[|r| - 1] == name[|name| - 1];
      assert Nul !in r by {
        forall m | 0 <= m < |r| ensures r[m] != Nul {
          if m < |wd| { assert r[m] == wd[m]; }
          else if m > |wd| { assert r[m] == name[m - |wd| - 1]; }
        }
      }
    }
  }

  /** Descending into a child and then joining ".." returns to where one started. */
  lemma JoinParentRoundTrip(wd: seq<byte>, x: seq<byte>)
    requires Canonical(wd) && ChildName(x)
    ensures Join(Join(wd, x), DotDot) == wd
  {
    if wd == Root {
      assert Join(wd, x) == Root + x;
      LastSlashOfRootChild(x);
      assert (Root + x)[..1] == Root;
    } else {
      assert Join(wd, x) == wd + [Slash] + x;
      LastSlashAfter(wd, x);
      assert (wd + [Slash] + x)[..|wd|] == wd;
    }
  }

  /**
   * ".." removes exactly the last component: the result is a proper prefix of
   * the path, and what it removes is one '/' followed by a name without '/'
   * (or, when only one component is left, everything after the root).
   */
  lemma JoinParentStripsLastComponent(wd: seq<byte>)
    requires Canonical(wd) && wd != Root
    ensures var p := Join(wd, DotDot);
      && |p| < |wd| && wd[..|p|] == p
      && (p == Root ==> Slash !in wd[1..])
      && (p != Root ==> wd[|p|] == Slash && Slash !in wd[|p| + 1..])
  {
    var k := LastSlash(wd);
    var p := Join(wd, DotDot);
    if k == 0 {
      assert p == wd[..1] == Root;
      forall m | 0 <= m < |wd[1..]| ensures wd[1..][m] != Slash {
        assert wd[1..][m] == wd[m + 1];
      }
    } else {
      assert p == wd[..k];
      assert wd[k] == Slash && wd[k - 1] != Slash;
      assert forall m :: k < m < |wd| ==> wd[m] != Slash;
    }
  }

  /** Worked examples of `path_join`: join("/","etc"), join("/etc",".."), join("/a/b",".."), join("/",".."), join("/a","."). */
  lemma JoinExamples()
    ensures Join(Root, [101, 116, 99]) == [Slash, 101, 116, 99]
    ensures Join([Slash, 101, 116, 99], DotDot) == Root
    ensures Join([Slash, 97, Slash, 98], DotDot) == [Slash, 97]
    ensures Join(Root, DotDot) == Root
    ensures Join([Slash, 97], DotName) == [Slash, 97]
  {
    LastSlashOfRootChild([101, 116, 99]);
    LastSlashAfter([Slash, 97], [98]);
    assert [Slash, 97, Slash, 98] == [Slash, 97] + [Slash] + [98];
  }
}
