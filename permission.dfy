/**
 * has_permission (src/window_context.cpp:441-447): a heuristic guess, from
 * the `st_mode` bits and the owner of an entry, whether the user may enter it
 * (a directory) or read it (anything else). The bit values are those of
 * <sys/stat.h> in POSIX.1 (IEEE Std 1003.1).
 */
module Permissions {
  import opened Types

  const SIfmt: bv32 := 0xF000
  const SIfdir: bv32 := 0x4000
  const SIrusr: bv32 := 0x100
  const SIxusr: bv32 := 0x40
  const SIrgrp: bv32 := 0x20
  const SIxgrp: bv32 := 0x8
  const SIroth: bv32 := 0x4
  const SIxoth: bv32 := 0x1

  /** S_ISDIR. */
  predicate IsDir(mode: bv32) {
    mode & SIfmt == SIfdir
  }

  /**
   * The source's test: for a directory the execute bits decide, for anything
   * else the read bits; the owner bit needs a uid match, the group bit a gid
   * match, the other bit nothing. There is no exception for uid 0.
   */
  predicate HasPermission(e: Entry, uid: nat, gid: nat) {
    if IsDir(e.mode) then
      (SIxoth & e.mode != 0) || ((SIxusr & e.mode != 0) && uid == e.uid) || ((SIxgrp & e.mode != 0) && gid == e.gid)
    else
      (SIroth & e.mode != 0) || ((SIrusr & e.mode != 0) && uid == e.uid) || ((SIrgrp & e.mode != 0) && gid == e.gid)
  }

  /** The three permission classes of a mode word, and the two rights the browser asks for. */
  datatype Who = Owner | Group | Other
  datatype Right = Read | Execute

  /** Position of a class's bit for a right in the low nine bits: rwx rwx rwx, owner first. */
  function BitIndex(w: Who, r: Right): (k: bv32)
    ensures k < 9
  {
    var base: bv32 := match w case Owner => 6 case Group => 3 case Other => 0;
    base + (if r == Read then 2 else 0)
  }

  /** Whether the mode grants right `r` to class `w`, read off by shifting. */
  predicate Grants(mode: bv32, w: Who, r: Right) {
    (mode >> BitIndex(w, r)) & 1 == 1
  }

  /** The classes a user with `uid`/`gid` belongs to for an entry. */
  predicate Applies(w: Who, e: Entry, uid: nat, gid: nat) {
    match w
    case Owner => uid == e.uid
    case Group => gid == e.gid
    case Other => true
  }

  /**
   * A reference statement of the same heuristic: the right the entry's kind
   * needs is granted to some class the user belongs to.
   */
  predicate Permitted(e: Entry, uid: nat, gid: nat) {
    var r := if IsDir(e.mode) then Execute else Read;
    exists w: Who :: Applies(w, e, uid, gid) && Grants(e.mode, w, r)
  }

  lemma GrantsBit(mode: bv32)
    ensures Grants(mode, Owner, Read) == (SIrusr & mode != 0)
    ensures Grants(mode, Owner, Execute) == (SIxusr & mode != 0)
    ensures Grants(mode, Group, Read) == (SIrgrp & mode != 0)
    ensures Grants(mode, Group, Execute) == (SIxgrp & mode != 0)
    ensures Grants(mode, Other, Read) == (SIroth & mode != 0)
    ensures Grants(mode, Other, Execute) == (SIxoth & mode != 0)
  {
  }

  /** The source's test and the reference definition agree on every entry and identity. */
  lemma HasPermissionIsPermitted(e: Entry, uid: nat, gid: nat)
    ensures HasPermission(e, uid, gid) <==> Permitted(e, uid, gid)
  {
    GrantsBit(e.mode);
    var r := if IsDir(e.mode) then Execute else Read;
    if HasPermission(e, uid, gid) {
      if Grants(e.mode, Other, r) {
        assert Applies(Other, e, uid, gid);
      } else if Grants(e.mode, Owner, r) && uid == e.uid {
        assert Applies(Owner, e, uid, gid);
      } else {
        assert Applies(Group, e, uid, gid);
      }
    } else {
      forall w: Who ensures !(Applies(w, e, uid, gid) && Grants(e.mode, w, r)) {
      }
    }
  }

  /** Adding permission bits, without changing the file type, never takes access away. */
  lemma HasPermissionMonotone(e: Entry, extra: bv32, uid: nat, gid: nat)
    requires extra & SIfmt == 0
    requires HasPermission(e, uid, gid)
    ensures HasPermission(e.(mode := e.mode | extra), uid, gid)
  {
    var m := e.mode | extra;
    assert m & SIfmt == e.mode & SIfmt;
    assert SIxoth & e.mode != 0 ==> SIxoth & m != 0;
    assert SIxusr & e.mode != 0 ==> SIxusr & m != 0;
    assert SIxgrp & e.mode != 0 ==> SIxgrp & m != 0;
    assert SIroth & e.mode != 0 ==> SIroth & m != 0;
    assert SIrusr & e.mode != 0 ==> SIrusr & m != 0;
    assert SIrgrp & e.mode != 0 ==> SIrgrp & m != 0;
  }

  /**
   * Worked cases: a root-owned rwxr-xr-x directory is open to uid 1000; a
   * rwx------ directory of uid 1000 is closed to everyone else, uid 0
   * included; a rw-r--r-- file is readable by anyone; a r--r----- file is
   * readable through its owner or its group only.
   */
  lemma HasPermissionExamples()
    ensures HasPermission(Entry([97], 0x41ED, 0, 0, 0), 1000, 1000)
    ensures !HasPermission(Entry([97], 0x41C0, 1000, 1000, 0), 0, 0)
    ensures HasPermission(Entry([97], 0x41C0, 1000, 1000, 0), 1000, 5)
    ensures HasPermission(Entry([97], 0x81A4, 0, 0, 0), 1000, 1000)
    ensures !HasPermission(Entry([97], 0x8120, 0, 7, 0), 1000, 1000)
    ensures HasPermission(Entry([97], 0x8120, 0, 7, 0), 1000, 7)
  {
  }
}
