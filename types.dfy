/**
 * Shared vocabulary of the browser state: bytes, directory entries, the
 * constants of include/window_context.h, and the abstract operating-system
 * view (directory listings and file metadata) that replaces readdir/stat.
 */
module Types {

  /** One raw byte of a file name or path (C `char` storage). */
  newtype byte = b: int | 0 <= b < 256

  /** C `int` on the targets the source builds for: 32 bits, two's complement. */
  type Int32 = x: int | -0x8000_0000 <= x < 0x8000_0000

  /** A window dimension: an `int` that X11 never makes negative. */
  type Dim = x: int | 0 <= x < 0x8000_0000

  /** Exit codes returned by the event handlers. */
  const NoExit: int := 0
  const UserQuitExitCode: int := 1

  /** Capacity of the children array, size of a name buffer, row pitch in pixels. */
  const MaxChildren: int := 1024
  const MaxPathSegmentSize: int := 256
  const RowHeight: int := 13

  /** PATH_MAX of <linux/limits.h>; the path buffers hold PATH_MAX + 1 bytes. */
  const PathMax: int := 4096

  /** The bytes '/', '.' and the terminating NUL. */
  const Slash: byte := 47
  const Dot: byte := 46
  const Nul: byte := 0

  /**
   * One slot of the children array. `name` holds the first `len` bytes of the
   * C name buffer, so `|name|` is `len`; an empty name is the sentinel that
   * ends the listing. `yBot` is the bottom y of the row where the slot was
   * last drawn; nothing ever resets it.
   */
  datatype Entry = Entry(name: seq<byte>, mode: bv32, uid: nat, gid: nat, yBot: int)

  /** The part of `struct stat` the browser keeps. */
  datatype Stat = Stat(mode: bv32, uid: nat, gid: nat)

  /**
   * What the operating system answers: `listing[p]` is what readdir returns,
   * in order, for a directory that opendir can open at path `p`; `stats[p]`
   * is what stat returns for path `p`. A path missing from a map makes the
   * corresponding call fail.
   */
  datatype FileSystem = FileSystem(listing: map<seq<byte>, seq<seq<byte>>>, stats: map<seq<byte>, Stat>)

  /** The failures that the source turns into a thrown errno. */
  datatype Fault = OpenDirFailed(path: seq<byte>) | StatFailed(path: seq<byte>)

  datatype Result<T> = Ok(value: T) | Err(fault: Fault)

  datatype Outcome = Pass | Fail(fault: Fault)

  datatype Option<T> = None | Some(value: T)

  function Min(a: int, b: int): int { if a <= b then a else b }

  function Max(a: int, b: int): int { if a <= b then b else a }
}
