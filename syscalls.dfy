/** capable/src/syscalls.rs: which file a traced syscall touches and how.
    A table lists, for every syscall of interest, the argument that holds
    the path and the access it makes; `open`, `openat` and `openat2` add the
    access their flags ask for. */
module Syscalls {
  import opened Util
  import opened CapableCommon
  import opened Strace

  // ---------------------------------------------------------------------
  // Argument positions

  /** The `Pos` flags: the argument holding the path, one bit per
      position; the empty set of flags is also used. */
  const NoPos: u32 := 0
  const One: u32 := 1
  const Two: u32 := 2
  const Three: u32 := 4
  const Four: u32 := 8
  const Five: u32 := 16

  /** 2 to the power `k`. */
  function Pow2(k: nat): nat {
    if k == 0 then 1 else 2 * Pow2(k - 1)
  }

  /** `Into<usize> for Pos`: the index of the single set bit among the
      five positions, and 0 for anything else, the empty set included. */
  function PosIndex(p: u32): (r: nat)
    ensures r < 5
    ensures p in {One, Two, Three, Four, Five} ==> Pow2(r) == p
    ensures p !in {One, Two, Three, Four, Five} ==> r == 0
  {
    if p == One then 0
    else if p == Two then 1
    else if p == Three then 2
    else if p == Four then 3
    else if p == Five then 4
    else 0
  }

  // ---------------------------------------------------------------------
  // Access

  /** The `Access` flags: read, write and execute bits. */
  type Access = bv3

  const NoAccess: Access := 0
  const R: Access := 4
  const W: Access := 2
  const X: Access := 1
  const RW: Access := 6
  const RX: Access := 5
  const WX: Access := 3
  const RWX: Access := 7

  /** The letters `Display for Access` writes: R, W and X, in this order,
      for the bits present. */
  function AccessString(a: Access): string {
    (if a & R == R then "R" else "") + (if a & W == W then "W" else "") + (if a & X == X then "X" else "")
  }

  /** Reads the letters back into flags. */
  function ParseAccess(s: string): Access
    decreases |s|
  {
    if s == [] then NoAccess else LetterBit(s[0]) | ParseAccess(s[1..])
  }

  function LetterBit(c: char): Access {
    match c
    case 'R' => R
    case 'W' => W
    case 'X' => X
    case _ => NoAccess
  }

  /** The letters lose nothing. */
  lemma ParseAccessString(a: Access)
    ensures ParseAccess(AccessString(a)) == a
    ensures |AccessString(a)| <= 3
  {
    var r := if a & R == R then "R" else "";
    var w := if a & W == W then "W" else "";
    var x := if a & X == X then "X" else "";
    assert AccessString(a) == r + w + x;
    ParseAccessAppend(r, w + x);
    ParseAccessAppend(w, x);
    assert r + w + x == r + (w + x);
  }

  lemma {:induction false} ParseAccessAppend(s: string, t: string)
    ensures ParseAccess(s + t) == ParseAccess(s) | ParseAccess(t)
    decreases |s|
  {
    if s != [] {
      assert (s + t)[0] == s[0] && (s + t)[1..] == s[1..] + t;
      ParseAccessAppend(s[1..], t);
      var b, p, q := LetterBit(s[0]), ParseAccess(s[1..]), ParseAccess(t);
      assert ParseAccess(s + t) == b | (p | q);
      assert b | (p | q) == (b | p) | q;
    } else {
      assert s + t == t;
    }
  }

  /** `Display for Access`: pushes the letters one by one. */
  method FormatAccess(a: Access) returns (s: string)
    ensures s == AccessString(a)
  {
    s := "";
    if a & R == R {
      s := s + ['R'];
    }
    if a & W == W {
      s := s + ['W'];
    }
    if a & X == X {
      s := s + ['X'];
    }
  }

  // ---------------------------------------------------------------------
  // The table

  /** A row of `CALLS`: the syscall's name, the argument holding the path,
      and the access it makes. */
  datatype CallSpec = CallSpec(name: string, pos: u32, access: Access)

  /** `CALLS`. */
  const Calls: seq<CallSpec> := [
      CallSpec("access", One, NoAccess),
      CallSpec("acct", One, NoAccess),
      CallSpec("bsd43_fstat", NoPos, NoAccess),
      CallSpec("bsd43_fstatfs", NoPos, NoAccess),
      CallSpec("bsd43_lstat", NoPos, NoAccess),
      CallSpec("bsd43_oldfstat", NoPos, NoAccess),
      CallSpec("bsd43_oldstat", NoPos, NoAccess),
      CallSpec("bsd43_stat", NoPos, NoAccess),
      CallSpec("bsd43_statfs", NoPos, NoAccess),
      CallSpec("chdir", One, NoAccess),
      CallSpec("chmod", One, NoAccess),
      CallSpec("chown", One, NoAccess),
      CallSpec("chown32", One, NoAccess),
      CallSpec("chroot", One, NoAccess),
      CallSpec("creat", One, W),
      CallSpec("execv", One, RX),
      CallSpec("execve", One, RX),
      CallSpec("execveat", One, RX),
      CallSpec("faccessat", One, NoAccess),
      CallSpec("faccessat2", One, NoAccess),
      CallSpec("fanotify_mark", Five, NoAccess),
      CallSpec("fchmodat", Two, NoAccess),
      CallSpec("fchmodat2", One, NoAccess),
      CallSpec("fchownat", One, NoAccess),
      CallSpec("fsconfig", Five, NoAccess),
      CallSpec("fspick", Two, NoAccess),
      CallSpec("fstat", NoPos, NoAccess),
      CallSpec("fstat64", NoPos, NoAccess),
      CallSpec("fstatat64", NoPos, NoAccess),
      CallSpec("fstatfs", NoPos, NoAccess),
      CallSpec("fstatfs64", NoPos, NoAccess),
      CallSpec("futimesat", One, W),
      CallSpec("getcwd", One, NoAccess),
      CallSpec("getxattr", One, R),
      CallSpec("inotify_add_watch", One, NoAccess),
      CallSpec("lchown", One, NoAccess),
      CallSpec("lchown32", One, NoAccess),
      CallSpec("lgetxattr", One, R),
      CallSpec("link", Two, W),
      CallSpec("linkat", Four, W),
      CallSpec("listxattr", One, R),
      CallSpec("llistxattr", One, R),
      CallSpec("lremovexattr", One, W),
      CallSpec("lsetxattr", One, W),
      CallSpec("lstat", One, NoAccess),
      CallSpec("lstat64", One, NoAccess),
      CallSpec("mkdir", One, W),
      CallSpec("mkdirat", Two, W),
      CallSpec("mknod", One, W),
      CallSpec("mknodat", Two, W),
      CallSpec("mount", NoPos, NoAccess),
      CallSpec("mount_setattr", NoPos, NoAccess),
      CallSpec("move_mount", NoPos, NoAccess),
      CallSpec("name_to_handle_at", Two, R),
      CallSpec("newfstatat", NoPos, NoAccess),
      CallSpec("oldfstat", NoPos, NoAccess),
      CallSpec("oldlstat", NoPos, NoAccess),
      CallSpec("oldstat", NoPos, NoAccess),
      CallSpec("oldumount", NoPos, NoAccess),
      CallSpec("open", One, NoAccess),
      CallSpec("openat", Two, NoAccess),
      CallSpec("openat2", Two, NoAccess),
      CallSpec("open_tree", Two, NoAccess),
      CallSpec("osf_fstat", NoPos, NoAccess),
      CallSpec("osf_fstatfs", NoPos, NoAccess),
      CallSpec("osf_fstatfs64", NoPos, NoAccess),
      CallSpec("osf_lstat", NoPos, NoAccess),
      CallSpec("osf_old_fstat", NoPos, NoAccess),
      CallSpec("osf_old_lstat", NoPos, NoAccess),
      CallSpec("osf_old_stat", NoPos, NoAccess),
      CallSpec("osf_stat", NoPos, NoAccess),
      CallSpec("osf_statfs", NoPos, NoAccess),
      CallSpec("osf_statfs64", NoPos, NoAccess),
      CallSpec("osf_utimes", One, W),
      CallSpec("pivot_root", One, NoAccess),
      CallSpec("posix_fstat", NoPos, NoAccess),
      CallSpec("posix_fstatfs", NoPos, NoAccess),
      CallSpec("posix_lstat", NoPos, NoAccess),
      CallSpec("posix_stat", NoPos, NoAccess),
      CallSpec("posix_statfs", NoPos, NoAccess),
      CallSpec("quotactl", NoPos, NoAccess),
      CallSpec("readlink", One, R),
      CallSpec("readlinkat", Two, R),
      CallSpec("removexattr", One, NoAccess),
      CallSpec("rename", One, W),
      CallSpec("renameat", Two, W),
      CallSpec("renameat2", Two, W),
      CallSpec("rmdir", One, W),
      CallSpec("setxattr", One, NoAccess),
      CallSpec("stat", NoPos, NoAccess),
      CallSpec("stat64", NoPos, NoAccess),
      CallSpec("statfs", NoPos, NoAccess),
      CallSpec("statfs64", NoPos, NoAccess),
      CallSpec("statx", NoPos, NoAccess),
      CallSpec("svr4_fstat", NoPos, NoAccess),
      CallSpec("svr4_fstatfs", NoPos, NoAccess),
      CallSpec("svr4_fstatvfs", NoPos, NoAccess),
      CallSpec("svr4_fxstat", NoPos, NoAccess),
      CallSpec("svr4_lstat", NoPos, NoAccess),
      CallSpec("svr4_lxstat", NoPos, NoAccess),
      CallSpec("svr4_stat", NoPos, NoAccess),
      CallSpec("svr4_statfs", NoPos, NoAccess),
      CallSpec("svr4_statvfs", NoPos, NoAccess),
      CallSpec("svr4_xstat", NoPos, NoAccess),
      CallSpec("swapoff", One, NoAccess),
      CallSpec("swapon", One, NoAccess),
      CallSpec("symlink", One, W),
      CallSpec("symlinkat", Two, W),
      CallSpec("sysv_fstat", NoPos, NoAccess),
      CallSpec("sysv_fstatfs", NoPos, NoAccess),
      CallSpec("sysv_fstatvfs", NoPos, NoAccess),
      CallSpec("sysv_fxstat", NoPos, NoAccess),
      CallSpec("sysv_lstat", NoPos, NoAccess),
      CallSpec("sysv_lxstat", NoPos, NoAccess),
      CallSpec("sysv_quotactl", NoPos, NoAccess),
      CallSpec("sysv_stat", NoPos, NoAccess),
      CallSpec("sysv_statfs", NoPos, NoAccess),
      CallSpec("sysv_statvfs", NoPos, NoAccess),
      CallSpec("sysv_xstat", NoPos, NoAccess),
      CallSpec("truncate", One, W),
      CallSpec("truncate64", One, W),
      CallSpec("umount", NoPos, NoAccess),
      CallSpec("umount2", NoPos, NoAccess),
      CallSpec("unlink", One, W),
      CallSpec("unlinkat", Two, W),
      CallSpec("uselib", NoPos, NoAccess),
      CallSpec("utime", One, W),
      CallSpec("utimensat", Two, W),
      CallSpec("utimensat_time64", Two, W),
      CallSpec("utimes", One, W)

    ]

  /** The first row of `table` for `name`. */
  function FindCall(table: seq<CallSpec>, name: string): (r: Option<nat>)
    ensures r.Some? ==>
      && r.value < |table| && table[r.value].name == name
      && forall j :: 0 <= j < r.value ==> table[j].name != name
    ensures r.None? ==> forall j :: 0 <= j < |table| ==> table[j].name != name
    decreases |table|
  {
    if table == [] then None
    else if table[0].name == name then Some(0)
    else match FindCall(table[1..], name)
      case None => None
      case Some(i) => Some(i + 1)
  }

  // ---------------------------------------------------------------------
  // syscall_to_entry

  /** A file access found in the trace. */
  datatype AccessEntry = AccessEntry(path: string, access: Access, syscall: string)

  /** The message of the panic of an index past the end of a vector. */
  const IndexOutOfBounds: string := "index out of bounds"

  /** The syscalls whose flags add to the access. */
  predicate IsOpen(name: string) {
    name == "open" || name == "openat" || name == "openat2"
  }

  /** The flags of an `open*` call, as text: the third argument if there
      are more than two, otherwise the second, which must exist. */
  function OpenFlags(args: seq<Parameter>): Result<string, string> {
    if |args| > 2 then Success(Display(args[2]))
    else if |args| > 1 then Success(Display(args[1]))
    else Failure(IndexOutOfBounds)
  }

  /** The access an `open*` call makes: `O_RDONLY` reads, `O_WRONLY` and
      `O_CREAT` write, `O_RDWR` does both. */
  function FlagsAccess(access: Access, flags: string): Access {
    var a := if Contains(flags, "O_RDONLY") then access | R else access;
    var b := if Contains(flags, "O_WRONLY") || Contains(flags, "O_CREAT") then a | W else a;
    if Contains(flags, "O_RDWR") then b | RW else b
  }

  /** What `syscall_to_entry` gives for a record of the trace, with `table`
      in place of `CALLS`. */
  function EntryIn(table: seq<CallSpec>, sc: Syscall): Result<Option<AccessEntry>, string> {
    if sc.returnCode.code == -1 then Success(None)
    else match FindCall(table, sc.syscall)
      case None => Success(None)
      case Some(i) => RowEntry(table[i], sc)
  }

  /** The entry made from the row that matches the syscall's name. */
  function RowEntry(row: CallSpec, sc: Syscall): Result<Option<AccessEntry>, string> {
    var access :- if IsOpen(row.name) then
        var flags :- OpenFlags(sc.args);
        Success(FlagsAccess(row.access, flags))
      else Success(row.access);
    var k := PosIndex(row.pos);
    if k < |sc.args| then Success(Some(AccessEntry(Display(sc.args[k]), access, sc.syscall)))
    else Failure(UnwrapNone)
  }

  /** What `syscall_to_entry` gives for a record of the trace. */
  function EntryOf(sc: Syscall): Result<Option<AccessEntry>, string> {
    EntryIn(Calls, sc)
  }

  /** `syscall_to_entry`. */
  method SyscallToEntry(sc: Syscall) returns (r: Result<Option<AccessEntry>, string>)
    ensures r == EntryOf(sc)
  {
    r := ScanCalls(Calls, sc);
  }

  /** The scan of `syscall_to_entry` over the rows of `table`. */
  method ScanCalls(table: seq<CallSpec>, sc: Syscall) returns (r: Result<Option<AccessEntry>, string>)
    ensures r == EntryIn(table, sc)
  {
    if sc.returnCode.code == -1 {
      return Success(None);
    }
    for i := 0 to |table|
      invariant forall j :: 0 <= j < i ==> table[j].name != sc.syscall
    {
      var row := table[i];
      if row.name == sc.syscall {
        assert FindCall(table, sc.syscall) == Some(i);
        r := ClassifyRow(sc, row);
        return;
      }
    }
    return Success(None);
  }

  /** The body of the loop of `syscall_to_entry` for the matching row. */
  method ClassifyRow(sc: Syscall, row: CallSpec) returns (r: Result<Option<AccessEntry>, string>)
    requires row.name == sc.syscall
    ensures r == RowEntry(row, sc)
  {
    var access := row.access;
    if row.name == "open" || row.name == "openat" || row.name == "openat2" {
      var flags: string;
      if |sc.args| > 2 {
        flags := Display(sc.args[2]);
      } else if |sc.args| > 1 {
        flags := Display(sc.args[1]);
      } else {
        return Failure(IndexOutOfBounds);
      }
      if Contains(flags, "O_RDONLY") {
        access := access | R;
      }
      if Contains(flags, "O_WRONLY") || Contains(flags, "O_CREAT") {
        access := access | W;
      }
      if Contains(flags, "O_RDWR") {
        access := access | RW;
      }
    }
    var k := PosIndex(row.pos);
    if k >= |sc.args| {
      return Failure(UnwrapNone);
    }
    return Success(Some(AccessEntry(Display(sc.args[k]), access, sc.syscall)));
  }

  // ---------------------------------------------------------------------
  // What syscall_to_entry computes

  /** A failed syscall, code -1, touches no file, whatever its name. */
  lemma FailedCallIgnored(table: seq<CallSpec>, sc: Syscall)
    requires sc.returnCode.code == -1
    ensures EntryIn(table, sc) == Success(None)
  {
  }

  /** A syscall the table does not list touches no file. */
  lemma UnlistedCallIgnored(table: seq<CallSpec>, sc: Syscall)
    requires forall j :: 0 <= j < |table| ==> table[j].name != sc.syscall
    ensures EntryIn(table, sc) == Success(None)
  {
  }

  /** For a listed syscall the first row with its name decides: the entry
      names the syscall, its path is the argument at the row's position,
      which must exist, and, except for the `open*` calls, its access is the
      row's. */
  lemma ListedCall(table: seq<CallSpec>, sc: Syscall, i: nat)
    requires sc.returnCode.code != -1
    requires i < |table| && table[i].name == sc.syscall
    requires forall j :: 0 <= j < i ==> table[j].name != sc.syscall
    ensures !IsOpen(sc.syscall) && PosIndex(table[i].pos) >= |sc.args| ==> EntryIn(table, sc) == Failure(UnwrapNone)
    ensures !IsOpen(sc.syscall) && PosIndex(table[i].pos) < |sc.args| ==>
      EntryIn(table, sc) == Success(Some(AccessEntry(Display(sc.args[PosIndex(table[i].pos)]), table[i].access, sc.syscall)))
    ensures IsOpen(sc.syscall) && EntryIn(table, sc).Success? ==>
      && PosIndex(table[i].pos) < |sc.args|
      && EntryIn(table, sc).value.value.path == Display(sc.args[PosIndex(table[i].pos)])
      && EntryIn(table, sc).value.value.syscall == sc.syscall
  {
    assert FindCall(table, sc.syscall) == Some(i);
  }

  /** The flags of an `open*` call decide its access: with `k` the argument
      the flags are read from, the entry has the row's access with the
      flags' bits added. */
  lemma OpenCall(row: CallSpec, sc: Syscall)
    requires IsOpen(row.name) && row.name == sc.syscall
    ensures |sc.args| < 2 ==> RowEntry(row, sc) == Failure(IndexOutOfBounds)
    ensures |sc.args| >= 2 && RowEntry(row, sc).Success? ==>
      var flags := Display(sc.args[if |sc.args| > 2 then 2 else 1]);
      RowEntry(row, sc).value.value.access == FlagsAccess(row.access, flags)
  {
  }

  /** The bits the flags add: R with `O_RDONLY` or `O_RDWR`, W with
      `O_WRONLY`, `O_CREAT` or `O_RDWR`, and X never. */
  lemma FlagsAccessBits(access: Access, flags: string)
    ensures FlagsAccess(access, flags) & R == R
      <==> access & R == R || Contains(flags, "O_RDONLY") || Contains(flags, "O_RDWR")
    ensures FlagsAccess(access, flags) & W == W
      <==> access & W == W || Contains(flags, "O_WRONLY") || Contains(flags, "O_CREAT") || Contains(flags, "O_RDWR")
    ensures FlagsAccess(access, flags) & X == access & X
  {
  }
}
