/**
 The local emulation of the fs syscalls: a host tree of files and directories, and a table of
 open descriptors with a cursor and a tracked content length each.
 */
module LocalFs {
  import opened Machine
  import opened Wrappers
  import opened EntryPath
  import opened HostLayout

  const FD_LIMIT: nat := 0x1_0000_0000
  const FS_IO_MAX_BYTES: nat := 16 * 1024 * 1024
  /** O_CREAT | O_EXCL | O_TRUNC | O_APPEND */
  const UNSUPPORTED_OPEN_FLAGS: bv32 := 0x40 | 0x80 | 0x200 | 0x400

  datatype FsError =
    InvalidInput | BadFileDescriptor | NotFound | IsADirectory | InvalidState | BadPath(path: PathError) | HostIo

  /** `file` is the open host file. */
  datatype LocalFd = LocalFd(file: HostPath, oid: Oid, entry: string, read: bool, write: bool, cursor: nat, length: nat)

  datatype Fs = Fs(files: map<HostPath, Bytes>, dirs: set<HostPath>, table: map<nat, LocalFd>)

  /** A file that does not exist counts as empty. */
  function Content(s: Fs, p: HostPath): Bytes {
    if p in s.files then s.files[p] else []
  }

  /** `fault` of a write: how many bytes the host stored before failing, when it fails. */
  datatype Op =
    | Open(oid: Oid, path: string, flags: bv32)
    | Close(fd: nat)
    | Read(fd: nat, len: nat)
    | Write(fd: nat, data: Bytes, fault: Option<nat>)
    | Pread(fd: nat, offset: nat, len: nat)
    | Pwrite(fd: nat, offset: nat, data: Bytes, fault: Option<nat>)
    | Lseek(fd: nat, delta: int, whence: nat)
    | Fstat(fd: nat)

  datatype Reply =
    | Opened(fd: nat) | Closed | Data(bytes: Bytes) | Wrote(n: nat) | Written | Position(at: nat)
    | Stat(oid: Oid, entry: string, length: nat) | Error(error: FsError)

  // ----- host -----

  /** Writing past the end leaves a hole that reads as zeros; writing nothing changes nothing. */
  function Overlay(c: Bytes, offset: nat, data: Bytes): (r: Bytes)
    ensures data == [] ==> r == c
    ensures data != [] ==> |r| == if |c| < offset + |data| then offset + |data| else |c|
    ensures forall i :: 0 <= i < |r| ==>
      r[i] == if offset <= i < offset + |data| then data[i - offset] else if i < |c| then c[i] else 0
  {
    if data == [] then c
    else
      var padded := if |c| < offset then c + seq(offset - |c|, _ => 0) else c;
      padded[..offset] + data + if offset + |data| < |c| then c[offset + |data|..] else []
  }

  function Slice(c: Bytes, offset: nat, len: nat): Bytes {
    if offset >= |c| then [] else if offset + len <= |c| then c[offset..offset + len] else c[offset..]
  }

  /** Every directory above `p` and below the fs root. */
  function Parents(p: HostPath): set<HostPath> {
    set k | 1 <= k < |p| :: p[..k]
  }

  // ----- the syscalls as a function of the state -----

  function LeastFree(table: map<nat, LocalFd>, from: nat): Option<nat>
    requires from <= FD_LIMIT
    decreases FD_LIMIT - from
  {
    if from == FD_LIMIT then None else if from in table then LeastFree(table, from + 1) else Some(from)
  }

  datatype Access = ReadOnly | WriteOnly | ReadWrite

  function AccessOf(flags: bv32): Option<Access> {
    if flags & 3 == 3 || flags & UNSUPPORTED_OPEN_FLAGS != 0 then None
    else if flags & 3 == 0 then Some(ReadOnly)
    else if flags & 3 == 1 then Some(WriteOnly)
    else Some(ReadWrite)
  }

  /** Registers a descriptor at the start of file `p`, or reports that all are taken. */
  function Enroll(s: Fs, p: HostPath, oid: Oid, entry: string, access: Access): (Fs, Reply) {
    match LeastFree(s.table, 0)
    case None => (s, Error(InvalidState))
    case Some(fd) =>
      var e := LocalFd(p, oid, entry, access != WriteOnly, access != ReadOnly, 0, |Content(s, p)|);
      (s.(table := s.table[fd := e]), Opened(fd))
  }

  /** A write open creates the file and the directories above it; a read open demands the file. */
  function OpenAt(s: Fs, p: HostPath, oid: Oid, entry: string, access: Access): (Fs, Reply) {
    if access == ReadOnly then
      if p in s.files then Enroll(s, p, oid, entry, access)
      else (s, Error(if p in s.dirs then IsADirectory else NotFound))
    else if !(Parents(p) !! s.files.Keys) then (s, Error(HostIo))
    else if p in s.dirs then (s, Error(IsADirectory))
    else Enroll(s.(files := s.files[p := Content(s, p)], dirs := s.dirs + Parents(p)), p, oid, entry, access)
  }

  /** What the host holds after a write of `data`, complete or broken off. */
  function Stored(data: Bytes, fault: Option<nat>): Bytes {
    if fault.Some? && fault.value < |data| then data[..fault.value] else data
  }

  function Max(a: nat, b: nat): nat {
    if a < b then b else a
  }

  function WriteAt(s: Fs, fd: nat, offset: nat, data: Bytes, fault: Option<nat>, advance: bool): (Fs, Reply)
    requires fd in s.table
  {
    var e := s.table[fd];
    if offset > I64_MAX then (s, Error(HostIo))
    else
      var files := s.files[e.file := Overlay(Content(s, e.file), offset, Stored(data, fault))];
      if fault.Some? then (s.(files := files), Error(HostIo))
      else
        var end := offset + |data|;
        var e' := e.(cursor := if advance then end else e.cursor, length := Max(e.length, end));
        (Fs(files, s.dirs, s.table[fd := e']), if advance then Wrote(|data|) else Written)
  }

  function SeekBase(e: LocalFd, whence: nat): Option<nat> {
    if whence == 0 then Some(0)
    else if whence == 1 then Some(e.cursor)
    else if whence == 2 then Some(e.length)
    else None
  }

  /** The error that stops `op` before it touches anything, if one does. */
  function Refused(s: Fs, op: Op): Option<FsError> {
    match op
    case Open(_, path, flags) =>
      if AccessOf(flags).None? then Some(InvalidInput)
      else if Normalized(path).Failure? then Some(BadPath(Normalized(path).error)) else None
    case Read(fd, len) =>
      if len > FS_IO_MAX_BYTES then Some(InvalidInput)
      else if fd !in s.table || !s.table[fd].read then Some(BadFileDescriptor) else None
    case Pread(fd, _, len) =>
      if len > FS_IO_MAX_BYTES then Some(InvalidInput)
      else if fd !in s.table || !s.table[fd].read then Some(BadFileDescriptor) else None
    case Write(fd, data, _) =>
      if |data| > FS_IO_MAX_BYTES then Some(InvalidInput)
      else if fd !in s.table || !s.table[fd].write then Some(BadFileDescriptor) else None
    case Pwrite(fd, _, data, _) =>
      if |data| > FS_IO_MAX_BYTES then Some(InvalidInput)
      else if fd !in s.table || !s.table[fd].write then Some(BadFileDescriptor) else None
    case Lseek(fd, delta, whence) =>
      if fd !in s.table then Some(BadFileDescriptor)
      else if SeekBase(s.table[fd], whence).None? then Some(InvalidInput)
      else if !(0 <= SeekBase(s.table[fd], whence).value + delta < U64_LIMIT) then Some(InvalidInput) else None
    case Close(fd) => if fd !in s.table then Some(BadFileDescriptor) else None
    case Fstat(fd) => if fd !in s.table then Some(BadFileDescriptor) else None
  }

  function Apply(s: Fs, op: Op): (Fs, Reply) {
    if Refused(s, op).Some? then (s, Error(Refused(s, op).value))
    else
      match op
      case Open(oid, path, flags) =>
        var entry := Normalized(path).value;
        OpenAt(s, ContentPath(oid, entry), oid, entry, AccessOf(flags).value)
      case Close(fd) => (s.(table := s.table - {fd}), Closed)
      case Read(fd, len) =>
        var e := s.table[fd];
        if e.cursor > I64_MAX then (s, Error(HostIo))
        else
          var data := Slice(Content(s, e.file), e.cursor, len);
          (s.(table := s.table[fd := e.(cursor := e.cursor + |data|)]), Data(data))
      case Pread(fd, offset, len) =>
        if offset > I64_MAX then (s, Error(HostIo)) else (s, Data(Slice(Content(s, s.table[fd].file), offset, len)))
      case Write(fd, data, fault) => WriteAt(s, fd, s.table[fd].cursor, data, fault, true)
      case Pwrite(fd, offset, data, fault) => WriteAt(s, fd, offset, data, fault, false)
      case Lseek(fd, delta, whence) =>
        var at := SeekBase(s.table[fd], whence).value + delta;
        (s.(table := s.table[fd := s.table[fd].(cursor := at)]), Position(at))
      case Fstat(fd) => (s, Stat(s.table[fd].oid, s.table[fd].entry, s.table[fd].length))
  }

  // ----- what every call keeps -----

  /** A tree: nothing is both file and directory, and everything lies inside directories. */
  ghost predicate HostTree(s: Fs) {
    && s.files.Keys !! s.dirs
    && (forall p :: p in s.files || p in s.dirs ==> Parents(p) <= s.dirs)
  }

  /** A live descriptor has its file, some access, and numbers that fit in 64 bits. */
  ghost predicate GoodFd(s: Fs, e: LocalFd) {
    e.file in s.files && (e.read || e.write) && e.cursor < U64_LIMIT && e.length < U64_LIMIT
  }

  ghost predicate Valid(s: Fs) {
    && HostTree(s)
    && (forall p :: p in s.files ==> |s.files[p]| < U64_LIMIT)
    && (forall fd :: fd in s.table ==> fd < FD_LIMIT && GoodFd(s, s.table[fd]))
  }

  /** The descriptor is on the host file of its object and normalised entry. */
  ghost predicate NamedFd(e: LocalFd) {
    IsNormal(e.entry) && e.file == ContentPath(e.oid, e.entry)
  }

  ghost predicate Named(s: Fs) {
    forall fd :: fd in s.table ==> NamedFd(s.table[fd])
  }
}
