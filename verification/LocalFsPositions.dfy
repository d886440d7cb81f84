/** Where each fs call reads and writes: what moves a cursor, what a seek means, and when an open succeeds. */
module LocalFsPositions {
  import opened Machine
  import opened Wrappers
  import opened EntryPath
  import opened HostLayout
  import opened LocalFs
  import opened LocalFsRuns

  // ----- cursors -----

  /** Where the call leaves the cursor of `fd`, told from its reply. */
  function CursorAfter(op: Op, reply: Reply, fd: nat, was: nat): nat {
    if op.Read? && op.fd == fd && reply.Data? then was + |reply.bytes|
    else if op.Write? && op.fd == fd && reply.Wrote? then was + |op.data|
    else if op.Lseek? && op.fd == fd && reply.Position? then reply.at
    else was
  }

  /**
   A read moves its own cursor by the bytes it returns, a completed write by the bytes it was given, which
   it reports, and a seek to the position it returns; nothing else, and no failed call, moves any cursor.
   */
  lemma {:induction false} CursorExact(s: Fs, op: Op, fd: nat)
    requires fd in s.table && fd in Apply(s, op).0.table
    ensures var (t, r) := Apply(s, op);
            && (op.Open? ==> t.table[fd] == s.table[fd])
            && t.table[fd].cursor == CursorAfter(op, r, fd, s.table[fd].cursor)
            && (r.Wrote? ==> op.Write? && r.n == |op.data|)
  {
    if op.Open? && Apply(s, op).1.Opened? {
      OpenTakesLowest(s, op);
    }
  }

  lemma OverlaySplits(c: Bytes, offset: nat, a: Bytes, b: Bytes)
    ensures Overlay(Overlay(c, offset, a), offset + |a|, b) == Overlay(c, offset, a + b)
  {
    assert a + [] == a && [] + b == b;
  }

  /** The state after a completed write at the cursor. */
  function WrittenOn(s: Fs, fd: nat, data: Bytes): Fs
    requires fd in s.table
  {
    var e := s.table[fd];
    var end := e.cursor + |data|;
    Fs(s.files[e.file := Overlay(Content(s, e.file), e.cursor, data)], s.dirs,
       s.table[fd := e.(cursor := end, length := if e.length < end then end else e.length)])
  }

  lemma WriteIs(s: Fs, fd: nat, data: Bytes)
    requires fd in s.table && s.table[fd].write && |data| <= FS_IO_MAX_BYTES && s.table[fd].cursor <= I64_MAX
    ensures Apply(s, Write(fd, data, None)) == (WrittenOn(s, fd, data), Wrote(|data|))
  {
  }

  lemma WrittenOnSplits(s: Fs, fd: nat, a: Bytes, b: Bytes)
    requires fd in s.table
    ensures WrittenOn(WrittenOn(s, fd, a), fd, b) == WrittenOn(s, fd, a + b)
  {
    OverlaySplits(Content(s, s.table[fd].file), s.table[fd].cursor, a, b);
    var once, twice := WrittenOn(s, fd, a + b), WrittenOn(WrittenOn(s, fd, a), fd, b);
    assert twice.files == once.files;
    assert twice.table[fd] == once.table[fd];
    assert twice.table == once.table;
  }

  /** Writing in two calls leaves the same files, lengths and cursors as writing all at once. */
  lemma WritesSplit(s: Fs, fd: nat, a: Bytes, b: Bytes)
    requires fd in s.table && s.table[fd].write && |a| + |b| <= FS_IO_MAX_BYTES
    requires s.table[fd].cursor + |a| <= I64_MAX
    ensures var (s1, r1) := Apply(s, Write(fd, a, None));
            var (s2, r2) := Apply(s1, Write(fd, b, None));
            var (t, r) := Apply(s, Write(fd, a + b, None));
            r1 == Wrote(|a|) && r2 == Wrote(|b|) && r == Wrote(|a| + |b|) && t == s2
  {
    WriteIs(s, fd, a);
    WriteIs(WrittenOn(s, fd, a), fd, b);
    WriteIs(s, fd, a + b);
    WrittenOnSplits(s, fd, a, b);
  }

  // ----- access -----

  /** The call moves more than 16 MiB. */
  predicate TooLong(op: Op) {
    match op
    case Read(_, len) => len > 16_777_216
    case Pread(_, _, len) => len > 16_777_216
    case Write(_, data, _) => |data| > 16_777_216
    case Pwrite(_, _, data, _) => |data| > 16_777_216
    case _ => false
  }

  /** The descriptor is open, for reading if the call reads and for writing if it writes. */
  predicate Permits(s: Fs, op: Op)
    requires !op.Open?
  {
    && op.fd in s.table
    && (op.Read? || op.Pread? ==> s.table[op.fd].read)
    && (op.Write? || op.Pwrite? ==> s.table[op.fd].write)
  }

  /**
   A call on a descriptor is refused for its size first, then exactly when the descriptor does not permit
   it, and then changes nothing; a permitted status call reports the descriptor's object and entry.
   */
  lemma AccessExactly(s: Fs, op: Op)
    requires !op.Open?
    ensures var (t, r) := Apply(s, op);
            && (r == Error(BadFileDescriptor) <==> !TooLong(op) && !Permits(s, op))
            && (TooLong(op) ==> r == Error(InvalidInput))
            && (r == Error(BadFileDescriptor) || r == Error(InvalidInput) ==> t == s)
            && (op.Fstat? && Permits(s, op) ==>
                  t == s && r.Stat? && r.oid == s.table[op.fd].oid && r.entry == s.table[op.fd].entry)
            && (op.Close? && Permits(s, op) ==> r == Closed && t == s.(table := s.table - {op.fd}))
  {
  }

  /** Where a transfer takes place. */
  function TransferAt(s: Fs, op: Op): nat
    requires !op.Open? && op.fd in s.table
  {
    match op
    case Pread(_, offset, _) => offset
    case Pwrite(_, offset, _, _) => offset
    case _ => s.table[op.fd].cursor
  }

  /**
   A permitted transfer fails exactly when the host cannot seek to where it takes place, or a write breaks
   off; otherwise it delivers bytes or confirms what it was given.
   */
  lemma TransfersExactly(s: Fs, op: Op)
    requires (op.Read? || op.Pread? || op.Write? || op.Pwrite?) && !TooLong(op) && Permits(s, op)
    ensures var r := Apply(s, op).1;
            if TransferAt(s, op) >= 0x8000_0000_0000_0000 then r == Error(HostIo)
            else if op.Read? || op.Pread? then r.Data?
            else if op.fault.Some? then r == Error(HostIo)
            else r == if op.Write? then Wrote(|op.data|) else Written
  {
  }

  // ----- seeks -----

  /** A seek goes to the offset it names, counted from the start, the cursor or the tracked length, or is refused. */
  lemma SeekExact(s: Fs, fd: nat, delta: int, whence: nat)
    requires fd in s.table
    ensures var (t, r) := Apply(s, Lseek(fd, delta, whence));
            var at := delta + if whence == 0 then 0 else if whence == 1 then s.table[fd].cursor else s.table[fd].length;
            if whence <= 2 && 0 <= at < U64_LIMIT
            then r == Position(at) && t == s.(table := s.table[fd := s.table[fd].(cursor := at)])
            else r == Error(InvalidInput) && t == s
  {
  }

  /** Seeking to an offset and reading returns what a positional read there returns. */
  lemma SeekThenRead(s: Fs, fd: nat, offset: nat, len: nat)
    requires fd in s.table && offset < U64_LIMIT
    ensures Apply(Apply(s, Lseek(fd, offset, 0)).0, Read(fd, len)).1 == Apply(s, Pread(fd, offset, len)).1
  {
  }

  /** And seeking and writing leaves the files and lengths of a positional write there. */
  lemma {:induction false} SeekThenWrite(s: Fs, fd: nat, offset: nat, data: Bytes, fault: Option<nat>)
    requires fd in s.table && offset < U64_LIMIT
    ensures var (t, _) := Apply(Apply(s, Lseek(fd, offset, 0)).0, Write(fd, data, fault));
            var (u, _) := Apply(s, Pwrite(fd, offset, data, fault));
            && t.files == u.files && t.dirs == u.dirs && t.table.Keys == u.table.Keys
            && t.table[fd].length == u.table[fd].length
  {
  }

  // ----- opens -----

  /** Access bits 0 to 2, and none of O_CREAT, O_EXCL, O_TRUNC and O_APPEND. */
  predicate FlagsAllowed(flags: bv32) {
    && flags & 3 != 3
    && flags & 0x40 == 0 && flags & 0x80 == 0 && flags & 0x200 == 0 && flags & 0x400 == 0
  }

  lemma FlagsExactly(flags: bv32)
    ensures AccessOf(flags).Some? <==> FlagsAllowed(flags)
    ensures AccessOf(flags) == Some(ReadOnly) <==> FlagsAllowed(flags) && flags & 3 == 0
  {
    assert flags & UNSUPPORTED_OPEN_FLAGS == 0 <==>
           flags & 0x40 == 0 && flags & 0x80 == 0 && flags & 0x200 == 0 && flags & 0x400 == 0;
  }

  lemma NoFileAbove(s: Fs, p: HostPath)
    ensures Parents(p) !! s.files.Keys <==> forall k :: 1 <= k < |p| ==> p[..k] !in s.files
  {
    forall k | 1 <= k < |p| ensures p[..k] in Parents(p) {}
  }

  lemma ParentsAre(p: HostPath, q: HostPath)
    ensures q in Parents(p) <==> exists k :: 1 <= k < |p| && q == p[..k]
  {
  }

  /** A read-only open asks for an existing file; a write open for a place where a file is or can be. */
  ghost predicate Openable(s: Fs, p: HostPath, flags: bv32) {
    if flags & 3 == 0 then p in s.files else p !in s.dirs && forall k :: 1 <= k < |p| ==> p[..k] !in s.files
  }

  ghost predicate DescriptorLeft(s: Fs) {
    exists n :: 0 <= n < FD_LIMIT && n !in s.table
  }

  /** Why an open fails, in the order things are looked at. */
  ghost function OpenError(s: Fs, oid: Oid, path: string, flags: bv32): FsError {
    if !FlagsAllowed(flags) then InvalidInput
    else if Normalized(path).Failure? then BadPath(Normalized(path).error)
    else
      var p := ContentPath(oid, Normalized(path).value);
      if flags & 3 == 0 && p !in s.files then if p in s.dirs then IsADirectory else NotFound
      else if flags & 3 != 0 && exists k :: 1 <= k < |p| && p[..k] in s.files then HostIo
      else if flags & 3 != 0 && p in s.dirs then IsADirectory
      else InvalidState
  }

  /**
   An open succeeds if and only if its flags are allowed, its path stays inside the object, the file is
   there to be read or can be written, and a descriptor is left. A failed one says why, and a read-only one
   changes no file.
   */
  lemma OpenExactly(s: Fs, oid: Oid, path: string, flags: bv32)
    ensures var (t, r) := Apply(s, Open(oid, path, flags));
            && (r.Opened? <==>
                  && FlagsAllowed(flags) && Normalized(path).Success?
                  && Openable(s, ContentPath(oid, Normalized(path).value), flags) && DescriptorLeft(s))
            && (!r.Opened? ==> r == Error(OpenError(s, oid, path, flags)))
            && (flags & 3 == 0 ==> t.files == s.files && t.dirs == s.dirs)
  {
    FlagsExactly(flags);
    LeastFreeIsLeast(s.table, 0);
    if Normalized(path).Success? { NoFileAbove(s, ContentPath(oid, Normalized(path).value)); }
  }

  /** A successful write open leaves every file as it was, its own in place, and a directory at each step above it. */
  lemma {:induction false} WriteOpenMakes(s: Fs, op: Op, q: HostPath)
    requires op.Open? && op.flags & 3 != 0 && Apply(s, op).1.Opened?
    ensures var t := Apply(s, op).0;
            var p := ContentPath(op.oid, Normalized(op.path).value);
            && (q in t.files <==> q in s.files || q == p) && Content(t, q) == Content(s, q)
            && (q in t.dirs <==> q in s.dirs || exists k :: 1 <= k < |p| && q == p[..k])
  {
    FlagsExactly(op.flags);
    ParentsAre(ContentPath(op.oid, Normalized(op.path).value), q);
    LeastFreeIsLeast(s.table, 0);
  }

  lemma {:induction false} FilesStay(s: Fs, op: Op, p: HostPath)
    requires p in s.files
    ensures p in Apply(s, op).0.files
  {
  }

  lemma {:induction false} FilesStayOver(s: Fs, ops: seq<Op>, p: HostPath)
    requires p in s.files
    ensures p in After(s, ops).files
  {
    if ops != [] {
      FilesStayOver(s, ops[..|ops| - 1], p);
      FilesStay(After(s, ops[..|ops| - 1]), ops[|ops| - 1], p);
    }
  }

  /** Once an entry has been opened, any path to it can be opened for reading at any later point. */
  lemma {:induction false} ReadableOnceOpened(s: Fs, op: Op, ops: seq<Op>, path: string)
    requires op.Open? && Apply(s, op).1.Opened? && Normalized(path) == Normalized(op.path)
    requires DescriptorLeft(After(Apply(s, op).0, ops))
    ensures Apply(After(Apply(s, op).0, ops), Open(op.oid, path, 0)).1.Opened?
  {
    var p := ContentPath(op.oid, Normalized(path).value);
    FilesStayOver(Apply(s, op).0, ops, p);
    OpenExactly(After(Apply(s, op).0, ops), op.oid, path, 0);
  }
}
