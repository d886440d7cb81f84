/** The fs syscalls as they update the host tree and the process-global descriptor table in place. */
module LocalFsTable {
  import opened Machine
  import opened Wrappers
  import opened EntryPath
  import opened HostLayout
  import opened LocalFs

  /** The smallest free descriptor, or nothing when the descriptor space is exhausted. */
  method AllocFd(table: map<nat, LocalFd>) returns (r: Option<nat>)
    ensures r == LeastFree(table, 0)
  {
    var fd := 0;
    while fd in table
      invariant fd < FD_LIMIT && LeastFree(table, 0) == LeastFree(table, fd)
      decreases FD_LIMIT - fd
    {
      if fd == FD_LIMIT - 1 { return None; }
      fd := fd + 1;
    }
    r := Some(fd);
  }

  /** One host read: at least one byte unless at the end of the file or nothing is asked for. */
  method HostRead(c: Bytes, offset: nat, want: nat) returns (chunk: Bytes)
    ensures chunk <= Slice(c, offset, want)
    ensures chunk == [] <==> Slice(c, offset, want) == []
  {
    var available := Slice(c, offset, want);
    var n: nat :| n <= |available| && (n == 0 <==> available == []);
    chunk := available[..n];
  }

  lemma SliceRest(c: Bytes, offset: nat, len: nat, k: nat)
    requires k <= |Slice(c, offset, len)|
    ensures k <= len && Slice(c, offset, len)[k..] == Slice(c, offset + k, len - k)
  {
  }

  /** What is read next continues what has been read. */
  lemma ReadOn(c: Bytes, offset: nat, len: nat, buf: Bytes, chunk: Bytes)
    requires |buf| <= len && buf <= Slice(c, offset, len) && chunk <= Slice(c, offset + |buf|, len - |buf|)
    ensures |buf + chunk| <= len && buf + chunk <= Slice(c, offset, len)
    ensures Slice(c, offset + |buf|, len - |buf|) == [] ==> buf == Slice(c, offset, len)
  {
    var whole := Slice(c, offset, len);
    SliceRest(c, offset, len, |buf|);
    assert whole == whole[..|buf|] + whole[|buf|..];
    assert whole[..|buf|] == buf;
  }

  /** Short host reads are repeated until the buffer is full or the file ends. */
  method ReadAt(c: Bytes, offset: nat, len: nat) returns (r: Result<Bytes, FsError>)
    ensures r == if offset > I64_MAX then Failure(HostIo) else Success(Slice(c, offset, len))
  {
    if offset > I64_MAX { return Failure(HostIo); }
    var buf: Bytes := [];
    while |buf| < len
      invariant |buf| <= len && buf <= Slice(c, offset, len)
      decreases len - |buf|
    {
      var chunk := HostRead(c, offset + |buf|, len - |buf|);
      ReadOn(c, offset, len, buf, chunk);
      if chunk == [] { return Success(buf); }
      buf := buf + chunk;
    }
    ReadOn(c, offset, len, buf, []);
    r := Success(buf);
  }

  class FdTable {
    var files: map<HostPath, Bytes>
    var dirs: set<HostPath>
    var table: map<nat, LocalFd>

    ghost function State(): Fs
      reads this
    {
      Fs(files, dirs, table)
    }

    constructor ()
      ensures State() == Fs(map[], {}, map[]) && Valid(State()) && Named(State())
    {
      files, dirs, table := map[], {}, map[];
    }

    method WriteFile(p: HostPath, offset: nat, data: Bytes, fault: Option<nat>) returns (ok: bool)
      modifies this
      ensures dirs == old(dirs) && table == old(table)
      ensures ok <==> offset <= I64_MAX && fault.None?
      ensures files == if offset > I64_MAX then old(files)
                       else old(files)[p := Overlay(Content(old(State()), p), offset, Stored(data, fault))]
    {
      if offset > I64_MAX { return false; }
      var c := if p in files then files[p] else [];
      files := files[p := Overlay(c, offset, Stored(data, fault))];
      ok := fault.None?;
    }

    method MuduFsOpen(oid: Oid, path: string, flags: bv32) returns (r: Reply)
      modifies this
      ensures (State(), r) == Apply(old(State()), Open(oid, path, flags))
    {
      var access := AccessOf(flags);
      if access.None? { return Error(InvalidInput); }
      var entry := NormalizeEntryPath(path);
      if entry.Failure? { return Error(BadPath(entry.error)); }
      var p := ContentPath(oid, entry.value);
      if access.value != ReadOnly {
        if !(Parents(p) !! files.Keys) { return Error(HostIo); }
        if p in dirs { return Error(IsADirectory); }
        dirs := dirs + Parents(p);
        if p !in files { files := files[p := []]; }
      } else {
        if p in dirs && p !in files { return Error(IsADirectory); }
        if p !in files { return Error(NotFound); }
      }
      assert access.value != ReadOnly ==> files == old(files)[p := Content(old(State()), p)];
      var fd := AllocFd(table);
      if fd.None? { return Error(InvalidState); }
      var e := LocalFd(p, oid, entry.value, access.value != WriteOnly, access.value != ReadOnly, 0, |files[p]|);
      table := table[fd.value := e];
      r := Opened(fd.value);
    }

    method MuduFsClose(fd: nat) returns (r: Reply)
      modifies this
      ensures (State(), r) == Apply(old(State()), Close(fd))
    {
      if fd !in table { return Error(BadFileDescriptor); }
      table := table - {fd};
      r := Closed;
    }

    method MuduFsRead(fd: nat, len: nat) returns (r: Reply)
      requires Valid(State())
      modifies this
      ensures (State(), r) == Apply(old(State()), Read(fd, len))
    {
      if len > FS_IO_MAX_BYTES { return Error(InvalidInput); }
      if fd !in table || !table[fd].read { return Error(BadFileDescriptor); }
      var e := table[fd];
      assert GoodFd(State(), e);
      var data := ReadAt(files[e.file], e.cursor, len);
      if data.Failure? { return Error(data.error); }
      assert e.cursor + |data.value| < U64_LIMIT;
      table := table[fd := e.(cursor := e.cursor + |data.value|)];
      r := Data(data.value);
    }

    method MuduFsPread(fd: nat, offset: nat, len: nat) returns (r: Reply)
      requires Valid(State())
      ensures (State(), r) == Apply(State(), Pread(fd, offset, len))
    {
      if len > FS_IO_MAX_BYTES { return Error(InvalidInput); }
      if fd !in table || !table[fd].read { return Error(BadFileDescriptor); }
      assert GoodFd(State(), table[fd]);
      var data := ReadAt(files[table[fd].file], offset, len);
      r := if data.Failure? then Error(data.error) else Data(data.value);
    }

    method MuduFsWrite(fd: nat, data: Bytes, fault: Option<nat>) returns (r: Reply)
      modifies this
      ensures (State(), r) == Apply(old(State()), Write(fd, data, fault))
    {
      if |data| > FS_IO_MAX_BYTES { return Error(InvalidInput); }
      if fd !in table || !table[fd].write { return Error(BadFileDescriptor); }
      var e := table[fd];
      var ok := WriteFile(e.file, e.cursor, data, fault);
      if !ok { return Error(HostIo); }
      var end := e.cursor + |data|;
      assert end < U64_LIMIT; // the range check on `end` never fails
      table := table[fd := e.(cursor := end, length := Max(e.length, end))];
      r := Wrote(|data|);
    }

    method MuduFsPwrite(fd: nat, offset: nat, data: Bytes, fault: Option<nat>) returns (r: Reply)
      modifies this
      ensures (State(), r) == Apply(old(State()), Pwrite(fd, offset, data, fault))
    {
      if |data| > FS_IO_MAX_BYTES { return Error(InvalidInput); }
      if fd !in table || !table[fd].write { return Error(BadFileDescriptor); }
      var e := table[fd];
      var ok := WriteFile(e.file, offset, data, fault);
      if !ok { return Error(HostIo); }
      var end := offset + |data|;
      assert end < U64_LIMIT;
      table := table[fd := e.(length := Max(e.length, end))];
      r := Written;
    }

    method MuduFsLseek(fd: nat, delta: int, whence: nat) returns (r: Reply)
      modifies this
      ensures (State(), r) == Apply(old(State()), Lseek(fd, delta, whence))
    {
      if fd !in table { return Error(BadFileDescriptor); }
      var e := table[fd];
      var base;
      match whence {
        case 0 => base := 0;
        case 1 => base := e.cursor;
        case 2 => base := e.length;
        case _ => return Error(InvalidInput);
      }
      var at := base + delta;
      if at < 0 || at >= U64_LIMIT { return Error(InvalidInput); }
      table := table[fd := e.(cursor := at)];
      r := Position(at);
    }

    method MuduFsFstat(fd: nat) returns (r: Reply)
      ensures (State(), r) == Apply(State(), Fstat(fd))
    {
      if fd !in table { return Error(BadFileDescriptor); }
      r := Stat(table[fd].oid, table[fd].entry, table[fd].length);
    }
  }
}
