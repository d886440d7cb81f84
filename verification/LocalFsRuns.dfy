/**
 What holds over every run of the fs syscalls: the state stays well formed, file contents are the
 writes of the run with the last writer winning, and tracked lengths are exact for sole writers.
 */
module LocalFsRuns {
  import opened Machine
  import opened Sequences
  import opened Wrappers
  import opened EntryPath
  import opened HostLayout
  import opened LocalFs

  // ----- one call -----

  lemma {:induction false} LeastFreeIsLeast(table: map<nat, LocalFd>, from: nat)
    requires from <= FD_LIMIT
    ensures LeastFree(table, from).None? <==> forall n :: from <= n < FD_LIMIT ==> n in table
    ensures LeastFree(table, from).Some? ==>
      var fd := LeastFree(table, from).value;
      from <= fd < FD_LIMIT && fd !in table && forall n :: from <= n < fd ==> n in table
    decreases FD_LIMIT - from
  {
    if from < FD_LIMIT && from in table {
      LeastFreeIsLeast(table, from + 1);
    }
  }

  lemma ParentsOfParents(p: HostPath, q: HostPath)
    requires q in Parents(p)
    ensures Parents(q) <= Parents(p)
  {
    forall r | r in Parents(q) ensures r in Parents(p) {
      var k :| 1 <= k < |p| && q == p[..k];
      var j :| 1 <= j < |q| && r == q[..j];
      assert r == p[..j];
    }
  }

  lemma CreateTree(s: Fs, p: HostPath)
    requires HostTree(s) && Parents(p) !! s.files.Keys && p !in s.dirs
    ensures HostTree(s.(files := s.files[p := Content(s, p)], dirs := s.dirs + Parents(p)))
  {
    assert p !in Parents(p);
    var dirs := s.dirs + Parents(p);
    forall q | q in s.files || q == p || q in dirs ensures Parents(q) <= dirs {
      if q in Parents(p) { ParentsOfParents(p, q); }
    }
  }

  lemma EnrollValid(s: Fs, p: HostPath, oid: Oid, entry: string, access: Access)
    requires Valid(s) && p in s.files
    ensures Valid(Enroll(s, p, oid, entry, access).0)
  {
    LeastFreeIsLeast(s.table, 0);
    assert HostTree(Enroll(s, p, oid, entry, access).0);
  }

  lemma OpenValid(s: Fs, p: HostPath, oid: Oid, entry: string, access: Access)
    requires Valid(s)
    ensures Valid(OpenAt(s, p, oid, entry, access).0)
  {
    if access == ReadOnly {
      if p in s.files { EnrollValid(s, p, oid, entry, access); }
    } else if Parents(p) !! s.files.Keys && p !in s.dirs {
      CreateTree(s, p);
      var t := s.(files := s.files[p := Content(s, p)], dirs := s.dirs + Parents(p));
      assert Valid(t);
      EnrollValid(t, p, oid, entry, access);
    }
  }

  lemma {:induction false} WriteValid(s: Fs, fd: nat, offset: nat, data: Bytes, fault: Option<nat>, advance: bool)
    requires Valid(s) && fd in s.table && |data| <= FS_IO_MAX_BYTES
    ensures Valid(WriteAt(s, fd, offset, data, fault, advance).0)
  {
    var t := WriteAt(s, fd, offset, data, fault, advance).0;
    assert GoodFd(s, s.table[fd]);
    assert t.files.Keys == s.files.Keys;
    assert HostTree(t);
    assert |Stored(data, fault)| <= |data|;
  }

  /** Every call keeps the state well formed; in particular all cursors and lengths stay below 2^64. */
  lemma {:induction false} ApplyValid(s: Fs, op: Op)
    requires Valid(s)
    ensures Valid(Apply(s, op).0)
  {
    if Refused(s, op).None? {
      match op
      case Open(oid, path, flags) =>
        var entry := Normalized(path).value;
        OpenValid(s, ContentPath(oid, entry), oid, entry, AccessOf(flags).value);
      case Write(fd, data, fault) => WriteValid(s, fd, s.table[fd].cursor, data, fault, true);
      case Pwrite(fd, offset, data, fault) => WriteValid(s, fd, offset, data, fault, false);
      case Read(fd, len) => assert GoodFd(s, s.table[fd]);
      case _ =>
    }
  }

  ghost predicate SameFile(a: LocalFd, b: LocalFd) {
    a.file == b.file && a.oid == b.oid && a.entry == b.entry
  }

  /** Only an open brings a descriptor in, and nothing moves one to another file. */
  lemma {:induction false} DescriptorsKept(s: Fs, op: Op, fd: nat)
    requires fd in Apply(s, op).0.table && !op.Open?
    ensures fd in s.table && SameFile(Apply(s, op).0.table[fd], s.table[fd])
  {
  }

  lemma NormalizedNames(path: string, e: LocalFd)
    requires Normalized(path) == Success(e.entry) && e.file == ContentPath(e.oid, e.entry)
    ensures NamedFd(e)
  {
    NormalizedIsNormal(path);
  }

  lemma OneMoreNamed(s: Fs, t: Fs, fd: nat, path: string)
    requires Named(s) && t.table.Keys == s.table.Keys + {fd} && fd !in s.table
    requires forall n :: n in s.table ==> t.table[n] == s.table[n]
    requires var e := t.table[fd]; Normalized(path) == Success(e.entry) && e.file == ContentPath(e.oid, e.entry)
    ensures Named(t)
  {
    NormalizedNames(path, t.table[fd]);
  }

  lemma {:induction false} OpenNamed(s: Fs, op: Op)
    requires Named(s) && op.Open?
    ensures Named(Apply(s, op).0)
  {
    if Apply(s, op).1.Opened? {
      OpenTakesLowest(s, op);
      OneMoreNamed(s, Apply(s, op).0, Apply(s, op).1.fd, op.path);
    } else {
      assert Apply(s, op).0.table == s.table;
    }
  }

  lemma {:induction false} ApplyNamed(s: Fs, op: Op)
    requires Named(s)
    ensures Named(Apply(s, op).0)
  {
    if op.Open? {
      OpenNamed(s, op);
    } else {
      forall fd | fd in Apply(s, op).0.table ensures NamedFd(Apply(s, op).0.table[fd]) {
        DescriptorsKept(s, op, fd);
      }
    }
  }

  /** A successful open takes the lowest descriptor not in use, at the start of its file, and disturbs no other. */
  lemma {:induction false} OpenTakesLowest(s: Fs, op: Op)
    requires op.Open? && Apply(s, op).1.Opened?
    ensures var (t, fd) := (Apply(s, op).0, Apply(s, op).1.fd);
            && fd < FD_LIMIT && fd !in s.table && (forall n :: 0 <= n < fd ==> n in s.table)
            && t.table.Keys == s.table.Keys + {fd} && (forall n :: n in s.table ==> t.table[n] == s.table[n])
            && var e := t.table[fd];
               && e.oid == op.oid && Normalized(op.path) == Success(e.entry) && e.file == ContentPath(e.oid, e.entry)
               && e.cursor == 0 && e.length == |Content(t, e.file)|
               && e.read == (op.flags & 3 != 1) && e.write == (op.flags & 3 != 0)
  {
    LeastFreeIsLeast(s.table, 0);
  }

  // ----- contents -----

  /** Bytes stored through a descriptor; `complete` when the call succeeded. */
  datatype Event = Event(fd: nat, path: HostPath, offset: nat, data: Bytes, complete: bool)

  /** The bytes a call stores on the host, if it stores any. */
  function EventOf(s: Fs, op: Op): Option<Event> {
    if Refused(s, op).Some? then None
    else match op
         case Write(fd, data, fault) =>
           if s.table[fd].cursor > I64_MAX then None
           else Some(Event(fd, s.table[fd].file, s.table[fd].cursor, Stored(data, fault), fault.None?))
         case Pwrite(fd, offset, data, fault) =>
           if offset > I64_MAX then None
           else Some(Event(fd, s.table[fd].file, offset, Stored(data, fault), fault.None?))
         case _ => None
  }

  function ContentAfter(s: Fs, e: Option<Event>, p: HostPath): Bytes {
    if e.Some? && e.value.path == p then Overlay(Content(s, p), e.value.offset, e.value.data) else Content(s, p)
  }

  function LengthAfter(s: Fs, e: Option<Event>, fd: nat): nat
    requires fd in s.table
  {
    if e.Some? && e.value.fd == fd && e.value.complete
    then Max(s.table[fd].length, e.value.offset + |e.value.data|)
    else s.table[fd].length
  }

  /** The lasting effect of a call: it changes at most the file it stores to and the length of that descriptor. */
  ghost predicate Effect(s: Fs, op: Op, e: Option<Event>, t: Fs) {
    && (e.Some? ==> !op.Close? && e.value.fd in s.table && s.table[e.value.fd].file == e.value.path)
    && (forall p :: Content(t, p) == ContentAfter(s, e, p))
    && (forall fd :: fd in s.table && op != Close(fd) ==>
          fd in t.table && t.table[fd].file == s.table[fd].file && t.table[fd].length == LengthAfter(s, e, fd))
    && (forall fd :: fd in t.table && fd !in s.table ==> LengthExact(t, fd))
    && (op.Close? ==> op.fd !in t.table)
  }

  lemma {:induction false} WriteAtEffect(s: Fs, op: Op, offset: nat, data: Bytes, fault: Option<nat>, advance: bool)
    requires (op.Write? || op.Pwrite?) && op.fd in s.table && offset <= I64_MAX
    ensures Effect(s, op, Some(Event(op.fd, s.table[op.fd].file, offset, Stored(data, fault), fault.None?)),
                   WriteAt(s, op.fd, offset, data, fault, advance).0)
  {
  }

  lemma {:induction false} WriteEffect(s: Fs, op: Op)
    requires op.Write? || op.Pwrite?
    ensures Effect(s, op, EventOf(s, op), Apply(s, op).0)
  {
    if EventOf(s, op).Some? {
      var offset := if op.Write? then s.table[op.fd].cursor else op.offset;
      WriteAtEffect(s, op, offset, op.data, op.fault, op.Write?);
    } else {
      assert Apply(s, op).0 == s;
    }
  }

  lemma EnrollEffect(s: Fs, op: Op, t: Fs, p: HostPath, oid: Oid, entry: string, access: Access)
    requires op.Open? && t.table == s.table && forall q :: Content(t, q) == Content(s, q)
    ensures Effect(s, op, None, Enroll(t, p, oid, entry, access).0)
  {
    LeastFreeIsLeast(t.table, 0);
    assert forall q :: Content(Enroll(t, p, oid, entry, access).0, q) == Content(t, q);
  }

  lemma {:induction false} OpenAtEffect(s: Fs, op: Op, p: HostPath, oid: Oid, entry: string, access: Access)
    requires op.Open?
    ensures Effect(s, op, None, OpenAt(s, p, oid, entry, access).0)
  {
    if access == ReadOnly {
      EnrollEffect(s, op, s, p, oid, entry, access);
    } else {
      EnrollEffect(s, op, s.(files := s.files[p := Content(s, p)], dirs := s.dirs + Parents(p)), p, oid, entry, access);
    }
  }

  lemma {:induction false} OpenEffect(s: Fs, op: Op)
    requires op.Open?
    ensures Effect(s, op, None, Apply(s, op).0)
  {
    if Refused(s, op).None? {
      var entry, access := Normalized(op.path).value, AccessOf(op.flags).value;
      OpenAtEffect(s, op, ContentPath(op.oid, entry), op.oid, entry, access);
    }
  }

  lemma {:induction false} ApplyEffect(s: Fs, op: Op)
    ensures Effect(s, op, EventOf(s, op), Apply(s, op).0)
  {
    match op
    case Open(_, _, _) => OpenEffect(s, op);
    case Write(_, _, _) => WriteEffect(s, op);
    case Pwrite(_, _, _, _) => WriteEffect(s, op);
    case _ =>
  }

  /** Writing through one descriptor never changes what a descriptor of another object or entry reads. */
  lemma {:induction false} ObjectsIsolated(s: Fs, op: Op, fd: nat)
    requires Named(s) && fd in s.table && (op.Write? || op.Pwrite?) && op.fd in s.table
    requires s.table[fd].oid != s.table[op.fd].oid || s.table[fd].entry != s.table[op.fd].entry
    ensures Content(Apply(s, op).0, s.table[fd].file) == Content(s, s.table[fd].file)
  {
    var a, b := s.table[fd], s.table[op.fd];
    if a.file == b.file { ContentPathInjective(a.oid, a.entry, b.oid, b.entry); }
    ApplyEffect(s, op);
  }

  // ----- runs -----

  function After(s: Fs, ops: seq<Op>): Fs {
    if ops == [] then s else Apply(After(s, ops[..|ops| - 1]), ops[|ops| - 1]).0
  }

  lemma {:induction false} AfterThree(s: Fs, a: Op, b: Op, c: Op)
    ensures After(s, [a, b, c]) == Apply(Apply(Apply(s, a).0, b).0, c).0
  {
    assert [a, b, c][..2] == [a, b] && [a, b][..1] == [a] && [a][..0] == [];
    assert After(s, [a]) == Apply(s, a).0;
    assert After(s, [a, b]) == Apply(Apply(s, a).0, b).0;
  }

  lemma {:induction false} RunValid(s: Fs, ops: seq<Op>)
    requires Valid(s) && Named(s)
    ensures Valid(After(s, ops)) && Named(After(s, ops))
  {
    if ops != [] {
      RunValid(s, ops[..|ops| - 1]);
      ApplyValid(After(s, ops[..|ops| - 1]), ops[|ops| - 1]);
      ApplyNamed(After(s, ops[..|ops| - 1]), ops[|ops| - 1]);
    }
  }

  /** The stores of a run in order. */
  function Log(s: Fs, ops: seq<Op>): seq<Event> {
    if ops == [] then []
    else
      var front := ops[..|ops| - 1];
      match EventOf(After(s, front), ops[|ops| - 1])
      case Some(e) => Log(s, front) + [e]
      case None => Log(s, front)
  }

  predicate Covers(e: Event, p: HostPath, i: nat) {
    e.path == p && e.offset <= i < e.offset + |e.data|
  }

  /** Store `k` is the last that covers byte `i`. */
  ghost predicate LastCover(log: seq<Event>, p: HostPath, i: nat, k: int) {
    0 <= k < |log| && Covers(log[k], p, i) && forall j :: k < j < |log| ==> !Covers(log[j], p, i)
  }

  /** Byte `i` comes from the last store that covers it, else from the original content, else from a hole. */
  ghost predicate ByteExplained(init: Bytes, log: seq<Event>, p: HostPath, i: nat, b: Byte) {
    || (exists k :: LastCover(log, p, i, k) && b == log[k].data[i - log[k].offset])
    || (b == (if i < |init| then init[i] else 0) && forall j :: 0 <= j < |log| ==> !Covers(log[j], p, i))
  }

  /** The length is the furthest end any store reached, or the original length. */
  ghost predicate LengthExplained(init: Bytes, log: seq<Event>, p: HostPath, n: nat) {
    && |init| <= n
    && (forall k :: 0 <= k < |log| && log[k].path == p && log[k].data != [] ==> log[k].offset + |log[k].data| <= n)
    && (|| n == |init|
        || exists k :: 0 <= k < |log| && log[k].path == p && log[k].data != [] && log[k].offset + |log[k].data| == n)
  }

  ghost predicate Explained(init: Bytes, log: seq<Event>, p: HostPath, c: Bytes) {
    LengthExplained(init, log, p, |c|) && forall i :: 0 <= i < |c| ==> ByteExplained(init, log, p, i, c[i])
  }

  lemma LastCoverKept(log: seq<Event>, p: HostPath, i: nat, k: int, e: Event)
    requires LastCover(log, p, i, k) && !Covers(e, p, i)
    ensures LastCover(log + [e], p, i, k) && (log + [e])[k] == log[k]
  {
  }

  lemma ByteKept(init: Bytes, log: seq<Event>, p: HostPath, i: nat, b: Byte, e: Event)
    requires ByteExplained(init, log, p, i, b) && !Covers(e, p, i)
    ensures ByteExplained(init, log + [e], p, i, b)
  {
    if k :| LastCover(log, p, i, k) && b == log[k].data[i - log[k].offset] {
      LastCoverKept(log, p, i, k, e);
    }
  }

  lemma LengthKept(init: Bytes, log: seq<Event>, p: HostPath, n: nat, e: Event)
    requires LengthExplained(init, log, p, n)
    ensures LengthExplained(init, log + [e], p,
              if e.path == p && e.data != [] && n < e.offset + |e.data| then e.offset + |e.data| else n)
  {
    var log' := log + [e];
    assert log'[|log|] == e;
    if k :| 0 <= k < |log| && log[k].path == p && log[k].data != [] && log[k].offset + |log[k].data| == n {
      assert log'[k] == log[k];
    }
  }

  /** Bytes beyond the old length were covered by nothing. */
  lemma HoleExplained(init: Bytes, log: seq<Event>, p: HostPath, n: nat, i: nat)
    requires LengthExplained(init, log, p, n) && n <= i
    ensures ByteExplained(init, log, p, i, 0)
  {
    forall j | 0 <= j < |log| ensures !Covers(log[j], p, i) {
    }
  }

  lemma ByteStep(init: Bytes, log: seq<Event>, p: HostPath, c: Bytes, e: Event, i: nat, b: Byte)
    requires Explained(init, log, p, c)
    requires b == if Covers(e, p, i) then e.data[i - e.offset] else if i < |c| then c[i] else 0
    ensures ByteExplained(init, log + [e], p, i, b)
  {
    if Covers(e, p, i) {
      assert (log + [e])[|log|] == e && LastCover(log + [e], p, i, |log|);
    } else {
      if i >= |c| { HoleExplained(init, log, p, |c|, i); }
      ByteKept(init, log, p, i, b, e);
    }
  }

  lemma ExplainedStep(init: Bytes, log: seq<Event>, p: HostPath, c: Bytes, e: Event)
    requires Explained(init, log, p, c)
    ensures Explained(init, log + [e], p, if e.path == p then Overlay(c, e.offset, e.data) else c)
  {
    var c' := if e.path == p then Overlay(c, e.offset, e.data) else c;
    LengthKept(init, log, p, |c|, e);
    forall i | 0 <= i < |c'| ensures ByteExplained(init, log + [e], p, i, c'[i]) {
      ByteStep(init, log, p, c, e, i, c'[i]);
    }
  }

  /** Over every run, on any number of descriptors, each file is what its stores in order explain. */
  lemma {:induction false} ContentsAreLastWrites(s: Fs, ops: seq<Op>, p: HostPath)
    ensures Explained(Content(s, p), Log(s, ops), p, Content(After(s, ops), p))
  {
    if ops != [] {
      var front, op := ops[..|ops| - 1], ops[|ops| - 1];
      var before := After(s, front);
      ContentsAreLastWrites(s, front, p);
      ApplyEffect(before, op);
      if EventOf(before, op).Some? {
        ExplainedStep(Content(s, p), Log(s, front), p, Content(before, p), EventOf(before, op).value);
      }
    }
  }

  /** A positional read returns the file's bytes in range, short only at the end of the file. */
  lemma {:induction false} ReadsContent(s: Fs, fd: nat, offset: nat, len: nat)
    requires Refused(s, Pread(fd, offset, len)).None? && offset <= I64_MAX
    ensures var c := Content(s, s.table[fd].file);
            var r := Apply(s, Pread(fd, offset, len)).1;
            && r.Data? && |r.bytes| <= len && (|r.bytes| < len ==> offset + |r.bytes| >= |c|)
            && offset + |r.bytes| <= Max(|c|, offset) && forall i :: 0 <= i < |r.bytes| ==> r.bytes[i] == c[offset + i]
  {
  }

  // ----- tracked lengths -----

  /** No descriptor reports more than its file holds. */
  ghost predicate LengthsSound(s: Fs) {
    forall fd :: fd in s.table ==> s.table[fd].length <= |Content(s, s.table[fd].file)|
  }

  /** The call is not a completed write of no bytes beyond the end of its file. */
  predicate GuardedEvent(s: Fs, e: Option<Event>) {
    e.Some? && e.value.complete && e.value.data == [] ==> e.value.offset <= |Content(s, e.value.path)|
  }

  predicate Guarded(s: Fs, op: Op) {
    GuardedEvent(s, EventOf(s, op))
  }

  lemma {:induction false} GuardExactEffect(s: Fs, op: Op, e: Option<Event>, t: Fs)
    requires Effect(s, op, e, t) && LengthsSound(s)
    ensures LengthsSound(t) <==> GuardedEvent(s, e)
  {
    if !GuardedEvent(s, e) {
      assert t.table[e.value.fd].length > |Content(t, e.value.path)|;
    }
  }

  /** One call makes some reported length too large exactly when it is not guarded. */
  lemma {:induction false} GuardExact(s: Fs, op: Op)
    requires LengthsSound(s)
    ensures LengthsSound(Apply(s, op).0) <==> Guarded(s, op)
  {
    ApplyEffect(s, op);
    GuardExactEffect(s, op, EventOf(s, op), Apply(s, op).0);
  }

  /** Lengths stay sound throughout a run exactly when every call of the run is guarded. */
  lemma {:induction false} LengthsSoundExactly(s: Fs, ops: seq<Op>)
    requires LengthsSound(s)
    ensures (forall k :: 0 <= k <= |ops| ==> LengthsSound(After(s, ops[..k])))
            <==> forall k :: 0 <= k < |ops| ==> Guarded(After(s, ops[..k]), ops[k])
  {
    if forall k :: 0 <= k <= |ops| ==> LengthsSound(After(s, ops[..k])) {
      forall k | 0 <= k < |ops| ensures Guarded(After(s, ops[..k]), ops[k]) {
        assert ops[..k + 1][..k] == ops[..k];
        GuardExact(After(s, ops[..k]), ops[k]);
        assert LengthsSound(After(s, ops[..k + 1]));
      }
    }
    if forall k :: 0 <= k < |ops| ==> Guarded(After(s, ops[..k]), ops[k]) {
      forall k | 0 <= k <= |ops| ensures LengthsSound(After(s, ops[..k])) {
        GuardedPrefix(s, ops, k);
      }
    }
  }

  lemma {:induction false} GuardedPrefix(s: Fs, ops: seq<Op>, k: nat)
    requires LengthsSound(s) && k <= |ops|
    requires forall j :: 0 <= j < |ops| ==> Guarded(After(s, ops[..j]), ops[j])
    ensures LengthsSound(After(s, ops[..k]))
  {
    if k > 0 {
      GuardedPrefix(s, ops, k - 1);
      assert ops[..k][..k - 1] == ops[..k - 1];
      GuardExact(After(s, ops[..k - 1]), ops[k - 1]);
    }
  }

  ghost predicate LengthExact(s: Fs, fd: nat) {
    fd in s.table && s.table[fd].length == |Content(s, s.table[fd].file)|
  }

  /**
   What the call stores in the file of `fd`, if anything, it stores completely and guarded through `fd`,
   or it does not reach past the end of the file.
   */
  predicate TellsEvent(s: Fs, e: Option<Event>, fd: nat)
    requires fd in s.table
  {
    e.Some? && e.value.path == s.table[fd].file ==>
      if e.value.fd == fd && e.value.complete then GuardedEvent(s, e)
      else e.value.data == [] || e.value.offset + |e.value.data| <= |Content(s, e.value.path)|
  }

  predicate Tells(s: Fs, op: Op, fd: nat) {
    fd in s.table && TellsEvent(s, EventOf(s, op), fd)
  }

  lemma TellsExactEffect(s: Fs, op: Op, e: Option<Event>, t: Fs, fd: nat)
    requires Effect(s, op, e, t) && LengthExact(s, fd) && op != Close(fd)
    ensures LengthExact(t, fd) <==> TellsEvent(s, e, fd)
    ensures fd in t.table && t.table[fd].file == s.table[fd].file
  {
  }

  /** One call leaves a true length true exactly when it tells the descriptor of what it stores. */
  lemma {:induction false} TellsExact(s: Fs, op: Op, fd: nat)
    requires LengthExact(s, fd) && op != Close(fd)
    ensures LengthExact(Apply(s, op).0, fd) <==> Tells(s, op, fd)
    ensures fd in Apply(s, op).0.table && Apply(s, op).0.table[fd].file == s.table[fd].file
  {
    ApplyEffect(s, op);
    TellsExactEffect(s, op, EventOf(s, op), Apply(s, op).0, fd);
  }

  lemma {:induction false} TellsPrefix(s: Fs, ops: seq<Op>, fd: nat, k: nat)
    requires LengthExact(s, fd) && k <= |ops| && Close(fd) !in ops
    requires forall j :: 0 <= j < |ops| ==> Tells(After(s, ops[..j]), ops[j], fd)
    ensures LengthExact(After(s, ops[..k]), fd) && After(s, ops[..k]).table[fd].file == s.table[fd].file
  {
    if k > 0 {
      TellsPrefix(s, ops, fd, k - 1);
      assert ops[..k][..k - 1] == ops[..k - 1];
      TellsExact(After(s, ops[..k - 1]), ops[k - 1], fd);
    }
  }

  /** The status of `fd` reports the length of its file. */
  ghost predicate ToldLength(s: Fs, fd: nat) {
    && fd in s.table && Apply(s, Fstat(fd)).1.Stat?
    && Apply(s, Fstat(fd)).1.length == |Content(s, s.table[fd].file)|
  }

  lemma ToldExactly(s: Fs, fd: nat)
    ensures ToldLength(s, fd) <==> LengthExact(s, fd)
  {
  }

  /**
   While a descriptor stays open, the length it reports is the file's current length throughout a run
   exactly when every call of the run tells it of what the call stores.
   */
  lemma {:induction false} LengthExactExactly(s: Fs, ops: seq<Op>, fd: nat)
    requires LengthExact(s, fd) && Close(fd) !in ops
    ensures (forall k :: 0 <= k <= |ops| ==> ToldLength(After(s, ops[..k]), fd))
            <==> forall k :: 0 <= k < |ops| ==> Tells(After(s, ops[..k]), ops[k], fd)
  {
    if forall k :: 0 <= k <= |ops| ==> ToldLength(After(s, ops[..k]), fd) {
      forall k | 0 <= k < |ops| ensures Tells(After(s, ops[..k]), ops[k], fd) {
        assert ops[..k + 1][..k] == ops[..k];
        assert ToldLength(After(s, ops[..k]), fd) && ToldLength(After(s, ops[..k + 1]), fd);
        ToldExactly(After(s, ops[..k]), fd);
        ToldExactly(After(s, ops[..k + 1]), fd);
        TellsExact(After(s, ops[..k]), ops[k], fd);
      }
    }
    if forall k :: 0 <= k < |ops| ==> Tells(After(s, ops[..k]), ops[k], fd) {
      forall k | 0 <= k <= |ops| ensures ToldLength(After(s, ops[..k]), fd) {
        TellsPrefix(s, ops, fd, k);
        ToldExactly(After(s, ops[..k]), fd);
      }
    }
  }

  /** Nothing else stores in the file of `fd`, and `fd` itself only completely and guarded. */
  predicate Undisturbed(s: Fs, op: Op, fd: nat) {
    && fd in s.table
    && var e := EventOf(s, op);
       e.Some? && e.value.path == s.table[fd].file ==> e.value.fd == fd && e.value.complete && GuardedEvent(s, e)
  }

  /** The sole writer of a file since its open is told the true length at every point of the run. */
  lemma {:induction false} SoleWriterExact(s: Fs, ops: seq<Op>, fd: nat)
    requires LengthExact(s, fd) && Close(fd) !in ops
    requires forall k :: 0 <= k < |ops| ==> Undisturbed(After(s, ops[..k]), ops[k], fd)
    ensures ToldLength(After(s, ops), fd) && After(s, ops).table[fd].file == s.table[fd].file
  {
    TellsPrefix(s, ops, fd, |ops|);
    ToldExactly(After(s, ops), fd);
    assert ops[..|ops|] == ops;
  }

  function FreshOpen(oid: Oid, cursor: nat, length: nat): Fs {
    var p := ContentPath(oid, "");
    Fs(map[p := []], {}, map[0 := LocalFd(p, oid, "", true, true, cursor, length)])
  }

  lemma {:induction false} FreshOpenSteps(oid: Oid)
    ensures Apply(Fs(map[], {}, map[]), Open(oid, "", 2)).0 == FreshOpen(oid, 0, 0)
    ensures Apply(FreshOpen(oid, 0, 0), Lseek(0, 10, 0)).0 == FreshOpen(oid, 10, 0)
    ensures Apply(FreshOpen(oid, 10, 0), Write(0, [], None)).0 == FreshOpen(oid, 10, 10)
  {
    assert Split("") == [""];
    assert |ContentPath(oid, "")| == 1;
    assert Parents(ContentPath(oid, "")) == {};
  }

  /** An empty write after a seek past the end makes `fstat` report bytes the file does not have. */
  lemma {:induction false} EmptyWriteInflates(oid: Oid)
    ensures var t := After(Fs(map[], {}, map[]), [Open(oid, "", 2), Lseek(0, 10, 0), Write(0, [], None)]);
            && Apply(t, Fstat(0)).1 == Stat(oid, "", 10)
            && Content(t, ContentPath(oid, "")) == []
  {
    FreshOpenSteps(oid);
    AfterThree(Fs(map[], {}, map[]), Open(oid, "", 2), Lseek(0, 10, 0), Write(0, [], None));
  }

  function TwoOpens(oid: Oid, second: nat, length: nat, content: Bytes): Fs {
    var p := ContentPath(oid, "");
    var fd := LocalFd(p, oid, "", true, true, 0, 0);
    Fs(map[p := content], {}, map[0 := fd, 1 := fd.(cursor := second, length := length)])
  }

  lemma {:induction false} TwoOpensSteps(oid: Oid, b: Byte)
    ensures Apply(FreshOpen(oid, 0, 0), Open(oid, "", 2)).0 == TwoOpens(oid, 0, 0, [])
    ensures Apply(TwoOpens(oid, 0, 0, []), Write(1, [b], None)).0 == TwoOpens(oid, 1, 1, [b])
  {
    assert Split("") == [""];
    assert |ContentPath(oid, "")| == 1;
    assert Parents(ContentPath(oid, "")) == {};
    assert Overlay([], 0, [b]) == [b];
  }

  /** After a second descriptor wrote a byte, `fstat` on the first still reports an empty file. */
  lemma {:induction false} SecondWriterUnseen(oid: Oid, b: Byte)
    ensures var t := After(Fs(map[], {}, map[]), [Open(oid, "", 2), Open(oid, "", 2), Write(1, [b], None)]);
            && Apply(t, Fstat(0)).1 == Stat(oid, "", 0)
            && Content(t, ContentPath(oid, "")) == [b]
  {
    FreshOpenSteps(oid);
    TwoOpensSteps(oid, b);
    AfterThree(Fs(map[], {}, map[]), Open(oid, "", 2), Open(oid, "", 2), Write(1, [b], None));
  }

  lemma SliceSplit(c: Bytes, offset: nat, m: nat, n: nat)
    ensures var a := Slice(c, offset, m); Slice(c, offset, m + n) == a + Slice(c, offset + |a|, n)
  {
  }

  lemma {:induction false} ReadIs(s: Fs, fd: nat, n: nat)
    requires fd in s.table && s.table[fd].read && n <= FS_IO_MAX_BYTES && s.table[fd].cursor <= I64_MAX
    ensures var e := s.table[fd];
            var data := Slice(Content(s, e.file), e.cursor, n);
            Apply(s, Read(fd, n)) == (s.(table := s.table[fd := e.(cursor := e.cursor + |data|)]), Data(data))
  {
  }

  /** Reading in two calls returns what one call would, and leaves the cursor at the same place. */
  lemma {:induction false} ReadsSplit(s: Fs, fd: nat, m: nat, n: nat)
    requires fd in s.table && s.table[fd].read && m + n <= FS_IO_MAX_BYTES
    requires s.table[fd].cursor + m <= I64_MAX
    ensures var (s1, r1) := Apply(s, Read(fd, m));
            var (s2, r2) := Apply(s1, Read(fd, n));
            var (t, r) := Apply(s, Read(fd, m + n));
            r1.Data? && r2.Data? && r == Data(r1.bytes + r2.bytes) && t == s2
  {
    var e := s.table[fd];
    var c := Content(s, e.file);
    var a := Slice(c, e.cursor, m);
    SliceSplit(c, e.cursor, m, n);
    ReadIs(s, fd, m);
    ReadIs(Apply(s, Read(fd, m)).0, fd, n);
    ReadIs(s, fd, m + n);
  }

  // ----- laws across calls -----

  /** A completed write is read back through any descriptor of the same file. */
  lemma {:induction false} WriteThenRead(s: Fs, w: nat, r: nat, offset: nat, data: Bytes)
    requires Refused(s, Pwrite(w, offset, data, None)).None? && offset <= I64_MAX
    requires r in s.table && s.table[r].read && s.table[r].file == s.table[w].file
    ensures Apply(Apply(s, Pwrite(w, offset, data, None)).0, Pread(r, offset, |data|)).1 == Data(data)
  {
    var t := Apply(s, Pwrite(w, offset, data, None)).0;
    var c := Content(s, s.table[w].file);
    assert Content(t, s.table[w].file) == Overlay(c, offset, data);
    assert t.table[r].read && t.table[r].file == s.table[w].file;
    assert data != [] ==> Overlay(c, offset, data)[offset..offset + |data|] == data;
  }

  lemma OverlayAppends(c: Bytes, offset: nat, data: Bytes)
    ensures offset == |c| ==> Overlay(c, offset, data) == c + data
    ensures data != [] && offset != |c| ==> |Overlay(c, offset, data)| != |c + data|
  {
    assert offset == |c| ==> Overlay(c, offset, data) == c + data;
  }

  /** Seeking to the end and writing appends if and only if the descriptor knows the true length, or writes nothing. */
  lemma {:induction false} AppendAtEnd(s: Fs, fd: nat, data: Bytes)
    requires fd in s.table && s.table[fd].write && |data| <= FS_IO_MAX_BYTES && s.table[fd].length <= I64_MAX
    ensures var s1 := Apply(s, Lseek(fd, 0, 2)).0;
            var (s2, r) := Apply(s1, Write(fd, data, None));
            && r == Wrote(|data|)
            && (Content(s2, s.table[fd].file) == Content(s, s.table[fd].file) + data
                <==> data == [] || LengthExact(s, fd))
            && (LengthExact(s, fd) ==> LengthExact(s2, fd))
  {
    var c := Content(s, s.table[fd].file);
    OverlayAppends(c, s.table[fd].length, data);
    assert c + [] == c;
  }

  /** A relative seek is undone by the opposite one, and moves nothing but the cursor. */
  lemma {:induction false} SeekBack(s: Fs, fd: nat, delta: int)
    requires fd in s.table && s.table[fd].cursor < U64_LIMIT && Apply(s, Lseek(fd, delta, 1)).1.Position?
    ensures Apply(s, Lseek(fd, delta, 1)).1.at == s.table[fd].cursor + delta
    ensures Apply(Apply(s, Lseek(fd, delta, 1)).0, Lseek(fd, -delta, 1)) == (s, Position(s.table[fd].cursor))
  {
    var s1 := Apply(s, Lseek(fd, delta, 1)).0;
    assert s1.table[fd].(cursor := s.table[fd].cursor) == s.table[fd];
    assert s1.table[fd := s.table[fd]] == s.table;
  }

  /** A closed descriptor is refused by every call that names it, until an open hands it out again. */
  lemma {:induction false} ClosedIsRefused(s: Fs, fd: nat, op: Op)
    requires fd in s.table && !op.Open? && op.fd == fd
    requires op.Read? || op.Pread? ==> op.len <= FS_IO_MAX_BYTES
    requires op.Write? || op.Pwrite? ==> |op.data| <= FS_IO_MAX_BYTES
    ensures var s1 := Apply(s, Close(fd)).0; Apply(s1, op) == (s1, Error(BadFileDescriptor))
  {
  }
}
