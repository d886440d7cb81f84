/** What an object's root listing shows after any run of the file calls: the entries opened for writing. */
module LocalFsListing {
  import opened Wrappers
  import opened EntryPath
  import opened HostLayout
  import opened LocalFs
  import opened LocalFsRuns

  const EMPTY: Fs := Fs(map[], {}, map[])

  type Entry = (Oid, string)

  function PathOf(x: Entry): HostPath {
    ContentPath(x.0, x.1)
  }

  function Paths(xs: set<Entry>): set<HostPath> {
    set x | x in xs :: PathOf(x)
  }

  /** The entry an open for writing puts on the host: it returned a descriptor, or failed only for want of one. */
  function Created(s: Fs, op: Op): set<Entry> {
    if op.Open? && Refused(s, op).None? && AccessOf(op.flags) != Some(ReadOnly)
       && (Apply(s, op).1.Opened? || Apply(s, op).1 == Error(InvalidState))
    then {(op.oid, Normalized(op.path).value)} else {}
  }

  /** Every entry a run opened for writing. */
  function Opens(s: Fs, ops: seq<Op>): set<Entry> {
    if ops == [] then {} else Opens(s, ops[..|ops| - 1]) + Created(After(s, ops[..|ops| - 1]), ops[|ops| - 1])
  }

  predicate HasFileBelow(s: Fs, d: HostPath) {
    exists p :: p in s.files && d in Parents(p)
  }

  /** The files are those opened, and there is no directory without a file below it. */
  ghost predicate Grown(s: Fs, made: set<Entry>) {
    && s.files.Keys == Paths(made)
    && (forall x :: x in made ==> IsNormal(x.1))
    && (forall d :: d in s.dirs ==> HasFileBelow(s, d))
  }

  lemma {:induction false} OpenAtFiles(s: Fs, p: HostPath, oid: Oid, entry: string, access: Access)
    ensures var (t, r) := OpenAt(s, p, oid, entry, access);
            if access != ReadOnly && (r.Opened? || r == Error(InvalidState))
            then t.files.Keys == s.files.Keys + {p} && t.dirs == s.dirs + Parents(p)
            else t.files == s.files && t.dirs == s.dirs
  {
  }

  lemma {:induction false} OpenFiles(s: Fs, op: Op)
    requires op.Open?
    ensures Apply(s, op).0.files.Keys == s.files.Keys + Paths(Created(s, op))
    ensures Created(s, op) == {} ==> Apply(s, op).0.dirs == s.dirs
    ensures forall x :: x in Created(s, op) ==> Apply(s, op).0.dirs == s.dirs + Parents(PathOf(x))
  {
    assert Paths({}) == {};
    if Refused(s, op).None? {
      var x := (op.oid, Normalized(op.path).value);
      OpenAtFiles(s, PathOf(x), x.0, x.1, AccessOf(op.flags).value);
      assert Paths({x}) == {PathOf(x)} by { assert x in {x}; }
    }
  }

  lemma {:induction false} CallFiles(s: Fs, op: Op)
    requires Valid(s) && !op.Open?
    ensures Apply(s, op).0.files.Keys == s.files.Keys && Apply(s, op).0.dirs == s.dirs
  {
    if Refused(s, op).None? && (op.Write? || op.Pwrite?) {
      assert GoodFd(s, s.table[op.fd]);
    }
  }

  lemma PathsUnion(a: set<Entry>, b: set<Entry>)
    ensures Paths(a + b) == Paths(a) + Paths(b)
  {
  }

  lemma BelowKept(s: Fs, t: Fs, d: HostPath)
    requires HasFileBelow(s, d) && s.files.Keys <= t.files.Keys
    ensures HasFileBelow(t, d)
  {
    var p :| p in s.files && d in Parents(p);
    assert p in t.files;
  }

  lemma {:induction false} StepGrown(s: Fs, op: Op, made: set<Entry>)
    requires Valid(s) && Grown(s, made)
    ensures Grown(Apply(s, op).0, made + Created(s, op))
  {
    var t := Apply(s, op).0;
    if op.Open? { OpenFiles(s, op); } else { CallFiles(s, op); }
    PathsUnion(made, Created(s, op));
    assert t.files.Keys == Paths(made + Created(s, op)) by { assert Paths({}) == {}; }
    forall d | d in t.dirs ensures HasFileBelow(t, d) {
      if d in s.dirs {
        BelowKept(s, t, d);
      } else {
        var x :| x in Created(s, op);
        assert d in Parents(PathOf(x)) && PathOf(x) in t.files;
      }
    }
    forall x | x in Created(s, op) ensures IsNormal(x.1) {
      NormalizedIsNormal(op.path);
    }
  }

  lemma {:induction false} RunGrown(ops: seq<Op>)
    ensures Valid(After(EMPTY, ops)) && Grown(After(EMPTY, ops), Opens(EMPTY, ops))
  {
    RunValid(EMPTY, ops);
    if ops == [] {
      assert Paths({}) == {};
    } else {
      var front := ops[..|ops| - 1];
      RunGrown(front);
      StepGrown(After(EMPTY, front), ops[|ops| - 1], Opens(EMPTY, front));
    }
  }

  // ----- the fs root -----

  /** `name` is a file or directory directly below the fs root. */
  predicate AtRoot(s: Fs, name: string) {
    [name] in s.files || [name] in s.dirs
  }

  /** The host lists every name at the root once, with its kind and, for a file, its length. */
  ghost predicate ListsRoot(children: seq<Dirent>, s: Fs) {
    && (forall i, j :: 0 <= i < j < |children| ==> children[i].name != children[j].name)
    && (forall n :: Lists(children, n) <==> AtRoot(s, n))
    && (forall i :: 0 <= i < |children| ==>
          && children[i].isDir == ([children[i].name] in s.dirs)
          && (!children[i].isDir ==> children[i].length == |Content(s, [children[i].name])|))
  }

  /** The names at the root are the first components of the files' paths. */
  lemma RootNames(s: Fs, made: set<Entry>, n: string)
    requires HostTree(s) && Grown(s, made)
    ensures AtRoot(s, n) <==> Begins(made, n)
  {
    if AtRoot(s, n) {
      if [n] in s.files {
        var x :| x in made && PathOf(x) == [n];
        assert ContentPath(x.0, x.1)[0] == n;
      } else {
        var p :| p in s.files && [n] in Parents(p);
        var k :| 1 <= k < |p| && [n] == p[..k];
        assert p[0] == n;
        var x :| x in made && PathOf(x) == p;
        assert ContentPath(x.0, x.1)[0] == n;
      }
    }
    if x :| x in made && ContentPath(x.0, x.1)[0] == n {
      var p := PathOf(x);
      assert p in s.files;
      if |p| == 1 {
        assert p == [n];
      } else {
        assert p[..1] == [n] && p[..1] in Parents(p);
      }
    }
  }

  /** After any run from an empty store, the host's root children are those of the opened entries. */
  lemma {:induction false} RootHolds(ops: seq<Op>, children: seq<Dirent>)
    requires ListsRoot(children, After(EMPTY, ops))
    ensures Holds(children, Opens(EMPTY, ops)) && forall x :: x in Opens(EMPTY, ops) ==> IsNormal(x.1)
  {
    RunGrown(ops);
    var s, made := After(EMPTY, ops), Opens(EMPTY, ops);
    forall x | x in made ensures Lists(children, ContentPath(x.0, x.1)[0]) {
      RootNames(s, made, ContentPath(x.0, x.1)[0]);
    }
    forall i | 0 <= i < |children| ensures Begins(made, children[i].name) {
      assert Lists(children, children[i].name);
      RootNames(s, made, children[i].name);
    }
  }

  lemma {:induction false} HexPlain(n: nat, w: nat)
    ensures '/' !in Hex(n, w)
  {
    if w > 0 { HexPlain(n / 16, w - 1); }
  }

  lemma RootNamePlain(x: Entry)
    ensures '/' !in PathOf(x)[0]
  {
    HexPlain(x.0, 32);
    SplitChars(x.1, Split(x.1)[0]);
  }

  lemma {:induction false} RootNamesPlain(ops: seq<Op>, children: seq<Dirent>)
    requires ListsRoot(children, After(EMPTY, ops))
    ensures HostNames(children)
  {
    RootHolds(ops, children);
    forall i | 0 <= i < |children| ensures '/' !in children[i].name {
      assert Begins(Opens(EMPTY, ops), children[i].name);
      var x :| x in Opens(EMPTY, ops) && ContentPath(x.0, x.1)[0] == children[i].name;
      RootNamePlain(x);
    }
  }

  /**
   Listing an object's root after any run from an empty store: ascending, naming exactly the first
   components of the entries the run opened for writing in that object, each with the kind the host gives it.
   */
  method ReaddirAfter(ghost ops: seq<Op>, oid: Oid, children: seq<Dirent>) returns (entries: seq<Dirent>)
    requires ListsRoot(children, After(EMPTY, ops))
    ensures Ascending(entries)
    ensures forall n ::
              Lists(entries, n) <==> exists x :: x in Opens(EMPTY, ops) && x.0 == oid && x.1 != "" && Split(x.1)[0] == n
    ensures ShowsChildren(oid, children, |children|, entries)
  {
    RootNamesPlain(ops, children);
    RootHolds(ops, children);
    entries := ReaddirObjectRoot(oid, children);
    forall n
      ensures Lists(entries, n)
              <==> exists x :: x in Opens(EMPTY, ops) && x.0 == oid && x.1 != "" && Split(x.1)[0] == n
    {
      ListingIsOwnEntries(oid, Opens(EMPTY, ops), children, n);
    }
  }
}
