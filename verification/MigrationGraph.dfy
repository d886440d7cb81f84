/**
 The version graph behind the compatibility router: handlers, the two directed edges each of
 them contributes inside the supported window, chains of edges, and what running a chain does.
 */
module MigrationGraph {
  import opened Machine
  import opened Wrappers

  type Version = nat

  datatype FormatKind =
    | Page | LogFrame | ProtocolFrame | MpkManifest | ServerConfig | FileLayout | TupleBinary | SyscallPayload

  datatype VersionRange = VersionRange(min: Version, max: Version) {
    predicate Contains(v: Version) {
      min <= v <= max
    }
  }

  datatype MigrateOption = MigrateOption(version: Version, payload: Bytes)

  /** The reason text of a failed step is represented by the error it was rendered from. */
  datatype MigrateError =
    | UnsupportedVersion(component: FormatKind, actual: Version, supported: VersionRange)
    | MissingHandler(component: FormatKind, from: Version, to: Version)
    | Irreversible(component: FormatKind, from: Version, to: Version, detail: string)
    | UnsupportedOptionVersion(component: FormatKind, version: Version)
    | MigrationFailed(component: FormatKind, from: Version, to: Version, step: nat, cause: Option<MigrateError>)

  type Transform = (Bytes, Option<MigrateOption>) -> Result<Bytes, MigrateError>
  type OptionProvider = (FormatKind, Version) -> Option<MigrateOption>

  datatype MigrateHandler = MigrateHandler(from: Version, to: Version, upgrade: Transform, rollback: Transform)

  datatype EdgeKind = Upgrade | Rollback

  datatype Edge = Edge(from: Version, to: Version, kind: EdgeKind, handler: MigrateHandler)

  // ----- edges -----

  function UpgradeEdge(h: MigrateHandler): Edge {
    Edge(h.from, h.to, Upgrade, h)
  }

  function RollbackEdge(h: MigrateHandler): Edge {
    Edge(h.to, h.from, Rollback, h)
  }

  predicate Exposed(h: MigrateHandler, window: VersionRange) {
    window.Contains(h.from) && window.Contains(h.to)
  }

  function Edges(handlers: seq<MigrateHandler>, window: VersionRange): seq<Edge> {
    if handlers == [] then []
    else
      var h := handlers[|handlers| - 1];
      Edges(handlers[..|handlers| - 1], window) + if Exposed(h, window) then [UpgradeEdge(h), RollbackEdge(h)] else []
  }

  /** The edge set is exactly the two directions of every handler that stays inside the window. */
  lemma {:induction false} EdgesExact(handlers: seq<MigrateHandler>, window: VersionRange, e: Edge)
    ensures e in Edges(handlers, window) <==>
            exists h :: h in handlers
              && window.min <= h.from <= window.max && window.min <= h.to <= window.max
              && (e == Edge(h.from, h.to, Upgrade, h) || e == Edge(h.to, h.from, Rollback, h))
  {
    if handlers != [] {
      var front, h := handlers[..|handlers| - 1], handlers[|handlers| - 1];
      assert handlers == front + [h];
      EdgesExact(front, window, e);
    }
  }

  /** The same step taken the other way. */
  function Twin(e: Edge): Edge {
    Edge(e.to, e.from, if e.kind == Upgrade then Rollback else Upgrade, e.handler)
  }

  lemma {:induction false} TwinPresent(handlers: seq<MigrateHandler>, window: VersionRange, e: Edge)
    requires e in Edges(handlers, window)
    ensures Twin(e) in Edges(handlers, window)
  {
    EdgesExact(handlers, window, e);
    EdgesExact(handlers, window, Twin(e));
  }

  // ----- chains -----

  ghost predicate Chain(edges: seq<Edge>, path: seq<Edge>, from: Version, to: Version) {
    if path == [] then from == to
    else path[0] in edges && path[0].from == from && Chain(edges, path[1..], path[0].to, to)
  }

  /** No version is entered twice and the start is never re-entered. */
  ghost predicate Simple(path: seq<Edge>, to: Version) {
    && (forall i, j :: 0 <= i < j < |path| ==> path[i].from != path[j].from)
    && (forall i :: 0 <= i < |path| ==> path[i].from != to)
  }

  ghost predicate Shortest(edges: seq<Edge>, path: seq<Edge>, from: Version, to: Version) {
    && Chain(edges, path, from, to)
    && forall other :: Chain(edges, other, from, to) ==> |path| <= |other|
  }

  ghost predicate Connected(edges: seq<Edge>, from: Version, to: Version) {
    exists path :: Chain(edges, path, from, to)
  }

  lemma {:induction false} ChainAppend(edges: seq<Edge>, p: seq<Edge>, q: seq<Edge>, a: Version, b: Version, c: Version)
    requires Chain(edges, p, a, b) && Chain(edges, q, b, c)
    ensures Chain(edges, p + q, a, c)
  {
    if p == [] {
      assert p + q == q;
    } else {
      ChainAppend(edges, p[1..], q, p[0].to, b, c);
      assert (p + q)[1..] == p[1..] + q;
    }
  }

  lemma {:induction false} ChainMonotone(small: seq<Edge>, large: seq<Edge>, path: seq<Edge>, from: Version,
                                         to: Version)
    requires Chain(small, path, from, to)
    requires forall e :: e in small ==> e in large
    ensures Chain(large, path, from, to)
  {
    if path != [] {
      ChainMonotone(small, large, path[1..], path[0].to, to);
    }
  }

  function Reversed<T>(s: seq<T>): (r: seq<T>)
    ensures |r| == |s|
  {
    if s == [] then [] else Reversed(s[1..]) + [s[0]]
  }

  lemma {:induction false} ReversedPush<T>(s: seq<T>, x: T)
    ensures Reversed(s + [x]) == [x] + Reversed(s)
  {
    if s == [] {
      assert s + [x] == [x];
    } else {
      assert (s + [x])[1..] == s[1..] + [x];
      ReversedPush(s[1..], x);
    }
  }

  lemma {:induction false} ReversedAt<T>(s: seq<T>, i: nat)
    requires i < |s|
    ensures Reversed(s)[i] == s[|s| - 1 - i]
  {
    if i < |s| - 1 {
      ReversedAt(s[1..], i);
    }
  }

  /** Every chain can be walked back with the twin edges. */
  lemma {:induction false} ChainBack(handlers: seq<MigrateHandler>, window: VersionRange, path: seq<Edge>, a: Version,
                                     b: Version)
    returns (back: seq<Edge>)
    requires Chain(Edges(handlers, window), path, a, b)
    ensures Chain(Edges(handlers, window), back, b, a) && |back| == |path|
  {
    var edges := Edges(handlers, window);
    if path == [] {
      back := [];
    } else {
      var rest := ChainBack(handlers, window, path[1..], path[0].to, b);
      TwinPresent(handlers, window, path[0]);
      var last := [Twin(path[0])];
      assert Chain(edges, last[1..], a, a);
      assert Chain(edges, last, path[0].to, a);
      ChainAppend(edges, rest, last, b, path[0].to, a);
      back := rest + last;
    }
  }

  lemma {:induction false} BackNoLonger(handlers: seq<MigrateHandler>, window: VersionRange, p: seq<Edge>, q: seq<Edge>,
                                        a: Version, b: Version)
    requires Chain(Edges(handlers, window), p, a, b) && Shortest(Edges(handlers, window), q, b, a)
    ensures |q| <= |p|
  {
    var back := ChainBack(handlers, window, p, a, b);
  }

  lemma {:induction false} ConnectedBack(handlers: seq<MigrateHandler>, window: VersionRange, a: Version, b: Version)
    requires Connected(Edges(handlers, window), a, b)
    ensures Connected(Edges(handlers, window), b, a)
  {
    var p :| Chain(Edges(handlers, window), p, a, b);
    var back := ChainBack(handlers, window, p, a, b);
  }

  /** Registering more handlers or widening the window loses no edge. */
  lemma {:induction false} EdgesMonotone(few: seq<MigrateHandler>, narrow: VersionRange, more: seq<MigrateHandler>,
                                         wide: VersionRange)
    requires forall h :: h in few ==> h in more
    requires wide.min <= narrow.min && narrow.max <= wide.max
    ensures forall e :: e in Edges(few, narrow) ==> e in Edges(more, wide)
  {
    forall e | e in Edges(few, narrow) ensures e in Edges(more, wide) {
      EdgesExact(few, narrow, e);
      EdgesExact(more, wide, e);
    }
  }

  /** ... so it removes no route and lengthens no plan. */
  lemma {:induction false} DistanceMonotone(few: seq<MigrateHandler>, narrow: VersionRange, more: seq<MigrateHandler>,
                                            wide: VersionRange, a: Version, b: Version)
    requires forall h :: h in few ==> h in more
    requires wide.min <= narrow.min && narrow.max <= wide.max
    ensures Connected(Edges(few, narrow), a, b) ==> Connected(Edges(more, wide), a, b)
    ensures forall p, q :: Shortest(Edges(few, narrow), p, a, b) && Shortest(Edges(more, wide), q, a, b) ==> |q| <= |p|
  {
    EdgesMonotone(few, narrow, more, wide);
    forall p | Chain(Edges(few, narrow), p, a, b) ensures Chain(Edges(more, wide), p, a, b) {
      ChainMonotone(Edges(few, narrow), Edges(more, wide), p, a, b);
    }
  }

  // ----- running a chain -----

  function RunStep(component: FormatKind, edge: Edge, step: nat, options: OptionProvider,
                   input: Bytes): Result<Bytes, MigrateError>
  {
    var option := options(component, edge.from);
    var result :=
      if edge.kind == Upgrade then edge.handler.upgrade(input, option) else edge.handler.rollback(input, option);
    match result
    case Success(_) => result
    case Failure(MigrationFailed(_, _, _, _, _)) => result
    case Failure(e) => Failure(MigrationFailed(component, edge.from, edge.to, step, Some(e)))
  }

  /** The outcome of the first `n` steps of `path`. */
  function RunPrefix(component: FormatKind, path: seq<Edge>, n: nat, options: OptionProvider, input: Bytes)
    : Result<Bytes, MigrateError>
    requires n <= |path|
  {
    if n == 0 then Success(input)
    else
      var current :- RunPrefix(component, path, n - 1, options, input);
      RunStep(component, path[n - 1], n - 1, options, current)
  }

  function Run(component: FormatKind, path: seq<Edge>, options: OptionProvider,
               input: Bytes): Result<Bytes, MigrateError>
  {
    RunPrefix(component, path, |path|, options, input)
  }

  /** A failed run stops at one step: everything before it succeeded, and its failure is the outcome. */
  lemma {:induction false} FailureIsOneStep(component: FormatKind, path: seq<Edge>, n: nat, options: OptionProvider,
                                            input: Bytes)
    returns (k: nat)
    requires n <= |path| && RunPrefix(component, path, n, options, input).Failure?
    ensures k < n && RunPrefix(component, path, k, options, input).Success?
    ensures RunPrefix(component, path, n, options, input) ==
            RunStep(component, path[k], k, options, RunPrefix(component, path, k, options, input).value)
    ensures RunPrefix(component, path, n, options, input).error.MigrationFailed?
  {
    if RunPrefix(component, path, n - 1, options, input).Failure? {
      k := FailureIsOneStep(component, path, n - 1, options, input);
    } else {
      k := n - 1;
    }
  }

  /** `meaning` reads a payload of a given version; a handler keeps it when both of its directions do. */
  ghost predicate HandlerPreserves<M(!new)>(h: MigrateHandler, meaning: (Version, Bytes) -> M) {
    forall b, o ::
      && (h.upgrade(b, o).Success? ==> meaning(h.to, h.upgrade(b, o).value) == meaning(h.from, b))
      && (h.rollback(b, o).Success? ==> meaning(h.from, h.rollback(b, o).value) == meaning(h.to, b))
  }

  lemma {:induction false} ChainVersionAt(edges: seq<Edge>, path: seq<Edge>, from: Version, to: Version, n: nat)
    requires Chain(edges, path, from, to) && n < |path|
    ensures path[n] in edges
    ensures path[n].from == if n == 0 then from else path[n - 1].to
    ensures path[|path| - 1].to == to
  {
    if n > 0 {
      ChainVersionAt(edges, path[1..], path[0].to, to, n - 1);
    } else if |path| > 1 {
      ChainVersionAt(edges, path[1..], path[0].to, to, 0);
    }
  }

  // ----- the handler calls of a run -----

  /** The version a path from `from` has reached before step `i`. */
  function VersionBefore(path: seq<Edge>, from: Version, i: nat): Version
    requires i <= |path|
  {
    if i == 0 then from else path[i - 1].to
  }

  /** Step `i` moves between the versions of its handler: forward by its upgrade, back by its rollback. */
  ghost predicate Moves(handlers: seq<MigrateHandler>, path: seq<Edge>, from: Version, i: nat)
    requires i < |path|
  {
    var h := path[i].handler;
    && h in handlers
    && (VersionBefore(path, from, i), path[i].to)
       == if path[i].kind == Upgrade then (h.from, h.to) else (h.to, h.from)
  }

  /** What step `i` calls: its handler in the direction of the move, with the option for the version it leaves. */
  function Call(c: FormatKind, path: seq<Edge>, from: Version, i: nat, options: OptionProvider, input: Bytes)
    : Result<Bytes, MigrateError>
    requires i < |path|
  {
    var option := options(c, VersionBefore(path, from, i));
    match path[i].kind
    case Upgrade => path[i].handler.upgrade(input, option)
    case Rollback => path[i].handler.rollback(input, option)
  }

  /** `bs` are the payloads between the first `n` calls, each of which succeeds on the one before. */
  ghost predicate Passes(c: FormatKind, path: seq<Edge>, from: Version, n: nat, options: OptionProvider, input: Bytes,
                         bs: seq<Bytes>) {
    && n <= |path| && |bs| == n + 1 && bs[0] == input
    && forall i, j :: 0 <= i < n && j == i + 1 ==> Call(c, path, from, i, options, bs[i]) == Success(bs[j])
  }

  /** The calls before `n` succeed, call `n` fails, and `e` is what the caller is told. */
  ghost predicate StopsAt(c: FormatKind, path: seq<Edge>, from: Version, n: nat, options: OptionProvider, input: Bytes,
                          bs: seq<Bytes>, e: MigrateError) {
    && n < |path| && Passes(c, path, from, n, options, input, bs)
    && var call := Call(c, path, from, n, options, bs[n]);
       && call.Failure?
       && e == if call.error.MigrationFailed? then call.error
               else MigrationFailed(c, VersionBefore(path, from, n), path[n].to, n, Some(call.error))
  }

  /** `r` is the last call's output if all calls succeed, and else the first failing call's error. */
  ghost predicate Outcome(c: FormatKind, path: seq<Edge>, from: Version, options: OptionProvider, input: Bytes,
                          r: Result<Bytes, MigrateError>) {
    match r
    case Success(output) => exists bs :: Passes(c, path, from, |path|, options, input, bs) && bs[|path|] == output
    case Failure(e) => exists n, bs :: StopsAt(c, path, from, n, options, input, bs, e)
  }

  lemma PassesOn(c: FormatKind, path: seq<Edge>, from: Version, n: nat, options: OptionProvider,
                 input: Bytes, bs: seq<Bytes>, output: Bytes)
    requires n < |path| && Passes(c, path, from, n, options, input, bs)
    requires Call(c, path, from, n, options, bs[n]) == Success(output)
    ensures Passes(c, path, from, n + 1, options, input, bs + [output])
  {
    var longer := bs + [output];
    forall i, j | 0 <= i < n + 1 && j == i + 1
      ensures Call(c, path, from, i, options, longer[i]) == Success(longer[j])
    {
      assert i < n ==> longer[i] == bs[i] && longer[j] == bs[j];
    }
  }

  lemma {:induction false} PrefixPasses(edges: seq<Edge>, to: Version, c: FormatKind, path: seq<Edge>, from: Version,
                                        n: nat, options: OptionProvider, input: Bytes)
    returns (bs: seq<Bytes>)
    requires Chain(edges, path, from, to) && n <= |path| && RunPrefix(c, path, n, options, input).Success?
    ensures Passes(c, path, from, n, options, input, bs) && bs[n] == RunPrefix(c, path, n, options, input).value
  {
    if n == 0 {
      bs := [input];
    } else {
      var front := PrefixPasses(edges, to, c, path, from, n - 1, options, input);
      ChainVersionAt(edges, path, from, to, n - 1);
      var output := RunPrefix(c, path, n, options, input).value;
      PassesOn(c, path, from, n - 1, options, input, front, output);
      bs := front + [output];
    }
  }

  lemma {:induction false} PassesRuns(edges: seq<Edge>, to: Version, c: FormatKind, path: seq<Edge>, from: Version,
                                      n: nat, k: nat, options: OptionProvider, input: Bytes, bs: seq<Bytes>)
    requires Chain(edges, path, from, to) && k <= n && Passes(c, path, from, n, options, input, bs)
    ensures RunPrefix(c, path, k, options, input) == Success(bs[k])
  {
    if k > 0 {
      PassesRuns(edges, to, c, path, from, n, k - 1, options, input, bs);
      ChainVersionAt(edges, path, from, to, k - 1);
      assert Call(c, path, from, k - 1, options, bs[k - 1]) == Success(bs[k]);
    }
  }

  lemma {:induction false} FailureStays(c: FormatKind, path: seq<Edge>, k: nat, options: OptionProvider, input: Bytes)
    requires k <= |path| && RunPrefix(c, path, k, options, input).Failure?
    ensures Run(c, path, options, input) == RunPrefix(c, path, k, options, input)
    decreases |path| - k
  {
    if k < |path| {
      FailureStays(c, path, k + 1, options, input);
    }
  }

  lemma {:induction false} StopsRuns(edges: seq<Edge>, to: Version, c: FormatKind, path: seq<Edge>, from: Version,
                                     n: nat, options: OptionProvider, input: Bytes, bs: seq<Bytes>, e: MigrateError)
    requires Chain(edges, path, from, to) && StopsAt(c, path, from, n, options, input, bs, e)
    ensures Run(c, path, options, input) == Failure(e)
  {
    PassesRuns(edges, to, c, path, from, n, n, options, input, bs);
    ChainVersionAt(edges, path, from, to, n);
    FailureStays(c, path, n + 1, options, input);
  }

  /**
   Running a chain makes its handlers' calls one after the other, each on the bytes so far and with the
   option for the version then reached, and its result is exactly the outcome of these calls.
   */
  lemma {:induction false} RunExact(edges: seq<Edge>, to: Version, c: FormatKind, path: seq<Edge>, from: Version,
                                    options: OptionProvider, input: Bytes, r: Result<Bytes, MigrateError>)
    requires Chain(edges, path, from, to)
    ensures Run(c, path, options, input) == r <==> Outcome(c, path, from, options, input, r)
  {
    var n := |path|;
    if Run(c, path, options, input) == r {
      if r.Success? {
        var bs := PrefixPasses(edges, to, c, path, from, n, options, input);
      } else {
        var k := FailureIsOneStep(c, path, n, options, input);
        var bs := PrefixPasses(edges, to, c, path, from, k, options, input);
        ChainVersionAt(edges, path, from, to, k);
        assert StopsAt(c, path, from, k, options, input, bs, r.error);
      }
    }
    if Outcome(c, path, from, options, input, r) {
      if r.Success? {
        var bs :| Passes(c, path, from, n, options, input, bs) && bs[n] == r.value;
        PassesRuns(edges, to, c, path, from, n, n, options, input, bs);
      } else {
        var k, bs :| StopsAt(c, path, from, k, options, input, bs, r.error);
        StopsRuns(edges, to, c, path, from, k, options, input, bs, r.error);
      }
    }
  }

  lemma {:induction false} ChainMoves(handlers: seq<MigrateHandler>, window: VersionRange, path: seq<Edge>,
                                      from: Version, to: Version, i: nat)
    requires Chain(Edges(handlers, window), path, from, to) && i < |path|
    ensures Moves(handlers, path, from, i)
  {
    ChainVersionAt(Edges(handlers, window), path, from, to, i);
    EdgesExact(handlers, window, path[i]);
  }

  // ----- meaning -----

  lemma {:induction false} PrefixPreservesMeaning<M(!new)>(
    handlers: seq<MigrateHandler>, window: VersionRange, meaning: (Version, Bytes) -> M,
    component: FormatKind, path: seq<Edge>, from: Version, to: Version, n: nat, options: OptionProvider, input: Bytes)
    requires forall h :: h in handlers ==> HandlerPreserves(h, meaning)
    requires Chain(Edges(handlers, window), path, from, to) && n <= |path|
    requires RunPrefix(component, path, n, options, input).Success?
    ensures meaning(if n == 0 then from else path[n - 1].to, RunPrefix(component, path, n, options, input).value)
            == meaning(from, input)
  {
    if n > 0 {
      PrefixPreservesMeaning(handlers, window, meaning, component, path, from, to, n - 1, options, input);
      ChainVersionAt(Edges(handlers, window), path, from, to, n - 1);
      EdgesExact(handlers, window, path[n - 1]);
      var h := path[n - 1].handler;
      assert HandlerPreserves(h, meaning);
    }
  }

  /** Whichever chain the planner picked, a successful run keeps the meaning of the payload. */
  lemma {:induction false} RunPreservesMeaning<M(!new)>(
    handlers: seq<MigrateHandler>, window: VersionRange, meaning: (Version, Bytes) -> M,
    component: FormatKind, path: seq<Edge>, from: Version, to: Version, options: OptionProvider, input: Bytes)
    requires forall h :: h in handlers ==> HandlerPreserves(h, meaning)
    requires Chain(Edges(handlers, window), path, from, to)
    requires Run(component, path, options, input).Success?
    ensures meaning(to, Run(component, path, options, input).value) == meaning(from, input)
  {
    PrefixPreservesMeaning(handlers, window, meaning, component, path, from, to, |path|, options, input);
    if path != [] {
      ChainVersionAt(Edges(handlers, window), path, from, to, 0);
    }
  }
}
