/**
 The compatibility router: a registry of handlers per format, the supported version window, and
 the planning and running of migrations.
 */
module Router {
  import opened Machine
  import opened Wrappers
  import opened MigrationGraph
  import opened VersionSearch

  /** What a router is configured with. */
  datatype Config = Config(
    current: map<FormatKind, Version>,
    min: map<FormatKind, Version>,
    handlers: map<FormatKind, seq<MigrateHandler>>)
  {
    function MinSupported(c: FormatKind): Version {
      if c in min then min[c] else 1
    }

    /** Without a current version the window is the single minimum version. */
    function Window(c: FormatKind): VersionRange {
      VersionRange(MinSupported(c), if c in current then current[c] else MinSupported(c))
    }

    function Handlers(c: FormatKind): seq<MigrateHandler> {
      if c in handlers then handlers[c] else []
    }

    function Graph(c: FormatKind): seq<Edge> {
      Edges(Handlers(c), Window(c))
    }

    /** The first version of the two that lies outside the window decides the error. */
    function WindowError(c: FormatKind, from: Version, to: Version): Option<MigrateError> {
      if !Window(c).Contains(from) then Some(UnsupportedVersion(c, from, Window(c)))
      else if !Window(c).Contains(to) then Some(UnsupportedVersion(c, to, Window(c)))
      else None
    }

    /** `r` is a plan from `from` to `to`: a shortest chain, or the error that says why there is none. */
    ghost predicate Plans(c: FormatKind, from: Version, to: Version, r: Result<seq<Edge>, MigrateError>) {
      if from == to then r == Success([])
      else if WindowError(c, from, to).Some? then r == Failure(WindowError(c, from, to).value)
      else match r
           case Success(path) => Shortest(Graph(c), path, from, to) && Simple(path, to)
           case Failure(e) => e == MissingHandler(c, from, to) && !Connected(Graph(c), from, to)
    }

    /** `r` is what migrating `input` may yield: some plan, run to its end or its first failing step. */
    ghost predicate Migrates(c: FormatKind, from: Version, to: Version, input: Bytes, options: OptionProvider,
                             r: Result<Bytes, MigrateError>) {
      exists plan ::
        && Plans(c, from, to, plan)
        && r == match plan
                case Success(path) => Run(c, path, options, input)
                case Failure(e) => Failure(e)
    }
  }

  class CompatibilityRouter {
    var currentVersions: map<FormatKind, Version>
    var minSupportedVersions: map<FormatKind, Version>
    var handlers: map<FormatKind, seq<MigrateHandler>>

    ghost function Snapshot(): Config
      reads this
    {
      Config(currentVersions, minSupportedVersions, handlers)
    }

    constructor ()
      ensures Snapshot() == Config(map[], map[], map[])
    {
      currentVersions, minSupportedVersions, handlers := map[], map[], map[];
    }

    method SetCurrentVersion(c: FormatKind, version: Version)
      modifies this
      ensures Snapshot() == old(Snapshot()).(current := old(currentVersions)[c := version])
    {
      currentVersions := currentVersions[c := version];
    }

    method SetMinSupportedVersion(c: FormatKind, version: Version)
      modifies this
      ensures Snapshot() == old(Snapshot()).(min := old(minSupportedVersions)[c := version])
    {
      minSupportedVersions := minSupportedVersions[c := version];
    }

    method SetSupportedWindow(c: FormatKind, min: Version, current: Version)
      modifies this
      ensures Snapshot() == old(Snapshot()).(min := old(minSupportedVersions)[c := min],
                                             current := old(currentVersions)[c := current])
      ensures Snapshot().Window(c) == VersionRange(min, current)
    {
      minSupportedVersions := minSupportedVersions[c := min];
      currentVersions := currentVersions[c := current];
    }

    method Register(c: FormatKind, h: MigrateHandler)
      modifies this
      ensures Snapshot().current == old(Snapshot()).current && Snapshot().min == old(Snapshot()).min
      ensures Snapshot().Handlers(c) == old(Snapshot().Handlers(c)) + [h]
      ensures forall d :: d != c ==> Snapshot().Handlers(d) == old(Snapshot().Handlers(d))
    {
      var list := if c in handlers then handlers[c] else [];
      handlers := handlers[c := list + [h]];
    }

    function MinSupportedVersion(c: FormatKind): Version
      reads this
    {
      if c in minSupportedVersions then minSupportedVersions[c] else 1
    }

    method CheckVersion(c: FormatKind, v: Version) returns (r: Option<MigrateError>)
      ensures r.None? <==> Snapshot().Window(c).Contains(v)
      ensures r.Some? ==> r.value == UnsupportedVersion(c, v, Snapshot().Window(c))
    {
      var min := MinSupportedVersion(c);
      var current := if c in currentVersions then currentVersions[c] else min;
      var range := VersionRange(min, current);
      r := if range.Contains(v) then None else Some(UnsupportedVersion(c, v, range));
    }

    method ComponentEdges(c: FormatKind) returns (edges: seq<Edge>)
      ensures edges == Snapshot().Graph(c)
    {
      var min := MinSupportedVersion(c);
      var max := if c in currentVersions then currentVersions[c] else min;
      edges := [];
      if c in handlers {
        var list := handlers[c];
        for i := 0 to |list|
          invariant edges == Edges(list[..i], VersionRange(min, max))
        {
          var h := list[i];
          assert list[..i + 1][..i] == list[..i];
          if h.from >= min && h.from <= max && h.to >= min && h.to <= max {
            edges := edges + [Edge(h.from, h.to, Upgrade, h)];
            edges := edges + [Edge(h.to, h.from, Rollback, h)];
          }
        }
        assert list[..|list|] == list;
      }
    }

    /** Groups the edges by the version they leave. */
    static method Adjacency(edges: seq<Edge>) returns (adjacency: map<Version, seq<Edge>>)
      ensures forall v :: v in adjacency ==> forall e :: e in adjacency[v] <==> e in edges && e.from == v
      ensures forall e :: e in edges ==> e.from in adjacency
    {
      adjacency := map[];
      for i := 0 to |edges|
        invariant forall v :: v in adjacency ==> forall e :: e in adjacency[v] <==> e in edges[..i] && e.from == v
        invariant forall e :: e in edges[..i] ==> e.from in adjacency
      {
        var e := edges[i];
        assert edges[..i + 1] == edges[..i] + [e];
        var list := if e.from in adjacency then adjacency[e.from] else [];
        adjacency := adjacency[e.from := list + [e]];
      }
      assert edges[..|edges|] == edges;
    }

    /** Follows every edge out of the version at the head of the queue and takes it off. */
    static method Expand(ghost edges: seq<Edge>, from: Version, outgoing: seq<Edge>,
                         visited: map<Version, Edge>, queue: seq<Version>,
                         ghost processed: set<Version>, ghost dist: map<Version, nat>)
      returns (visited': map<Version, Edge>, queue': seq<Version>, ghost dist': map<Version, nat>)
      requires queue != [] && Searching(edges, from, visited, queue, processed, dist)
      requires forall e :: e in outgoing <==> e in edges && e.from == queue[0]
      ensures Searching(edges, from, visited', queue', processed + {queue[0]}, dist')
    {
      visited', queue', dist' := visited, queue, dist;
      for k := 0 to |outgoing|
        invariant queue' != [] && queue'[0] == queue[0]
        invariant Searching(edges, from, visited', queue', processed, dist')
        invariant forall i :: 0 <= i < k ==> Relaxed(outgoing[i], dist')
      {
        var e := outgoing[k];
        assert queue'[0] in dist';
        if e.to !in visited' && e.to != from {
          ghost var d := dist'[e.from] + 1;
          Discover(edges, from, visited', queue', processed, dist', e, d);
          visited', queue', dist' := visited'[e.to := e], queue' + [e.to], dist'[e.to := d];
        } else {
          SeenIsRelaxed(edges, from, visited', queue', processed, dist', e);
        }
      }
      Finish(edges, from, visited', queue', processed, dist');
      queue' := queue'[1..];
    }

    /** Walks the parent map from `to` back to `from`. The lookup never misses, so no error is possible here. */
    static method Rebuild(ghost edges: seq<Edge>, from: Version, to: Version, visited: map<Version, Edge>,
                          ghost dist: map<Version, nat>) returns (path: seq<Edge>)
      requires Tree(edges, from, visited, dist) && to in dist
      ensures Chain(edges, path, from, to) && |path| == dist[to] && Simple(path, to)
    {
      var steps: seq<Edge> := [];
      var cursor := to;
      while cursor != from
        invariant cursor in dist && |steps| + dist[cursor] == dist[to]
        invariant Chain(edges, Reversed(steps), cursor, to)
        invariant forall i :: 0 <= i < |steps| ==> steps[i].from in dist && dist[steps[i].from] == dist[to] - 1 - i
        decreases dist[cursor]
      {
        var edge := visited[cursor];
        cursor := edge.from;
        ReversedPush(steps, edge);
        assert ([edge] + Reversed(steps))[1..] == Reversed(steps);
        steps := steps + [edge];
      }
      path := Reversed(steps);
      forall i | 0 <= i < |path| ensures path[i].from in dist && dist[path[i].from] == i {
        ReversedAt(steps, i);
      }
    }

    method FindPath(c: FormatKind, from: Version, to: Version) returns (r: Result<seq<Edge>, MigrateError>)
      ensures r.Success? ==> Shortest(Snapshot().Graph(c), r.value, from, to) && Simple(r.value, to)
      ensures r.Failure? ==> r.error == MissingHandler(c, from, to) && !Connected(Snapshot().Graph(c), from, to)
    {
      var edges := ComponentEdges(c);
      var adjacency := Adjacency(edges);
      var visited: map<Version, Edge> := map[];
      var queue: seq<Version> := [from];
      ghost var processed: set<Version>, dist: map<Version, nat> := {}, map[from := 0];
      while queue != []
        invariant Searching(edges, from, visited, queue, processed, dist)
        invariant to !in processed
        decreases Endpoints(edges, from) - processed
      {
        var version := queue[0];
        if version == to {
          forall p | Chain(edges, p, from, to) ensures dist[to] <= |p| {
            HeadIsNearest(edges, from, visited, queue, processed, dist, p);
          }
          break;
        }
        var outgoing := if version in adjacency then adjacency[version] else [];
        ghost var before := processed;
        assert version in dist;
        DiscoveredAreEndpoints(edges, from, visited, dist);
        visited, queue, dist := Expand(edges, from, outgoing, visited, queue, processed, dist);
        processed := processed + {version};
        assert Endpoints(edges, from) - processed < Endpoints(edges, from) - before by {
          assert version in Endpoints(edges, from) - before;
        }
      }
      if to !in visited && from != to {
        forall p | Chain(edges, p, from, to) ensures false {
          ClosedContains(edges, processed, dist, p, from, to);
        }
        return Failure(MissingHandler(c, from, to));
      }
      var path := Rebuild(edges, from, to, visited, dist);
      r := Success(path);
    }

    method Plan(c: FormatKind, from: Version, to: Version) returns (r: Result<seq<Edge>, MigrateError>)
      ensures Snapshot().Plans(c, from, to, r)
    {
      if from == to { return Success([]); }
      var bad := CheckVersion(c, from);
      if bad.Some? { return Failure(bad.value); }
      bad := CheckVersion(c, to);
      if bad.Some? { return Failure(bad.value); }
      r := FindPath(c, from, to);
    }

    method ValidatePath(c: FormatKind, from: Version, to: Version) returns (r: Result<nat, MigrateError>)
      ensures exists plan :: Snapshot().Plans(c, from, to, plan) &&
                             r == match plan case Success(p) => Success(|p|) case Failure(e) => Failure(e)
    {
      var plan := Plan(c, from, to);
      r := match plan case Success(p) => Success(|p|) case Failure(e) => Failure(e);
    }

    /** `steps` counts the handler calls that succeeded. */
    method Migrate(c: FormatKind, from: Version, to: Version, binary: Bytes, options: OptionProvider)
      returns (r: Result<Bytes, MigrateError>, ghost steps: nat)
      ensures Snapshot().Migrates(c, from, to, binary, options, r)
      ensures r.Success? ==> exists path :: Snapshot().Plans(c, from, to, Success(path)) && steps == |path|
    {
      var plan := Plan(c, from, to);
      steps := 0;
      if plan.Failure? { return Failure(plan.error), 0; }
      var path := plan.value;
      var current := binary;
      for i := 0 to |path|
        invariant steps == i
        invariant RunPrefix(c, path, i, options, binary) == Success(current)
      {
        var result := RunStep(c, path[i], i, options, current);
        if result.Failure? {
          FailureStays(c, path, i + 1, options, binary);
          return result, steps;
        }
        current := result.value;
        steps := steps + 1;
      }
      r := Success(current);
    }

    method UpgradeToCurrent(c: FormatKind, from: Version, binary: Bytes, options: OptionProvider)
      returns (r: Result<Bytes, MigrateError>)
      ensures c !in currentVersions ==> r == Failure(UnsupportedVersion(c, from, VersionRange(0, 0)))
      ensures c in currentVersions ==> Snapshot().Migrates(c, from, currentVersions[c], binary, options, r)
    {
      if c !in currentVersions { return Failure(UnsupportedVersion(c, from, VersionRange(0, 0))); }
      ghost var steps;
      r, steps := Migrate(c, from, currentVersions[c], binary, options);
    }

    method RollbackFromCurrent(c: FormatKind, to: Version, binary: Bytes, options: OptionProvider)
      returns (r: Result<Bytes, MigrateError>)
      ensures c !in currentVersions ==> r == Failure(UnsupportedVersion(c, to, VersionRange(0, 0)))
      ensures c in currentVersions ==> Snapshot().Migrates(c, currentVersions[c], to, binary, options, r)
    {
      if c !in currentVersions { return Failure(UnsupportedVersion(c, to, VersionRange(0, 0))); }
      ghost var steps;
      r, steps := Migrate(c, currentVersions[c], to, binary, options);
    }
  }

  /** Planning back and forth between two versions agrees on success and on the number of steps. */
  lemma PlanSymmetric(cfg: Config, c: FormatKind, a: Version, b: Version,
                      there: Result<seq<Edge>, MigrateError>, back: Result<seq<Edge>, MigrateError>)
    requires cfg.Plans(c, a, b, there) && cfg.Plans(c, b, a, back)
    ensures there.Success? <==> back.Success?
    ensures there.Success? ==> |there.value| == |back.value|
  {
    if Connected(cfg.Graph(c), a, b) { ConnectedBack(cfg.Handlers(c), cfg.Window(c), a, b); }
    if Connected(cfg.Graph(c), b, a) { ConnectedBack(cfg.Handlers(c), cfg.Window(c), b, a); }
    if there.Success? && back.Success? && a != b {
      BackNoLonger(cfg.Handlers(c), cfg.Window(c), there.value, back.value, a, b);
      BackNoLonger(cfg.Handlers(c), cfg.Window(c), back.value, there.value, b, a);
    }
  }

  /**
   All plans between the same versions have one length, so `migrate` takes as many steps as `validate_path`
   reports.
   */
  lemma PlanLengthUnique(cfg: Config, c: FormatKind, a: Version, b: Version,
                         p: Result<seq<Edge>, MigrateError>, q: Result<seq<Edge>, MigrateError>)
    requires cfg.Plans(c, a, b, p) && cfg.Plans(c, a, b, q)
    ensures p.Success? <==> q.Success?
    ensures if p.Success? then |p.value| == |q.value| else p == q
  {
    if p.Success? && a != b {
      assert Connected(cfg.Graph(c), a, b) by { assert Chain(cfg.Graph(c), p.value, a, b); }
    }
    if q.Success? && a != b {
      assert Connected(cfg.Graph(c), a, b) by { assert Chain(cfg.Graph(c), q.value, a, b); }
    }
  }

  /** More handlers and a wider window keep every plan possible and lengthen none. */
  lemma PlanMonotone(cfg: Config, wider: Config, c: FormatKind, a: Version, b: Version,
                     p: Result<seq<Edge>, MigrateError>, q: Result<seq<Edge>, MigrateError>)
    requires forall h :: h in cfg.Handlers(c) ==> h in wider.Handlers(c)
    requires wider.Window(c).min <= cfg.Window(c).min && cfg.Window(c).max <= wider.Window(c).max
    requires cfg.Plans(c, a, b, p) && wider.Plans(c, a, b, q) && p.Success?
    ensures q.Success? && |q.value| <= |p.value|
  {
    DistanceMonotone(cfg.Handlers(c), cfg.Window(c), wider.Handlers(c), wider.Window(c), a, b);
    if a != b {
      assert Connected(cfg.Graph(c), a, b) by { assert Chain(cfg.Graph(c), p.value, a, b); }
    }
  }

  /** The path is a shortest one, and each step is a registered handler's move between two versions. */
  ghost predicate Route(cfg: Config, c: FormatKind, path: seq<Edge>, from: Version, to: Version) {
    && Shortest(cfg.Graph(c), path, from, to)
    && forall i :: 0 <= i < |path| ==> Moves(cfg.Handlers(c), path, from, i)
  }

  lemma ShortestIsRoute(cfg: Config, c: FormatKind, path: seq<Edge>, from: Version, to: Version)
    requires Shortest(cfg.Graph(c), path, from, to)
    ensures Route(cfg, c, path, from, to)
  {
    forall i | 0 <= i < |path| ensures Moves(cfg.Handlers(c), path, from, i) {
      ChainMoves(cfg.Handlers(c), cfg.Window(c), path, from, to, i);
    }
  }

  /**
   A migration between equal versions returns its input. Otherwise it is refused for the first version
   outside the window, or for want of a route, and else is the outcome of the handler calls along a
   shortest route.
   */
  lemma MigrateExact(cfg: Config, c: FormatKind, from: Version, to: Version, input: Bytes, options: OptionProvider,
                     r: Result<Bytes, MigrateError>)
    requires cfg.Migrates(c, from, to, input, options, r)
    ensures var lo := if c in cfg.min then cfg.min[c] else 1;
            var hi := if c in cfg.current then cfg.current[c] else lo;
            if from == to then r == Success(input)
            else if from < lo || hi < from then r == Failure(UnsupportedVersion(c, from, VersionRange(lo, hi)))
            else if to < lo || hi < to then r == Failure(UnsupportedVersion(c, to, VersionRange(lo, hi)))
            else if !Connected(cfg.Graph(c), from, to) then r == Failure(MissingHandler(c, from, to))
            else exists path :: Route(cfg, c, path, from, to) && Outcome(c, path, from, options, input, r)
  {
    var plan :| cfg.Plans(c, from, to, plan) &&
                r == match plan case Success(path) => Run(c, path, options, input) case Failure(e) => Failure(e);
    if from != to && plan.Success? {
      ShortestIsRoute(cfg, c, plan.value, from, to);
      RunExact(cfg.Graph(c), to, c, plan.value, from, options, input, r);
    }
  }

  /** If every registered handler keeps the meaning of a payload, so does every successful migration. */
  lemma MigratePreservesMeaning<M(!new)>(cfg: Config, c: FormatKind, meaning: (Version, Bytes) -> M,
                                         from: Version, to: Version,
                                         input: Bytes, options: OptionProvider, output: Bytes)
    requires forall h :: h in cfg.Handlers(c) ==> HandlerPreserves(h, meaning)
    requires cfg.Migrates(c, from, to, input, options, Success(output))
    ensures meaning(to, output) == meaning(from, input)
  {
    var plan :| cfg.Plans(c, from, to, plan) &&
                Success(output)
                == match plan case Success(path) => Run(c, path, options, input) case Failure(e) => Failure(e);
    RunPreservesMeaning(cfg.Handlers(c), cfg.Window(c), meaning, c, plan.value, from, to, options, input);
  }

  /** With one representation per version, upgrading and then rolling back returns the original bytes. */
  lemma UpgradeThenRollback<M(!new)>(cfg: Config, c: FormatKind, meaning: (Version, Bytes) -> M, v: Version,
                                     original: Bytes, up: OptionProvider, upgraded: Bytes,
                                     down: OptionProvider, restored: Bytes)
    requires c in cfg.current
    requires forall h :: h in cfg.Handlers(c) ==> HandlerPreserves(h, meaning)
    requires forall x, y :: meaning(v, x) == meaning(v, y) ==> x == y
    requires cfg.Migrates(c, v, cfg.current[c], original, up, Success(upgraded))
    requires cfg.Migrates(c, cfg.current[c], v, upgraded, down, Success(restored))
    ensures restored == original
  {
    MigratePreservesMeaning(cfg, c, meaning, v, cfg.current[c], original, up, upgraded);
    MigratePreservesMeaning(cfg, c, meaning, cfg.current[c], v, upgraded, down, restored);
  }
}
