/**
 The breadth-first search state of `find_path`: the parent map, the FIFO queue, and the ghost
 distances that make every popped version provably closest-first.
 */
module VersionSearch {
  import opened MigrationGraph

  /** `dist` covers the start and every version with a parent; a parent is one step closer. */
  ghost predicate Tree(edges: seq<Edge>, from: Version, visited: map<Version, Edge>, dist: map<Version, nat>) {
    && dist.Keys == visited.Keys + {from}
    && from !in visited
    && dist[from] == 0
    && forall v :: v in visited ==>
      visited[v] in edges && visited[v].to == v && visited[v].from in dist && dist[v] == dist[visited[v].from] + 1
  }

  /** The queue holds each discovered, unprocessed version once. */
  ghost predicate Queued(queue: seq<Version>, processed: set<Version>, dist: map<Version, nat>) {
    && (forall v :: v in dist <==> v in processed || v in queue)
    && (forall i :: 0 <= i < |queue| ==> queue[i] !in processed)
    && (forall i, j :: 0 <= i < j < |queue| ==> queue[i] != queue[j])
  }

  /** Nearest first, and spanning two levels at most. */
  ghost predicate Levelled(queue: seq<Version>, processed: set<Version>, dist: map<Version, nat>)
    requires Queued(queue, processed, dist)
  {
    && (forall i, j :: 0 <= i < j < |queue| ==> dist[queue[i]] <= dist[queue[j]])
    && (queue != [] ==> forall v :: v in dist ==> dist[v] <= dist[queue[0]] + 1)
    && (queue != [] ==> forall v :: v in processed ==> dist[v] <= dist[queue[0]])
  }

  ghost predicate Frontier(queue: seq<Version>, processed: set<Version>, dist: map<Version, nat>) {
    Queued(queue, processed, dist) && Levelled(queue, processed, dist)
  }

  ghost predicate Relaxed(e: Edge, dist: map<Version, nat>) {
    e.from in dist && e.to in dist && dist[e.to] <= dist[e.from] + 1
  }

  /** Every edge that leaves a processed version has been followed. */
  ghost predicate Closed(edges: seq<Edge>, processed: set<Version>, dist: map<Version, nat>) {
    forall e :: e in edges && e.from in processed ==> Relaxed(e, dist)
  }

  ghost predicate Searching(edges: seq<Edge>, from: Version, visited: map<Version, Edge>, queue: seq<Version>,
                            processed: set<Version>, dist: map<Version, nat>) {
    Tree(edges, from, visited, dist) && Frontier(queue, processed, dist) && Closed(edges, processed, dist)
  }

  ghost function Endpoints(edges: seq<Edge>, from: Version): set<Version> {
    {from} + set i | 0 <= i < |edges| :: edges[i].to
  }

  lemma DiscoveredAreEndpoints(edges: seq<Edge>, from: Version, visited: map<Version, Edge>,
                               dist: map<Version, nat>)
    requires Tree(edges, from, visited, dist)
    ensures dist.Keys <= Endpoints(edges, from)
  {
    forall v | v in visited ensures v in Endpoints(edges, from) {
      var i :| 0 <= i < |edges| && edges[i] == visited[v];
      assert edges[i].to == v;
    }
  }

  lemma QueueGrows(queue: seq<Version>, processed: set<Version>, dist: map<Version, nat>, v: Version, d: nat)
    requires Queued(queue, processed, dist) && v !in dist
    ensures Queued(queue + [v], processed, dist[v := d])
  {
    assert forall x :: x in queue + [v] <==> x in queue || x == v;
    assert forall i :: 0 <= i < |queue| ==> queue[i] in queue && (queue + [v])[i] == queue[i];
  }

  lemma FrontierGrows(queue: seq<Version>, processed: set<Version>, dist: map<Version, nat>, v: Version, d: nat)
    requires Frontier(queue, processed, dist) && queue != []
             && queue[0] in dist && v !in dist && d == dist[queue[0]] + 1
    ensures Frontier(queue + [v], processed, dist[v := d])
  {
    QueueGrows(queue, processed, dist, v, d);
    var queue', dist' := queue + [v], dist[v := d];
    assert forall i :: 0 <= i < |queue| ==>
           queue[i] in queue && queue'[i] == queue[i] && dist'[queue[i]] == dist[queue[i]];
  }

  lemma TreeGrows(edges: seq<Edge>, from: Version, visited: map<Version, Edge>, dist: map<Version, nat>,
                  e: Edge, d: nat)
    requires Tree(edges, from, visited, dist) && e in edges && e.from in dist && e.to !in dist && d == dist[e.from] + 1
    ensures Tree(edges, from, visited[e.to := e], dist[e.to := d])
  {
  }

  lemma RelaxedKept(edges: seq<Edge>, processed: set<Version>, dist: map<Version, nat>, v: Version, d: nat)
    requires v !in dist
    ensures forall f :: Relaxed(f, dist) ==> Relaxed(f, dist[v := d])
    ensures Closed(edges, processed, dist) ==> Closed(edges, processed, dist[v := d])
  {
  }

  lemma Undiscovered(edges: seq<Edge>, from: Version, visited: map<Version, Edge>, dist: map<Version,
                     nat>, v: Version)
    requires Tree(edges, from, visited, dist) && v !in visited && v != from
    ensures v !in dist
  {
  }

  /** Following a new edge out of the queue's head appends its target one level deeper. */
  lemma Discover(edges: seq<Edge>, from: Version, visited: map<Version, Edge>, queue: seq<Version>,
                 processed: set<Version>, dist: map<Version, nat>, e: Edge, d: nat)
    requires Searching(edges, from, visited, queue, processed, dist)
    requires queue != [] && queue[0] in dist && e in edges && e.from == queue[0] && e.to !in visited && e.to != from
    requires d == dist[e.from] + 1
    ensures Searching(edges, from, visited[e.to := e], queue + [e.to], processed, dist[e.to := d])
    ensures forall f :: Relaxed(f, dist) ==> Relaxed(f, dist[e.to := d])
  {
    Undiscovered(edges, from, visited, dist, e.to);
    TreeGrows(edges, from, visited, dist, e, d);
    FrontierGrows(queue, processed, dist, e.to, d);
    RelaxedKept(edges, processed, dist, e.to, d);
  }

  /** Any target that was already discovered is at most one level below the head. */
  lemma SeenIsRelaxed(edges: seq<Edge>, from: Version, visited: map<Version, Edge>, queue: seq<Version>,
                      processed: set<Version>, dist: map<Version, nat>, e: Edge)
    requires Searching(edges, from, visited, queue, processed, dist)
    requires queue != [] && e.from == queue[0] && (e.to in visited || e.to == from)
    ensures Relaxed(e, dist)
  {
  }

  lemma QueueShrinks(queue: seq<Version>, processed: set<Version>, dist: map<Version, nat>)
    requires Queued(queue, processed, dist) && queue != []
    ensures Queued(queue[1..], processed + {queue[0]}, dist)
  {
    var rest := queue[1..];
    assert forall v :: v in queue <==> v == queue[0] || v in rest by { assert queue == [queue[0]] + rest; }
    assert forall i :: 0 <= i < |rest| ==> rest[i] == queue[i + 1];
  }

  lemma FrontierShrinks(queue: seq<Version>, processed: set<Version>, dist: map<Version, nat>)
    requires Frontier(queue, processed, dist) && queue != []
    ensures Frontier(queue[1..], processed + {queue[0]}, dist)
  {
    QueueShrinks(queue, processed, dist);
    var rest := queue[1..];
    assert forall i :: 0 <= i < |rest| ==> rest[i] == queue[i + 1];
    if rest != [] {
      assert dist[queue[0]] <= dist[queue[1]];
    }
  }

  /** Once all edges out of the head are followed it counts as processed. */
  lemma Finish(edges: seq<Edge>, from: Version, visited: map<Version, Edge>, queue: seq<Version>,
               processed: set<Version>, dist: map<Version, nat>)
    requires Searching(edges, from, visited, queue, processed, dist)
    requires queue != [] && forall e :: e in edges && e.from == queue[0] ==> Relaxed(e, dist)
    ensures Searching(edges, from, visited, queue[1..], processed + {queue[0]}, dist)
  {
    FrontierShrinks(queue, processed, dist);
  }

  /** A chain that leaves the processed versions does so no nearer than the nearest unprocessed one. */
  lemma {:induction false} ChainLeaves(edges: seq<Edge>, processed: set<Version>, dist: map<Version, nat>, near: nat,
                                       path: seq<Edge>, a: Version, to: Version)
    requires Closed(edges, processed, dist) && a in dist
    requires forall v :: v in dist && v !in processed ==> near <= dist[v]
    requires Chain(edges, path, a, to) && to !in processed
    ensures near <= dist[a] + |path|
  {
    if a in processed {
      assert Relaxed(path[0], dist);
      ChainLeaves(edges, processed, dist, near, path[1..], path[0].to, to);
    }
  }

  /** When the target reaches the head of the queue, its distance is minimal. */
  lemma {:induction false} HeadIsNearest(edges: seq<Edge>, from: Version, visited: map<Version, Edge>,
                                         queue: seq<Version>,
                                         processed: set<Version>, dist: map<Version, nat>, path: seq<Edge>)
    requires Searching(edges, from, visited, queue, processed, dist) && queue != []
    requires Chain(edges, path, from, queue[0])
    ensures dist[queue[0]] <= |path|
  {
    ChainLeaves(edges, processed, dist, dist[queue[0]], path, from, queue[0]);
  }

  /** A closed set of versions contains everything a chain can reach from inside it. */
  lemma {:induction false} ClosedContains(edges: seq<Edge>, processed: set<Version>, dist: map<Version, nat>,
                                          path: seq<Edge>, a: Version, to: Version)
    requires Closed(edges, processed, dist) && dist.Keys == processed
    requires a in processed && Chain(edges, path, a, to)
    ensures to in processed
  {
    if path != [] {
      assert Relaxed(path[0], dist);
      ClosedContains(edges, processed, dist, path[1..], path[0].to, to);
    }
  }
}
