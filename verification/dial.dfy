/** The bounded-weight shortest-path engine: Dial's algorithm, a Dijkstra search
    whose priority queue is a ring of BUCKETS FIFO queues indexed by distance
    modulo BUCKETS, with lazy deletion through the `used` flags. */
module Dial {
  import opened Grid
  import opened Paths

  /** Queues in the ring: one per residue of a distance modulo MAX_EDGE_WEIGHT + 1. */
  const BUCKETS: nat := MAX_EDGE_WEIGHT + 1

  /** Parent of a cell not reached yet. */
  const NULL_PARENT: int := -1

  /** The graphs the engine accepts: every listed neighbour is a vertex whose
      weight lies in [1, MAX_EDGE_WEIGHT]. */
  predicate ValidGraph(graph: seq<seq<int>>, weight: seq<int>) {
    && |graph| == |weight| && ValidWeights(weight)
    && forall u, k :: 0 <= u < |graph| && 0 <= k < |graph[u]| ==>
         0 <= graph[u][k] < |weight| && weight[graph[u][k]] >= 1
  }

  /** `d` is below `e`, with Infinity above every number. */
  predicate Below(d: int, e: Distance) {
    e.Infinity? || d < e.value
  }

  /** The state `main` leaves for the engine (its lines seeding the start cell):
      every cell unreached and unused except `start`, at distance 0 and its own
      parent, which is the only queued entry, in queue 0. */
  predicate Seeded(start: int, distance: seq<Distance>, parent: seq<int>, used: seq<bool>, levels: seq<seq<int>>) {
    && |distance| == |parent| == |used| && |levels| == BUCKETS && 0 <= start < |distance|
    && (forall v :: 0 <= v < |distance| ==>
          && distance[v] == (if v == start then Finite(0) else Infinity)
          && parent[v] == (if v == start then start else NULL_PARENT)
          && !used[v])
    && levels[0] == [start]
    && forall b :: 1 <= b < |levels| ==> levels[b] == []
  }

  /** A snapshot of the engine's variables. */
  datatype State = State(distance: seq<Distance>, parent: seq<int>, used: seq<bool>,
                         levels: seq<seq<int>>, level: nat, active: int)

  /** The one distance queue `b` holds entries for while the search is at
      `level`: the first distance at or after `level` whose residue is `b`. */
  function Served(level: int, b: int): int {
    level + (b - level) % BUCKETS
  }

  /** The number of entries across all queues. */
  function Total(levels: seq<seq<int>>): nat {
    if |levels| == 0 then 0 else Total(levels[..|levels| - 1]) + |levels[|levels| - 1]|
  }

  /** The number of cells not yet expanded. */
  function CountUnused(used: seq<bool>): nat {
    if |used| == 0 then 0 else CountUnused(used[..|used| - 1]) + (if used[|used| - 1] then 0 else 1)
  }

  predicate Sized(n: int, st: State) {
    |st.distance| == n && |st.parent| == n && |st.used| == n && |st.levels| == BUCKETS
  }

  /** The live-entry counter counts the queued entries. */
  predicate Counted(st: State) {
    st.active == Total(st.levels)
  }

  /** Every queued entry names a reached cell whose distance is at most the
      distance its queue serves. */
  predicate EntriesBounded(st: State) {
    forall b, k :: 0 <= b < |st.levels| && 0 <= k < |st.levels[b]| ==>
      && 0 <= st.levels[b][k] < |st.distance|
      && st.distance[st.levels[b][k]].Finite?
      && st.distance[st.levels[b][k]].value <= Served(st.level, b)
  }

  /** Every reached cell not yet expanded lies within BUCKETS of the current
      level and is queued under the residue of its distance. */
  predicate PendingQueued(st: State)
    requires Sized(|st.distance|, st)
  {
    forall v :: 0 <= v < |st.distance| && !st.used[v] && st.distance[v].Finite? ==>
      && st.level <= st.distance[v].value < st.level + BUCKETS
      && v in st.levels[st.distance[v].value % BUCKETS]
  }

  /** Every expanded cell is reached, at a distance no larger than the level. */
  predicate UsedSettled(st: State)
    requires Sized(|st.distance|, st)
  {
    forall v :: 0 <= v < |st.distance| && st.used[v] ==>
      st.distance[v].Finite? && st.distance[v].value <= st.level
  }

  /** The edge u -> c cannot improve the distance of c. */
  predicate EdgeRelaxed(weight: seq<int>, distance: seq<Distance>, u: int, c: int)
    requires |weight| == |distance| && 0 <= u < |distance| && 0 <= c < |distance|
  {
    distance[u].Finite? ==> distance[c].Finite? && distance[c].value <= distance[u].value + weight[c]
  }

  /** Every edge out of an expanded cell is relaxed, except the edges of
      `current` from position `done` on, which are still being scanned. */
  predicate Relaxed(graph: seq<seq<int>>, weight: seq<int>, st: State, current: int, done: int)
    requires ValidGraph(graph, weight) && Sized(|graph|, st)
  {
    forall u, k :: 0 <= u < |graph| && st.used[u] && 0 <= k < |graph[u]| && (u != current || k < done) ==>
      EdgeRelaxed(weight, st.distance, u, graph[u][k])
  }

  /** The parent of a reached cell v other than the start is an expanded cell
      listing v as a neighbour, and v's distance is its parent's plus v's weight;
      the parent is NULL_PARENT exactly when v is unreached. */
  predicate ParentLink(graph: seq<seq<int>>, weight: seq<int>, distance: seq<Distance>, parent: seq<int>,
                       used: seq<bool>, v: int)
    requires ValidGraph(graph, weight) && |distance| == |parent| == |used| == |graph| && 0 <= v < |graph|
  {
    && (parent[v] == NULL_PARENT <==> distance[v].Infinity?)
    && (distance[v].Finite? ==>
          && 0 <= parent[v] < |graph| && used[parent[v]] && v in graph[parent[v]]
          && distance[parent[v]].Finite? && distance[v].value == distance[parent[v]].value + weight[v])
  }

  /** The parent pointers form a shortest-path tree rooted at the start, whose
      distance is 0 and which is its own parent. */
  predicate ParentTree(graph: seq<seq<int>>, weight: seq<int>, start: int, distance: seq<Distance>,
                       parent: seq<int>, used: seq<bool>)
    requires ValidGraph(graph, weight) && |distance| == |parent| == |used| == |graph|
  {
    && 0 <= start < |graph| && distance[start] == Finite(0) && parent[start] == start
    && forall v :: 0 <= v < |graph| && v != start ==> ParentLink(graph, weight, distance, parent, used, v)
  }

  /** `current` is -1 between expansions, else the cell being expanded. */
  predicate Expanding(graph: seq<seq<int>>, st: State, current: int, done: int)
    requires Sized(|graph|, st)
  {
    if current == -1 then done == 0
    else
      && 0 <= current < |graph| && 0 <= done <= |graph[current]|
      && st.used[current] && st.distance[current] == Finite(st.level)
  }

  /** The loop invariant of the engine. */
  predicate Inv(graph: seq<seq<int>>, weight: seq<int>, start: int, st: State, current: int, done: int) {
    && ValidGraph(graph, weight) && Sized(|graph|, st)
    && Counted(st) && EntriesBounded(st) && PendingQueued(st) && UsedSettled(st)
    && Relaxed(graph, weight, st, current, done)
    && ParentTree(graph, weight, start, st.distance, st.parent, st.used)
    && Expanding(graph, st, current, done)
  }

  // ---------------------------------------------------------------------------
  // Arithmetic of the ring and the counters

  lemma ServedFacts(level: int, b: int)
    requires 0 <= b < BUCKETS
    ensures level <= Served(level, b) < level + BUCKETS
    ensures Served(level, b) % BUCKETS == b
    ensures b == level % BUCKETS ==> Served(level, b) == level
    ensures b != level % BUCKETS ==> Served(level + 1, b) == Served(level, b)
    ensures b != level % BUCKETS ==> (b - (level + 1)) % BUCKETS < (b - level) % BUCKETS
  {
  }

  lemma ServedOf(level: int, d: int)
    requires level <= d < level + BUCKETS
    ensures Served(level, d % BUCKETS) == d
  {
  }

  lemma {:induction false} TotalUpdate(levels: seq<seq<int>>, b: int, q: seq<int>)
    requires 0 <= b < |levels|
    ensures Total(levels[b := q]) == Total(levels) - |levels[b]| + |q|
    decreases |levels|
  {
    var last := |levels| - 1;
    if b < last {
      TotalUpdate(levels[..last], b, q);
      assert levels[b := q][..last] == levels[..last][b := q];
    } else {
      assert levels[b := q][..last] == levels[..last];
    }
  }

  lemma {:induction false} TotalZero(levels: seq<seq<int>>)
    ensures Total(levels) == 0 <==> forall b :: 0 <= b < |levels| ==> levels[b] == []
    decreases |levels|
  {
    if |levels| > 0 {
      var init := levels[..|levels| - 1];
      TotalZero(init);
      assert forall b :: 0 <= b < |init| ==> init[b] == levels[b];
    }
  }

  /** A positive count has a nonempty queue behind it. */
  lemma NonEmptyBucket(levels: seq<seq<int>>) returns (b: int)
    requires Total(levels) > 0
    ensures 0 <= b < |levels| && levels[b] != []
  {
    TotalZero(levels);
    b :| 0 <= b < |levels| && levels[b] != [];
  }

  lemma {:induction false} CountUnusedMark(used: seq<bool>, v: int)
    requires 0 <= v < |used| && !used[v]
    ensures CountUnused(used[v := true]) == CountUnused(used) - 1
    decreases |used|
  {
    var last := |used| - 1;
    if v < last {
      CountUnusedMark(used[..last], v);
      assert used[v := true][..last] == used[..last][v := true];
    } else {
      assert used[v := true][..last] == used[..last];
    }
  }

  // ---------------------------------------------------------------------------
  // The invariant across the steps of the engine

  lemma InitialInvariant(graph: seq<seq<int>>, weight: seq<int>, start: int, st: State)
    requires ValidGraph(graph, weight) && |st.distance| == |graph|
    requires Seeded(start, st.distance, st.parent, st.used, st.levels) && st.level == 0 && st.active == 1
    ensures Inv(graph, weight, start, st, -1, 0)
  {
    TotalUpdate(st.levels, 0, []);
    TotalZero(st.levels[0 := []]);
    assert st.levels[0 := []] == seq(BUCKETS, b => []);
  }

  /** The queue of the current level is empty: the level moves on. */
  lemma AdvanceLevel(graph: seq<seq<int>>, weight: seq<int>, start: int, st: State)
    requires Inv(graph, weight, start, st, -1, 0) && st.levels[st.level % BUCKETS] == []
    ensures Inv(graph, weight, start, st.(level := st.level + 1), -1, 0)
  {
    var st' := st.(level := st.level + 1);
    forall b, k | 0 <= b < |st.levels| && 0 <= k < |st.levels[b]|
      ensures st.distance[st.levels[b][k]].value <= Served(st'.level, b)
    {
      ServedFacts(st.level, b);
    }
    forall v | 0 <= v < |st.distance| && !st.used[v] && st.distance[v].Finite?
      ensures st.distance[v].value != st.level
    {
      assert v in st.levels[st.distance[v].value % BUCKETS];
    }
  }

  /** The front entry of the current queue. */
  function Front(st: State): int
    requires |st.levels| == BUCKETS && st.levels[st.level % BUCKETS] != []
  {
    st.levels[st.level % BUCKETS][0]
  }

  /** The state after popping the front entry of the current queue. */
  function Popped(st: State): State
    requires |st.levels| == BUCKETS && st.levels[st.level % BUCKETS] != []
  {
    var b := st.level % BUCKETS;
    st.(levels := st.levels[b := st.levels[b][1..]], active := st.active - 1)
  }

  lemma PopKeeps(graph: seq<seq<int>>, weight: seq<int>, start: int, st: State)
    requires Inv(graph, weight, start, st, -1, 0) && st.levels[st.level % BUCKETS] != []
    ensures 0 <= Front(st) < |graph|
    ensures Counted(Popped(st)) && EntriesBounded(Popped(st))
    ensures forall v :: 0 <= v < |graph| && v != Front(st) && !st.used[v] && st.distance[v].Finite? ==>
      v in Popped(st).levels[st.distance[v].value % BUCKETS]
  {
    var b := st.level % BUCKETS;
    var q := st.levels[b];
    TotalUpdate(st.levels, b, q[1..]);
    forall v | 0 <= v < |graph| && v != Front(st) && !st.used[v] && st.distance[v].Finite?
      ensures v in Popped(st).levels[st.distance[v].value % BUCKETS]
    {
      if st.distance[v].value % BUCKETS == b {
        assert v in q;
        assert q == [q[0]] + q[1..];
      }
    }
  }

  /** The popped entry names a cell already expanded: it is discarded. */
  lemma Discard(graph: seq<seq<int>>, weight: seq<int>, start: int, st: State)
    requires Inv(graph, weight, start, st, -1, 0) && st.levels[st.level % BUCKETS] != []
    requires st.used[Front(st)]
    ensures Inv(graph, weight, start, Popped(st), -1, 0)
  {
    PopKeeps(graph, weight, start, st);
  }

  /** The popped entry names a cell not expanded yet: its distance is the
      current level, and it becomes the cell being expanded. */
  lemma Expand(graph: seq<seq<int>>, weight: seq<int>, start: int, st: State)
    requires Inv(graph, weight, start, st, -1, 0) && st.levels[st.level % BUCKETS] != []
    requires !st.used[Front(st)]
    ensures st.distance[Front(st)] == Finite(st.level)
    ensures Inv(graph, weight, start, Popped(st).(used := st.used[Front(st) := true]), Front(st), 0)
  {
    PopKeeps(graph, weight, start, st);
    var v := Front(st);
    var st' := Popped(st).(used := st.used[v := true]);
    ServedFacts(st.level, st.level % BUCKETS);
    assert st.levels[st.level % BUCKETS][0] == v;
    assert st.distance[v] == Finite(st.level);
    forall w | 0 <= w < |graph| && w != start
      ensures ParentLink(graph, weight, st'.distance, st'.parent, st'.used, w)
    {
      assert ParentLink(graph, weight, st.distance, st.parent, st.used, w);
    }
    assert ParentTree(graph, weight, start, st'.distance, st'.parent, st'.used);
    forall u, k | 0 <= u < |graph| && st'.used[u] && 0 <= k < |graph[u]| && (u != v || k < 0)
      ensures EdgeRelaxed(weight, st'.distance, u, graph[u][k])
    {
      assert st.used[u];
    }
    assert Relaxed(graph, weight, st', v, 0);
    assert PendingQueued(st');
  }

  /** The state after relaxing the edge `current` -> `child`. */
  function Relax(st: State, current: int, child: int, d: nat): State
    requires |st.levels| == BUCKETS && 0 <= child < |st.distance| && child < |st.parent|
  {
    st.(distance := st.distance[child := Finite(d)],
        parent := st.parent[child := current],
        levels := st.levels[d % BUCKETS := st.levels[d % BUCKETS] + [child]],
        active := st.active + 1)
  }

  /** The edge `current` -> `child` improves the distance of `child`. */
  predicate Improves(graph: seq<seq<int>>, weight: seq<int>, start: int, st: State, current: int, k: int)
  {
    && Inv(graph, weight, start, st, current, k) && current != -1 && k < |graph[current]|
    && Below(st.distance[current].value + weight[graph[current][k]], st.distance[graph[current][k]])
  }

  /** An improvable target is neither expanded nor the start. */
  lemma ImprovedTarget(graph: seq<seq<int>>, weight: seq<int>, start: int, st: State, current: int, k: int)
    requires Improves(graph, weight, start, st, current, k)
    ensures var child := graph[current][k];
      !st.used[child] && child != start && child in graph[current]
  {
    var child := graph[current][k];
    assert ParentTree(graph, weight, start, st.distance, st.parent, st.used);
  }

  lemma RelaxKeepsQueues(graph: seq<seq<int>>, weight: seq<int>, start: int, st: State, current: int, k: int)
    requires Improves(graph, weight, start, st, current, k)
    ensures var child := graph[current][k];
      var st' := Relax(st, current, child, st.distance[current].value + weight[child]);
      Sized(|graph|, st') && Counted(st') && EntriesBounded(st') && PendingQueued(st') && UsedSettled(st')
  {
    var child := graph[current][k];
    var d := st.distance[current].value + weight[child];
    ImprovedTarget(graph, weight, start, st, current, k);
    ServedOf(st.level, d);
    TotalUpdate(st.levels, d % BUCKETS, st.levels[d % BUCKETS] + [child]);
  }

  lemma RelaxKeepsTree(graph: seq<seq<int>>, weight: seq<int>, start: int, st: State, current: int, k: int)
    requires Improves(graph, weight, start, st, current, k)
    ensures var child := graph[current][k];
      var st' := Relax(st, current, child, st.distance[current].value + weight[child]);
      ParentTree(graph, weight, start, st'.distance, st'.parent, st'.used)
  {
    var child := graph[current][k];
    var st' := Relax(st, current, child, st.distance[current].value + weight[child]);
    ImprovedTarget(graph, weight, start, st, current, k);
    forall v | 0 <= v < |graph| && v != start
      ensures ParentLink(graph, weight, st'.distance, st'.parent, st'.used, v)
    {
      assert ParentLink(graph, weight, st.distance, st.parent, st.used, v);
    }
  }

  lemma RelaxKeepsRelaxed(graph: seq<seq<int>>, weight: seq<int>, start: int, st: State, current: int, k: int)
    requires Improves(graph, weight, start, st, current, k)
    ensures var child := graph[current][k];
      var st' := Relax(st, current, child, st.distance[current].value + weight[child]);
      Relaxed(graph, weight, st', current, k + 1)
  {
    var child := graph[current][k];
    var st' := Relax(st, current, child, st.distance[current].value + weight[child]);
    forall u, j | 0 <= u < |graph| && st'.used[u] && 0 <= j < |graph[u]| && (u != current || j < k + 1)
      ensures EdgeRelaxed(weight, st'.distance, u, graph[u][j])
    {
      if u != current || j < k {
        assert EdgeRelaxed(weight, st.distance, u, graph[u][j]);
      }
    }
  }

  /** Relaxing an edge that improves the distance of its target. */
  lemma RelaxStep(graph: seq<seq<int>>, weight: seq<int>, start: int, st: State, current: int, k: int,
                  child: int, d: nat)
    requires Improves(graph, weight, start, st, current, k)
    requires child == graph[current][k] && d == st.distance[current].value + weight[child]
    ensures Inv(graph, weight, start, Relax(st, current, child, d), current, k + 1)
  {
    RelaxKeepsQueues(graph, weight, start, st, current, k);
    RelaxKeepsTree(graph, weight, start, st, current, k);
    RelaxKeepsRelaxed(graph, weight, start, st, current, k);
  }

  /** Scanning an edge that does not improve the distance of its target. */
  lemma NoRelax(graph: seq<seq<int>>, weight: seq<int>, start: int, st: State, current: int, k: int)
    requires Inv(graph, weight, start, st, current, k) && current != -1 && k < |graph[current]|
    requires !Below(st.distance[current].value + weight[graph[current][k]], st.distance[graph[current][k]])
    ensures Inv(graph, weight, start, st, current, k + 1)
  {
  }

  /** All edges of the cell being expanded are scanned. */
  lemma FinishExpansion(graph: seq<seq<int>>, weight: seq<int>, start: int, st: State, current: int)
    requires 0 <= current < |graph| && Inv(graph, weight, start, st, current, |graph[current]|)
    ensures Inv(graph, weight, start, st, -1, 0)
  {
  }

  /** The state after scanning the k-th edge of `current`: relaxed when it
      improves its target, unchanged otherwise. */
  function ScanStep(graph: seq<seq<int>>, weight: seq<int>, s: State, current: int, k: int): State
    requires ValidGraph(graph, weight) && Sized(|graph|, s)
    requires 0 <= current < |graph| && 0 <= k < |graph[current]|
  {
    var child := graph[current][k];
    if s.distance[current].Finite? && Below(s.distance[current].value + weight[child], s.distance[child])
    then Relax(s, current, child, s.distance[current].value + weight[child])
    else s
  }

  /** From `st` to `st'`, the flags and the level stay, and every distance either
      stays as it was, with its parent, or strictly decreases, with `current` as
      its new parent. */
  predicate Lowered(st: State, st': State, current: int)
    requires Sized(|st.distance|, st) && Sized(|st.distance|, st')
  {
    && st'.used == st.used && st'.level == st.level
    && forall v :: 0 <= v < |st.distance| ==>
         || (st'.distance[v] == st.distance[v] && st'.parent[v] == st.parent[v])
         || (st'.distance[v].Finite? && Below(st'.distance[v].value, st.distance[v]) && st'.parent[v] == current)
  }

  /** Scanning one more edge of `current` keeps the state lowered from where the
      expansion began. */
  lemma LoweredStep(graph: seq<seq<int>>, weight: seq<int>, st: State, s: State, current: int, k: int)
    requires ValidGraph(graph, weight) && Sized(|graph|, st) && Sized(|graph|, s)
    requires 0 <= current < |graph| && 0 <= k < |graph[current]| && Lowered(st, s, current)
    ensures Sized(|graph|, ScanStep(graph, weight, s, current, k))
    ensures Lowered(st, ScanStep(graph, weight, s, current, k), current)
  {
  }

  // ---------------------------------------------------------------------------
  // Optimality at termination

  /** Every edge out of a reached cell is relaxed. */
  predicate AllRelaxed(graph: seq<seq<int>>, weight: seq<int>, distance: seq<Distance>)
    requires ValidGraph(graph, weight) && |distance| == |graph|
  {
    forall u, k :: 0 <= u < |graph| && 0 <= k < |graph[u]| ==> EdgeRelaxed(weight, distance, u, graph[u][k])
  }

  /** With every edge relaxed and the start at 0, no path from the start beats
      the recorded distance of its end. */
  lemma {:induction false} NoShorterPath(graph: seq<seq<int>>, weight: seq<int>, start: int,
                                         distance: seq<Distance>, p: seq<int>)
    requires ValidGraph(graph, weight) && |distance| == |graph|
    requires 0 <= start < |graph| && distance[start] == Finite(0) && AllRelaxed(graph, weight, distance)
    requires IsPath(graph, p) && p[0] == start
    ensures distance[p[|p| - 1]].Finite? && distance[p[|p| - 1]].value <= PathCost(weight, p)
    decreases |p|
  {
    if |p| > 1 {
      var init := p[..|p| - 1];
      var u, v := p[|p| - 2], p[|p| - 1];
      NoShorterPath(graph, weight, start, distance, init);
      var k :| 0 <= k < |graph[u]| && graph[u][k] == v;
      assert EdgeRelaxed(weight, distance, u, graph[u][k]);
    }
  }

  /** The parent chain from `v` back to the start, read forwards: a path from
      the start to `v` whose cost is the distance of `v`. */
  function TreePath(graph: seq<seq<int>>, weight: seq<int>, start: int, distance: seq<Distance>,
                    parent: seq<int>, used: seq<bool>, v: int): (p: seq<int>)
    requires ValidGraph(graph, weight) && |distance| == |parent| == |used| == |graph|
    requires ParentTree(graph, weight, start, distance, parent, used)
    requires 0 <= v < |graph| && distance[v].Finite?
    ensures IsPathFrom(graph, start, v, p) && PathCost(weight, p) == distance[v].value
    decreases distance[v].value
  {
    if v == start then [start]
    else
      var u := parent[v];
      assert ParentLink(graph, weight, distance, parent, used, v);
      var k :| 0 <= k < |graph[u]| && graph[u][k] == v;
      var p := TreePath(graph, weight, start, distance, parent, used, u) + [v];
      assert p[..|p| - 1] == TreePath(graph, weight, start, distance, parent, used, u);
      p
  }

  /** When no entry is left, the recorded distances are the shortest ones, the
      expanded cells are exactly the reached ones, and every queue is empty. */
  lemma Termination(graph: seq<seq<int>>, weight: seq<int>, start: int, st: State)
    requires Inv(graph, weight, start, st, -1, 0) && st.active == 0
    ensures forall b :: 0 <= b < BUCKETS ==> st.levels[b] == []
    ensures forall v :: 0 <= v < |graph| ==> (st.used[v] <==> st.distance[v].Finite?)
    ensures forall v :: 0 <= v < |graph| ==> IsShortestDistance(graph, weight, start, v, st.distance[v])
  {
    TotalZero(st.levels);
    assert AllRelaxed(graph, weight, st.distance);
    forall v | 0 <= v < |graph|
      ensures IsShortestDistance(graph, weight, start, v, st.distance[v])
    {
      forall p | IsPathFrom(graph, start, v, p)
        ensures st.distance[v].Finite? && st.distance[v].value <= PathCost(weight, p)
      {
        NoShorterPath(graph, weight, start, st.distance, p);
      }
      if st.distance[v].Finite? {
        var p := TreePath(graph, weight, start, st.distance, st.parent, st.used, v);
      }
    }
  }

  // ---------------------------------------------------------------------------
  // The engine

  /** Moves the level forward past empty queues, up to the first level whose
      queue holds an entry; some queue holds one while entries are counted. */
  method NextLevel(graph: seq<seq<int>>, weight: seq<int>, ghost start: int, ghost st: State, levels: array<seq<int>>,
                   from: nat)
    returns (level: nat)
    requires Inv(graph, weight, start, st, -1, 0) && st.levels == levels[..] && st.level == from && st.active > 0
    ensures level >= st.level && Inv(graph, weight, start, st.(level := level), -1, 0)
    ensures levels[level % BUCKETS] != []
    ensures forall l :: st.level <= l < level ==> levels[l % BUCKETS] == []
  {
    level := from;
    ghost var nonEmpty := NonEmptyBucket(levels[..]);
    while levels[level % BUCKETS] == []
      invariant level >= st.level
      invariant forall l :: st.level <= l < level ==> levels[l % BUCKETS] == []
      invariant Inv(graph, weight, start, st.(level := level), -1, 0)
      decreases (nonEmpty - level) % BUCKETS
    {
      AdvanceLevel(graph, weight, start, st.(level := level));
      ServedFacts(level, nonEmpty);
      level := level + 1;
    }
  }

  /** Relaxes the edge `current` -> `child`: when reaching `child` through
      `current` is cheaper than its recorded distance, records the new distance
      and parent of `child`, queues it under the residue of its new distance and
      counts the new entry. */
  method RelaxEdge(distance: array<Distance>, levels: array<seq<int>>, used: array<bool>, parent: array<int>,
                   ghost st: State, current: int, child: int, childWeight: nat, active: int)
    returns (activeNodesCount: int)
    requires st == State(distance[..], parent[..], used[..], levels[..], st.level, active)
    requires levels.Length == BUCKETS && parent.Length == distance.Length
    requires 0 <= current < distance.Length && 0 <= child < distance.Length && distance[current].Finite?
    modifies distance, levels, parent
    ensures State(distance[..], parent[..], used[..], levels[..], st.level, activeNodesCount)
      == if Below(st.distance[current].value + childWeight, st.distance[child])
         then Relax(st, current, child, st.distance[current].value + childWeight) else st
  {
    activeNodesCount := active;
    if Below(distance[current].value + childWeight, distance[child]) {
      distance[child] := Finite(distance[current].value + childWeight);
      parent[child] := current;
      levels[distance[child].value % BUCKETS] := levels[distance[child].value % BUCKETS] + [child];
      activeNodesCount := activeNodesCount + 1;
    }
  }

  /** The k-th step of the expansion of `current`: relaxes its k-th edge, which
      keeps the invariant with one more edge scanned. */
  method ScanEdge(graph: seq<seq<int>>, distance: array<Distance>, levels: array<seq<int>>, used: array<bool>,
                  weight: seq<int>, parent: array<int>, ghost start: int, ghost st: State,
                  current: int, k: int, active: int)
    returns (activeNodesCount: int, ghost st': State)
    requires current != -1 && Inv(graph, weight, start, st, current, k) && k < |graph[current]|
    requires st == State(distance[..], parent[..], used[..], levels[..], st.level, active)
    modifies distance, levels, parent
    ensures st' == State(distance[..], parent[..], used[..], levels[..], st.level, activeNodesCount)
    ensures st' == ScanStep(graph, weight, st, current, k)
    ensures Inv(graph, weight, start, st', current, k + 1) && st'.used == st.used
  {
    var child := graph[current][k];
    ghost var d := st.distance[current].value + weight[child];
    ghost var improves := Below(d, st.distance[child]);
    if improves {
      RelaxStep(graph, weight, start, st, current, k, child, d);
    } else {
      NoRelax(graph, weight, start, st, current, k);
    }
    activeNodesCount := RelaxEdge(distance, levels, used, parent, st, current, child, weight[child], active);
    st' := if improves then Relax(st, current, child, d) else st;
  }

  /** Expands the cell `current`, just marked used: scans each of its edges in
      the order of its neighbour list. */
  method ExpandCell(graph: seq<seq<int>>, distance: array<Distance>, levels: array<seq<int>>, used: array<bool>,
                    weight: seq<int>, parent: array<int>, ghost start: int, ghost st: State,
                    current: int, active: int)
    returns (activeNodesCount: int, ghost st': State)
    requires current != -1 && Inv(graph, weight, start, st, current, 0)
    requires st == State(distance[..], parent[..], used[..], levels[..], st.level, active)
    modifies distance, levels, parent
    ensures st' == State(distance[..], parent[..], used[..], levels[..], st.level, activeNodesCount)
    ensures Inv(graph, weight, start, st', -1, 0) && Lowered(st, st', current)
  {
    activeNodesCount, st' := active, st;
    var k := 0;
    while k < |graph[current]|
      invariant st' == State(distance[..], parent[..], used[..], levels[..], st.level, activeNodesCount)
      invariant Inv(graph, weight, start, st', current, k) && Lowered(st, st', current)
    {
      LoweredStep(graph, weight, st, st', current, k);
      activeNodesCount, st' := ScanEdge(graph, distance, levels, used, weight, parent, start, st', current, k,
                                        activeNodesCount);
      k := k + 1;
    }
    FinishExpansion(graph, weight, start, st', current);
  }

  /** Takes the front entry off the queue the level selects and uncounts it. */
  method PopFront(distance: array<Distance>, levels: array<seq<int>>, used: array<bool>, parent: array<int>,
                  ghost st: State, level: nat, active: int)
    returns (currentNode: int, activeNodesCount: int)
    requires st == State(distance[..], parent[..], used[..], levels[..], level, active)
    requires levels.Length == BUCKETS && levels[level % BUCKETS] != []
    modifies levels
    ensures currentNode == Front(st)
    ensures State(distance[..], parent[..], used[..], levels[..], level, activeNodesCount) == Popped(st)
  {
    currentNode := levels[level % BUCKETS][0];
    levels[level % BUCKETS] := levels[level % BUCKETS][1..];
    activeNodesCount := active - 1;
  }

  /** Expands the popped cell unless it is expanded already: marks it used and
      scans its edges. */
  method Settle(graph: seq<seq<int>>, distance: array<Distance>, levels: array<seq<int>>, used: array<bool>,
                weight: seq<int>, parent: array<int>, ghost start: int, ghost st: State,
                currentNode: int, active: int)
    returns (activeNodesCount: int, ghost st': State)
    requires Inv(graph, weight, start, st, -1, 0) && st.levels[st.level % BUCKETS] != []
    requires currentNode == Front(st)
    requires Popped(st) == State(distance[..], parent[..], used[..], levels[..], st.level, active)
    modifies distance, levels, used, parent
    ensures st' == State(distance[..], parent[..], used[..], levels[..], st.level, activeNodesCount)
    ensures Inv(graph, weight, start, st', -1, 0)
    ensures if st.used[currentNode] then st' == Popped(st)
            else && st'.used == st.used[currentNode := true] && CountUnused(st'.used) < CountUnused(st.used)
                 && Lowered(Popped(st).(used := st.used[currentNode := true]), st', currentNode)
  {
    if used[currentNode] {
      Discard(graph, weight, start, st);
      return active, Popped(st);
    }
    Expand(graph, weight, start, st);
    CountUnusedMark(used[..], currentNode);
    used[currentNode] := true;
    st' := Popped(st).(used := st.used[currentNode := true]);
    activeNodesCount, st' := ExpandCell(graph, distance, levels, used, weight, parent, start, st', currentNode, active);
  }

  /** Dial's algorithm from the seeded start: repeatedly takes the front entry of
      the lowest nonempty queue (moving the level forward past empty queues),
      discards it if its cell is already expanded, and otherwise expands the
      cell, relaxing each of its edges and queueing each improved neighbour under
      the residue of its new distance. Ends when no entry is left. */
  method Bfs(graph: seq<seq<int>>, distance: array<Distance>, levels: array<seq<int>>, used: array<bool>,
             weight: seq<int>, parent: array<int>, ghost start: int)
    requires ValidGraph(graph, weight)
    requires distance.Length == |graph| && levels.Length == BUCKETS
    requires Seeded(start, distance[..], parent[..], used[..], levels[..])
    modifies distance, levels, used, parent
    ensures forall v :: 0 <= v < |graph| ==> IsShortestDistance(graph, weight, start, v, distance[v])
    ensures ParentTree(graph, weight, start, distance[..], parent[..], used[..])
    ensures forall v :: 0 <= v < |graph| ==> (used[v] <==> distance[v].Finite?)
    ensures forall b :: 0 <= b < BUCKETS ==> levels[b] == []
  {
    var level: nat, activeNodesCount := 0, 1;
    ghost var st := State(distance[..], parent[..], used[..], levels[..], level, activeNodesCount);
    InitialInvariant(graph, weight, start, st);
    while activeNodesCount > 0
      invariant st == State(distance[..], parent[..], used[..], levels[..], level, activeNodesCount)
      invariant Inv(graph, weight, start, st, -1, 0)
      decreases CountUnused(used[..]), activeNodesCount
    {
      level := NextLevel(graph, weight, start, st, levels, level);
      st := st.(level := level);
      var currentNode;
      currentNode, activeNodesCount := PopFront(distance, levels, used, parent, st, level, activeNodesCount);
      activeNodesCount, st := Settle(graph, distance, levels, used, weight, parent, start, st, currentNode, activeNodesCount);
    }
    Termination(graph, weight, start, st);
  }
}
