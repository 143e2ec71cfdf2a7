/**
 The thread pool that shares a work queue (workqueue/workqueue.c), as a step machine.

 Any number of workers run the loop of `__workqueue_loop`, any number of adders run
 `workqueue_additem`, and one thread runs `workqueue_release`.  A step is one critical
 section, or one unlocked read or write of `state`, taken as atomic.  The fields of
 `World` from `added` on are history: no guard reads them.
 */
module ThreadPool {
  import opened Options
  import opened Links
  import opened WorkQueue

  /** Where a worker is in its loop; while it runs an item, which start that was. */
  datatype Phase = Checking | Fetching | Running(start: nat, item: Item) | Sleeping | Exited

  datatype Start = Start(worker: nat, item: Item)

  datatype World = World(
    units: Units,
    closed: bool,
    released: bool,
    workers: seq<Phase>,
    adders: multiset<Item>,      // past the check of `state`, before the lock
    added: seq<Item>,            // items stored, in order
    started: seq<Start>,         // items handed to workers, in order
    finished: set<nat>,          // starts whose item has returned
    closedAt: nat,               // how many starts there were when `state` was set to closed
    discarded: seq<Item>,        // items dropped by the release
    mallocs: set<Addr>,          // nodes obtained from the system
    frees: seq<Addr>,            // nodes handed back
    peak: nat)                   // most items that were ever pending at once

  datatype Step =
    | CheckState(k: nat)
    | Fetch(k: nat)
    | Finish(k: nat)
    | Wake(k: nat)
    | AddCheck(item: Item)
    | AddLocked(item: Item, mm: Option<Addr>)
    | Close
    | Release

  function Initial(n: nat): World {
    World(Units([], [], 0), false, false, seq(n, _ => Checking), multiset{}, [], [], {}, 0, [], {}, [], 0)
  }

  predicate At(w: World, k: nat, p: Phase -> bool) {
    k < |w.workers| && p(w.workers[k])
  }

  predicate Enabled(w: World, s: Step) {
    match s
    case CheckState(k) => At(w, k, (p: Phase) => p.Checking?)
    case Fetch(k) => At(w, k, (p: Phase) => p.Fetching?)
    case Finish(k) => At(w, k, (p: Phase) => p.Running?)
    case Wake(k) => At(w, k, (p: Phase) => p.Sleeping?)
    case AddCheck(item) => !w.closed
    case AddLocked(item, mm) => item in w.adders && (mm.Some? ==> mm.value !in Nodes(w.units))
    case Close => !w.closed
    case Release =>
      w.closed && !w.released && w.adders == multiset{} &&
      forall k :: 0 <= k < |w.workers| ==> w.workers[k].Exited?
  }

  function Goto(w: World, k: nat, p: Phase): World
    requires k < |w.workers|
  {
    w.(workers := w.workers[k := p])
  }

  function Do(w: World, s: Step): World
    requires Enabled(w, s)
  {
    match s
    case CheckState(k) => Goto(w, k, if w.closed then Exited else Fetching)
    case Fetch(k) =>
      if w.units.pending == [] then Goto(w, k, Sleeping)
      else
        var item := w.units.pending[0].item;
        Goto(w, k, Running(|w.started|, item)).(
          units := Fetched(w.units), started := w.started + [Start(k, item)])
    case Finish(k) => Goto(w, k, Checking).(finished := w.finished + {w.workers[k].start})
    case Wake(k) => Goto(w, k, Checking)
    case AddCheck(item) => w.(adders := w.adders + multiset{item})
    case AddLocked(item, mm) =>
      var stored := w.units.spare != [] || mm.Some?;
      var u := Added(w.units, item, mm);
      w.(adders := w.adders - multiset{item},
         units := u,
         added := if stored then w.added + [item] else w.added,
         mallocs := if w.units.spare == [] && mm.Some? then w.mallocs + {mm.value} else w.mallocs,
         peak := if |u.pending| > w.peak then |u.pending| else w.peak)
    case Close => w.(closed := true, closedAt := |w.started|)
    case Release =>
      w.(released := true, discarded := Items(w.units.pending), frees := Nodes(w.units),
         units := Units([], [], w.units.free))
  }

  ghost predicate Next(w: World, w': World) {
    exists s :: Enabled(w, s) && w' == Do(w, s)
  }

  /** A run of a pool with `n` workers: every interleaving of any number of steps. */
  ghost predicate Run(n: nat, ws: seq<World>) {
    ws != [] && ws[0] == Initial(n) && forall i :: 0 <= i < |ws| - 1 ==> Next(ws[i], ws[i + 1])
  }

  // -------------------------------------------------------------------------
  // What every step keeps

  function StartedItems(starts: seq<Start>): (r: seq<Item>)
    ensures |r| == |starts| && forall i :: 0 <= i < |r| ==> r[i] == starts[i].item
  {
    seq(|starts|, i requires 0 <= i < |starts| => starts[i].item)
  }

  /** Items started, then items pending (or dropped), are the items added, in order. */
  ghost predicate Fifo(w: World) {
    w.added == StartedItems(w.started) + Items(w.units.pending) + w.discarded &&
    (w.released ==> w.units.pending == [] && w.units.spare == []) &&
    (!w.released ==> w.discarded == [])
  }

  /** A start is running, in the worker that made it, or has finished. */
  ghost predicate Tracked(started: seq<Start>, finished: set<nat>, workers: seq<Phase>) {
    (forall i :: i in finished ==> i < |started|) &&
    (forall i :: 0 <= i < |started| ==>
       started[i].worker < |workers| && (i in finished || workers[started[i].worker] == Running(i, started[i].item))) &&
    (forall k :: 0 <= k < |workers| && workers[k].Running? ==>
       workers[k].start < |started| && started[workers[k].start] == Start(k, workers[k].item) &&
         workers[k].start !in finished)
  }

  /**
   Since the start number `closedAt` no worker has started twice, and one that can still start has not started
   yet.
   */
  ghost predicate Closing(closedAt: nat, started: seq<Start>, workers: seq<Phase>) {
    (forall i, j :: closedAt <= i < j < |started| ==> started[i].worker != started[j].worker) &&
    (forall i :: closedAt <= i < |started| && started[i].worker < |workers| ==> !workers[started[i].worker].Fetching?)
  }

  /** Every node is in the list or the pool, once, until all are freed, once. */
  ghost predicate Owned(w: World) {
    Tally(Nodes(w.units), w.frees, w.mallocs) && (!w.released ==> w.frees == [])
  }

  ghost predicate Tally(nodes: seq<Addr>, frees: seq<Addr>, mallocs: set<Addr>) {
    Distinct(nodes + frees) && forall a :: a in mallocs <==> a in nodes || a in frees
  }

  /** `free` is never counted up, so the pool is never full: nodes stay until the release. */
  ghost predicate Bounded(w: World) {
    w.units.free == 0 && |w.units.pending| <= w.peak &&
    (!w.released ==> |w.units.pending| + |w.units.spare| == w.peak)
  }

  ghost predicate Released(w: World) {
    w.released ==>
      w.closed && w.adders == multiset{} && forall k :: 0 <= k < |w.workers| ==> w.workers[k].Exited?
  }

  /** No worker leaves its loop while the queue is open. */
  ghost predicate AtWork(w: World) {
    !w.closed ==> forall k :: 0 <= k < |w.workers| ==> !w.workers[k].Exited?
  }

  ghost predicate Inv(w: World) {
    Fifo(w) && AtWork(w) && Tracked(w.started, w.finished, w.workers) &&
    w.closedAt <= |w.started| && (w.closed ==> Closing(w.closedAt, w.started, w.workers)) &&
    Owned(w) && Bounded(w) && Released(w)
  }

  lemma InvStart(n: nat)
    ensures Inv(Initial(n))
  {
  }

  /** Handing the first pending item to a worker moves the border between started and pending. */
  lemma BorderMoves(starts: seq<Start>, pending: seq<Cell>, k: nat)
    requires pending != []
    ensures StartedItems(starts + [Start(k, pending[0].item)]) + Items(pending[1..]) ==
            StartedItems(starts) + Items(pending)
  {
    hide StartedItems, Items;
    var x := pending[0].item;
    assert StartedItems(starts + [Start(k, x)]) == StartedItems(starts) + [x];
    assert Items(pending) == [x] + Items(pending[1..]);
    assert (StartedItems(starts) + [x]) + Items(pending[1..]) == StartedItems(starts) + ([x] + Items(pending[1..]));
  }

  lemma FifoStep(w: World, s: Step)
    requires Fifo(w) && Enabled(w, s)
    requires (w.released ==> w.adders == multiset{} && forall k :: 0 <= k < |w.workers| ==> w.workers[k].Exited?)
    ensures Fifo(Do(w, s))
  {
    hide StartedItems, Items, Nodes;
    match s {
      case Fetch(k) =>
        if w.units.pending != [] {
          BorderMoves(w.started, w.units.pending, k);
        }
      case AddLocked(item, mm) =>
        if w.units.spare != [] || mm.Some? {
          assert w.discarded == [];
          AppendItem(w.units.pending, Do(w, s).units.pending, item);
          Regroup(StartedItems(w.started), Items(w.units.pending), item);
        }
      case Release =>
        Dropped(StartedItems(w.started), Items(w.units.pending));
      case _ =>
    }
  }

  lemma Regroup(a: seq<Item>, b: seq<Item>, x: Item)
    ensures a + b + [] + [x] == a + (b + [x]) + []
  {
  }

  lemma Dropped(a: seq<Item>, b: seq<Item>)
    ensures Items([]) == [] && a + b + [] == a + [] + b
  {
  }

  lemma AppendItem(cells: seq<Cell>, cells': seq<Cell>, item: Item)
    requires |cells'| == |cells| + 1 && cells'[..|cells|] == cells && cells'[|cells|].item == item
    ensures Items(cells') == Items(cells) + [item]
  {
    assert forall i :: 0 <= i < |cells| ==> cells'[i] == cells'[..|cells|][i];
  }

  /** A worker that is not running an item moves on without starting one. */
  lemma TrackedIdle(started: seq<Start>, finished: set<nat>, workers: seq<Phase>, k: nat, p: Phase)
    requires Tracked(started, finished, workers) && k < |workers| && !workers[k].Running? && !p.Running?
    ensures Tracked(started, finished, workers[k := p])
  {
  }

  lemma TrackedStart(started: seq<Start>, finished: set<nat>, workers: seq<Phase>, k: nat, item: Item)
    requires Tracked(started, finished, workers) && k < |workers| && !workers[k].Running?
    ensures Tracked(started + [Start(k, item)], finished, workers[k := Running(|started|, item)])
  {
    var started' := started + [Start(k, item)];
    assert forall i :: 0 <= i < |started| ==> started'[i] == started[i];
  }

  lemma TrackedFinish(started: seq<Start>, finished: set<nat>, workers: seq<Phase>, k: nat)
    requires Tracked(started, finished, workers) && k < |workers| && workers[k].Running?
    ensures Tracked(started, finished + {workers[k].start}, workers[k := Checking])
  {
  }

  lemma TrackedStep(w: World, s: Step)
    requires Tracked(w.started, w.finished, w.workers) && Enabled(w, s)
    ensures var w' := Do(w, s); Tracked(w'.started, w'.finished, w'.workers)
  {
    hide Tracked, Fetched, Added, Nodes, Items;
    match s {
      case CheckState(k) =>
        TrackedIdle(w.started, w.finished, w.workers, k, if w.closed then Exited else Fetching);
      case Fetch(k) =>
        if w.units.pending == [] {
          TrackedIdle(w.started, w.finished, w.workers, k, Sleeping);
        } else {
          TrackedStart(w.started, w.finished, w.workers, k, w.units.pending[0].item);
        }
      case Finish(k) =>
        TrackedFinish(w.started, w.finished, w.workers, k);
      case Wake(k) =>
        TrackedIdle(w.started, w.finished, w.workers, k, Checking);
      case _ =>
    }
  }

  lemma ClosingIdle(closedAt: nat, started: seq<Start>, workers: seq<Phase>, k: nat, p: Phase)
    requires Closing(closedAt, started, workers) && k < |workers| && !p.Fetching?
    ensures Closing(closedAt, started, workers[k := p])
  {
  }

  /** A worker at its fetch has not started since the close, so this is its first. */
  lemma ClosingStart(closedAt: nat, started: seq<Start>, workers: seq<Phase>, k: nat, item: Item)
    requires Closing(closedAt, started, workers) && k < |workers| && workers[k].Fetching?
    ensures Closing(closedAt, started + [Start(k, item)], workers[k := Running(|started|, item)])
  {
    var started' := started + [Start(k, item)];
    assert forall i :: 0 <= i < |started| ==> started'[i] == started[i];
  }

  lemma ClosingStep(w: World, s: Step)
    requires w.closedAt <= |w.started| && (w.closed ==> Closing(w.closedAt, w.started, w.workers)) && Enabled(w, s)
    ensures var w' := Do(w, s);
      w'.closedAt <= |w'.started| && (w'.closed ==> Closing(w'.closedAt, w'.started, w'.workers))
  {
    hide Closing, Fetched, Added, Nodes, Items;
    match s {
      case CheckState(k) =>
        if w.closed {
          ClosingIdle(w.closedAt, w.started, w.workers, k, Exited);
        }
      case Fetch(k) =>
        if w.closed && w.units.pending == [] {
          ClosingIdle(w.closedAt, w.started, w.workers, k, Sleeping);
        } else if w.closed {
          ClosingStart(w.closedAt, w.started, w.workers, k, w.units.pending[0].item);
        }
      case Finish(k) =>
        if w.closed {
          ClosingIdle(w.closedAt, w.started, w.workers, k, Checking);
        }
      case Wake(k) =>
        if w.closed {
          ClosingIdle(w.closedAt, w.started, w.workers, k, Checking);
        }
      case Close =>
        NothingLate(w.started, w.workers);
      case _ =>
    }
  }

  lemma NothingLate(started: seq<Start>, workers: seq<Phase>)
    ensures Closing(|started|, started, workers)
  {
  }

  /** The nodes after a fetch are those before it, the first one behind the list. */
  lemma NodesFetched(u: Units)
    requires u.pending != [] && u.free != POOL_SIZE && Distinct(Nodes(u))
    ensures Distinct(Nodes(Fetched(u))) && forall a :: a in Nodes(Fetched(u)) <==> a in Nodes(u)
  {
    var n, n', m := Nodes(u), Nodes(Fetched(u)), |u.pending|;
    assert |n'| == |n|;
    assert forall i :: 0 <= i < |n| ==> n'[i] == n[if i < m - 1 then i + 1 else if i == m - 1 then 0 else i];
    Rotated(n, n', m);
  }

  lemma NodesAdded(u: Units, item: Item, mm: Option<Addr>)
    ensures Nodes(Added(u, item, mm)) == if u.spare == [] && mm.Some? then Nodes(u) + [mm.value] else Nodes(u)
  {
  }

  lemma OwnedStep(w: World, s: Step)
    requires Owned(w) && Bounded(w) && Enabled(w, s)
    requires w.released ==> w.units.pending == [] && w.units.spare == [] && w.adders == multiset{}
    ensures Owned(Do(w, s))
  {
    hide Nodes, Distinct, Fetched, Added, Items, Tally;
    match s {
      case Fetch(k) =>
        if w.units.pending != [] {
          TallyFetched(w.units, w.mallocs);
        }
      case AddLocked(item, mm) =>
        TallyAdded(w.units, item, mm, w.mallocs);
      case Release =>
        NoNodes(w.units.free);
        TallyFreed(Nodes(w.units), w.mallocs);
      case _ =>
    }
  }

  lemma TallyFetched(u: Units, mallocs: set<Addr>)
    requires u.pending != [] && u.free != POOL_SIZE && Tally(Nodes(u), [], mallocs)
    ensures Tally(Nodes(Fetched(u)), [], mallocs)
  {
    hide Nodes, Fetched, Distinct;
    NoFrees(Nodes(u));
    NoFrees(Nodes(Fetched(u)));
    NodesFetched(u);
  }

  lemma TallyAdded(u: Units, item: Item, mm: Option<Addr>, mallocs: set<Addr>)
    requires Tally(Nodes(u), [], mallocs) && (mm.Some? ==> mm.value !in Nodes(u))
    ensures Tally(Nodes(Added(u, item, mm)), [], if u.spare == [] && mm.Some? then mallocs + {mm.value} else mallocs)
  {
    hide Nodes, Added, Distinct;
    NodesAdded(u, item, mm);
    NoFrees(Nodes(u));
    NoFrees(Nodes(Added(u, item, mm)));
    if u.spare == [] && mm.Some? {
      DistinctSnoc(Nodes(u), mm.value);
    }
  }

  lemma TallyFreed(nodes: seq<Addr>, mallocs: set<Addr>)
    requires Tally(nodes, [], mallocs)
    ensures Tally([], nodes, mallocs)
  {
    NoFrees(nodes);
    assert [] + nodes == nodes;
  }

  lemma NoFrees(s: seq<Addr>)
    ensures s + [] == s
  {
  }

  lemma NoNodes(free: nat)
    ensures Nodes(Units([], [], free)) == []
  {
  }

  /** Moving the first of the leading `m` elements behind the others keeps them distinct. */
  lemma Rotated(s: seq<Addr>, t: seq<Addr>, m: nat)
    requires 0 < m <= |s| == |t| && Distinct(s)
    requires forall i :: 0 <= i < |s| ==> t[i] == s[if i < m - 1 then i + 1 else if i == m - 1 then 0 else i]
    ensures Distinct(t) && forall a :: a in t <==> a in s
  {
    forall a | a in s
      ensures a in t
    {
      var i :| 0 <= i < |s| && s[i] == a;
      assert t[if i == 0 then m - 1 else if i < m then i - 1 else i] == a;
    }
  }

  lemma BoundedStep(w: World, s: Step)
    requires Bounded(w) && Released(w) && Enabled(w, s)
    ensures Bounded(Do(w, s)) && Released(Do(w, s))
  {
    hide Nodes, Items;
  }

  lemma AtWorkStep(w: World, s: Step)
    requires AtWork(w) && Enabled(w, s)
    ensures AtWork(Do(w, s))
  {
    hide Nodes, Items, Fetched, Added;
  }

  lemma InvStep(w: World, s: Step)
    requires Inv(w) && Enabled(w, s)
    ensures Inv(Do(w, s))
  {
    hide Enabled, Do, Tracked, Closing, Owned, Bounded, AtWork;
    FifoStep(w, s);
    AtWorkStep(w, s);
    TrackedStep(w, s);
    ClosingStep(w, s);
    OwnedStep(w, s);
    BoundedStep(w, s);
  }

  /** The invariant holds in every state of every run. */
  lemma {:induction false} InvRun(n: nat, ws: seq<World>, i: nat)
    requires Run(n, ws) && i < |ws|
    ensures Inv(ws[i]) && |ws[i].workers| == n
  {
    if i == 0 {
      InvStart(n);
    } else {
      InvRun(n, ws, i - 1);
      var s := StepAt(n, ws, i - 1);
      InvStep(ws[i - 1], s);
    }
  }

  // -------------------------------------------------------------------------
  // What holds over every run

  /** One step only ever extends the history. */
  ghost predicate Extends(w: World, w': World) {
    w.added <= w'.added && w.started <= w'.started && w.finished <= w'.finished &&
    |w.workers| == |w'.workers| && (w.released ==> w'.released) &&
    (w.closed ==> w'.closed && w'.closedAt == w.closedAt)
  }

  lemma ExtendsStep(w: World, s: Step)
    requires Enabled(w, s)
    ensures Extends(w, Do(w, s))
  {
  }

  lemma ExtendsSelf(a: World)
    ensures Extends(a, a)
  {
  }

  lemma ExtendsOn(a: World, b: World, c: World)
    requires Extends(a, b) && Extends(b, c)
    ensures Extends(a, c)
  {
  }

  /** Step `i` of a run. */
  lemma StepAt(n: nat, ws: seq<World>, i: nat) returns (s: Step)
    requires Run(n, ws) && i + 1 < |ws|
    ensures Enabled(ws[i], s) && ws[i + 1] == Do(ws[i], s)
  {
    assert Next(ws[i], ws[i + 1]);
    s :| Enabled(ws[i], s) && ws[i + 1] == Do(ws[i], s);
  }

  lemma {:induction false} HistoryGrows(n: nat, ws: seq<World>, i: nat, j: nat)
    requires Run(n, ws) && i <= j < |ws|
    ensures Extends(ws[i], ws[j])
    decreases j
  {
    hide Extends, Enabled, Do, Run;
    if i == j {
      ExtendsSelf(ws[i]);
    } else {
      HistoryGrows(n, ws, i, j - 1);
      var s := StepAt(n, ws, j - 1);
      ExtendsStep(ws[j - 1], s);
      ExtendsOn(ws[i], ws[j - 1], ws[j]);
    }
  }

  /**
   Items start in the order in which they were added, each at most once, and none is lost: at every
   moment before the release the items added are those started, then those in the list.
   */
  lemma StartsInOrder(n: nat, ws: seq<World>, i: nat)
    requires Run(n, ws) && i < |ws|
    ensures StartedItems(ws[i].started) <= ws[i].added
    ensures !ws[i].released ==> ws[i].added == StartedItems(ws[i].started) + Items(ws[i].units.pending)
  {
    InvRun(n, ws, i);
    var w := ws[i];
    assert w.added == StartedItems(w.started) + (Items(w.units.pending) + w.discarded);
    assert !w.released ==> Items(w.units.pending) + w.discarded == Items(w.units.pending);
  }

  /** Once a state of the run is closed, each worker starts at most one more item. */
  lemma OneMoreEach(n: nat, ws: seq<World>, i: nat, j: nat)
    requires Run(n, ws) && i <= j < |ws| && ws[i].closed
    ensures forall x, y :: |ws[i].started| <= x < y < |ws[j].started| ==>
              ws[j].started[x].worker != ws[j].started[y].worker
    ensures |ws[j].started| <= |ws[i].started| + n
  {
    InvRun(n, ws, i);
    InvRun(n, ws, j);
    HistoryGrows(n, ws, i, j);
    var from := |ws[i].started|;
    var late := seq(|ws[j].started| - from, x requires 0 <= x < |ws[j].started| - from => ws[j].started[from +
      x].worker);
    forall x, y | 0 <= x < y < |late|
      ensures late[x] != late[y]
    {
      assert ws[j].started[from + x].worker != ws[j].started[from + y].worker;
    }
    Pigeonhole(late, n);
  }

  lemma {:induction false} Pigeonhole(s: seq<nat>, n: nat)
    requires Distinct(s) && forall i :: 0 <= i < |s| ==> s[i] < n
    ensures |s| <= n
  {
    if |s| > 0 {
      assert s[0] < n;
      if n - 1 in s {
        var i :| 0 <= i < |s| && s[i] == n - 1;
        var t := s[..i] + s[i + 1..];
        assert forall x :: 0 <= x < |t| ==> t[x] == s[if x < i then x else x + 1];
        Pigeonhole(t, n - 1);
      } else {
        Pigeonhole(s, n - 1);
      }
    }
  }

  /** When all workers have been joined, every start has finished. */
  lemma JoinedMeansFinished(n: nat, ws: seq<World>, i: nat)
    requires Run(n, ws) && i < |ws|
    requires forall k :: 0 <= k < |ws[i].workers| ==> ws[i].workers[k].Exited?
    ensures forall x :: x in ws[i].finished <==> 0 <= x < |ws[i].started|
  {
    InvRun(n, ws, i);
  }

  /**
   After the release: the items added are those that ran to their end, then those discarded, and
   every node that malloc ever returned has been freed exactly once.
   */
  lemma ReleaseAccounts(n: nat, ws: seq<World>, i: nat)
    requires Run(n, ws) && i < |ws| && ws[i].released
    ensures ws[i].added == StartedItems(ws[i].started) + ws[i].discarded
    ensures forall x :: x in ws[i].finished <==> 0 <= x < |ws[i].started|
    ensures Distinct(ws[i].frees) && forall a :: a in ws[i].mallocs <==> a in ws[i].frees
  {
    InvRun(n, ws, i);
    var w := ws[i];
    assert StartedItems(w.started) + Items(w.units.pending) == StartedItems(w.started);
    assert Nodes(w.units) + w.frees == w.frees;
  }

  // -------------------------------------------------------------------------
  // Shutdown terminates

  function Rank(p: Phase): nat {
    match p
    case Fetching => 3
    case Running(_, _) => 2
    case Sleeping => 2
    case Checking => 1
    case Exited => 0
  }

  function Ranks(ps: seq<Phase>): nat {
    if ps == [] then 0 else Rank(ps[0]) + Ranks(ps[1..])
  }

  lemma {:induction false} RanksUpdate(ps: seq<Phase>, k: nat, p: Phase)
    requires k < |ps|
    ensures Ranks(ps[k := p]) == Ranks(ps) - Rank(ps[k]) + Rank(p)
  {
    if k == 0 {
      assert ps[k := p][1..] == ps[1..];
    } else {
      assert ps[k := p][1..] == ps[1..][k - 1 := p];
      RanksUpdate(ps[1..], k - 1, p);
    }
  }

  lemma {:induction false} RanksBound(ps: seq<Phase>)
    ensures Ranks(ps) <= 3 * |ps|
    ensures Ranks(ps) == 0 <==> forall k :: 0 <= k < |ps| ==> ps[k].Exited?
  {
    if ps != [] {
      RanksBound(ps[1..]);
      assert forall k :: 1 <= k < |ps| ==> ps[k] == ps[1..][k - 1];
    }
  }

  /** How many of the steps from state `i` to state `j` were taken by workers. */
  ghost function WorkerSteps(ws: seq<World>, i: nat, j: nat): nat
    requires i <= j < |ws|
    decreases j
  {
    if i == j then 0
    else WorkerSteps(ws, i, j - 1) + if ws[j - 1].workers != ws[j].workers then 1 else 0
  }

  lemma RankStep(w: World, s: Step)
    requires Enabled(w, s) && w.closed
    ensures Ranks(Do(w, s).workers) + (if Do(w, s).workers != w.workers then 1 else 0) <= Ranks(w.workers)
  {
    match s {
      case CheckState(k) => RanksUpdate(w.workers, k, Exited);
      case Fetch(k) => RanksUpdate(w.workers, k, Do(w, s).workers[k]);
      case Finish(k) => RanksUpdate(w.workers, k, Checking);
      case Wake(k) => RanksUpdate(w.workers, k, Checking);
      case _ =>
    }
  }

  /** After the close the workers take at most three steps each, whatever the adders do. */
  lemma {:induction false} ShutdownIsBounded(n: nat, ws: seq<World>, i: nat, j: nat)
    requires Run(n, ws) && i <= j < |ws| && ws[i].closed
    ensures WorkerSteps(ws, i, j) + Ranks(ws[j].workers) <= Ranks(ws[i].workers) <= 3 * n
    decreases j
  {
    hide Inv, Enabled, Do, Run, Ranks;
    InvRun(n, ws, i);
    RanksBound(ws[i].workers);
    if i < j {
      ShutdownIsBounded(n, ws, i, j - 1);
      HistoryGrows(n, ws, i, j - 1);
      var s := StepAt(n, ws, j - 1);
      RankStep(ws[j - 1], s);
    }
  }

  // -------------------------------------------------------------------------
  // Waiting

  /**
   `workqueue_wait` returns when it sees an empty list.  Then every item added has started; all of
   them have finished exactly when no worker is running one.
   */
  lemma WaitSeesAllStarted(n: nat, ws: seq<World>, i: nat)
    requires Run(n, ws) && i < |ws| && !ws[i].released && ws[i].units.pending == []
    ensures ws[i].added == StartedItems(ws[i].started)
    ensures (forall x :: 0 <= x < |ws[i].added| ==> x in ws[i].finished) <==>
            (forall k :: 0 <= k < |ws[i].workers| ==> !ws[i].workers[k].Running?)
  {
    InvRun(n, ws, i);
    var w := ws[i];
    assert w.added == StartedItems(w.started);
    if k :| 0 <= k < n && w.workers[k].Running? {
      assert w.workers[k].start !in w.finished;
    }
  }

  lemma Extend(n: nat, ws: seq<World>, s: Step) returns (ws': seq<World>)
    requires Run(n, ws) && Enabled(ws[|ws| - 1], s)
    ensures Run(n, ws') && ws' == ws + [Do(ws[|ws| - 1], s)]
  {
    ws' := ws + [Do(ws[|ws| - 1], s)];
    forall i | 0 <= i < |ws'| - 1
      ensures Next(ws'[i], ws'[i + 1])
    {
      if i < |ws| - 1 {
        assert Next(ws[i], ws[i + 1]);
      } else {
        assert ws'[i] == ws[|ws| - 1];
      }
    }
  }

  /**
   A closed pool can always be shut down: from any state the workers alone can go on until all have
   exited, in at most three steps each.
   */
  lemma {:induction false} ShutdownReachable(n: nat, ws: seq<World>) returns (ws': seq<World>)
    requires Run(n, ws) && ws[|ws| - 1].closed
    ensures Run(n, ws') && ws <= ws' && |ws'| <= |ws| + Ranks(ws[|ws| - 1].workers) <= |ws| + 3 * n
    ensures AllExited(ws'[|ws'| - 1].workers) && ws'[|ws'| - 1].adders == ws[|ws| - 1].adders && ws'[|ws'| - 1].closed
    decreases Ranks(ws[|ws| - 1].workers)
  {
    hide Do, Enabled, Ranks, Run;
    LastHasWorkers(n, ws);
    var w := ws[|ws| - 1];
    RanksBound(w.workers);
    if Ranks(w.workers) == 0 {
      ws' := ws;
    } else {
      var k :| 0 <= k < |w.workers| && !w.workers[k].Exited?;
      var s := WorkerStep(w, k);
      RankStep(w, s);
      var next := Extend(n, ws, s);
      ws' := ShutdownReachable(n, next);
    }
  }

  predicate AllExited(ps: seq<Phase>) {
    forall k :: 0 <= k < |ps| ==> ps[k].Exited?
  }

  lemma LastHasWorkers(n: nat, ws: seq<World>)
    requires Run(n, ws)
    ensures ws != [] && |ws[|ws| - 1].workers| == n
  {
    hide Inv;
    InvRun(n, ws, |ws| - 1);
  }

  /** A step of worker `k`, which leaves the adders and the close alone. */
  lemma WorkerStep(w: World, k: nat) returns (s: Step)
    requires k < |w.workers| && !w.workers[k].Exited? && w.closed
    ensures Enabled(w, s) && Do(w, s).workers != w.workers && Do(w, s).adders == w.adders && Do(w, s).closed
  {
    hide Fetched;
    match w.workers[k] {
      case Checking => s := CheckState(k);
      case Fetching => s := Fetch(k);
      case Running(_, _) => s := Finish(k);
      case Sleeping => s := Wake(k);
    }
    assert Do(w, s).workers[k] != w.workers[k];
  }

  // -------------------------------------------------------------------------
  // While the queue is open

  /** A worker that has exited has seen the close. */
  lemma ExitNeedsClose(n: nat, ws: seq<World>, i: nat, k: nat)
    requires Run(n, ws) && i < |ws| && k < n
    ensures k < |ws[i].workers| && (ws[i].workers[k].Exited? ==> ws[i].closed)
  {
    hide Fifo, Tracked, Closing, Owned, Bounded, Released;
    InvRun(n, ws, i);
  }

  /** From state `i` on only workers take steps: no item is added, and the queue is not closed. */
  ghost predicate WorkersOnly(ws: seq<World>, i: nat) {
    forall j :: i <= j < |ws| ==>
      ws[j].added == ws[i].added && ws[j].adders == ws[i].adders && ws[j].closed == ws[i].closed
  }

  lemma WorkersOnlyOn(ws: seq<World>, ws': seq<World>, i: nat, j: nat)
    requires ws <= ws' && i <= j < |ws| && WorkersOnly(ws, i) && WorkersOnly(ws', j)
    ensures WorkersOnly(ws', i)
  {
    assert forall x :: 0 <= x < |ws| ==> ws'[x] == ws[x];
  }

  /** How many steps a worker is away from its next fetch, with that one. */
  function ToFetch(p: Phase): nat {
    match p
    case Fetching => 1
    case Checking => 2
    case _ => 3
  }

  /** With the queue open a step of a worker brings it closer to its fetch, or takes the first item off the list. */
  lemma FetchIsNear(w: World, k: nat) returns (s: Step)
    requires k < |w.workers| && !w.workers[k].Exited? && !w.closed && w.units.pending != []
    ensures Enabled(w, s)
    ensures var w' := Do(w, s);
      && w'.added == w.added && w'.adders == w.adders && !w'.closed
      && k < |w'.workers| && ToFetches(w', k) < ToFetches(w, k)
  {
    hide Nodes, Items;
    match w.workers[k] {
      case Checking => s := CheckState(k);
      case Fetching => s := Fetch(k);
      case Running(_, _) => s := Finish(k);
      case Sleeping => s := Wake(k);
    }
  }

  /** The steps that worker `k` needs to empty the list. */
  function ToFetches(w: World, k: nat): nat
    requires k < |w.workers|
  {
    if w.units.pending == [] then 0 else 3 * (|w.units.pending| - 1) + ToFetch(w.workers[k])
  }

  /**
   From every state in which the queue is open the workers alone, indeed any one of them, can go on until
   the list is empty, in at most three steps for each item.
   */
  lemma {:induction false} DrainReachable(n: nat, ws: seq<World>, k: nat) returns (ws': seq<World>)
    requires Run(n, ws) && !ws[|ws| - 1].closed && k < n
    ensures Run(n, ws') && ws <= ws' && WorkersOnly(ws', |ws| - 1)
    ensures |ws'| <= |ws| + 3 * |ws[|ws| - 1].units.pending|
    ensures ws'[|ws'| - 1].units.pending == []
  {
    hide Run, ToFetch;
    LastHasWorkers(n, ws);
    ExitNeedsClose(n, ws, |ws| - 1, k);
    ws' := DrainFrom(n, ws, k);
    ToFetchBound(ws[|ws| - 1], k);
  }

  lemma ToFetchBound(w: World, k: nat)
    requires k < |w.workers|
    ensures ToFetches(w, k) <= 3 * |w.units.pending|
    ensures ToFetches(w, k) == 0 <==> w.units.pending == []
  {
  }

  lemma {:induction false} DrainFrom(n: nat, ws: seq<World>, k: nat) returns (ws': seq<World>)
    requires Run(n, ws) && !ws[|ws| - 1].closed && k < n && k < |ws[|ws| - 1].workers|
    ensures Run(n, ws') && ws <= ws' && WorkersOnly(ws', |ws| - 1)
    ensures |ws'| <= |ws| + ToFetches(ws[|ws| - 1], k)
    ensures ws'[|ws'| - 1].units.pending == []
    decreases ToFetches(ws[|ws| - 1], k)
  {
    hide Do, Enabled, Run, ToFetches;
    LastHasWorkers(n, ws);
    var w := ws[|ws| - 1];
    ToFetchBound(w, k);
    if w.units.pending == [] {
      ws' := ws;
    } else {
      ExitNeedsClose(n, ws, |ws| - 1, k);
      var s := FetchIsNear(w, k);
      var next := Extend(n, ws, s);
      ws' := DrainFrom(n, next, k);
      WorkersOnlyOn(next, ws', |ws| - 1, |ws|);
    }
  }

  function RunningCount(ps: seq<Phase>): (r: nat)
    ensures r <= |ps|
  {
    if ps == [] then 0 else (if ps[0].Running? then 1 else 0) + RunningCount(ps[1..])
  }

  lemma {:induction false} RunningOne(ps: seq<Phase>, k: nat)
    requires k < |ps| && ps[k].Running?
    ensures RunningCount(ps[k := Checking]) == RunningCount(ps) - 1
  {
    if k == 0 {
      assert ps[k := Checking][1..] == ps[1..];
    } else {
      assert ps[k := Checking][1..] == ps[1..][k - 1 := Checking];
      RunningOne(ps[1..], k - 1);
    }
  }

  /** Whatever runs can return: then no worker is running an item. */
  lemma {:induction false} QuietReachable(n: nat, ws: seq<World>) returns (ws': seq<World>)
    requires Run(n, ws)
    ensures Run(n, ws') && ws <= ws' && WorkersOnly(ws', |ws| - 1)
    ensures |ws'| <= |ws| + RunningCount(ws[|ws| - 1].workers)
    ensures ws'[|ws'| - 1].units == ws[|ws| - 1].units && ws'[|ws'| - 1].released == ws[|ws| - 1].released
    ensures var ps := ws'[|ws'| - 1].workers; forall k :: 0 <= k < |ps| ==> !ps[k].Running?
    decreases RunningCount(ws[|ws| - 1].workers)
  {
    hide Run, RunningCount;
    LastHasWorkers(n, ws);
    var w := ws[|ws| - 1];
    if k :| 0 <= k < |w.workers| && w.workers[k].Running? {
      RunningOne(w.workers, k);
      var next := Extend(n, ws, Finish(k));
      ws' := QuietReachable(n, next);
      WorkersOnlyOn(next, ws', |ws| - 1, |ws|);
    } else {
      ws' := ws;
    }
  }

  /**
   No item that was added while the queue is open is stuck: from every such state the workers alone can go
   on until each item added has been started, in order, and has finished.
   */
  lemma AllGetDone(n: nat, ws: seq<World>) returns (ws': seq<World>)
    requires Run(n, ws) && !ws[|ws| - 1].closed && n > 0
    ensures Run(n, ws') && ws <= ws' && WorkersOnly(ws', |ws| - 1)
    ensures |ws'| <= |ws| + 3 * |ws[|ws| - 1].units.pending| + n
    ensures var w := ws'[|ws'| - 1];
      && StartedItems(w.started) == w.added == ws[|ws| - 1].added
      && forall x :: 0 <= x < |w.added| ==> x in w.finished
  {
    hide Run, RunningCount, Inv;
    LastHasWorkers(n, ws);
    var mid := DrainReachable(n, ws, 0);
    ws' := QuietReachable(n, mid);
    WorkersOnlyOn(mid, ws', |ws| - 1, |mid| - 1);
    InvRun(n, mid, |mid| - 1);
    OpenIsUnreleased(n, ws', |ws'| - 1);
    WaitSeesAllStarted(n, ws', |ws'| - 1);
  }

  lemma OpenIsUnreleased(n: nat, ws: seq<World>, i: nat)
    requires Run(n, ws) && i < |ws| && !ws[i].closed
    ensures !ws[i].released
  {
    hide Fifo, Tracked, Closing, Owned, Bounded, AtWork;
    InvRun(n, ws, i);
  }

  // -------------------------------------------------------------------------
  // Calls that add

  /**
   A call past the check of `state` stores its item behind all others, unless as many items are pending as
   ever were and malloc refuses; then nothing changes for it.
   */
  lemma AddOutcome(n: nat, ws: seq<World>, i: nat, item: Item, mm: Option<Addr>)
    requires Run(n, ws) && i < |ws| && Enabled(ws[i], AddLocked(item, mm))
    ensures var w, w' := ws[i], Do(ws[i], AddLocked(item, mm));
      if |w.units.pending| < w.peak || mm.Some? then
        w'.added == w.added + [item] && Items(w'.units.pending) == Items(w.units.pending) + [item]
      else
        w'.added == w.added && w'.units == w.units
  {
    hide Fifo, Tracked, Closing, Owned, AtWork, Items;
    InvRun(n, ws, i);
    var w, w' := ws[i], Do(ws[i], AddLocked(item, mm));
    assert w.adders != multiset{};
    assert w.units.spare == [] <==> |w.units.pending| == w.peak;
    if w.units.spare != [] || mm.Some? {
      AppendItem(w.units.pending, w'.units.pending, item);
    }
  }

  /** After the close no further call gets past the check: what is added then was on its way already. */
  lemma {:induction false} AddsAfterClose(n: nat, ws: seq<World>, i: nat, j: nat)
    requires Run(n, ws) && i <= j < |ws| && ws[i].closed
    ensures ws[i].added <= ws[j].added
    ensures multiset(ws[j].added[|ws[i].added|..]) + ws[j].adders <= ws[i].adders
    decreases j
  {
    hide Run, Do, Enabled;
    HistoryGrows(n, ws, i, j);
    if i < j {
      HistoryGrows(n, ws, i, j - 1);
      AddsAfterClose(n, ws, i, j - 1);
      var s := StepAt(n, ws, j - 1);
      LateAdd(ws[j - 1], s, |ws[i].added|);
    }
  }

  lemma LateAdd(w: World, s: Step, m: nat)
    requires Enabled(w, s) && w.closed && m <= |w.added|
    ensures m <= |Do(w, s).added|
    ensures multiset(Do(w, s).added[m..]) + Do(w, s).adders <= multiset(w.added[m..]) + w.adders
  {
    hide Nodes, Items, Added, Fetched;
    if s.AddLocked? {
      assert (w.added + [s.item])[m..] == w.added[m..] + [s.item];
    }
  }

  /** The steps behind a run. */
  ghost predicate By(ws: seq<World>, ss: seq<Step>) {
    |ws| == |ss| + 1 &&
    forall i :: 0 <= i < |ss| ==> Enabled(ws[i], ss[i]) && ws[i + 1] == Do(ws[i], ss[i])
  }

  /** The items of the calls that got past the check of `state`, and of those that had the lock. */
  function Calls(ss: seq<Step>): multiset<Item> {
    if ss == [] then multiset{}
    else Calls(ss[..|ss| - 1]) + if ss[|ss| - 1].AddCheck? then multiset{ss[|ss| - 1].item} else multiset{}
  }

  function Tries(ss: seq<Step>): multiset<Item> {
    if ss == [] then multiset{}
    else Tries(ss[..|ss| - 1]) + if ss[|ss| - 1].AddLocked? then multiset{ss[|ss| - 1].item} else multiset{}
  }

  /** Each call has the lock once or is still on its way, and what is added was called for, as often. */
  lemma {:induction false} CallsAccount(n: nat, ws: seq<World>, ss: seq<Step>, i: nat)
    requires Run(n, ws) && By(ws, ss) && i <= |ss|
    ensures Calls(ss[..i]) == Tries(ss[..i]) + ws[i].adders && multiset(ws[i].added) <= Tries(ss[..i])
  {
    if i > 0 {
      CallsAccount(n, ws, ss, i - 1);
      assert ss[..i][..i - 1] == ss[..i - 1];
      CallsAccountStep(ws[i - 1], ss[..i], ss[i - 1]);
    }
  }

  lemma CallsAccountStep(w: World, ss: seq<Step>, s: Step)
    requires Enabled(w, s) && ss != [] && ss[|ss| - 1] == s
    requires var before := ss[..|ss| - 1];
      Calls(before) == Tries(before) + w.adders && multiset(w.added) <= Tries(before)
    ensures Calls(ss) == Tries(ss) + Do(w, s).adders && multiset(Do(w, s).added) <= Tries(ss)
  {
    hide Enabled, Do;
    OneCall(w, s);
    var before := ss[..|ss| - 1];
    var called := if s.AddCheck? then multiset{s.item} else multiset{};
    var tried := if s.AddLocked? then multiset{s.item} else multiset{};
    Balance(Calls(before), Tries(before), w.adders, Do(w, s).adders, called, tried);
    assert multiset(Do(w, s).added) <= multiset(w.added) + tried <= Tries(before) + tried;
  }

  lemma Balance(c: multiset<Item>, t: multiset<Item>, a: multiset<Item>, a': multiset<Item>, x: multiset<Item>,
    y: multiset<Item>)
    requires c == t + a && a' + y == a + x
    ensures c + x == t + y + a'
  {
    assert forall e :: (c + x)[e] == t[e] + (a + x)[e] == t[e] + (a' + y)[e];
  }

  lemma OneCall(w: World, s: Step)
    requires Enabled(w, s)
    ensures var w' := Do(w, s);
      var called := if s.AddCheck? then multiset{s.item} else multiset{};
      var tried := if s.AddLocked? then multiset{s.item} else multiset{};
      w'.adders + tried == w.adders + called && multiset(w'.added) <= multiset(w.added) + tried
  {
    hide Nodes, Items, Added, Fetched;
    if s.AddLocked? {
      TakeBack(w.adders, s.item);
      Longer(w.added, s.item);
    } else if !s.AddCheck? {
      assert Do(w, s).added == w.added && Do(w, s).adders == w.adders;
    }
  }

  lemma TakeBack(b: multiset<Item>, x: Item)
    requires x in b
    ensures b - multiset{x} + multiset{x} == b + multiset{}
  {
  }

  lemma Longer(s: seq<Item>, x: Item)
    ensures multiset(s + [x]) <= multiset(s) + multiset{x} && multiset(s) <= multiset(s) + multiset{x}
  {
  }

  /** A run in which the list is empty while the only item added is still running. */
  lemma WaitMayReturnEarly() returns (ws: seq<World>)
    ensures Run(1, ws) && ws[|ws| - 1].units.pending == []
    ensures |ws[|ws| - 1].added| == 1 && ws[|ws| - 1].finished == {}
  {
    ws := [Initial(1)];
    ws := Extend(1, ws, AddCheck(Item(0, 0)));
    ws := Extend(1, ws, AddLocked(Item(0, 0), Some(0)));
    ws := Extend(1, ws, CheckState(0));
    ws := Extend(1, ws, Fetch(0));
  }

  // -------------------------------------------------------------------------
  // The size of the pool

  /** Before the release no node goes back to the system: the pool and the list together hold as many
      nodes as items were ever pending at once. */
  lemma NodesAreThePeak(n: nat, ws: seq<World>, i: nat)
    requires Run(n, ws) && i < |ws| && !ws[i].released
    ensures |ws[i].units.spare| + |ws[i].units.pending| == ws[i].peak
    ensures ws[i].frees == [] && forall a :: a in ws[i].mallocs <==> a in Nodes(ws[i].units)
  {
    InvRun(n, ws, i);
    assert Nodes(ws[i].units) + ws[i].frees == Nodes(ws[i].units);
  }

  /** `peak` is the largest number of items that were pending in any state so far. */
  lemma {:induction false} PeakIsReached(n: nat, ws: seq<World>, i: nat)
    requires Run(n, ws) && i < |ws|
    ensures forall j :: 0 <= j <= i ==> |ws[j].units.pending| <= ws[i].peak
    ensures exists j :: 0 <= j <= i && |ws[j].units.pending| == ws[i].peak
  {
    hide Run, Enabled, Do;
    if i == 0 {
      StartsEmpty(n, ws);
    } else {
      PeakIsReached(n, ws, i - 1);
      var s := StepAt(n, ws, i - 1);
      PeakStep(ws[i - 1], s);
    }
  }

  lemma StartsEmpty(n: nat, ws: seq<World>)
    requires Run(n, ws)
    ensures ws != [] && ws[0].units.pending == [] && ws[0].peak == 0
  {
  }

  lemma PeakStep(w: World, s: Step)
    requires Enabled(w, s) && |w.units.pending| <= w.peak
    ensures var w' := Do(w, s);
      && w.peak <= w'.peak && |w'.units.pending| <= w'.peak
      && (w'.peak == w.peak || w'.peak == |w'.units.pending|)
  {
    hide Nodes, Items;
  }

  lemma {:induction false} ManyPending(m: nat) returns (ws: seq<World>)
    ensures Run(1, ws)
    ensures var w := ws[|ws| - 1]; |w.units.pending| == m && w.units.spare == [] && w.workers == [Checking] && !w.closed
    ensures var nodes := Nodes(ws[|ws| - 1].units); forall i :: 0 <= i < |nodes| ==> nodes[i] < m
    ensures ws[|ws| - 1].units.free == 0
  {
    if m == 0 {
      ws := [Initial(1)];
    } else {
      ws := ManyPending(m - 1);
      var nodes := Nodes(ws[|ws| - 1].units);
      ws := Extend(1, ws, AddCheck(Item(0, 0)));
      ws := Extend(1, ws, AddLocked(Item(0, 0), Some(m - 1)));
      assert Nodes(ws[|ws| - 1].units) == nodes + [m - 1];
    }
  }

  /** The limit of 128 spare nodes is not kept: for every number there is a run whose pool holds as many. */
  lemma {:induction false} PoolGrowsWithoutLimit(m: nat, left: nat) returns (ws: seq<World>)
    requires left <= m
    ensures Run(1, ws)
    ensures var w := ws[|ws| - 1];
      |w.units.pending| == left && |w.units.spare| == m - left && w.workers == [Checking] && !w.closed
    ensures ws[|ws| - 1].units.free == 0
    decreases m - left
  {
    if left == m {
      ws := ManyPending(m);
    } else {
      ws := PoolGrowsWithoutLimit(m, left + 1);
      ws := Extend(1, ws, CheckState(0));
      ws := Extend(1, ws, Fetch(0));
      ws := Extend(1, ws, Finish(0));
    }
  }
}
