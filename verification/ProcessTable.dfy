// The spawned-process table of api/os/os.cpp.
//
// spawnProcess, updateSpawnedProcess, getSpawnedProcesses and the detached waiter threads share
// a map and an id counter under one mutex. Everything done while the mutex is held is one atomic
// step; a run is any interleaving of such steps.
module ProcessTable {
  import opened Common

  // A TinyProcessLib::Process object, named by its allocation: handle k is the k-th one created.
  type Handle = nat

  // Ids repeat with this period, because the counter restarts at 0 after INT_MAX.
  const PERIOD: int := INT_MAX + 1

  // A detached waiter thread: the id it captured, and whether get_exit_status has returned.
  datatype Waiter = Waiter(id: int, exited: bool)

  datatype World = World(
    nextVirtualPid: int,
    spawnedProcesses: map<int, Handle>,
    waiters: map<Handle, Waiter>,
    deleted: seq<Handle>,  // every `delete childProcess`, in order
    spawned: nat           // how many processes were created so far
  )

  datatype Step =
    | Spawn
    | Exit(handle: Handle)                 // get_exit_status returns in the waiter
    | Reap(handle: Handle)                 // the waiter's locked erase and delete
    | Update(id: int, eventType: string)   // updateSpawnedProcess
    | List                                 // getSpawnedProcesses

  const INIT := World(0, map[], map[], [], 0)

  predicate Enabled(w: World, s: Step) {
    match s
    case Exit(h) => h in w.waiters && !w.waiters[h].exited
    case Reap(h) => h in w.waiters && w.waiters[h].exited
    case _ => true
  }

  function NextPid(pid: int): int {
    if pid == INT_MAX then 0 else pid + 1
  }

  function Apply(w: World, s: Step): World
    requires Enabled(w, s)
  {
    match s
    case Spawn =>
      w.(nextVirtualPid := NextPid(w.nextVirtualPid),
         spawnedProcesses := w.spawnedProcesses[w.nextVirtualPid := w.spawned],
         waiters := w.waiters[w.spawned := Waiter(w.nextVirtualPid, false)],
         spawned := w.spawned + 1)
    case Exit(h) =>
      w.(waiters := w.waiters[h := w.waiters[h].(exited := true)])
    case Reap(h) =>
      w.(spawnedProcesses := w.spawnedProcesses - {w.waiters[h].id},
         waiters := w.waiters - {h},
         deleted := w.deleted + [h])
    case Update(_, _) => w
    case List => w
  }

  // What an update does to its process.
  datatype Action = Kill | Write | CloseStdin

  predicate KnownEvent(eventType: string) {
    eventType == "exit" || eventType == "stdIn" || eventType == "stdInEnd"
  }

  predicate UpdateResult(w: World, id: int, eventType: string) {
    id in w.spawnedProcesses && KnownEvent(eventType)
  }

  // The process objects a step dereferences.
  function Touched(w: World, s: Step): set<Handle>
    requires Enabled(w, s)
  {
    match s
    case Spawn => {w.spawned}
    case Exit(h) => {h}
    case Reap(h) => {h}
    case Update(id, t) => if UpdateResult(w, id, t) then {w.spawnedProcesses[id]} else {}
    case List => set id | id in w.spawnedProcesses :: w.spawnedProcesses[id]
  }

  predicate Legal(steps: seq<Step>)
    decreases |steps|, 0
  {
    steps == [] ||
    (var pre := steps[..|steps| - 1];
     Legal(pre) && Enabled(Exec(pre), steps[|steps| - 1]))
  }

  function Exec(steps: seq<Step>): World
    requires Legal(steps)
    decreases |steps|
  {
    if steps == [] then INIT
    else Apply(Exec(steps[..|steps| - 1]), steps[|steps| - 1])
  }

  // ---------- What holds in every run ----------

  // The processes spawned and not yet reaped.
  function Live(w: World): set<Handle> {
    w.waiters.Keys
  }

  ghost predicate NoDuplicates(s: seq<Handle>) {
    forall i, j :: 0 <= i < j < |s| ==> s[i] != s[j]
  }

  // The k-th spawn got id k mod 2^31; every process ever created is either live or deleted,
  // and none is deleted twice; table entries name live processes under their own ids.
  ghost predicate Safe(w: World) {
    && w.nextVirtualPid == w.spawned % PERIOD
    && (forall h :: h in Live(w) ==> h < w.spawned && w.waiters[h].id == h % PERIOD)
    && NoDuplicates(w.deleted)
    && (forall h: Handle :: h < w.spawned <==> h in Live(w) || h in w.deleted)
    && (forall h :: h in w.deleted ==> h !in Live(w))
    && (forall id :: id in w.spawnedProcesses ==>
          w.spawnedProcesses[id] in Live(w) && w.waiters[w.spawnedProcesses[id]].id == id)
  }

  ghost predicate TouchesNoDeleted(w: World, s: Step)
    requires Enabled(w, s)
  {
    forall h :: h in Touched(w, s) ==> h !in w.deleted
  }

  lemma StepKeepsSafe(w: World, s: Step)
    requires Safe(w) && Enabled(w, s)
    ensures Safe(Apply(w, s))
    ensures TouchesNoDeleted(w, s)
  {
    var w' := Apply(w, s);
    match s
    case Spawn =>
      assert w'.nextVirtualPid == w'.spawned % PERIOD;
    case Reap(h) =>
      forall id | id in w'.spawnedProcesses
        ensures w'.spawnedProcesses[id] in Live(w') && w'.waiters[w'.spawnedProcesses[id]].id == id
      {
        assert id in w.spawnedProcesses;
      }
    case _ =>
  }

  // Memory safety needs no hypothesis at all, not even that ids stay distinct.
  lemma {:induction false} NoUseAfterDelete(steps: seq<Step>)
    requires Legal(steps)
    ensures Safe(Exec(steps))
    ensures steps != [] ==> TouchesNoDeleted(Exec(steps[..|steps| - 1]), steps[|steps| - 1])
    decreases |steps|
  {
    if steps != [] {
      var pre := steps[..|steps| - 1];
      NoUseAfterDelete(pre);
      StepKeepsSafe(Exec(pre), steps[|steps| - 1]);
    }
  }

  // ---------- When the table is exact ----------

  // The table holds exactly the live processes, each under its own id, pairwise distinct.
  ghost predicate TableExact(w: World) {
    && (forall h :: h in Live(w) ==>
          w.waiters[h].id in w.spawnedProcesses && w.spawnedProcesses[w.waiters[h].id] == h)
    && w.spawnedProcesses.Values == Live(w)
    && |w.spawnedProcesses| == |Live(w)|
  }

  // Fewer than 2^31 spawns happened since any process that is still live was created.
  ghost predicate WithinPeriod(w: World) {
    forall h :: h in Live(w) ==> w.spawned - 1 - h < PERIOD
  }

  ghost predicate AlwaysTableExact(steps: seq<Step>)
    requires Legal(steps)
    decreases |steps|
  {
    TableExact(Exec(steps)) && (steps == [] || AlwaysTableExact(steps[..|steps| - 1]))
  }

  ghost predicate AlwaysWithinPeriod(steps: seq<Step>)
    requires Legal(steps)
    decreases |steps|
  {
    WithinPeriod(Exec(steps)) && (steps == [] || AlwaysWithinPeriod(steps[..|steps| - 1]))
  }

  // Every live process is found under its own id.
  ghost predicate AllRegistered(w: World) {
    forall h :: h in Live(w) ==>
      w.waiters[h].id in w.spawnedProcesses && w.spawnedProcesses[w.waiters[h].id] == h
  }

  lemma InjectiveSize(m: map<int, Handle>, s: set<Handle>)
    requires m.Values == s
    requires forall i, j :: i in m && j in m && m[i] == m[j] ==> i == j
    ensures |m| == |s|
    decreases |m|
  {
    if m.Keys == {} {
      assert s == {} by {
        if s != {} {
          var v := Pick(s);
          var k := PickKey(m, v);
        }
      }
    } else {
      var k := Pick(m.Keys);
      var m' := m - {k};
      assert m'.Keys == m.Keys - {k};
      assert m'.Values == s - {m[k]} by {
        forall v | v in s - {m[k]} ensures v in m'.Values {
          var i := PickKey(m, v);
          assert i in m' && m'[i] == v;
        }
        forall v | v in m'.Values ensures v in s - {m[k]} {
          var i := PickKey(m', v);
          assert m[i] in m.Values;
        }
      }
      InjectiveSize(m', s - {m[k]});
      assert |m.Keys| == |m'.Keys| + 1;
    }
  }

  lemma RegisteredIsExact(w: World)
    requires Safe(w)
    ensures AllRegistered(w) <==> TableExact(w)
  {
    if AllRegistered(w) {
      forall h | h in Live(w) ensures h in w.spawnedProcesses.Values {
        assert w.spawnedProcesses[w.waiters[h].id] == h;
      }
      forall v | v in w.spawnedProcesses.Values ensures v in Live(w) {
        var id := PickKey(w.spawnedProcesses, v);
      }
      assert w.spawnedProcesses.Values == Live(w);
      InjectiveSize(w.spawnedProcesses, Live(w));
    }
  }

  // Residues of two numbers less than a period apart differ.
  lemma ResiduesDiffer(h: nat, k: nat)
    requires h < k
    ensures k - h < PERIOD ==> h % PERIOD != k % PERIOD
    ensures k - h == PERIOD ==> h % PERIOD == k % PERIOD
  {
    if h % PERIOD == k % PERIOD {
      assert k - h == PERIOD * (k / PERIOD - h / PERIOD);
    }
  }

  // One step keeps the registration of every process exactly when it stays within the period.
  lemma StepRegistration(w: World, s: Step)
    requires Safe(w) && Enabled(w, s) && AllRegistered(w) && WithinPeriod(w)
    ensures AllRegistered(Apply(w, s)) <==> WithinPeriod(Apply(w, s))
  {
    var w' := Apply(w, s);
    match s
    case Spawn =>
      forall h | h in Live(w)
        ensures w.spawned - h < PERIOD <==> h % PERIOD != w.spawned % PERIOD
        ensures w.spawned - h < PERIOD <==> w'.spawnedProcesses[w'.waiters[h].id] == h
      {
        ResiduesDiffer(h, w.spawned);
      }
    case Reap(r) =>
      forall h | h in Live(w')
        ensures w'.waiters[h].id in w'.spawnedProcesses
      {
        ResiduesDiffer(if h < r then h else r, if h < r then r else h);
      }
    case _ =>
  }

  // Main theorem, both directions: over every interleaving the table is exact throughout
  // if and only if fewer than 2^31 spawns happen during the life of any one process.
  lemma {:induction false} TableExactIffWithinPeriod(steps: seq<Step>)
    requires Legal(steps)
    ensures AlwaysTableExact(steps) <==> AlwaysWithinPeriod(steps)
    decreases |steps|
  {
    NoUseAfterDelete(steps);
    RegisteredIsExact(Exec(steps));
    if steps != [] {
      var pre := steps[..|steps| - 1];
      TableExactIffWithinPeriod(pre);
      if AlwaysWithinPeriod(pre) {
        NoUseAfterDelete(pre);
        RegisteredIsExact(Exec(pre));
        StepRegistration(Exec(pre), steps[|steps| - 1]);
      }
    }
  }

  // n spawns, one after the other.
  function Spawns(n: nat): seq<Step> {
    if n == 0 then [] else Spawns(n - 1) + [Spawn]
  }

  lemma {:induction false} SpawnsAllLive(n: nat)
    ensures Legal(Spawns(n)) && Exec(Spawns(n)).spawned == n
    ensures forall h: Handle :: h < n ==> h in Live(Exec(Spawns(n)))
    decreases n
  {
    if n > 0 {
      SpawnsAllLive(n - 1);
      var steps := Spawns(n);
      assert steps[..|steps| - 1] == Spawns(n - 1) && steps[|steps| - 1] == Spawn;
      var w := Exec(Spawns(n - 1));
      assert Exec(steps) == Apply(w, Spawn);
      assert Live(Exec(steps)) == Live(w) + {w.spawned};
    }
  }

  // A run that leaves the period: 2^31 + 1 spawns in a row. The last one takes over the id of the
  // first, which is still live.
  lemma FullPeriodIsNotExact()
    ensures Legal(Spawns(PERIOD + 1)) && !AlwaysTableExact(Spawns(PERIOD + 1))
  {
    var steps := Spawns(PERIOD + 1);
    SpawnsAllLive(PERIOD + 1);
    TableExactIffWithinPeriod(steps);
    hide Spawns;
    assert 0 in Live(Exec(steps));
    assert !WithinPeriod(Exec(steps));
  }

  // While spawns stay within the period, an update reaches a process exactly when that process is
  // live under the id, and the object it touches is that very process.
  lemma UpdateReachesItsProcess(steps: seq<Step>, id: int, eventType: string)
    requires Legal(steps) && AlwaysWithinPeriod(steps)
    ensures UpdateResult(Exec(steps), id, eventType) <==>
            (eventType == "exit" || eventType == "stdIn" || eventType == "stdInEnd")
            && exists h :: h in Live(Exec(steps)) && h % PERIOD == id
    ensures forall h :: h in Live(Exec(steps)) && h % PERIOD == id && UpdateResult(Exec(steps), id, eventType) ==>
            Touched(Exec(steps), Update(id, eventType)) == {h}
  {
    TableExactIffWithinPeriod(steps);
    NoUseAfterDelete(steps);
    var w := Exec(steps);
    assert TableExact(w);
    if id in w.spawnedProcesses {
      assert w.spawnedProcesses[id] in Live(w);
    }
  }

  // ---------- Reaped ids ----------

  // Does some spawn among `later`, run after `before`, allocate `id`?
  ghost predicate Allocates(before: seq<Step>, later: seq<Step>, id: int)
    requires Legal(before + later)
    decreases |later|
  {
    later != [] &&
    (var pre := later[..|later| - 1];
     assert (before + later)[..|before + later| - 1] == before + pre;
     Allocates(before, pre, id)
     || (later[|later| - 1] == Spawn && Exec(before + pre).nextVirtualPid == id))
  }

  // After the process with id `id` is reaped, updates on `id` fail until `id` is allocated again.
  lemma {:induction false} ReapedIdIsDead(before: seq<Step>, h: Handle, later: seq<Step>, eventType: string)
    requires Legal(before + [Reap(h)] + later)
    requires Legal(before) && h in Exec(before).waiters
    requires !Allocates(before + [Reap(h)], later, Exec(before).waiters[h].id)
    ensures !UpdateResult(Exec(before + [Reap(h)] + later), Exec(before).waiters[h].id, eventType)
    decreases |later|
  {
    var all := before + [Reap(h)] + later;
    if later == [] {
      assert all[..|all| - 1] == before;
    } else {
      var pre := later[..|later| - 1];
      assert all[..|all| - 1] == before + [Reap(h)] + pre;
      ReapedIdIsDead(before, h, pre, eventType);
    }
  }

  // ---------- The code ----------

  class Table {
    var spawnedProcesses: map<int, Handle>
    var nextVirtualPid: int
    ghost var world: World

    ghost predicate Valid()
      reads this
    {
      && world.spawnedProcesses == spawnedProcesses
      && world.nextVirtualPid == nextVirtualPid
      && 0 <= nextVirtualPid <= INT_MAX
    }

    constructor ()
      ensures Valid() && world == INIT
    {
      spawnedProcesses := map[];
      nextVirtualPid := 0;
      world := INIT;
    }

    // spawnProcess, from taking the lock to returning. `child` is the object `new` returned.
    method SpawnProcess(child: Handle) returns (virtualPid: int)
      requires Valid() && child == world.spawned
      modifies this
      ensures Valid() && world == Apply(old(world), Spawn)
      ensures virtualPid == old(world.nextVirtualPid)
      ensures spawnedProcesses == old(spawnedProcesses)[virtualPid := child]
    {
      virtualPid := nextVirtualPid;
      nextVirtualPid := if nextVirtualPid == INT_MAX then -INT_MAX - 1 else nextVirtualPid + 1;
      if virtualPid == INT_MAX {
        nextVirtualPid := 0;
      }
      spawnedProcesses := spawnedProcesses[virtualPid := child];
      world := Apply(world, Spawn);
    }

    // The waiter thread's final locked section, with the id and object it captured.
    method ReapProcess(virtualPid: int, child: Handle)
      requires Valid() && Enabled(world, Reap(child)) && world.waiters[child].id == virtualPid
      modifies this
      ensures Valid() && world == Apply(old(world), Reap(child))
      ensures spawnedProcesses == old(spawnedProcesses) - {virtualPid}
    {
      spawnedProcesses := spawnedProcesses - {virtualPid};
      world := Apply(world, Reap(child));
    }

    // `target` is the object that `action` is called on, if any.
    method UpdateSpawnedProcess(id: int, eventType: string)
      returns (ok: bool, target: Option<Handle>, action: Option<Action>)
      requires Valid()
      ensures ok == UpdateResult(world, id, eventType)
      ensures (target.Some? <==> ok) && (action.Some? <==> ok)
      ensures ok ==> Touched(world, Update(id, eventType)) == {target.value}
      ensures ok ==>
        && (eventType == "exit" ==> action == Some(Kill))
        && (eventType == "stdIn" ==> action == Some(Write))
        && (eventType == "stdInEnd" ==> action == Some(CloseStdin))
    {
      if id !in spawnedProcesses {
        return false, None, None;
      }
      var child := spawnedProcesses[id];
      if eventType == "exit" {
        return true, Some(child), Some(Kill);
      } else if eventType == "stdIn" {
        return true, Some(child), Some(Write);
      } else if eventType == "stdInEnd" {
        return true, Some(child), Some(CloseStdin);
      }
      return false, None, None;
    }

    // getSpawnedProcesses lists the map in key order.
    method GetSpawnedProcesses() returns (listing: seq<(int, Handle)>)
      requires Valid()
      ensures forall i, j :: 0 <= i < j < |listing| ==> listing[i].0 < listing[j].0
      ensures forall i :: 0 <= i < |listing| ==>
                listing[i].0 in world.spawnedProcesses && listing[i].1 == world.spawnedProcesses[listing[i].0]
      ensures forall id :: id in world.spawnedProcesses ==> (id, world.spawnedProcesses[id]) in listing
    {
      listing := [];
      var rest := spawnedProcesses.Keys;
      while rest != {}
        invariant rest <= spawnedProcesses.Keys
        invariant forall i, j :: 0 <= i < j < |listing| ==> listing[i].0 < listing[j].0
        invariant forall i, id :: 0 <= i < |listing| && id in rest ==> listing[i].0 < id
        invariant forall i :: 0 <= i < |listing| ==>
                    listing[i].0 in spawnedProcesses && listing[i].1 == spawnedProcesses[listing[i].0]
        invariant forall id :: id in spawnedProcesses && id !in rest ==> (id, spawnedProcesses[id]) in listing
        decreases rest
      {
        SmallestExists(rest);
        var id :| id in rest && forall other :: other in rest ==> id <= other;
        listing := listing + [(id, spawnedProcesses[id])];
        rest := rest - {id};
      }
    }
  }
}
