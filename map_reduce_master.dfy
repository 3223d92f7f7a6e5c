// The master of a map-reduce job hands out input files, preferring a file stored on the host
// that asks. Its tables map each host to the paths still waiting there; handing one out pops it.
module MapReduceMaster {
  import opened Wrappers

  /** The requests the master answers; `Any` lets it pick the table. */
  datatype TaskType = Map | Reduce | Any

  /** What the master hands out: the requested type, the host that held the file, the path. */
  datatype Assignment = Assignment(taskType: TaskType, host: string, path: string)

  type Table = map<string, seq<string>>

  /** Which table a request draws from: its own, or for `Any` the map table when it lists more
    * hosts than the reduce table. */
  function UsesMapTable(t: TaskType, mapHosts: nat, reduceHosts: nat): (useMap: bool)
    ensures t.Map? ==> useMap
    ensures t.Reduce? ==> !useMap
    ensures t.Any? ==> (useMap <==> mapHosts > reduceHosts)
  {
    match t
    case Map => true
    case Reduce => false
    case Any => mapHosts > reduceHosts
  }

  predicate AllEmpty(tasks: Table) {
    forall h :: h in tasks ==> tasks[h] == []
  }

  /** The table after the last path of `h`'s list is taken. */
  function PopLast(tasks: Table, h: string): (r: Table)
    requires h in tasks && tasks[h] != []
    ensures r.Keys == tasks.Keys && |r[h]| == |tasks[h]| - 1
    ensures r[h] + [tasks[h][|tasks[h]| - 1]] == tasks[h]
    ensures forall g :: g in tasks && g != h ==> r[g] == tasks[g]
  {
    tasks[h := tasks[h][..|tasks[h]| - 1]]
  }

  class Master {
    var mapTasks: Table
    var reduceTasks: Table

    constructor (mapTasks: Table, reduceTasks: Table)
      ensures this.mapTasks == mapTasks && this.reduceTasks == reduceTasks
    {
      this.mapTasks := mapTasks;
      this.reduceTasks := reduceTasks;
    }

    /** `alloc_task`. The table's iteration order is `order`, which lists its hosts. The asking
      * host's own last path goes first; failing that, the first host in `order` with a path
      * left gives its last one; with no path left anywhere in the table there is no task. */
    method AllocTask(taskType: TaskType, host: string, order: seq<string>) returns (r: Option<Assignment>)
      requires forall h :: h in order <==>
        h in (if UsesMapTable(taskType, |mapTasks|, |reduceTasks|) then mapTasks else reduceTasks)
      modifies this
      ensures var useMap := UsesMapTable(taskType, old(|mapTasks|), old(|reduceTasks|));
        var before := if useMap then old(mapTasks) else old(reduceTasks);
        var after := if useMap then mapTasks else reduceTasks;
        (if useMap then reduceTasks == old(reduceTasks) else mapTasks == old(mapTasks)) &&
        (r.None? <==> AllEmpty(before)) &&
        (r.None? ==> after == before) &&
        (host in before && before[host] != [] ==> r.Some? && r.value.host == host) &&
        (r.Some? ==>
          r.value.taskType == taskType && r.value.host in before && before[r.value.host] != [] &&
          r.value.path == before[r.value.host][|before[r.value.host]| - 1] &&
          after == PopLast(before, r.value.host))
    {
      var useMap := UsesMapTable(taskType, |mapTasks|, |reduceTasks|);
      var tasks := if useMap then mapTasks else reduceTasks;
      r := None;
      if host in tasks && tasks[host] != [] {
        r := Some(Assignment(taskType, host, tasks[host][|tasks[host]| - 1]));
        tasks := PopLast(tasks, host);
      } else {
        ghost var before := tasks;
        var i := 0;
        while i < |order|
          invariant 0 <= i <= |order| && r.None? && tasks == before
          invariant forall j :: 0 <= j < i ==> order[j] in tasks ==> tasks[order[j]] == []
        {
          var h := order[i];
          if h in tasks && tasks[h] != [] {
            r := Some(Assignment(taskType, h, tasks[h][|tasks[h]| - 1]));
            tasks := PopLast(tasks, h);
            break;
          }
          i := i + 1;
        }
        if r.None? {
          forall g | g in tasks ensures tasks[g] == [] {
            assert g in order;
            var j :| 0 <= j < |order| && order[j] == g;
          }
        }
      }
      if useMap {
        mapTasks := tasks;
      } else {
        reduceTasks := tasks;
      }
    }
  }

  /** The paths waiting in a table, counted over the hosts in `hosts`. */
  function Waiting(tasks: Table, hosts: seq<string>): nat
    decreases |hosts|
  {
    if hosts == [] then 0
    else Waiting(tasks, hosts[1..]) + (if hosts[0] in tasks then |tasks[hosts[0]]| else 0)
  }

  /** Handing out a task lowers the number of waiting paths by exactly one (counted over any
    * list of distinct hosts that names the popped one). */
  lemma {:induction false} PopLowersWaiting(tasks: Table, h: string, hosts: seq<string>)
    requires h in tasks && tasks[h] != []
    requires h in hosts && forall i, j :: 0 <= i < j < |hosts| ==> hosts[i] != hosts[j]
    ensures Waiting(PopLast(tasks, h), hosts) + 1 == Waiting(tasks, hosts)
    decreases |hosts|
  {
    if hosts[0] == h {
      WaitingSame(tasks, PopLast(tasks, h), hosts[1..], h);
    } else {
      PopLowersWaiting(tasks, h, hosts[1..]);
    }
  }

  /** Hosts other than `h` count the same in both tables. */
  lemma {:induction false} WaitingSame(a: Table, b: Table, hosts: seq<string>, h: string)
    requires a.Keys == b.Keys && h !in hosts
    requires forall g :: g in a && g != h ==> a[g] == b[g]
    ensures Waiting(a, hosts) == Waiting(b, hosts)
    decreases |hosts|
  {
    if hosts != [] {
      WaitingSame(a, b, hosts[1..], h);
    }
  }
}
