// The tasks of a map-reduce job: their type, the files they read (one path per host), and the
// flag that marks a task as handed out.
module MapReduce {
  import opened Wrappers

  datatype TaskType = Map | Reduce

  /** `TaskType`'s `Display`. */
  function Display(t: TaskType): (s: string)
    ensures s == (if t.Map? then "MAP" else "REDUCE")
  {
    match t
    case Map => "MAP"
    case Reduce => "REDUCE"
  }

  function ParseTaskType(s: string): (r: Option<TaskType>)
    ensures r.Some? ==> Display(r.value) == s
  {
    if s == "MAP" then Some(Map) else if s == "REDUCE" then Some(Reduce) else None
  }

  /** The two types print differently, so the printed name gives the type back. */
  lemma DisplayRoundTrip(t: TaskType)
    ensures ParseTaskType(Display(t)) == Some(t)
  {
  }

  /** The hosts of a list of (host, path) pairs, in order. */
  function Hosts(files: seq<(string, string)>): (hs: seq<string>)
    ensures |hs| == |files| && forall i :: 0 <= i < |files| ==> hs[i] == files[i].0
  {
    seq(|files|, i requires 0 <= i < |files| => files[i].0)
  }

  predicate Distinct(hs: seq<string>) {
    forall i, j :: 0 <= i < j < |hs| ==> hs[i] != hs[j]
  }

  /** The map `Task::new` builds from the pairs, or nothing if some host comes twice. */
  function FilesMap(files: seq<(string, string)>): Option<map<string, string>>
    decreases |files|
  {
    if files == [] then Some(map[])
    else
      match FilesMap(files[..|files| - 1])
      case None => None
      case Some(m) =>
        var (h, p) := files[|files| - 1];
        if h in m then None else Some(m[h := p])
  }

  /** The map exists exactly when the hosts are distinct; it has those hosts as its keys and
    * maps each to its own path. */
  lemma {:induction false} FilesMapSpec(files: seq<(string, string)>)
    ensures FilesMap(files).Some? <==> Distinct(Hosts(files))
    ensures FilesMap(files).Some? ==>
      (forall h :: h in FilesMap(files).value <==> h in Hosts(files)) &&
      forall i :: 0 <= i < |files| ==> FilesMap(files).value[files[i].0] == files[i].1
    decreases |files|
  {
    if files != [] {
      var n := |files| - 1;
      var init := files[..n];
      FilesMapSpec(init);
      assert Hosts(files) == Hosts(init) + [files[n].0];
      DistinctSnoc(Hosts(init), files[n].0);
    }
  }

  /** One more host keeps the hosts distinct exactly when it is new. */
  lemma DistinctSnoc(hs: seq<string>, h: string)
    ensures Distinct(hs + [h]) <==> Distinct(hs) && h !in hs
  {
    var all := hs + [h];
    if h in hs {
      var k :| 0 <= k < |hs| && hs[k] == h;
      assert all[k] == all[|hs|];
    }
    if !Distinct(hs) {
      var i, j :| 0 <= i < j < |hs| && hs[i] == hs[j];
      assert all[i] == all[j];
    }
  }

  class Task {
    /** The flag is shared with whoever hands the task out; the type and files never change. */
    var isAllocated: bool
    const taskType: TaskType
    const taskFiles: map<string, string>

    constructor (isAllocated: bool, taskType: TaskType, taskFiles: map<string, string>)
      ensures this.isAllocated == isAllocated && this.taskType == taskType
      ensures this.taskFiles == taskFiles
    {
      this.isAllocated := isAllocated;
      this.taskType := taskType;
      this.taskFiles := taskFiles;
    }

    /** `clone`: a new task with the flag's value at the time of the call, and the same type and
      * files. */
    method Clone() returns (t: Task)
      ensures fresh(t) && t.isAllocated == isAllocated
      ensures t.taskType == taskType && t.taskFiles == taskFiles
    {
      t := new Task(isAllocated, taskType, taskFiles);
    }
  }

  /** `Task::new`: insert every pair; a host already present makes `unwrap_none` panic. The task
    * starts out not allocated. */
  method NewTask(taskType: TaskType, files: seq<(string, string)>) returns (r: Outcome<Task>)
    ensures r.Panics? <==> FilesMap(files).None?
    ensures r.Returns? ==>
      fresh(r.value) && !r.value.isAllocated && r.value.taskType == taskType &&
      Some(r.value.taskFiles) == FilesMap(files)
  {
    var m: map<string, string> := map[];
    var i := 0;
    while i < |files|
      invariant 0 <= i <= |files| && FilesMap(files[..i]) == Some(m)
    {
      assert files[..i + 1][..i] == files[..i];
      var (h, p) := files[i];
      if h in m {
        NoneStays(files, i + 1);
        return Panics("called `Option::unwrap_none()` on a `Some` value");
      }
      m := m[h := p];
      i := i + 1;
    }
    assert files[..i] == files;
    var t := new Task(false, taskType, m);
    return Returns(t);
  }

  /** Once a prefix has a repeated host, so has the whole list. */
  lemma NoneStays(files: seq<(string, string)>, n: nat)
    requires n <= |files| && FilesMap(files[..n]).None?
    ensures FilesMap(files).None?
    decreases |files| - n
  {
    if n < |files| {
      assert files[..n + 1][..n] == files[..n];
      NoneStays(files, n + 1);
    } else {
      assert files[..n] == files;
    }
  }

  datatype Job = MapJob(host: string, path: string) | ReduceJob(host: string, path: string)

  /** `get_file_location`: where a job's input lives, for either kind of job. */
  function FileLocation(j: Job): (loc: (string, string))
    ensures loc.0 == j.host && loc.1 == j.path
  {
    match j
    case MapJob(h, p) => (h, p)
    case ReduceJob(h, p) => (h, p)
  }
}
