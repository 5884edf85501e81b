/** The event queue of udevd as a transition system: what one kernel event, one pass of the
    queue manager, or one reaped child does to the two lists, the flags, the marker files under
    .udev/queue and .udev/failed, and a log of what happened so far.

    The class Daemon (Udevd.dfy) is the daemon itself and is proved to take exactly these steps;
    this module proves what holds in every run of them. */
module EventQueue {
  import opened Basics
  import PathCoding

  datatype Msg = Msg(seqnum: nat, action: string, devpath: string,
                     physdevpath: Option<string>, timeout: nat)

  /** A message on running_list, with the process that handles it. */
  datatype Child = Child(msg: Msg, pid: nat)

  datatype Entry =
    | Arrived(msg: Msg)
    | Started(msg: Msg)
    | Finished(msg: Msg, status: int)

  datatype Queue = Queue(
    exec: seq<Msg>, running: seq<Child>,
    runExecQ: bool, stopExecQ: bool, maxChilds: int, maxChildsRunning: int,
    queueDir: set<string>, failedDir: set<string>,
    throttled: bool, log: seq<Entry>)

  /** What the daemon reads from /proc and gets from fork during one pass, per event. */
  datatype Env = Env(session: nat -> int, fork: nat -> Option<nat>)

  datatype Action =
    | Uevent(msg: Msg, fork: Option<nat>)
    | Dispatch(procs: int, env: Env)
    | ChildExit(pid: nat, status: int)
    | StopExecQueue
    | StartExecQueue(procs: int, env: Env)
    | SetMaxChilds(n: int)
    | SetMaxChildsRunning(n: int)

  // ---------------------------------------------------------------- device paths

  /** 1 for the same path, 2 for an event on a parent of the waiting one, 3 for a child of it. */
  function CompareDevpath(running: string, waiting: string): nat {
    if |running| >= PATH_SIZE && |waiting| >= PATH_SIZE && running[..PATH_SIZE] == waiting[..PATH_SIZE] then 0
    else if running == waiting then 1
    else if running + "/" <= waiting then 2
    else if waiting + "/" <= running then 3
    else 0
  }

  predicate Related(a: string, b: string) {
    CompareDevpath(a, b) != 0
  }

  /** Equal, above or below; two paths that both exceed PATH_SIZE are not told apart from
      unrelated ones. */
  predicate Near(a: string, b: string) {
    (|a| < PATH_SIZE || |b| < PATH_SIZE) && (a == b || a + "/" <= b || b + "/" <= a)
  }

  lemma RelatedMeaning(a: string, b: string)
    ensures Related(a, b) <==> Near(a, b)
    ensures Near(a, b) ==> CompareDevpath(a, b) == if a == b then 1 else if a + "/" <= b then 2 else 3
  {
    if |a| >= PATH_SIZE && |b| >= PATH_SIZE && (a == b || a + "/" <= b || b + "/" <= a) {
      assert a[..PATH_SIZE] == b[..PATH_SIZE];
    }
  }

  lemma RelatedSymmetric(a: string, b: string)
    ensures Related(a, b) <==> Related(b, a)
  {
  }

  /** Does n have to finish before m may start? */
  predicate Blocks(n: Msg, m: Msg) {
    || Related(n.devpath, m.devpath)
    || (m.physdevpath.Some? && m.action == "add" && Related(n.devpath, m.physdevpath.value))
  }

  /** m waits for n: because of its own path, or for an "add" because of its physical device. */
  predicate WaitsFor(m: Msg, n: Msg) {
    || Near(n.devpath, m.devpath)
    || (m.action == "add" && m.physdevpath.Some? && Near(n.devpath, m.physdevpath.value))
  }

  lemma BlocksMeaning(n: Msg, m: Msg)
    ensures Blocks(n, m) <==> WaitsFor(m, n)
  {
    RelatedMeaning(n.devpath, m.devpath);
    if m.physdevpath.Some? {
      RelatedMeaning(n.devpath, m.physdevpath.value);
    }
    hide CompareDevpath, Near;
  }

  function BlockCode(n: Msg, m: Msg): nat {
    if Related(n.devpath, m.devpath) then 2 else if Blocks(n, m) then 3 else 0
  }

  // ---------------------------------------------------------------- devpath_busy

  function ExecBusy(exec: seq<Msg>, i: nat, m: Msg): nat
    decreases |exec| - i
  {
    if i >= |exec| || exec[i].seqnum >= m.seqnum then 0
    else if Blocks(exec[i], m) then BlockCode(exec[i], m)
    else ExecBusy(exec, i + 1, m)
  }

  function RunningBusy(running: seq<Child>, i: nat, m: Msg, limit: int): nat
    decreases |running| - i
  {
    if i >= |running| then 0
    else if limit != 0 && i > limit then 1
    else if Blocks(running[i].msg, m) then BlockCode(running[i].msg, m)
    else RunningBusy(running, i + 1, m, limit)
  }

  function Busy(q: Queue, m: Msg): nat {
    var e := ExecBusy(q.exec, 0, m);
    if e != 0 then e else RunningBusy(q.running, 0, m, q.maxChilds)
  }

  // ---------------------------------------------------------------- marker files

  predicate Pending(q: Queue, path: string) {
    || (exists i :: 0 <= i < |q.exec| && q.exec[i].devpath == path)
    || (exists i :: 0 <= i < |q.running| && q.running[i].msg.devpath == path)
  }

  predicate IsFailure(m: Msg, status: int) {
    status != 0 && m.action == "add"
  }

  function ExportQueued(q: Queue, m: Msg): Queue {
    var f := PathCoding.Encode(m.devpath);
    q.(failedDir := q.failedDir - {f}, queueDir := q.queueDir + {f})
  }

  function ExportFinished(q: Queue, m: Msg, failed: bool): Queue {
    var f := PathCoding.Encode(m.devpath);
    var q1 := q.(failedDir := q.failedDir - {f});
    if Pending(q1, m.devpath) then q1
    else if failed then
      q1.(queueDir := q1.queueDir - {f},
          failedDir := if f in q1.queueDir then q1.failedDir + {f} else q1.failedDir)
    else q1.(queueDir := q1.queueDir - {f})
  }

  // ---------------------------------------------------------------- steps

  function Logged(q: Queue, e: Entry): Queue {
    q.(log := q.log + [e])
  }

  /** msg_queue_delete, for a message that has left its list. */
  function Finish(q: Queue, m: Msg, status: int): Queue {
    Logged(ExportFinished(q, m, IsFailure(m, status)), Finished(m, status))
  }

  /** udev_event_run, for a message about to join running_list. */
  function Launch(q: Queue, m: Msg, fork: Option<nat>): (q': Queue)
    ensures q' == q.(running := q'.running, queueDir := q'.queueDir, failedDir := q'.failedDir, log := q'.log)
    ensures q'.running == if fork.Some? then q.running + [Child(m, fork.value)] else q.running
  {
    match fork
    case Some(pid) => Logged(q.(running := q.running + [Child(m, pid)]), Started(m))
    case None => Finish(q, m, 0)
  }

  function Insert(q: Queue, m: Msg, fork: Option<nat>): Queue {
    var q1 := ExportQueued(Logged(q, Arrived(m)), m);
    if m.timeout != 0 then Launch(q1, m, fork)
    else q1.(exec := q1.exec + [m], runExecQ := true)
  }

  /** The manager's loop with the first k queued events already passed over. */
  function Pass(q: Queue, k: nat, procs: int, env: Env): Queue
    requires k <= |q.exec|
    decreases |q.exec| - k
  {
    if k == |q.exec| then q
    else
      var m := q.exec[k];
      var procs1 := if procs >= q.maxChildsRunning then env.session(m.seqnum) else procs;
      if procs1 >= q.maxChildsRunning then q.(throttled := true)
      else if Busy(q, m) != 0 then Pass(q, k + 1, procs1, env)
      else Pass(Launch(q.(exec := Without(q.exec, k)), m, env.fork(m.seqnum)), k, procs1 + 1, env)
  }

  function Manager(q: Queue, procs: int, env: Env): Queue {
    if q.exec == [] then q
    else Pass(q.(throttled := false), 0, if procs < 0 then q.maxChildsRunning else procs, env)
  }

  /** Position of the child with this pid, or |running|. */
  function FindPid(running: seq<Child>, pid: nat): (i: nat)
    ensures i <= |running| && forall j :: 0 <= j < i ==> running[j].pid != pid
    ensures i < |running| ==> running[i].pid == pid
  {
    if running == [] then 0
    else if running[0].pid == pid then 0
    else 1 + FindPid(running[1..], pid)
  }

  function Reap(q: Queue, pid: nat, status: int): Queue {
    var i := FindPid(q.running, pid);
    if i == |q.running| then q
    else Finish(q.(running := Without(q.running, i)), q.running[i].msg, status).(runExecQ := true)
  }

  function Step(q: Queue, a: Action): Queue {
    match a
    case Uevent(m, fork) => Insert(q, m, fork)
    case Dispatch(procs, env) =>
      if !q.runExecQ then q
      else if q.stopExecQ then q.(runExecQ := false)
      else Manager(q.(runExecQ := false), procs, env)
    case ChildExit(pid, status) => Reap(q, pid, status)
    case StopExecQueue => q.(stopExecQ := true)
    case StartExecQueue(procs, env) => Manager(q.(stopExecQ := false), procs, env)
    case SetMaxChilds(n) => q.(maxChilds := n)
    case SetMaxChildsRunning(n) => q.(maxChildsRunning := n)
  }

  /** The kernel numbers its events in strictly increasing order. */
  predicate Newer(log: seq<Entry>, m: Msg) {
    forall i :: 0 <= i < |log| && log[i].Arrived? ==> log[i].msg.seqnum < m.seqnum
  }

  predicate Enabled(q: Queue, a: Action) {
    a.Uevent? ==> Newer(q.log, a.msg)
  }

  function Initial(maxChilds: int, maxChildsRunning: int): Queue {
    Queue([], [], false, false, maxChilds, maxChildsRunning, {}, {}, false, [])
  }

  function Run(q: Queue, actions: seq<Action>): Queue
    decreases |actions|
  {
    if actions == [] then q else Run(Step(q, actions[0]), actions[1..])
  }

  predicate LegalRun(q: Queue, actions: seq<Action>)
    decreases |actions|
  {
    actions != [] ==> Enabled(q, actions[0]) && LegalRun(Step(q, actions[0]), actions[1..])
  }

  // ---------------------------------------------------------------- the invariant

  function Msgs(running: seq<Child>): (r: seq<Msg>)
    ensures |r| == |running| && forall i :: 0 <= i < |r| ==> r[i] == running[i].msg
  {
    seq(|running|, i requires 0 <= i < |running| => running[i].msg)
  }

  /** m is queued, running, or (held) between two lists. */
  predicate Live(q: Queue, held: Option<Msg>, m: Msg) {
    m in q.exec || m in Msgs(q.running) || held == Some(m)
  }

  predicate DoneBefore(log: seq<Entry>, i: nat, n: Msg)
    requires i <= |log|
  {
    exists j :: 0 <= j < i && log[j].Finished? && log[j].msg == n
  }

  predicate HasArrived(log: seq<Entry>, n: Msg) {
    Arrived(n) in log
  }

  /** Nothing without a timeout starts before the earlier events it depends on are done. */
  ghost predicate Serialised(log: seq<Entry>) {
    forall i, n {:trigger log[i], HasArrived(log, n)} ::
      0 <= i < |log| && log[i].Started? && log[i].msg.timeout == 0 &&
      HasArrived(log, n) && n.timeout == 0 && n.seqnum < log[i].msg.seqnum && Blocks(n, log[i].msg)
      ==> DoneBefore(log, i, n)
  }

  /** A message without a timeout has nothing unfinished to wait for. */
  ghost predicate MayStart(log: seq<Entry>, m: Msg) {
    m.timeout == 0 ==>
      forall n :: HasArrived(log, n) && n.timeout == 0 && n.seqnum < m.seqnum && Blocks(n, m)
                  ==> DoneBefore(log, |log|, n)
  }

  ghost predicate Bookkeeping(q: Queue, held: Option<Msg>) {
    && (forall m :: Live(q, held, m) ==> HasArrived(q.log, m) && !DoneBefore(q.log, |q.log|, m))
    && (forall m :: HasArrived(q.log, m) ==> Live(q, held, m) || DoneBefore(q.log, |q.log|, m))
    && (forall i :: 0 <= i < |q.log| ==> HasArrived(q.log, q.log[i].msg))
    && (forall i :: 0 <= i < |q.running| ==> Started(q.running[i].msg) in q.log)
    && (forall m, n :: HasArrived(q.log, m) && HasArrived(q.log, n) && m.seqnum == n.seqnum ==> m == n)
  }

  ghost predicate Lists(q: Queue, held: Option<Msg>) {
    && (forall i, j :: 0 <= i < j < |q.exec| ==> q.exec[i].seqnum < q.exec[j].seqnum)
    && (forall i :: 0 <= i < |q.exec| ==> q.exec[i].timeout == 0 && q.exec[i] !in Msgs(q.running))
    && (forall i, j :: 0 <= i < j < |q.running| ==> q.running[i].msg != q.running[j].msg)
    && (held.Some? ==> held.value !in q.exec && held.value !in Msgs(q.running))
  }

  /** Was the last finished event for this path a failed "add"? */
  predicate LastFailed(log: seq<Entry>, path: string) {
    log != [] &&
    var e := log[|log| - 1];
    if e.Finished? && e.msg.devpath == path then e.status != 0 && e.msg.action == "add"
    else LastFailed(log[..|log| - 1], path)
  }

  predicate PendingOrHeld(q: Queue, held: Option<Msg>, path: string) {
    Pending(q, path) || (held.Some? && held.value.devpath == path)
  }

  ghost predicate Markers(q: Queue, held: Option<Msg>) {
    forall path {:trigger PathCoding.Encode(path)} ::
      && (PathCoding.Encode(path) in q.queueDir <==> PendingOrHeld(q, held, path))
      && (PathCoding.Encode(path) in q.failedDir <==>
            !PendingOrHeld(q, held, path) && LastFailed(q.log, path))
  }

  ghost predicate Inv(q: Queue, held: Option<Msg>) {
    Bookkeeping(q, held) && Lists(q, held) && Serialised(q.log) && Markers(q, held)
  }

  // ---------------------------------------------------------------- the invariant is kept

  lemma BlockedByExec(exec: seq<Msg>, i: nat, m: Msg)
    requires forall i, j :: 0 <= i < j < |exec| ==> exec[i].seqnum < exec[j].seqnum
    ensures ExecBusy(exec, i, m) != 0 <==>
            exists j :: i <= j < |exec| && exec[j].seqnum < m.seqnum && Blocks(exec[j], m)
    decreases |exec| - i
  {
    if i < |exec| && exec[i].seqnum < m.seqnum && !Blocks(exec[i], m) {
      BlockedByExec(exec, i + 1, m);
    }
  }

  lemma BlockedByRunning(running: seq<Child>, i: nat, m: Msg, limit: int)
    ensures RunningBusy(running, i, m, limit) != 0 <==>
            || (exists j :: i <= j < |running| && Blocks(running[j].msg, m))
            || (limit != 0 && i < |running| && limit + 1 < |running|)
    decreases |running| - i
  {
    if i < |running| && !(limit != 0 && i > limit) && !Blocks(running[i].msg, m) {
      BlockedByRunning(running, i + 1, m, limit);
    }
  }

  /** devpath_busy holds an event back exactly when it waits for an earlier queued event or for a
      running one, or when the list of running events is longer than the limit allows. */
  lemma BusyMeaning(q: Queue, m: Msg)
    requires forall i, j :: 0 <= i < j < |q.exec| ==> q.exec[i].seqnum < q.exec[j].seqnum
    ensures Busy(q, m) != 0 <==>
            || (exists j :: 0 <= j < |q.exec| && q.exec[j].seqnum < m.seqnum && WaitsFor(m, q.exec[j]))
            || (exists j :: 0 <= j < |q.running| && WaitsFor(m, q.running[j].msg))
            || (q.maxChilds != 0 && q.running != [] && q.maxChilds + 1 < |q.running|)
  {
    BusyBlocks(q, m);
    forall n
      ensures Blocks(n, m) <==> WaitsFor(m, n)
    {
      BlocksMeaning(n, m);
    }
    hide Busy, Blocks, WaitsFor;
  }

  lemma BusyBlocks(q: Queue, m: Msg)
    requires forall i, j :: 0 <= i < j < |q.exec| ==> q.exec[i].seqnum < q.exec[j].seqnum
    ensures Busy(q, m) != 0 <==>
            || (exists j :: 0 <= j < |q.exec| && q.exec[j].seqnum < m.seqnum && Blocks(q.exec[j], m))
            || (exists j :: 0 <= j < |q.running| && Blocks(q.running[j].msg, m))
            || (q.maxChilds != 0 && q.running != [] && q.maxChilds + 1 < |q.running|)
  {
    BlockedByExec(q.exec, 0, m);
    BlockedByRunning(q.running, 0, m, q.maxChilds);
  }

  /** What the code says: 1 if too many run, 2 if the event waits because of its own path, 3 if it
      waits because of its physical device. */
  predicate CodeMeans(code: nat, n: Msg, m: Msg) {
    if code == 2 then Near(n.devpath, m.devpath)
    else code == 3 && !Near(n.devpath, m.devpath) && WaitsFor(m, n)
  }

  lemma BlockCodeMeans(n: Msg, m: Msg)
    requires Blocks(n, m)
    ensures CodeMeans(BlockCode(n, m), n, m)
  {
    RelatedMeaning(n.devpath, m.devpath);
    BlocksMeaning(n, m);
    hide Near, CompareDevpath, WaitsFor;
  }

  lemma {:induction false} ExecCode(exec: seq<Msg>, i: nat, m: Msg)
    ensures var e := ExecBusy(exec, i, m);
            e != 0 ==> exists j :: i <= j < |exec| && CodeMeans(e, exec[j], m)
    decreases |exec| - i
  {
    if i < |exec| && exec[i].seqnum < m.seqnum {
      if Blocks(exec[i], m) {
        BlockCodeMeans(exec[i], m);
      } else {
        ExecCode(exec, i + 1, m);
      }
    }
    hide Blocks, BlockCode, CodeMeans;
  }

  lemma {:induction false} RunningCode(running: seq<Child>, i: nat, m: Msg, limit: int)
    ensures var e := RunningBusy(running, i, m, limit);
            e != 0 ==> || (e == 1 && limit != 0 && limit + 1 < |running|)
                       || exists j :: i <= j < |running| && CodeMeans(e, running[j].msg, m)
    decreases |running| - i
  {
    if i < |running| && !(limit != 0 && i > limit) {
      if Blocks(running[i].msg, m) {
        BlockCodeMeans(running[i].msg, m);
      } else {
        RunningCode(running, i + 1, m, limit);
      }
    }
    hide Blocks, BlockCode, CodeMeans;
  }

  lemma BusyCode(q: Queue, m: Msg)
    ensures var e := Busy(q, m);
            e != 0 ==> || (e == 1 && q.maxChilds != 0 && q.maxChilds + 1 < |q.running|)
                       || (exists j :: 0 <= j < |q.exec| && CodeMeans(e, q.exec[j], m))
                       || (exists j :: 0 <= j < |q.running| && CodeMeans(e, q.running[j].msg, m))
  {
    ExecCode(q.exec, 0, m);
    RunningCode(q.running, 0, m, q.maxChilds);
    hide CodeMeans;
  }

  lemma LogGrows(log: seq<Entry>, e: Entry)
    ensures forall n :: HasArrived(log + [e], n) <==> HasArrived(log, n) || e == Arrived(n)
    ensures forall i, n :: 0 <= i <= |log| ==> (DoneBefore(log + [e], i, n) <==> DoneBefore(log, i, n))
    ensures forall n :: DoneBefore(log + [e], |log| + 1, n) <==>
                        DoneBefore(log, |log|, n) || (e.Finished? && e.msg == n)
    ensures forall p :: LastFailed(log + [e], p) ==
                        if e.Finished? && e.msg.devpath == p then e.status != 0 && e.msg.action == "add" else LastFailed(log, p)
  {
    var log' := log + [e];
    assert log'[..|log|] == log;
    forall i, n | 0 <= i <= |log|
      ensures DoneBefore(log', i, n) <==> DoneBefore(log, i, n)
    {
      if DoneBefore(log, i, n) {
        var j :| 0 <= j < i && log[j].Finished? && log[j].msg == n;
        assert log'[j] == log[j];
      }
    }
    forall n
      ensures DoneBefore(log', |log| + 1, n) <==> DoneBefore(log, |log|, n) || (e.Finished? && e.msg == n)
    {
      assert log'[|log|] == e;
      if DoneBefore(log, |log|, n) {
        assert DoneBefore(log', |log|, n);
      }
      if DoneBefore(log', |log| + 1, n) && !(e.Finished? && e.msg == n) {
        var j :| 0 <= j < |log| + 1 && log'[j].Finished? && log'[j].msg == n;
        assert log[j] == log'[j];
      }
    }
  }

  /** Appending an entry keeps the order promise if the entry itself obeys it. */
  lemma SerialisedGrows(log: seq<Entry>, e: Entry)
    requires Serialised(log)
    requires forall i :: 0 <= i < |log| ==> HasArrived(log, log[i].msg)
    requires e.Arrived? ==> Newer(log, e.msg)
    requires e.Started? ==> MayStart(log, e.msg)
    ensures Serialised(log + [e])
  {
    LogGrows(log, e);
    var log' := log + [e];
    forall i, n | 0 <= i < |log'| && log'[i].Started? && log'[i].msg.timeout == 0 &&
                  HasArrived(log', n) && n.timeout == 0 && n.seqnum < log'[i].msg.seqnum && Blocks(n, log'[i].msg)
      ensures DoneBefore(log', i, n)
    {
      if i < |log| {
        assert log'[i] == log[i] && HasArrived(log, log[i].msg);
        var k :| 0 <= k < |log| && log[k] == Arrived(log[i].msg);
        assert HasArrived(log, n);
      }
    }
  }

  /** Moving a message between the lists changes neither who is live nor what is pending. */
  lemma Regroup(q: Queue, held: Option<Msg>, q': Queue, held': Option<Msg>)
    requires Inv(q, held)
    requires q'.log == q.log && q'.queueDir == q.queueDir && q'.failedDir == q.failedDir
    requires forall i :: 0 <= i < |q'.running| ==> q'.running[i] in q.running
    requires forall n :: Live(q', held', n) <==> Live(q, held, n)
    requires forall path :: PendingOrHeld(q', held', path) <==> PendingOrHeld(q, held, path)
    requires Lists(q', held')
    ensures Inv(q', held')
  {
  }

  lemma ArriveBooks(q: Queue, m: Msg, q': Queue)
    requires Bookkeeping(q, None) && Newer(q.log, m)
    requires q'.log == q.log + [Arrived(m)] && q'.exec == q.exec && q'.running == q.running
    ensures !HasArrived(q.log, m)
    ensures Bookkeeping(q', Some(m))
  {
    LogGrows(q.log, Arrived(m));
    forall n | HasArrived(q.log, n)
      ensures n.seqnum < m.seqnum
    {
      var k :| 0 <= k < |q.log| && q.log[k] == Arrived(n);
    }
    forall n
      ensures Live(q', Some(m), n) <==> Live(q, None, n) || n == m
    {
    }
    assert forall i :: 0 <= i < |q.log| ==> q'.log[i] == q.log[i] && HasArrived(q.log, q.log[i].msg);
    forall n
      ensures DoneBefore(q'.log, |q'.log|, n) <==> DoneBefore(q.log, |q.log|, n)
    {
    }
  }

  lemma ArriveKeeps(q: Queue, m: Msg)
    requires Inv(q, None) && Newer(q.log, m)
    ensures Inv(ExportQueued(Logged(q, Arrived(m)), m), Some(m))
  {
    LogGrows(q.log, Arrived(m));
    SerialisedGrows(q.log, Arrived(m));
    var q' := ExportQueued(Logged(q, Arrived(m)), m);
    ArriveBooks(q, m, q');
    assert !Live(q, None, m);
    assert Lists(q', Some(m));
    ArriveMarkers(q, m);
  }

  lemma ArriveMarkers(q: Queue, m: Msg)
    requires Markers(q, None)
    ensures Markers(ExportQueued(Logged(q, Arrived(m)), m), Some(m))
  {
    LogGrows(q.log, Arrived(m));
    var q' := ExportQueued(Logged(q, Arrived(m)), m);
    forall path
      ensures PathCoding.Encode(path) in q'.queueDir <==> PendingOrHeld(q', Some(m), path)
      ensures PathCoding.Encode(path) in q'.failedDir <==> !PendingOrHeld(q', Some(m), path) && LastFailed(q'.log, path)
    {
      PathCoding.EncodeInjective(path, m.devpath);
      assert Pending(q', path) == Pending(q, path) == PendingOrHeld(q, None, path);
    }
  }

  lemma EnqueueKeeps(q: Queue, m: Msg)
    requires Inv(q, Some(m)) && m.timeout == 0
    requires forall i :: 0 <= i < |q.exec| ==> q.exec[i].seqnum < m.seqnum
    ensures Inv(q.(exec := q.exec + [m], runExecQ := true), None)
  {
    var q' := q.(exec := q.exec + [m], runExecQ := true);
    forall n
      ensures Live(q', None, n) <==> Live(q, Some(m), n)
    {
    }
    forall path
      ensures PendingOrHeld(q', None, path) <==> PendingOrHeld(q, Some(m), path)
    {
      if Pending(q, path) {
        if i :| 0 <= i < |q.exec| && q.exec[i].devpath == path {
          assert q'.exec[i].devpath == path;
        }
      }
      assert q'.exec[|q.exec|] == m;
    }
  }

  lemma StartLists(q: Queue, m: Msg, pid: nat, q': Queue)
    requires Bookkeeping(q, Some(m)) && Lists(q, Some(m))
    requires q' == q.(running := q.running + [Child(m, pid)], log := q.log + [Started(m)])
    ensures forall n :: Live(q', None, n) <==> Live(q, Some(m), n)
    ensures Bookkeeping(q', None) && Lists(q', None)
  {
    assert Msgs(q'.running) == Msgs(q.running) + [m];
    assert forall i :: 0 <= i < |q.running| ==> q.running[i].msg == Msgs(q.running)[i];
    assert Lists(q', None);
    hide Lists;
    forall n
      ensures Live(q', None, n) <==> Live(q, Some(m), n)
    {
    }
    LogGrows(q.log, Started(m));
    assert HasArrived(q.log, m) by {
      assert Live(q, Some(m), m);
    }
    assert forall i :: 0 <= i < |q.log| ==> q'.log[i] == q.log[i];
    assert q'.log[|q.log|] == Started(m);
    hide Live, DoneBefore, HasArrived;
  }

  lemma StartKeeps(q: Queue, m: Msg, pid: nat)
    requires Inv(q, Some(m))
    requires MayStart(q.log, m)
    ensures Inv(Launch(q, m, Some(pid)), None)
  {
    LogGrows(q.log, Started(m));
    SerialisedGrows(q.log, Started(m));
    var q' := Launch(q, m, Some(pid));
    StartLists(q, m, pid, q');
    SameLiveSamePending(q, Some(m), q', None);
    assert Markers(q', None);
  }

  lemma FinishBooks(q: Queue, m: Msg, status: int, q': Queue)
    requires Bookkeeping(q, Some(m)) && Lists(q, Some(m))
    requires q'.log == q.log + [Finished(m, status)] && q'.exec == q.exec && q'.running == q.running
    ensures HasArrived(q.log, m)
    ensures Bookkeeping(q', None)
  {
    LogGrows(q.log, Finished(m, status));
    assert Live(q, Some(m), m) && !Live(q, None, m);
    forall n
      ensures Live(q', None, n) <==> Live(q, Some(m), n) && n != m
    {
    }
    assert forall i :: 0 <= i < |q.log| ==> q'.log[i] == q.log[i] && HasArrived(q.log, q.log[i].msg);
  }

  lemma FinishMarkers(q: Queue, m: Msg, status: int)
    requires Markers(q, Some(m))
    ensures Markers(Finish(q, m, status), None)
  {
    LogGrows(q.log, Finished(m, status));
    var q' := Finish(q, m, status);
    var f := PathCoding.Encode(m.devpath);
    var q1 := q.(failedDir := q.failedDir - {f});
    assert Pending(q1, m.devpath) == Pending(q, m.devpath) == Pending(q', m.devpath);
    assert f in q.queueDir by {
      assert PendingOrHeld(q, Some(m), m.devpath);
    }
    forall path
      ensures PathCoding.Encode(path) in q'.queueDir <==> PendingOrHeld(q', None, path)
      ensures PathCoding.Encode(path) in q'.failedDir <==> !PendingOrHeld(q', None, path) && LastFailed(q'.log, path)
    {
      PathCoding.EncodeInjective(path, m.devpath);
      assert Pending(q', path) == Pending(q, path);
    }
  }

  lemma FinishKeeps(q: Queue, m: Msg, status: int)
    requires Inv(q, Some(m))
    ensures Inv(Finish(q, m, status), None)
  {
    var q' := Finish(q, m, status);
    FinishBooks(q, m, status, q');
    FinishMarkers(q, m, status);
    SerialisedGrows(q.log, Finished(m, status));
    assert Lists(q', None);
  }

  lemma InWithout<T>(s: seq<T>, k: nat, x: T)
    requires k < |s|
    ensures x in s <==> x in Without(s, k) || x == s[k]
  {
    if x in s {
      var i :| 0 <= i < |s| && s[i] == x;
      assert i != k ==> Without(s, k)[if i < k then i else i - 1] == x;
    }
    if x in Without(s, k) {
      var i :| 0 <= i < |s| - 1 && Without(s, k)[i] == x;
      assert s[if i < k then i else i + 1] == x;
    }
  }

  lemma MsgsWithout(running: seq<Child>, k: nat)
    requires k < |running|
    ensures Msgs(Without(running, k)) == Without(Msgs(running), k)
  {
  }

  /** Pending, said with membership in the lists. */
  lemma PendingIn(q: Queue, path: string)
    ensures Pending(q, path) <==> exists m :: (m in q.exec || m in Msgs(q.running)) && m.devpath == path
  {
    if i :| 0 <= i < |q.exec| && q.exec[i].devpath == path {
      assert q.exec[i] in q.exec;
    }
    if i :| 0 <= i < |q.running| && q.running[i].msg.devpath == path {
      assert Msgs(q.running)[i] in Msgs(q.running);
    }
  }

  lemma SameLiveSamePending(q: Queue, held: Option<Msg>, q': Queue, held': Option<Msg>)
    requires forall n :: Live(q', held', n) <==> Live(q, held, n)
    ensures forall path :: PendingOrHeld(q', held', path) <==> PendingOrHeld(q, held, path)
  {
    forall path
      ensures PendingOrHeld(q', held', path) <==> PendingOrHeld(q, held, path)
    {
      PendingIn(q, path);
      PendingIn(q', path);
      if PendingOrHeld(q, held, path) {
        var m :| Live(q, held, m) && m.devpath == path;
        assert Live(q', held', m);
      }
      if PendingOrHeld(q', held', path) {
        var m :| Live(q', held', m) && m.devpath == path;
        assert Live(q, held, m);
      }
    }
  }

  lemma TakeQueued(q: Queue, k: nat)
    requires Inv(q, None) && k < |q.exec|
    ensures Inv(q.(exec := Without(q.exec, k)), Some(q.exec[k]))
  {
    var m, exec' := q.exec[k], Without(q.exec, k);
    var q' := q.(exec := exec');
    forall n
      ensures Live(q', Some(m), n) <==> Live(q, None, n)
    {
      InWithout(q.exec, k, n);
    }
    SameLiveSamePending(q, None, q', Some(m));
    assert forall i :: 0 <= i < |exec'| ==> exec'[i] == q.exec[if i < k then i else i + 1];
    assert Lists(q', Some(m));
    Regroup(q, None, q', Some(m));
  }

  lemma TakeRunningLists(q: Queue, k: nat)
    requires Lists(q, None) && k < |q.running|
    ensures Lists(q.(running := Without(q.running, k)), Some(q.running[k].msg))
  {
    var m, running' := q.running[k].msg, Without(q.running, k);
    MsgsWithout(q.running, k);
    forall n
      ensures n in Msgs(q.running) <==> n in Msgs(running') || n == m
    {
      InWithout(Msgs(q.running), k, n);
    }
    assert forall i :: 0 <= i < |running'| ==> running'[i] == q.running[if i < k then i else i + 1];
  }

  lemma TakeRunning(q: Queue, k: nat)
    requires Inv(q, None) && k < |q.running|
    ensures Inv(q.(running := Without(q.running, k)), Some(q.running[k].msg))
  {
    hide Lists, Bookkeeping, Markers, Serialised;
    var m, running' := q.running[k].msg, Without(q.running, k);
    var q' := q.(running := running');
    MsgsWithout(q.running, k);
    forall n
      ensures Live(q', Some(m), n) <==> Live(q, None, n)
    {
      InWithout(Msgs(q.running), k, n);
    }
    SameLiveSamePending(q, None, q', Some(m));
    TakeRunningLists(q, k);
    assert forall i :: 0 <= i < |running'| ==> running'[i] == q.running[if i < k then i else i + 1];
    Regroup(q, None, q', Some(m));
  }

  // ---------------------------------------------------------------- a pass and a step

  lemma LaunchKeeps(q: Queue, m: Msg, fork: Option<nat>)
    requires Inv(q, Some(m))
    requires MayStart(q.log, m)
    ensures Inv(Launch(q, m, fork), None)
  {
    match fork {
      case Some(pid) => StartKeeps(q, m, pid);
      case None => FinishKeeps(q, m, 0);
    }
  }

  /** An event that is not busy has nothing unfinished to wait for. */
  lemma NotBusyMayStart(q: Queue, k: nat, n: Msg)
    requires Inv(q, None) && k < |q.exec| && Busy(q, q.exec[k]) == 0
    requires HasArrived(q.log, n) && n.seqnum < q.exec[k].seqnum && Blocks(n, q.exec[k])
    ensures DoneBefore(q.log, |q.log|, n)
  {
    BusyBlocks(q, q.exec[k]);
    assert forall j :: 0 <= j < |q.running| ==> q.running[j].msg != n;
    assert !Live(q, None, n);
  }

  lemma LaunchQueuedKeeps(q: Queue, k: nat, fork: Option<nat>)
    requires Inv(q, None) && k < |q.exec| && Busy(q, q.exec[k]) == 0
    ensures Inv(Launch(q.(exec := Without(q.exec, k)), q.exec[k], fork), None)
  {
    TakeQueued(q, k);
    forall n | HasArrived(q.log, n) && n.seqnum < q.exec[k].seqnum && Blocks(n, q.exec[k])
      ensures DoneBefore(q.log, |q.log|, n)
    {
      NotBusyMayStart(q, k, n);
    }
    LaunchKeeps(q.(exec := Without(q.exec, k)), q.exec[k], fork);
  }

  lemma FlagsKeep(q: Queue, q': Queue)
    requires Inv(q, None)
    requires q'.exec == q.exec && q'.running == q.running && q'.log == q.log
    requires q'.queueDir == q.queueDir && q'.failedDir == q.failedDir
    ensures Inv(q', None)
  {
    forall n
      ensures Live(q', None, n) <==> Live(q, None, n)
    {
    }
    SameLiveSamePending(q, None, q', None);
    Regroup(q, None, q', None);
  }

  lemma {:induction false} PassKeeps(q: Queue, k: nat, procs: int, env: Env)
    requires Inv(q, None) && k <= |q.exec|
    ensures Inv(Pass(q, k, procs, env), None)
    decreases |q.exec| - k
  {
    hide Inv, Busy, Launch;
    if k < |q.exec| {
      var m := q.exec[k];
      var procs1 := if procs >= q.maxChildsRunning then env.session(m.seqnum) else procs;
      if procs1 >= q.maxChildsRunning {
        FlagsKeep(q, q.(throttled := true));
      } else if Busy(q, m) != 0 {
        PassKeeps(q, k + 1, procs1, env);
      } else {
        LaunchQueuedKeeps(q, k, env.fork(m.seqnum));
        PassKeeps(Launch(q.(exec := Without(q.exec, k)), m, env.fork(m.seqnum)), k, procs1 + 1, env);
      }
    }
  }

  lemma ManagerKeeps(q: Queue, procs: int, env: Env)
    requires Inv(q, None)
    ensures Inv(Manager(q, procs, env), None)
  {
    FlagsKeep(q, q.(throttled := false));
    if q.exec != [] {
      PassKeeps(q.(throttled := false), 0, if procs < 0 then q.maxChildsRunning else procs, env);
    }
  }

  lemma InsertKeeps(q: Queue, m: Msg, fork: Option<nat>)
    requires Inv(q, None) && Newer(q.log, m)
    ensures Inv(Insert(q, m, fork), None)
  {
    ArriveKeeps(q, m);
    var q1 := ExportQueued(Logged(q, Arrived(m)), m);
    if m.timeout != 0 {
      LaunchKeeps(q1, m, fork);
    } else {
      forall i | 0 <= i < |q.exec|
        ensures q.exec[i].seqnum < m.seqnum
      {
        assert Live(q, None, q.exec[i]);
        assert HasArrived(q.log, q.exec[i]);
        var k :| 0 <= k < |q.log| && q.log[k] == Arrived(q.exec[i]);
      }
      EnqueueKeeps(q1, m);
    }
  }

  lemma ReapKeeps(q: Queue, pid: nat, status: int)
    requires Inv(q, None)
    ensures Inv(Reap(q, pid, status), None)
  {
    var i := FindPid(q.running, pid);
    if i < |q.running| {
      TakeRunning(q, i);
      var q1 := q.(running := Without(q.running, i));
      FinishKeeps(q1, q.running[i].msg, status);
      FlagsKeep(Finish(q1, q.running[i].msg, status), Reap(q, pid, status));
    }
  }

  lemma StepKeeps(q: Queue, a: Action)
    requires Inv(q, None) && Enabled(q, a)
    ensures Inv(Step(q, a), None)
  {
    match a {
      case Uevent(m, fork) => InsertKeeps(q, m, fork);
      case Dispatch(procs, env) =>
        FlagsKeep(q, q.(runExecQ := false));
        ManagerKeeps(q.(runExecQ := false), procs, env);
      case ChildExit(pid, status) => ReapKeeps(q, pid, status);
      case StartExecQueue(procs, env) =>
        FlagsKeep(q, q.(stopExecQ := false));
        ManagerKeeps(q.(stopExecQ := false), procs, env);
      case _ => FlagsKeep(q, Step(q, a));
    }
  }

  lemma {:induction false} RunKeeps(q: Queue, actions: seq<Action>)
    requires Inv(q, None) && LegalRun(q, actions)
    ensures Inv(Run(q, actions), None)
    decreases |actions|
  {
    if actions != [] {
      StepKeeps(q, actions[0]);
      RunKeeps(Step(q, actions[0]), actions[1..]);
    }
  }

  // ---------------------------------------------------------------- theorems about every run

  /** Every event is serialised against the earlier events on the same, a parent or a child
      path (and, for an "add", on its physical device): whenever the later one starts, the
      earlier one has finished. */
  lemma EventsAreSerialised(maxChilds: int, maxChildsRunning: int, actions: seq<Action>, i: nat, n: Msg)
    requires LegalRun(Initial(maxChilds, maxChildsRunning), actions)
    requires var log := Run(Initial(maxChilds, maxChildsRunning), actions).log;
             i < |log| && log[i].Started? && log[i].msg.timeout == 0 &&
             Arrived(n) in log && n.timeout == 0 && n.seqnum < log[i].msg.seqnum
    requires |n.devpath| < PATH_SIZE
    requires var m := Run(Initial(maxChilds, maxChildsRunning), actions).log[i].msg;
             || n.devpath == m.devpath || n.devpath + "/" <= m.devpath || m.devpath + "/" <= n.devpath
             || (m.action == "add" && m.physdevpath.Some? &&
                 var p := m.physdevpath.value;
                 n.devpath == p || n.devpath + "/" <= p || p + "/" <= n.devpath)
    ensures var log := Run(Initial(maxChilds, maxChildsRunning), actions).log;
            exists j :: 0 <= j < i && log[j].Finished? && log[j].msg == n
  {
    RunKeeps(Initial(maxChilds, maxChildsRunning), actions);
    var log := Run(Initial(maxChilds, maxChildsRunning), actions).log;
    BlocksMeaning(n, log[i].msg);
    assert HasArrived(log, n);
    hide Blocks, WaitsFor;
    assert DoneBefore(log, i, n);
  }

  /** No event without timeout is ever on the running list together with an earlier one that it
      waits for: none on the same, a parent or a child path, and no "add" with its physical
      device. */
  lemma NeverRunTogether(maxChilds: int, maxChildsRunning: int, actions: seq<Action>, i: nat, j: nat)
    requires LegalRun(Initial(maxChilds, maxChildsRunning), actions)
    requires var running := Run(Initial(maxChilds, maxChildsRunning), actions).running;
             && i < |running| && j < |running| && i != j && |running[i].msg.devpath| < PATH_SIZE
             && running[i].msg.timeout == 0 && running[j].msg.timeout == 0
    ensures var running := Run(Initial(maxChilds, maxChildsRunning), actions).running;
            var n, m := running[i].msg, running[j].msg;
            && !(n.devpath == m.devpath || n.devpath + "/" <= m.devpath || m.devpath + "/" <= n.devpath)
            && (n.seqnum < m.seqnum && m.action == "add" && m.physdevpath.Some? ==>
                  var p := m.physdevpath.value;
                  !(n.devpath == p || n.devpath + "/" <= p || p + "/" <= n.devpath))
  {
    RunKeeps(Initial(maxChilds, maxChildsRunning), actions);
    var q := Run(Initial(maxChilds, maxChildsRunning), actions);
    var n, m := q.running[i].msg, q.running[j].msg;
    NeverTogether(q, i, j);
    BlocksMeaning(n, m);
    BlocksMeaning(m, n);
    hide Inv, Blocks;
  }

  lemma NeverTogether(q: Queue, i: nat, j: nat)
    requires Inv(q, None) && i < |q.running| && j < |q.running| && i != j
    requires q.running[i].msg.timeout == 0 && q.running[j].msg.timeout == 0
    ensures var n, m := q.running[i].msg, q.running[j].msg;
            n.seqnum != m.seqnum && (if n.seqnum < m.seqnum then !Blocks(n, m) else !Blocks(m, n))
  {
    var x, y := q.running[i].msg, q.running[j].msg;
    assert x == Msgs(q.running)[i] && y == Msgs(q.running)[j];
    assert Live(q, None, x) && Live(q, None, y);
    assert x != y;
    assert x.seqnum != y.seqnum;
    hide Blocks;
    var m, n := if x.seqnum < y.seqnum then y else x, if x.seqnum < y.seqnum then x else y;
    var k :| 0 <= k < |q.log| && q.log[k] == Started(m);
    assert !DoneBefore(q.log, |q.log|, n);
    assert !DoneBefore(q.log, k, n);
    assert HasArrived(q.log, n);
  }

  /** Between operations the queue directory holds a marker for a path exactly when an event for
      it is queued or running; the failed directory holds one exactly when none is and the last
      event finished for the path was a failed "add". */
  lemma MarkersAreExact(maxChilds: int, maxChildsRunning: int, actions: seq<Action>, path: string)
    requires LegalRun(Initial(maxChilds, maxChildsRunning), actions)
    ensures var q := Run(Initial(maxChilds, maxChildsRunning), actions);
            && (PathCoding.Encode(path) in q.queueDir <==> Pending(q, path))
            && (PathCoding.Encode(path) in q.failedDir <==> !Pending(q, path) && LastFailed(q.log, path))
  {
    RunKeeps(Initial(maxChilds, maxChildsRunning), actions);
    var q := Run(Initial(maxChilds, maxChildsRunning), actions);
    assert PendingOrHeld(q, None, path) == Pending(q, path);
  }

  // ---------------------------------------------------------------- what one pass achieves

  predicate AllBusy(q: Queue, k: nat)
    requires k <= |q.exec|
  {
    forall i :: 0 <= i < k ==> Busy(q, q.exec[i]) != 0
  }

  lemma BusyStays(q: Queue, q': Queue, k: nat)
    requires Inv(q, None) && Inv(q', None) && k <= |q.exec| && k <= |q'.exec|
    requires q'.exec[..k] == q.exec[..k] && q.running <= q'.running && q'.maxChilds == q.maxChilds
    requires AllBusy(q, k)
    ensures AllBusy(q', k)
  {
    assert forall j :: 0 <= j < k ==> q'.exec[j] == q.exec[..k][j] == q.exec[j];
    forall i | 0 <= i < k
      ensures Busy(q', q'.exec[i]) != 0
    {
      StaysBlocked(q, q', i);
    }
  }

  lemma ExecOrdered(q: Queue, i: nat, j: nat)
    requires Inv(q, None) && i < |q.exec| && j < |q.exec| && q.exec[j].seqnum < q.exec[i].seqnum
    ensures j < i
  {
  }

  /** What holds an event back goes on doing so while earlier events stay and children are added. */
  lemma StaysBlocked(q: Queue, q': Queue, i: nat)
    requires Inv(q, None) && Inv(q', None) && i < |q.exec| && i < |q'.exec|
    requires forall j :: 0 <= j <= i ==> q'.exec[j] == q.exec[j]
    requires q.running <= q'.running && q'.maxChilds == q.maxChilds && Busy(q, q.exec[i]) != 0
    ensures Busy(q', q'.exec[i]) != 0
  {
    var m := q.exec[i];
    BusyBlocks(q, m);
    BusyBlocks(q', m);
    hide Busy, Bookkeeping, Serialised, Markers;
    if j :| 0 <= j < |q.exec| && q.exec[j].seqnum < m.seqnum && Blocks(q.exec[j], m) {
      ExecOrdered(q, i, j);
      assert q'.exec[j].seqnum < m.seqnum && Blocks(q'.exec[j], m);
    } else if j :| 0 <= j < |q.running| && Blocks(q.running[j].msg, m) {
      assert Blocks(q'.running[j].msg, m);
    }
  }

  lemma {:induction false} PassEffect(q: Queue, k: nat, procs: int, env: Env)
    requires Inv(q, None) && k <= |q.exec| && AllBusy(q, k) && !q.throttled
    ensures var q' := Pass(q, k, procs, env);
            && q.running <= q'.running
            && (!q'.throttled ==> AllBusy(q', |q'.exec|))
            && q'.runExecQ == q.runExecQ && q'.stopExecQ == q.stopExecQ && q'.maxChilds == q.maxChilds
    decreases |q.exec| - k
  {
    hide Inv, Busy, Launch;
    if k < |q.exec| {
      var m := q.exec[k];
      var procs1 := if procs >= q.maxChildsRunning then env.session(m.seqnum) else procs;
      if procs1 >= q.maxChildsRunning {
      } else if Busy(q, m) != 0 {
        PassEffect(q, k + 1, procs1, env);
      } else {
        LaunchQueuedKeeps(q, k, env.fork(m.seqnum));
        var q1 := Launch(q.(exec := Without(q.exec, k)), m, env.fork(m.seqnum));
        assert q1.exec[..k] == q.exec[..k];
        BusyStays(q, q1, k);
        PassEffect(q1, k, procs1 + 1, env);
      }
    }
  }

  /** After a pass that was not throttled, whatever the forks did, each event still queued is
      held back by devpath_busy; and a queue that is not empty has an event running. */
  lemma PassLeavesOnlyBusy(q: Queue, procs: int, env: Env)
    requires Inv(q, None)
    ensures var q' := Manager(q, procs, env);
            !q'.throttled && q.exec != [] ==>
              && (forall i :: 0 <= i < |q'.exec| ==> Busy(q', q'.exec[i]) != 0)
              && (q'.exec != [] ==> q'.running != [])
  {
    var q' := Manager(q, procs, env);
    FlagsKeep(q, q.(throttled := false));
    ManagerKeeps(q, procs, env);
    if q.exec != [] {
      PassEffect(q.(throttled := false), 0, if procs < 0 then q.maxChildsRunning else procs, env);
      if q'.exec != [] && !q'.throttled {
        BusyBlocks(q', q'.exec[0]);
        assert Busy(q', q'.exec[0]) != 0;
        assert forall j :: 0 < j < |q'.exec| ==> q'.exec[0].seqnum < q'.exec[j].seqnum;
      }
    }
  }

  lemma FirstIsFree(q: Queue)
    requires Inv(q, None) && q.running == [] && q.exec != []
    ensures Busy(q, q.exec[0]) == 0
  {
    BusyBlocks(q, q.exec[0]);
    assert forall j :: 0 < j < |q.exec| ==> q.exec[0].seqnum < q.exec[j].seqnum;
  }

  /** If nothing was running, the pass was not throttled and the fork succeeded, the oldest
      queued event is the first to run. */
  lemma OldestIsStarted(q: Queue, procs: int, env: Env)
    requires Inv(q, None) && q.running == [] && q.exec != []
    requires !Manager(q, procs, env).throttled && env.fork(q.exec[0].seqnum).Some?
    ensures var q' := Manager(q, procs, env);
            q'.running != [] && q'.running[0] == Child(q.exec[0], env.fork(q.exec[0].seqnum).value)
  {
    hide Inv, Busy, Launch;
    var q0 := q.(throttled := false);
    FlagsKeep(q, q0);
    var procs0 := if procs < 0 then q.maxChildsRunning else procs;
    var m := q.exec[0];
    FirstIsFree(q0);
    var procs1 := if procs0 >= q0.maxChildsRunning then env.session(m.seqnum) else procs0;
    assert procs1 < q0.maxChildsRunning;
    var q1 := Launch(q0.(exec := Without(q0.exec, 0)), m, env.fork(m.seqnum));
    LaunchQueuedKeeps(q0, 0, env.fork(m.seqnum));
    PassEffect(q1, 0, procs1 + 1, env);
    assert q1.running[0] == Child(m, env.fork(m.seqnum).value);
  }

  /** A pass by the pending flag or by a start message, whatever stopped the queue before. */
  lemma QueueResumes(q: Queue, a: Action)
    requires Inv(q, None) && q.exec != []
    requires a.StartExecQueue? || (a.Dispatch? && q.runExecQ && !q.stopExecQ)
    ensures var q' := Step(q, a);
            && !q'.stopExecQ
            && (!q'.throttled ==> forall i :: 0 <= i < |q'.exec| ==> Busy(q', q'.exec[i]) != 0)
  {
    var q0 := if a.Dispatch? then q.(runExecQ := false) else q.(stopExecQ := false);
    FlagsKeep(q, q0);
    PassLeavesOnlyBusy(q0, a.procs, a.env);
    FlagsKeep(q0, q0.(throttled := false));
    PassEffect(q0.(throttled := false), 0, if a.procs < 0 then q.maxChildsRunning else a.procs, a.env);
    hide Inv, Busy, Pass;
  }

  predicate StartsNothing(a: Action) {
    !a.StartExecQueue? && (a.Uevent? ==> a.msg.timeout == 0)
  }

  lemma StoppedStep(q: Queue, a: Action)
    requires q.stopExecQ && StartsNothing(a)
    ensures var q' := Step(q, a);
            q'.stopExecQ && q.exec <= q'.exec && forall m :: Started(m) in q'.log ==> Started(m) in q.log
  {
    hide Pending;
  }

  lemma {:induction false} StaysStopped(q: Queue, actions: seq<Action>)
    requires q.stopExecQ && forall i :: 0 <= i < |actions| ==> StartsNothing(actions[i])
    ensures var q' := Run(q, actions);
            q'.stopExecQ && q.exec <= q'.exec && forall m :: Started(m) in q'.log ==> Started(m) in q.log
    decreases |actions|
  {
    if actions != [] {
      StoppedStep(q, actions[0]);
      hide Step;
      assert StartsNothing(actions[0]);
      StaysStopped(Step(q, actions[0]), actions[1..]);
    }
  }

  /** From a stop message on nothing starts, and nothing leaves the queue, until a start message
      or an event with a timeout comes. */
  lemma StoppedQueueWaits(q: Queue, actions: seq<Action>)
    requires forall i :: 0 <= i < |actions| ==> StartsNothing(actions[i])
    ensures var q' := Run(Step(q, StopExecQueue), actions);
            q.exec <= q'.exec && forall m :: Started(m) in q'.log ==> Started(m) in q.log
  {
    var q1 := Step(q, StopExecQueue);
    assert q1.stopExecQ && q1.exec == q.exec && q1.log == q.log;
    hide Step, Run, StartsNothing;
    StaysStopped(q1, actions);
  }

  lemma {:induction false} LimitsStay(q: Queue, actions: seq<Action>)
    ensures (forall i :: 0 <= i < |actions| ==> !actions[i].SetMaxChilds?) ==>
              Run(q, actions).maxChilds == q.maxChilds
    ensures (forall i :: 0 <= i < |actions| ==> !actions[i].SetMaxChildsRunning?) ==>
              Run(q, actions).maxChildsRunning == q.maxChildsRunning
    decreases |actions|
  {
    if actions != [] {
      LimitsKept(q, actions[0]);
      hide Step;
      LimitsStay(Step(q, actions[0]), actions[1..]);
    }
  }

  lemma LimitsKept(q: Queue, a: Action)
    ensures !a.SetMaxChilds? ==> Step(q, a).maxChilds == q.maxChilds
    ensures !a.SetMaxChildsRunning? ==> Step(q, a).maxChildsRunning == q.maxChildsRunning
  {
    if a.Dispatch? || a.StartExecQueue? {
      PassKeepsLimits(q.(runExecQ := false, throttled := false), 0, if a.procs < 0 then q.maxChildsRunning else a.procs, a.env);
      PassKeepsLimits(q.(stopExecQ := false, throttled := false), 0, if a.procs < 0 then q.maxChildsRunning else a.procs, a.env);
    }
    hide Pass;
  }

  /** A pass is asked for by a new event and by a reaped child, until the main loop comes to it. */
  lemma PassIsAskedFor(q: Queue, a: Action)
    ensures Step(q, a).runExecQ <==>
            !a.Dispatch? &&
            (|| q.runExecQ || (a.Uevent? && a.msg.timeout == 0)
             || (a.ChildExit? && exists k :: 0 <= k < |q.running| && q.running[k].pid == a.pid))
    ensures Step(q, a).stopExecQ <==> a.StopExecQueue? || (q.stopExecQ && !a.StartExecQueue?)
  {
    if a.Dispatch? || a.StartExecQueue? {
      var procs0 := if a.procs < 0 then q.maxChildsRunning else a.procs;
      PassKeepsLimits(q.(runExecQ := false, throttled := false), 0, procs0, a.env);
      PassKeepsLimits(q.(stopExecQ := false, throttled := false), 0, procs0, a.env);
    }
    hide Pass;
  }

  lemma {:induction false} PassKeepsLimits(q: Queue, k: nat, procs: int, env: Env)
    requires k <= |q.exec|
    ensures var q' := Pass(q, k, procs, env);
            && q'.maxChilds == q.maxChilds && q'.maxChildsRunning == q.maxChildsRunning
            && q'.runExecQ == q.runExecQ && q'.stopExecQ == q.stopExecQ
    decreases |q.exec| - k
  {
    hide Busy, Launch;
    if k < |q.exec| {
      var m := q.exec[k];
      var procs1 := if procs >= q.maxChildsRunning then env.session(m.seqnum) else procs;
      PassKeepsLimits(q, k + 1, procs1, env);
      PassKeepsLimits(Launch(q.(exec := Without(q.exec, k)), m, env.fork(m.seqnum)), k, procs1 + 1, env);
    }
  }

  /** The limits in force after a run are the ones that were set last. */
  lemma {:induction false} LastLimitsHold(q: Queue, actions: seq<Action>, i: nat)
    requires i < |actions|
    ensures actions[i].SetMaxChilds? && (forall j :: i < j < |actions| ==> !actions[j].SetMaxChilds?) ==>
              Run(q, actions).maxChilds == actions[i].n
    ensures actions[i].SetMaxChildsRunning? && (forall j :: i < j < |actions| ==> !actions[j].SetMaxChildsRunning?) ==>
              Run(q, actions).maxChildsRunning == actions[i].n
    decreases |actions|
  {
    var rest := actions[1..];
    assert forall j :: 0 < j < |actions| ==> actions[j] == rest[j - 1];
    assert forall j :: 0 <= j < |rest| ==> rest[j] == actions[j + 1];
    if i == 0 {
      LimitsStay(Step(q, actions[0]), rest);
    } else {
      LastLimitsHold(Step(q, actions[0]), rest, i - 1);
      hide Step;
    }
  }

  /** A child that exits is the first with its pid: its event is finished with its status, and the
      manager will look at the queue again. A pid that no child has changes nothing. */
  lemma ChildIsReaped(q: Queue, pid: nat, status: int, k: nat)
    requires k <= |q.running| && forall j :: 0 <= j < k ==> q.running[j].pid != pid
    requires k < |q.running| ==> q.running[k].pid == pid
    ensures var q' := Step(q, ChildExit(pid, status));
            if k == |q.running| then q' == q
            else
              && q'.running == q.running[..k] + q.running[k + 1..] && q'.exec == q.exec && q'.runExecQ
              && q'.log == q.log + [Finished(q.running[k].msg, status)]
  {
  }

  /** An event whose process could not be forked counts as finished, not as failed. */
  lemma FailedForkIsNoFailure(q: Queue, m: Msg)
    ensures PathCoding.Encode(m.devpath) !in Launch(q, m, None).failedDir
    ensures forall n :: Started(n) in Launch(q, m, None).log ==> Started(n) in q.log
  {
  }

  // ---------------------------------------------------------------- the process limit

  function Room(procs: int, limit: int): nat {
    if procs < limit then limit - procs else 0
  }

  /** The pass counts the processes it starts: when the session is always found full, it takes off
      the queue at most as many events as there was room for, and exactly as many if it was
      throttled. */
  lemma {:induction false} PassCounts(q: Queue, k: nat, procs: int, env: Env)
    requires k <= |q.exec| && !q.throttled
    requires forall n :: env.session(n) >= q.maxChildsRunning
    ensures var q' := Pass(q, k, procs, env);
            && |q'.exec| <= |q.exec| <= |q'.exec| + Room(procs, q.maxChildsRunning)
            && (q'.throttled ==> |q.exec| == |q'.exec| + Room(procs, q.maxChildsRunning))
    decreases |q.exec| - k
  {
    hide Busy, Launch;
    if k < |q.exec| && procs < q.maxChildsRunning {
      var m := q.exec[k];
      if Busy(q, m) != 0 {
        PassCounts(q, k + 1, procs, env);
      } else {
        PassCounts(Launch(q.(exec := Without(q.exec, k)), m, env.fork(m.seqnum)), k, procs + 1, env);
      }
    }
  }

  /** As long as the session is found to have room, the pass is not throttled. */
  lemma {:induction false} RoomInSession(q: Queue, k: nat, procs: int, env: Env)
    requires k <= |q.exec| && !q.throttled
    requires forall n :: env.session(n) < q.maxChildsRunning
    ensures !Pass(q, k, procs, env).throttled
    decreases |q.exec| - k
  {
    hide Busy, Launch;
    if k < |q.exec| {
      var m := q.exec[k];
      var procs1 := if procs >= q.maxChildsRunning then env.session(m.seqnum) else procs;
      if Busy(q, m) != 0 {
        RoomInSession(q, k + 1, procs1, env);
      } else {
        RoomInSession(Launch(q.(exec := Without(q.exec, k)), m, env.fork(m.seqnum)), k, procs1 + 1, env);
      }
    }
  }

  /** What one pass takes off the queue, by the number of processes that the system and the session
      are found to have; an unknown number counts as the limit. */
  lemma PassIsThrottled(q: Queue, procs: int, env: Env)
    requires q.exec != []
    ensures var q', limit := Manager(q, procs, env), q.maxChildsRunning;
            && ((forall n :: env.session(n) < limit) ==> !q'.throttled)
            && ((forall n :: env.session(n) >= limit) ==>
                  var room := if procs < 0 then 0 else Room(procs, limit);
                  && |q'.exec| <= |q.exec| <= |q'.exec| + room
                  && (q'.throttled ==> |q.exec| == |q'.exec| + room))
  {
    var q0 := q.(throttled := false);
    var procs0 := if procs < 0 then q.maxChildsRunning else procs;
    if forall n :: env.session(n) < q.maxChildsRunning {
      RoomInSession(q0, 0, procs0, env);
    }
    if forall n :: env.session(n) >= q.maxChildsRunning {
      PassCounts(q0, 0, procs0, env);
    }
    hide Pass;
  }

  // ---------------------------------------------------------------- when the queue stalls

  /** Events are queued, and nothing will bring the manager back to them: no child to be reaped, no
      flag, no start message to come. Only the next event will. */
  predicate Stalled(q: Queue) {
    q.exec != [] && q.running == [] && !q.runExecQ && !q.stopExecQ
  }

  /** With nothing running, the pass is throttled before any process could be forked. */
  predicate GivesUp(exec: seq<Msg>, procs: int, limit: int, env: Env)
    decreases |exec|
  {
    exec != [] &&
    var procs1 := if procs >= limit then env.session(exec[0].seqnum) else procs;
    || procs1 >= limit
    || (env.fork(exec[0].seqnum).None? && GivesUp(exec[1..], procs1 + 1, limit, env))
  }

  lemma {:induction false} PassStalls(q: Queue, procs: int, env: Env)
    requires Inv(q, None) && q.running == [] && !q.throttled
    ensures var q' := Pass(q, 0, procs, env);
            q'.exec != [] && q'.running == [] <==> GivesUp(q.exec, procs, q.maxChildsRunning, env)
    decreases |q.exec|
  {
    hide Inv, Busy, Launch;
    if q.exec != [] {
      var m := q.exec[0];
      var procs1 := if procs >= q.maxChildsRunning then env.session(m.seqnum) else procs;
      FirstIsFree(q);
      if procs1 < q.maxChildsRunning {
        var q1 := Launch(q.(exec := Without(q.exec, 0)), m, env.fork(m.seqnum));
        LaunchQueuedKeeps(q, 0, env.fork(m.seqnum));
        assert Without(q.exec, 0) == q.exec[1..];
        if env.fork(m.seqnum).None? {
          PassStalls(q1, procs1 + 1, env);
        } else {
          PassEffect(q1, 0, procs1 + 1, env);
        }
      }
    }
  }

  /** A pass that the pending flag asks for leaves the queue stalled exactly when nothing runs and
      the number of processes stops it before a fork succeeds. */
  lemma DispatchStalls(q: Queue, procs: int, env: Env)
    requires Inv(q, None) && q.runExecQ && !q.stopExecQ
    ensures Stalled(Step(q, Dispatch(procs, env))) <==>
            q.running == [] &&
            GivesUp(q.exec, if procs < 0 then q.maxChildsRunning else procs, q.maxChildsRunning, env)
  {
    hide Inv;
    if q.exec != [] {
      var q0 := q.(runExecQ := false, throttled := false);
      FlagsKeep(q, q0);
      var procs0 := if procs < 0 then q.maxChildsRunning else procs;
      PassEffect(q0, 0, procs0, env);
      hide Pass;
      if q.running == [] {
        PassStalls(q0, procs0, env);
      }
    }
  }

  /** A run that ends so: one event, and a limit of no processes at all. */
  lemma ThrottledPassStalls(maxChilds: int, maxChildsRunning: int, m: Msg, procs: int, env: Env)
    requires m.timeout == 0 && env.session(m.seqnum) >= 0
    ensures var q0 := Initial(maxChilds, maxChildsRunning);
            var actions := [SetMaxChildsRunning(0), Uevent(m, None), Dispatch(procs, env)];
            && LegalRun(q0, actions) && Stalled(Run(q0, actions)) && Run(q0, actions).exec == [m]
  {
    var q0 := Initial(maxChilds, maxChildsRunning);
    RunOfThree(q0, SetMaxChildsRunning(0), Uevent(m, None), Dispatch(procs, env));
    var q1 := Step(q0, SetMaxChildsRunning(0));
    var q2 := Step(q1, Uevent(m, None));
    assert q2.exec == [m] && q2.runExecQ && q2.maxChildsRunning == 0 && q2.running == [];
    hide Run, LegalRun;
    assert Stalled(Step(q2, Dispatch(procs, env)));
  }

  lemma RunOfThree(q: Queue, a: Action, b: Action, c: Action)
    ensures LegalRun(q, [a, b, c]) <==> Enabled(q, a) && Enabled(Step(q, a), b) && Enabled(Step(Step(q, a), b), c)
    ensures Run(q, [a, b, c]) == Step(Step(Step(q, a), b), c)
  {
    hide Step, Enabled;
    RunOfOne(Step(Step(q, a), b), c);
    assert [a, b, c][1..] == [b, c] && [b, c][1..] == [c];
    assert Run(Step(q, a), [b, c]) == Run(Step(Step(q, a), b), [c]);
    assert LegalRun(Step(q, a), [b, c]) <==> Enabled(Step(q, a), b) && LegalRun(Step(Step(q, a), b), [c]);
  }

  lemma RunOfOne(q: Queue, a: Action)
    ensures LegalRun(q, [a]) == Enabled(q, a) && Run(q, [a]) == Step(q, a)
  {
    hide Step, Enabled;
    assert [a][1..] == [];
    assert Run(Step(q, a), []) == Step(q, a) && LegalRun(Step(q, a), []);
  }

  /** In a run, the queue stalls only if the last pass over it was throttled. */
  predicate StallIsThrottling(q: Queue) {
    Stalled(q) ==> q.throttled
  }

  lemma StepKeepsStall(q: Queue, a: Action)
    requires Inv(q, None) && Enabled(q, a) && StallIsThrottling(q)
    ensures StallIsThrottling(Step(q, a))
  {
    match a {
      case Dispatch(procs, env) =>
        FlagsKeep(q, q.(runExecQ := false));
        PassLeavesOnlyBusy(q.(runExecQ := false), procs, env);
      case StartExecQueue(procs, env) =>
        FlagsKeep(q, q.(stopExecQ := false));
        PassLeavesOnlyBusy(q.(stopExecQ := false), procs, env);
      case _ =>
    }
  }

  lemma {:induction false} StalledOnlyIfThrottled(q: Queue, actions: seq<Action>)
    requires Inv(q, None) && StallIsThrottling(q) && LegalRun(q, actions)
    ensures StallIsThrottling(Run(q, actions))
    decreases |actions|
  {
    hide Inv, StallIsThrottling;
    if actions != [] {
      StepKeeps(q, actions[0]);
      StepKeepsStall(q, actions[0]);
      StalledOnlyIfThrottled(Step(q, actions[0]), actions[1..]);
    }
  }

  // ---------------------------------------------------------------- the child limit

  /** The counter in devpath_busy lets two more children run than max_childs says (and one even
      for a negative limit). */
  predicate WithinLimit(q: Queue) {
    q.maxChilds != 0 ==> |q.running| <= (if q.maxChilds < -1 then -1 else q.maxChilds) + 2
  }

  lemma {:induction false} PassWithinLimit(q: Queue, k: nat, procs: int, env: Env)
    requires Inv(q, None) && k <= |q.exec| && WithinLimit(q)
    ensures WithinLimit(Pass(q, k, procs, env))
    decreases |q.exec| - k
  {
    hide Inv, Launch;
    if k < |q.exec| {
      var m := q.exec[k];
      var procs1 := if procs >= q.maxChildsRunning then env.session(m.seqnum) else procs;
      if procs1 >= q.maxChildsRunning {
      } else if Busy(q, m) != 0 {
        PassWithinLimit(q, k + 1, procs1, env);
      } else {
        BlockedByRunning(q.running, 0, m, q.maxChilds);
        LaunchQueuedKeeps(q, k, env.fork(m.seqnum));
        PassWithinLimit(Launch(q.(exec := Without(q.exec, k)), m, env.fork(m.seqnum)), k, procs1 + 1, env);
      }
    }
  }

  /** The bound is tight: with max_childs + 1 children running, a pass still starts an event that
      none of them blocks. */
  lemma LimitIsReached(q: Queue, procs: int, env: Env)
    requires Inv(q, None) && q.maxChilds > 0 && |q.running| == q.maxChilds + 1 && q.exec != []
    requires forall j :: 0 <= j < |q.running| ==> !WaitsFor(q.exec[0], q.running[j].msg)
    requires 0 <= procs < q.maxChildsRunning && env.fork(q.exec[0].seqnum).Some?
    ensures |Manager(q, procs, env).running| == q.maxChilds + 2
  {
    var q0 := q.(throttled := false);
    FlagsKeep(q, q0);
    BusyMeaning(q0, q.exec[0]);
    hide WaitsFor, Busy;
    assert forall j :: 0 < j < |q.exec| ==> q.exec[0].seqnum < q.exec[j].seqnum;
    assert Busy(q0, q.exec[0]) == 0;
    StartsFirst(q0, procs, env);
    PassWithinLimit(q0, 0, procs, env);
  }

  lemma StartsFirst(q: Queue, procs: int, env: Env)
    requires Inv(q, None) && q.exec != [] && Busy(q, q.exec[0]) == 0 && !q.throttled
    requires procs < q.maxChildsRunning && env.fork(q.exec[0].seqnum).Some?
    ensures |q.running| < |Pass(q, 0, procs, env).running|
    ensures Pass(q, 0, procs, env).maxChilds == q.maxChilds
  {
    hide Inv, Busy, Launch;
    var m := q.exec[0];
    LaunchQueuedKeeps(q, 0, env.fork(m.seqnum));
    PassEffect(Launch(q.(exec := Without(q.exec, 0)), m, env.fork(m.seqnum)), 0, procs + 1, env);
    PassEffect(q, 0, procs, env);
  }

  lemma ManagerWithinLimit(q: Queue, procs: int, env: Env)
    requires Inv(q, None) && WithinLimit(q)
    ensures WithinLimit(Manager(q, procs, env))
  {
    hide Inv, Pass;
    if q.exec != [] {
      FlagsKeep(q, q.(throttled := false));
      PassWithinLimit(q.(throttled := false), 0, if procs < 0 then q.maxChildsRunning else procs, env);
    }
  }

  lemma StepWithinLimit(q: Queue, a: Action)
    requires Inv(q, None) && WithinLimit(q)
    requires !a.SetMaxChilds? && (a.Uevent? ==> a.msg.timeout == 0)
    ensures WithinLimit(Step(q, a))
  {
    hide Manager;
    match a {
      case Dispatch(procs, env) =>
        FlagsKeep(q, q.(runExecQ := false));
        hide Inv;
        ManagerWithinLimit(q.(runExecQ := false), procs, env);
      case StartExecQueue(procs, env) =>
        FlagsKeep(q, q.(stopExecQ := false));
        hide Inv;
        ManagerWithinLimit(q.(stopExecQ := false), procs, env);
      case _ =>
        hide Inv;
    }
  }

  /** In a run without timeout events and without changing max_childs, the limit holds. */
  lemma {:induction false} ChildLimitHolds(q: Queue, actions: seq<Action>)
    requires Inv(q, None) && WithinLimit(q) && LegalRun(q, actions)
    requires forall i :: 0 <= i < |actions| ==>
               !actions[i].SetMaxChilds? && (actions[i].Uevent? ==> actions[i].msg.timeout == 0)
    ensures WithinLimit(Run(q, actions))
    decreases |actions|
  {
    hide Inv, WithinLimit, Step;
    if actions != [] {
      StepKeeps(q, actions[0]);
      assert !actions[0].SetMaxChilds? && (actions[0].Uevent? ==> actions[0].msg.timeout == 0);
      StepWithinLimit(q, actions[0]);
      ChildLimitHolds(Step(q, actions[0]), actions[1..]);
    }
  }

  lemma InitialState(maxChilds: int, maxChildsRunning: int)
    ensures var q := Initial(maxChilds, maxChildsRunning); Inv(q, None) && StallIsThrottling(q) && WithinLimit(q)
  {
  }
}
