/** The daemon: exec_list, running_list and the flags are fields that its functions update in
    place. Every method is proved to take the step that EventQueue defines for it; what the
    steps guarantee over whole runs is proved there. The queue and failed directories are the
    sets of file names in them. */
module Udevd {
  import opened Basics
  import opened EventQueue
  import PathCoding

  /** Character i of a C string. */
  predicate EndsAt(s: string, i: nat) {
    i >= |s|
  }

  predicate HasAt(s: string, i: nat, c: char) {
    i < |s| && s[i] == c
  }

  lemma PrefixThen(s: string, t: string, c: char)
    requires |s| <= |t| && t[..|s|] == s
    ensures s + [c] <= t <==> |s| < |t| && t[|s|] == c
  {
    if |s| < |t| && t[|s|] == c {
      assert t[..|s| + 1] == s + [c];
    }
    if s + [c] <= t {
      assert t[|s|] == (s + [c])[|s|];
    }
  }

  lemma NoPrefix(s: string, t: string, i: nat, c: char)
    requires i < |s| && (i < |t| ==> s[i] != t[i])
    ensures !(s + [c] <= t) && s != t
  {
    assert (s + [c])[i] == s[i];
  }

  lemma DiffersAt(s: string, t: string, i: nat)
    requires i < |s| && i < |t| && s[i] != t[i] && i < PATH_SIZE
    ensures CompareDevpath(s, t) == 0
  {
    NoPrefix(s, t, i, '/');
    NoPrefix(t, s, i, '/');
    if |s| >= PATH_SIZE && |t| >= PATH_SIZE {
      assert s[..PATH_SIZE][i] != t[..PATH_SIZE][i];
    }
  }

  lemma EndsBefore(s: string, t: string)
    requires |s| < |t| && |s| < PATH_SIZE && t[..|s|] == s
    ensures CompareDevpath(s, t) == if t[|s|] == '/' then 2 else 0
    ensures CompareDevpath(t, s) == if t[|s|] == '/' then 3 else 0
  {
    PrefixThen(s, t, '/');
    NoPrefix(t, s, |s|, '/');
  }

  method CompareDevpaths(running: string, waiting: string) returns (r: nat)
    ensures r == CompareDevpath(running, waiting)
  {
    var i := 0;
    while i < PATH_SIZE
      invariant i <= PATH_SIZE && i <= |running| && i <= |waiting|
      invariant running[..i] == waiting[..i]
    {
      assert i == |running| ==> running[..i] == running;
      assert i == |waiting| ==> waiting[..i] == waiting;
      if EndsAt(running, i) && EndsAt(waiting, i) {
        return 1;
      }
      if i == |running| {
        EndsBefore(running, waiting);
        if HasAt(waiting, i, '/') {
          return 2;
        }
        return 0;
      }
      if i == |waiting| {
        EndsBefore(waiting, running);
        if HasAt(running, i, '/') {
          return 3;
        }
        return 0;
      }
      if running[i] != waiting[i] {
        DiffersAt(running, waiting, i);
        return 0;
      }
      i := i + 1;
    }
    return 0;
  }

  datatype EventState = EVENT_QUEUED | EVENT_FINISHED | EVENT_FAILED

  class Daemon {
    var execList: seq<Msg>
    var runningList: seq<Child>
    var runExecQ: bool
    var stopExecQ: bool
    var maxChilds: int
    var maxChildsRunning: int
    var queueDir: set<string>
    var failedDir: set<string>
    ghost var throttled: bool
    ghost var log: seq<Entry>

    ghost function State(): Queue
      reads this
    {
      Queue(execList, runningList, runExecQ, stopExecQ, maxChilds, maxChildsRunning,
            queueDir, failedDir, throttled, log)
    }

    constructor (maxChilds: int, maxChildsRunning: int)
      ensures State() == Initial(maxChilds, maxChildsRunning)
    {
      execList, runningList := [], [];
      runExecQ, stopExecQ := false, false;
      this.maxChilds, this.maxChildsRunning := maxChilds, maxChildsRunning;
      queueDir, failedDir := {}, {};
      throttled, log := false, [];
    }

    /** Is the message held back by n: 2 for its own path, 3 for its physical device, else 0. */
    method HeldBackBy(n: Msg, msg: Msg) returns (r: nat)
      ensures r == if Blocks(n, msg) then BlockCode(n, msg) else 0
      ensures r != 0 <==> WaitsFor(msg, n)
    {
      BlocksMeaning(n, msg);
      var c := CompareDevpaths(n.devpath, msg.devpath);
      if c != 0 {
        return 2;
      }
      if msg.physdevpath.Some? && msg.action == "add" {
        c := CompareDevpaths(n.devpath, msg.physdevpath.value);
        if c != 0 {
          return 3;
        }
      }
      return 0;
    }

    method DevpathBusy(msg: Msg, limit: int) returns (r: nat)
      requires limit == maxChilds
      ensures r == Busy(State(), msg)
      ensures (forall i, j :: 0 <= i < j < |execList| ==> execList[i].seqnum < execList[j].seqnum) ==>
                (r != 0 <==>
                 || (exists j :: 0 <= j < |execList| && execList[j].seqnum < msg.seqnum && WaitsFor(msg, execList[j]))
                 || (exists j :: 0 <= j < |runningList| && WaitsFor(msg, runningList[j].msg))
                 || (limit != 0 && runningList != [] && limit + 1 < |runningList|))
    {
      if forall i, j :: 0 <= i < j < |execList| ==> execList[i].seqnum < execList[j].seqnum {
        BusyMeaning(State(), msg);
      }
      hide WaitsFor, Blocks;
      var childsCount := 0;
      var i := 0;
      while i < |execList|
        invariant i <= |execList| && ExecBusy(execList, i, msg) == ExecBusy(execList, 0, msg)
      {
        if execList[i].seqnum >= msg.seqnum {
          break;
        }
        r := HeldBackBy(execList[i], msg);
        if r != 0 {
          return;
        }
        i := i + 1;
      }
      i := 0;
      while i < |runningList|
        invariant i <= |runningList| && (limit != 0 ==> childsCount == i)
        invariant RunningBusy(runningList, i, msg, limit) == RunningBusy(runningList, 0, msg, limit)
      {
        if limit != 0 {
          childsCount := childsCount + 1;
          if childsCount - 1 > limit {
            return 1;
          }
        }
        r := HeldBackBy(runningList[i].msg, msg);
        if r != 0 {
          return;
        }
        i := i + 1;
      }
      return 0;
    }

    method HasPending(path: string) returns (b: bool)
      ensures b == Pending(State(), path)
    {
      var i := 0;
      while i < |runningList|
        invariant i <= |runningList| && forall j :: 0 <= j < i ==> runningList[j].msg.devpath != path
      {
        if runningList[i].msg.devpath == path {
          return true;
        }
        i := i + 1;
      }
      i := 0;
      while i < |execList|
        invariant i <= |execList| && forall j :: 0 <= j < i ==> execList[j].devpath != path
      {
        if execList[i].devpath == path {
          return true;
        }
        i := i + 1;
      }
      return false;
    }

    method ExportEventState(msg: Msg, state: EventState)
      modifies this
      ensures State() == if state.EVENT_QUEUED? then ExportQueued(old(State()), msg)
                         else ExportFinished(old(State()), msg, state.EVENT_FAILED?)
    {
      var f := PathCoding.Encode(msg.devpath);
      failedDir := failedDir - {f};
      if state.EVENT_QUEUED? {
        queueDir := queueDir + {f};
        return;
      }
      var pending := HasPending(msg.devpath);
      if pending {
        return;
      }
      if state.EVENT_FAILED? {
        if f in queueDir {
          failedDir := failedDir + {f};
        }
      }
      queueDir := queueDir - {f};
    }

    /** Takes the message out of running_list, updates its markers and forgets it. */
    method MsgQueueDelete(i: nat, exitstatus: int)
      requires i < |runningList|
      modifies this
      ensures State() == Finish(old(State().(running := Without(runningList, i))),
                                old(runningList[i].msg), exitstatus)
    {
      var msg := runningList[i].msg;
      runningList := Without(runningList, i);
      if exitstatus != 0 && msg.action == "add" {
        ExportEventState(msg, EVENT_FAILED);
      } else {
        ExportEventState(msg, EVENT_FINISHED);
      }
      log := log + [Finished(msg, exitstatus)];
    }

    /** Forks a process for the message at the end of running_list. */
    method UdevEventRun(fork: Option<nat>)
      requires runningList != []
      modifies this
      ensures var q := old(State().(running := runningList[..|runningList| - 1]));
              State() == Launch(q, old(runningList[|runningList| - 1].msg), fork)
    {
      var last := |runningList| - 1;
      match fork {
        case None =>
          assert Without(runningList, last) == runningList[..last];
          MsgQueueDelete(last, 0);
        case Some(pid) =>
          ghost var before := runningList[..last];
          runningList := runningList[last := runningList[last].(pid := pid)];
          assert runningList == before + [runningList[last]];
          log := log + [Started(runningList[last].msg)];
      }
    }

    method MsgQueueInsert(msg: Msg, fork: Option<nat>)
      modifies this
      ensures State() == Insert(old(State()), msg, fork)
    {
      log := log + [Arrived(msg)];
      ExportEventState(msg, EVENT_QUEUED);
      if msg.timeout != 0 {
        ghost var before := runningList;
        runningList := runningList + [Child(msg, 0)];
        assert runningList[..|runningList| - 1] == before;
        UdevEventRun(fork);
        return;
      }
      execList := execList + [msg];
      runExecQ := true;
    }

    /** list_move_tail from exec_list to running_list, then udev_event_run. */
    method MoveAndRun(k: nat, fork: Option<nat>)
      requires k < |execList|
      modifies this
      ensures State() == Launch(old(State().(exec := Without(execList, k))), old(execList[k]), fork)
    {
      ghost var before := runningList;
      runningList := runningList + [Child(execList[k], 0)];
      execList := Without(execList, k);
      assert runningList[..|runningList| - 1] == before;
      UdevEventRun(fork);
    }

    method MsgQueueManager(procs: int, env: Env)
      modifies this
      ensures State() == Manager(old(State()), procs, env)
    {
      hide Busy, Launch;
      if execList == [] {
        return;
      }
      throttled := false;
      var running := procs;
      if running < 0 {
        running := maxChildsRunning;
      }
      ghost var q0, running0 := State(), running;
      var k := 0;
      while k < |execList|
        invariant k <= |execList|
        invariant Pass(State(), k, running, env) == Pass(q0, 0, running0, env)
        decreases |execList| - k
      {
        var msg := execList[k];
        if running >= maxChildsRunning {
          running := env.session(msg.seqnum);
          if running >= maxChildsRunning {
            throttled := true;
            return;
          }
        }
        var busy := DevpathBusy(msg, maxChilds);
        if busy != 0 {
          k := k + 1;
          continue;
        }
        MoveAndRun(k, env.fork(msg.seqnum));
        running := running + 1;
      }
    }

    method UdevDone(pid: nat, exitstatus: int)
      modifies this
      ensures State() == Reap(old(State()), pid, exitstatus)
    {
      var i := 0;
      while i < |runningList|
        invariant i <= |runningList|
        invariant FindPid(runningList, pid) == i + FindPid(runningList[i..], pid)
      {
        if runningList[i].pid == pid {
          MsgQueueDelete(i, exitstatus);
          runExecQ := true;
          return;
        }
        assert runningList[i..][1..] == runningList[i + 1..];
        i := i + 1;
      }
    }

    /** One turn of the main loop, for one of the things it waits for. */
    method Turn(a: Action)
      modifies this
      ensures State() == Step(old(State()), a)
    {
      match a {
        case Uevent(msg, fork) => MsgQueueInsert(msg, fork);
        case ChildExit(pid, status) => UdevDone(pid, status);
        case StopExecQueue => stopExecQ := true;
        case StartExecQueue(procs, env) =>
          stopExecQ := false;
          MsgQueueManager(procs, env);
        case SetMaxChilds(n) => maxChilds := n;
        case SetMaxChildsRunning(n) => maxChildsRunning := n;
        case Dispatch(procs, env) =>
          if runExecQ {
            runExecQ := false;
            if !stopExecQ {
              MsgQueueManager(procs, env);
            }
          }
      }
    }
  }

  /** The main loop over any legal sequence of turns keeps the queue's invariant. */
  method MainLoop(d: Daemon, actions: seq<Action>)
    requires Inv(d.State(), None) && StallIsThrottling(d.State()) && LegalRun(d.State(), actions)
    modifies d
    ensures d.State() == Run(old(d.State()), actions)
    ensures Inv(d.State(), None) && StallIsThrottling(d.State())
  {
    hide Inv, Step;
    ghost var q0 := d.State();
    RunKeeps(q0, actions);
    StalledOnlyIfThrottled(q0, actions);
    var i := 0;
    assert actions[0..] == actions;
    while i < |actions|
      invariant i <= |actions| && Run(d.State(), actions[i..]) == Run(q0, actions)
    {
      assert actions[i..][1..] == actions[i + 1..];
      d.Turn(actions[i]);
      i := i + 1;
    }
  }
}
