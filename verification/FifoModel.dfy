/** The globalfifo device as interleaved steps of any number of threads in read, write or the
    FIFO_CLEAR ioctl (globalfifo.c). A step is what a thread does between two points where
    another thread, a signal or the scheduler can come in. */
module FifoModel {
  import opened Basics

  const SIZE: nat := 0x1000

  datatype Role = Reader | Writer | Clearer

  /** Where a thread is: about to take the mutex (first or again), testing the buffer, about to
      give up the mutex before sleeping, in schedule, behind it, about to wake the other side,
      about to release the mutex, behind the release, finished. */
  datatype Pc = Start | Check | GiveUp | Schedule | SignalCheck | Again | Wake | Out | Out2 | Done

  datatype Ret = Pending | Count(n: nat) | EAGAIN | ERESTARTSYS | EFAULT

  /** sleeping: TASK_INTERRUPTIBLE and not woken since. takes, releases: how often this call has
      taken and released the mutex. */
  datatype Thread = Thread(
    role: Role, pc: Pc, count: nat, data: seq<byte>, nonblock: bool,
    sleeping: bool, signal: bool, ret: Ret, got: seq<byte>, takes: nat, releases: nat)

  datatype Fifo = Fifo(mem: seq<byte>, len: nat, owner: Option<nat>, threads: map<nat, Thread>)

  datatype Action =
    | Call(t: nat, role: Role, count: nat, data: seq<byte>, nonblock: bool)
    | Step(t: nat, fault: bool)
    | Signal(t: nat)

  predicate Holds(pc: Pc) {
    pc in {Check, GiveUp, Wake, Out}
  }

  /** The memory after the first n of len bytes are taken and the rest moved down. */
  function Taken(mem: seq<byte>, len: nat, n: nat): (r: seq<byte>)
    requires n <= len <= |mem|
    ensures |r| == |mem|
  {
    mem[n..len] + mem[len - n..]
  }

  function Put(mem: seq<byte>, len: nat, data: seq<byte>): (r: seq<byte>)
    requires len + |data| <= |mem|
    ensures |r| == |mem|
  {
    mem[..len] + data + mem[len + |data|..]
  }

  function Woken(threads: map<nat, Thread>, role: Role): map<nat, Thread> {
    map t | t in threads ::
      if threads[t].role == role then threads[t].(sleeping := false) else threads[t]
  }

  predicate CanStep(s: Fifo, t: nat) {
    t in s.threads &&
    match s.threads[t].pc
    case Start => s.owner.None?
    case Again => s.owner.None?
    case Schedule => !s.threads[t].sleeping || s.threads[t].signal
    case Done => false
    case _ => true
  }

  predicate Shape(s: Fifo) {
    |s.mem| == SIZE && s.len <= SIZE
  }

  function Become(s: Fifo, t: nat, th: Thread): Fifo {
    s.(threads := s.threads[t := th])
  }

  /** The test of the buffer, and what follows while the mutex is held. */
  function CheckStep(s: Fifo, t: nat, fault: bool): Fifo
    requires Shape(s) && t in s.threads
  {
    var th := s.threads[t];
    match th.role
    case Reader =>
      if s.len == 0 then
        if th.nonblock then Become(s, t, th.(pc := Out, ret := EAGAIN))
        else Become(s, t, th.(pc := GiveUp, sleeping := true))
      else if fault then Become(s, t, th.(pc := Out, ret := EFAULT))
      else
        var n := Min(th.count, s.len);
        Become(s.(mem := Taken(s.mem, s.len, n), len := s.len - n),
               t, th.(pc := Wake, ret := Count(n), got := s.mem[..n]))
    case Writer =>
      if s.len == SIZE then
        if th.nonblock then Become(s, t, th.(pc := Out, ret := EAGAIN))
        else Become(s, t, th.(pc := GiveUp, sleeping := true))
      else if fault then Become(s, t, th.(pc := Out, ret := EFAULT))
      else
        var n := Min(|th.data|, SIZE - s.len);
        Become(s.(mem := Put(s.mem, s.len, th.data[..n]), len := s.len + n),
               t, th.(pc := Wake, ret := Count(n)))
    case Clearer =>
      Become(s.(mem := seq(SIZE, _ => 0), len := 0), t, th.(pc := Out, ret := Count(0)))
  }

  function ThreadStep(s: Fifo, t: nat, fault: bool): Fifo
    requires Shape(s) && CanStep(s, t)
  {
    var th := s.threads[t];
    match th.pc
    case Start => Become(s.(owner := Some(t)), t, th.(pc := Check, takes := th.takes + 1))
    case Again => Become(s.(owner := Some(t)), t, th.(pc := Check, takes := th.takes + 1))
    case Check => CheckStep(s, t, fault)
    case GiveUp => Become(s.(owner := None), t, th.(pc := Schedule, releases := th.releases + 1))
    case Schedule => Become(s, t, th.(pc := SignalCheck, sleeping := false))
    case SignalCheck =>
      Become(s, t, if th.signal then th.(pc := Out2, ret := ERESTARTSYS) else th.(pc := Again))
    case Wake =>
      Become(s, t, th.(pc := Out))
        .(threads := Woken(s.threads[t := th.(pc := Out)], if th.role == Reader then Writer else Reader))
    case Out => Become(s.(owner := None), t, th.(pc := Out2, releases := th.releases + 1))
    case Out2 => Become(s, t, th.(pc := Done, sleeping := false))
  }

  predicate Enabled(s: Fifo, a: Action) {
    match a
    case Call(t, _, _, _, _) => t in s.threads ==> s.threads[t].pc == Done
    case Step(t, _) => CanStep(s, t)
    case Signal(t) => t in s.threads
  }

  function Next(s: Fifo, a: Action): Fifo
    requires Shape(s) && Enabled(s, a)
  {
    match a
    case Call(t, role, count, data, nonblock) =>
      Become(s, t, Thread(role, Start, count, data, nonblock, false, false, Pending, [], 0, 0))
    case Step(t, fault) => ThreadStep(s, t, fault)
    case Signal(t) => Become(s, t, s.threads[t].(signal := true, sleeping := false))
  }

  function Initial(): Fifo {
    Fifo(seq(SIZE, _ => 0), 0, None, map[])
  }

  // ---------------------------------------------------------------- the invariant

  /** The mutex has at most one holder, and every call has released it as often as it has taken
      it, but for the one holding it. */
  ghost predicate Mutex(s: Fifo) {
    && (forall t :: t in s.threads ==> (Holds(s.threads[t].pc) <==> s.owner == Some(t)))
    && (s.owner.Some? ==> s.owner.value in s.threads)
    && (forall t :: t in s.threads ==>
          s.threads[t].takes == s.threads[t].releases + (if Holds(s.threads[t].pc) then 1 else 0))
    && (forall t :: t in s.threads && s.threads[t].sleeping ==> s.threads[t].pc in {GiveUp, Schedule})
  }

  /** Is a wake-up for this role just about to be sent? */
  predicate AboutToWake(s: Fifo, role: Role) {
    s.owner.Some? && s.owner.value in s.threads &&
    var th := s.threads[s.owner.value];
    th.pc == Wake && th.role == (if role == Reader then Writer else Reader)
  }

  ghost predicate ReadersWait(s: Fifo) {
    forall t :: t in s.threads && s.threads[t].sleeping && s.threads[t].role == Reader ==>
      s.len == 0 || AboutToWake(s, Reader)
  }

  ghost predicate WritersWait(s: Fifo) {
    forall t :: t in s.threads && s.threads[t].sleeping && s.threads[t].role == Writer ==>
      s.len == SIZE || AboutToWake(s, Writer)
  }

  predicate ClearersNeverSleep(s: Fifo) {
    forall t :: t in s.threads && s.threads[t].role == Clearer ==>
      s.threads[t].pc in {Start, Check, Out, Out2, Done}
  }

  ghost predicate Inv(s: Fifo) {
    Shape(s) && Mutex(s) && ReadersWait(s) && ClearersNeverSleep(s)
  }

  /** A thread seen on its own. */
  predicate ThreadOk(th: Thread) {
    && th.takes == th.releases + (if Holds(th.pc) then 1 else 0)
    && (th.sleeping ==> th.pc in {GiveUp, Schedule})
    && (th.role == Clearer ==> th.pc in {Start, Check, Out, Out2, Done})
  }

  ghost predicate AllOk(s: Fifo) {
    && (forall t :: t in s.threads ==> ThreadOk(s.threads[t]))
    && (forall t :: t in s.threads ==> (Holds(s.threads[t].pc) <==> s.owner == Some(t)))
    && (s.owner.Some? ==> s.owner.value in s.threads)
  }

  lemma AllOkMeaning(s: Fifo)
    ensures AllOk(s) <==> Mutex(s) && ClearersNeverSleep(s)
  {
  }

  /** The test of the buffer concerns the testing thread alone. */
  lemma CheckFrame(s: Fifo, t: nat, fault: bool)
    requires Shape(s) && t in s.threads
    ensures var s' := CheckStep(s, t, fault);
            && t in s'.threads && s'.threads == s.threads[t := s'.threads[t]]
            && s'.threads[t].role == s.threads[t].role
  {
  }

  /** Other threads are at most woken. */
  lemma OthersOnlyWoken(s: Fifo, a: Action)
    requires Shape(s) && Enabled(s, a)
    ensures Next(s, a).threads.Keys == s.threads.Keys + {a.t}
    ensures forall u :: u in s.threads && u != a.t ==>
              Next(s, a).threads[u] == s.threads[u] || Next(s, a).threads[u] == s.threads[u].(sleeping := false)
    ensures forall u :: u in s.threads && u != a.t && Next(s, a).threads[u] != s.threads[u] ==>
              a.Step? && s.threads[a.t].pc == Wake
    ensures Next(s, a).threads[a.t].role == if a.Call? then a.role else s.threads[a.t].role
  {
    if a.Step? && s.threads[a.t].pc == Check {
      CheckFrame(s, a.t, a.fault);
    }
    hide CheckStep;
  }

  /** The acting thread keeps its own invariant and its relation to the mutex. */
  lemma ActorOk(s: Fifo, a: Action)
    requires Shape(s) && AllOk(s) && Enabled(s, a)
    ensures var s' := Next(s, a);
            && a.t in s'.threads && ThreadOk(s'.threads[a.t])
            && (Holds(s'.threads[a.t].pc) <==> s'.owner == Some(a.t))
            && (s'.owner == s.owner || (s'.owner == Some(a.t) && s.owner.None?) || (s'.owner.None? && s.owner == Some(a.t)))
  {
    if a.Step? {
      StepperOk(s, a.t, a.fault);
    }
    hide ThreadStep;
  }

  lemma StepperOk(s: Fifo, t: nat, fault: bool)
    requires Shape(s) && AllOk(s) && CanStep(s, t)
    ensures var s' := ThreadStep(s, t, fault);
            && t in s'.threads && ThreadOk(s'.threads[t])
            && (Holds(s'.threads[t].pc) <==> s'.owner == Some(t))
            && (s'.owner == s.owner || (s'.owner == Some(t) && s.owner.None?) || (s'.owner.None? && s.owner == Some(t)))
  {
    OneOk(s, t);
    hide AllOk;
    if s.threads[t].pc == Check {
      CheckOk(s, t, fault);
    }
    hide CheckStep;
  }

  lemma OneOk(s: Fifo, t: nat)
    requires AllOk(s) && t in s.threads
    ensures ThreadOk(s.threads[t]) && (Holds(s.threads[t].pc) <==> s.owner == Some(t))
  {
  }

  lemma CheckOk(s: Fifo, t: nat, fault: bool)
    requires Shape(s) && t in s.threads && ThreadOk(s.threads[t]) && s.threads[t].pc == Check
    ensures var s' := CheckStep(s, t, fault);
            s'.owner == s.owner && t in s'.threads && ThreadOk(s'.threads[t]) && Holds(s'.threads[t].pc)
  {
  }

  lemma MutexKept(s: Fifo, a: Action)
    requires Shape(s) && Mutex(s) && ClearersNeverSleep(s) && Enabled(s, a)
    ensures Mutex(Next(s, a)) && ClearersNeverSleep(Next(s, a))
  {
    AllOkMeaning(s);
    ActorOk(s, a);
    OthersOnlyWoken(s, a);
    var s' := Next(s, a);
    hide Next, Enabled, Mutex, ClearersNeverSleep;
    forall u | u in s'.threads
      ensures ThreadOk(s'.threads[u]) && (Holds(s'.threads[u].pc) <==> s'.owner == Some(u))
    {
      if u != a.t {
        assert u in s.threads && ThreadOk(s.threads[u]);
      }
    }
    AllOkMeaning(s');
  }

  predicate ClearsNow(s: Fifo, a: Action) {
    a.Step? && a.t in s.threads && s.threads[a.t].pc == Check && s.threads[a.t].role == Clearer
  }

  /** The amount at which a role has to wait. */
  function Blocked(role: Role): nat {
    if role == Reader then 0 else SIZE
  }

  ghost predicate Waits(s: Fifo, role: Role) {
    forall t :: t in s.threads && s.threads[t].sleeping && s.threads[t].role == role ==>
      s.len == Blocked(role) || AboutToWake(s, role)
  }

  /** A step that changes the amount away from where a role waits is followed by its wake-up. */
  lemma ChangeThenWake(s: Fifo, a: Action, role: Role)
    requires Shape(s) && AllOk(s) && Enabled(s, a) && role != Clearer
    requires s.len == Blocked(role) && !(role == Writer && ClearsNow(s, a))
    ensures var s' := Next(s, a); s'.len == Blocked(role) || AboutToWake(s', role)
  {
  }

  /** The wake-up about to be sent stays so, or has been sent. */
  lemma WakeIsSent(s: Fifo, a: Action, role: Role)
    requires Shape(s) && AllOk(s) && Enabled(s, a) && role != Clearer && AboutToWake(s, role)
    ensures var s' := Next(s, a);
            || AboutToWake(s', role)
            || (forall t :: t in s'.threads && s'.threads[t].role == role ==> !s'.threads[t].sleeping)
  {
    if a.Step? && a.t == s.owner.value {
      var s' := Next(s, a);
      forall t | t in s'.threads && s'.threads[t].role == role
        ensures !s'.threads[t].sleeping
      {
        if t == a.t {
          assert ThreadOk(s.threads[t]);
        }
      }
    } else {
      WakeStays(s, a, role);
    }
  }

  lemma WakeStays(s: Fifo, a: Action, role: Role)
    requires Shape(s) && AllOk(s) && Enabled(s, a) && role != Clearer && AboutToWake(s, role)
    requires !(a.Step? && a.t == s.owner.value)
    ensures AboutToWake(Next(s, a), role)
  {
    OthersOnlyWoken(s, a);
    ActorOk(s, a);
    if a.Step? {
      assert Next(s, a).owner == s.owner;
    }
  }

  /** A thread falls asleep only where it has to wait. */
  lemma FallsAsleep(s: Fifo, a: Action)
    requires Shape(s) && AllOk(s) && Enabled(s, a) && !ClearsNow(s, a)
    ensures var s' := Next(s, a);
            s'.threads[a.t].sleeping && !(a.t in s.threads && s.threads[a.t].sleeping && s.threads[a.t].role == s'.threads[a.t].role) ==>
              s'.threads[a.t].role != Clearer && s'.len == s.len == Blocked(s'.threads[a.t].role)
  {
    if a.Step? && s.threads[a.t].pc == Check {
      ChecksAsleep(s, a.t, a.fault);
    }
    hide CheckStep;
  }

  lemma ChecksAsleep(s: Fifo, t: nat, fault: bool)
    requires Shape(s) && t in s.threads && ThreadOk(s.threads[t]) && s.threads[t].pc == Check
    ensures var s' := CheckStep(s, t, fault);
            && t in s'.threads
            && (s'.threads[t].sleeping ==>
                  s'.threads[t].role != Clearer && s'.len == s.len == Blocked(s'.threads[t].role))
  {
  }

  lemma WaitsKept(s: Fifo, a: Action, role: Role)
    requires Shape(s) && Mutex(s) && ClearersNeverSleep(s) && Enabled(s, a) && role != Clearer && Waits(s, role)
    requires !(role == Writer && ClearsNow(s, a))
    ensures Waits(Next(s, a), role)
  {
    AllOkMeaning(s);
    OthersOnlyWoken(s, a);
    if !ClearsNow(s, a) {
      FallsAsleep(s, a);
    }
    if s.len == Blocked(role) {
      ChangeThenWake(s, a, role);
    } else if AboutToWake(s, role) {
      WakeIsSent(s, a, role);
    }
    ClearerStaysAwake(s, a);
    hide Next, Enabled, Mutex, ClearersNeverSleep, AboutToWake;
  }

  lemma ClearerStaysAwake(s: Fifo, a: Action)
    requires Shape(s) && AllOk(s) && Enabled(s, a)
    ensures ClearsNow(s, a) ==> Next(s, a).len == 0 && !Next(s, a).threads[a.t].sleeping
                                && !AboutToWake(Next(s, a), Writer)
    ensures ClearsNow(s, a) ==> forall t :: t in s.threads && t != a.t ==> Next(s, a).threads[t] == s.threads[t]
  {
  }

  lemma ReadersWaitKept(s: Fifo, a: Action)
    requires Shape(s) && Mutex(s) && ReadersWait(s) && ClearersNeverSleep(s) && Enabled(s, a)
    ensures ReadersWait(Next(s, a))
  {
    assert Waits(s, Reader);
    WaitsKept(s, a, Reader);
    hide Next;
  }

  /** Every step but the clearing one keeps sleeping writers in front of a full buffer. The
      clearing step does not wake anyone: it keeps them so exactly when no writer is asleep. */
  lemma WritersWaitKept(s: Fifo, a: Action)
    requires Shape(s) && Mutex(s) && WritersWait(s) && ClearersNeverSleep(s) && Enabled(s, a)
    ensures !ClearsNow(s, a) ==> WritersWait(Next(s, a))
    ensures ClearsNow(s, a) ==>
              (WritersWait(Next(s, a)) <==>
               forall t :: t in s.threads && s.threads[t].role == Writer ==> !s.threads[t].sleeping)
  {
    assert Waits(s, Writer);
    AllOkMeaning(s);
    OthersOnlyWoken(s, a);
    if ClearsNow(s, a) {
      ClearerStaysAwake(s, a);
      hide Next;
    } else {
      WaitsKept(s, a, Writer);
      hide Next;
    }
  }

  // ---------------------------------------------------------------- runs

  predicate LegalRun(s: Fifo, actions: seq<Action>)
    requires Shape(s)
    decreases |actions|
  {
    actions != [] ==> Enabled(s, actions[0]) && Shape(Next(s, actions[0])) && LegalRun(Next(s, actions[0]), actions[1..])
  }

  function Run(s: Fifo, actions: seq<Action>): Fifo
    requires Shape(s) && LegalRun(s, actions)
    decreases |actions|
  {
    if actions == [] then s else Run(Next(s, actions[0]), actions[1..])
  }

  /** The shape condition of LegalRun is no restriction. */
  lemma ShapeKept(s: Fifo, a: Action)
    requires Shape(s) && Enabled(s, a)
    ensures Shape(Next(s, a))
  {
  }

  lemma {:induction false} RunKeeps(s: Fifo, actions: seq<Action>)
    requires Inv(s) && LegalRun(s, actions)
    ensures Inv(Run(s, actions))
    decreases |actions|
  {
    hide Mutex, ReadersWait, ClearersNeverSleep, Next, Enabled;
    if actions != [] {
      ShapeKept(s, actions[0]);
      MutexKept(s, actions[0]);
      ReadersWaitKept(s, actions[0]);
      RunKeeps(Next(s, actions[0]), actions[1..]);
    }
  }

  /** No call of the ioctl in the run. */
  predicate NoClear(actions: seq<Action>) {
    forall i :: 0 <= i < |actions| && actions[i].Call? ==> actions[i].role != Clearer
  }

  predicate NoClearer(s: Fifo) {
    forall t :: t in s.threads ==> s.threads[t].role != Clearer
  }

  lemma {:induction false} RunKeepsWriters(s: Fifo, actions: seq<Action>)
    requires Inv(s) && WritersWait(s) && NoClearer(s) && LegalRun(s, actions) && NoClear(actions)
    ensures WritersWait(Run(s, actions))
    decreases |actions|
  {
    hide Mutex, ReadersWait, ClearersNeverSleep, Next, Enabled, WritersWait;
    if actions != [] {
      ShapeKept(s, actions[0]);
      MutexKept(s, actions[0]);
      ReadersWaitKept(s, actions[0]);
      WritersWaitKept(s, actions[0]);
      StillNoClearer(s, actions[0]);
      assert forall i :: 0 <= i < |actions[1..]| ==> actions[1..][i] == actions[i + 1];
      RunKeepsWriters(Next(s, actions[0]), actions[1..]);
    }
  }

  lemma StillNoClearer(s: Fifo, a: Action)
    requires Shape(s) && NoClearer(s) && Enabled(s, a) && (a.Call? ==> a.role != Clearer)
    ensures NoClearer(Next(s, a)) && !ClearsNow(s, a)
  {
    OthersOnlyWoken(s, a);
    hide Next, Enabled;
  }

  lemma InitialState()
    ensures Inv(Initial()) && WritersWait(Initial()) && NoClearer(Initial()) && AllExplained(Initial())
    ensures forall i :: 0 <= i < SIZE ==> Initial().mem[i] == 0
  {
  }

  // ---------------------------------------------------------------- the bytes and the results of calls

  /** What the calls have moved since the last clear, in the order in which they had the mutex. */
  datatype Traffic = Traffic(written: seq<byte>, read: seq<byte>)

  function Held(s: Fifo): (r: seq<byte>)
    requires Shape(s)
    ensures |r| == s.len
  {
    s.mem[..s.len]
  }

  /** A call that has just left the test of the buffer to wake the other side has moved bytes:
      a reader those it now has, a writer as many of its own as it returns. */
  function Counted(w: Traffic, a: Action, s: Fifo, s': Fifo): Traffic {
    if !(a.Step? && a.t in s.threads && a.t in s'.threads && s.threads[a.t].pc == Check) then w
    else
      var th := s'.threads[a.t];
      if th.role == Clearer then Traffic([], [])
      else if th.pc != Wake then w
      else if th.role == Reader then w.(read := w.read + th.got)
      else if th.ret.Count? && th.ret.n <= |th.data| then w.(written := w.written + th.data[..th.ret.n])
      else w
  }

  function TrafficOf(w: Traffic, s: Fifo, actions: seq<Action>): Traffic
    requires Shape(s) && LegalRun(s, actions)
    decreases |actions|
  {
    if actions == [] then w
    else var s' := Next(s, actions[0]); TrafficOf(Counted(w, actions[0], s, s'), s', actions[1..])
  }

  /** The bytes read, then the bytes held, are the bytes written. */
  predicate Conserved(w: Traffic, s: Fifo) {
    Shape(s) && w.written == w.read + Held(s)
  }

  /** What a reader finds at the test of the buffer decides its result: an empty buffer sends it
      away or to sleep, a fault loses nothing, and otherwise it has as many of the bytes at the
      front as it asked for and there are, and the others stay. */
  lemma ReaderGets(s: Fifo, t: nat, fault: bool)
    requires Shape(s) && t in s.threads && s.threads[t].pc == Check && s.threads[t].role == Reader
    ensures CanStep(s, t) && Shape(Next(s, Step(t, fault))) && t in Next(s, Step(t, fault)).threads
    ensures var th, s' := s.threads[t], Next(s, Step(t, fault));
            var th' := s'.threads[t];
            && (th'.ret == EAGAIN && th'.pc == Out <==> s.len == 0 && th.nonblock)
            && (th'.sleeping && th'.pc == GiveUp <==> s.len == 0 && !th.nonblock)
            && (th'.ret == EFAULT && th'.pc == Out <==> s.len != 0 && fault)
            && (th'.pc == Wake <==> s.len != 0 && !fault)
            && (th'.pc == Wake ==>
                  && Held(s) == th'.got + Held(s')
                  && th'.ret == Count(|th'.got|)
                  && |th'.got| == Min(th.count, s.len))
            && (th'.pc != Wake ==> s'.mem == s.mem && s'.len == s.len && th'.got == th.got)
  {
  }

  lemma WriterPuts(s: Fifo, t: nat, fault: bool)
    requires Shape(s) && t in s.threads && s.threads[t].pc == Check && s.threads[t].role == Writer
    ensures CanStep(s, t) && Shape(Next(s, Step(t, fault))) && t in Next(s, Step(t, fault)).threads
    ensures var th, s' := s.threads[t], Next(s, Step(t, fault));
            var th' := s'.threads[t];
            && th'.data == th.data && th'.got == th.got
            && (th'.ret == EAGAIN && th'.pc == Out <==> s.len == SIZE && th.nonblock)
            && (th'.sleeping && th'.pc == GiveUp <==> s.len == SIZE && !th.nonblock)
            && (th'.ret == EFAULT && th'.pc == Out <==> s.len != SIZE && fault)
            && (th'.pc == Wake <==> s.len != SIZE && !fault)
            && (th'.pc == Wake ==>
                  && th'.ret.Count? && th'.ret.n == Min(|th.data|, SIZE - s.len)
                  && Held(s') == Held(s) + th.data[..th'.ret.n])
            && (th'.pc != Wake ==> s'.mem == s.mem && s'.len == s.len)
  {
  }

  /** Every other step leaves the bytes alone. */
  lemma BytesStay(s: Fifo, a: Action)
    requires Shape(s) && Enabled(s, a) && !(a.Step? && s.threads[a.t].pc == Check)
    ensures Next(s, a).mem == s.mem && Next(s, a).len == s.len
  {
  }

  lemma StepConserves(w: Traffic, s: Fifo, a: Action)
    requires Conserved(w, s) && Enabled(s, a)
    ensures Conserved(Counted(w, a, s, Next(s, a)), Next(s, a))
  {
    var s' := Next(s, a);
    ShapeKept(s, a);
    if a.Step? && s.threads[a.t].pc == Check {
      OthersOnlyWoken(s, a);
      if s.threads[a.t].role == Reader {
        ReaderGets(s, a.t, a.fault);
        Regroup3(w.read, s'.threads[a.t].got, Held(s'));
      } else if s.threads[a.t].role == Writer {
        WriterPuts(s, a.t, a.fault);
        if s'.threads[a.t].pc == Wake {
          Regroup3(w.read, Held(s), s'.threads[a.t].data[..s'.threads[a.t].ret.n]);
        }
      }
    } else {
      BytesStay(s, a);
    }
    hide CheckStep;
  }

  lemma {:induction false} RunConserves(w: Traffic, s: Fifo, actions: seq<Action>)
    requires Conserved(w, s) && LegalRun(s, actions)
    ensures Conserved(TrafficOf(w, s, actions), Run(s, actions))
    decreases |actions|
  {
    hide Next, Enabled, Counted;
    if actions != [] {
      StepConserves(w, s, actions[0]);
      RunConserves(Counted(w, actions[0], s, Next(s, actions[0])), Next(s, actions[0]), actions[1..]);
    }
  }

  /** What a call's fields say of it, wherever it is. */
  predicate Explained(th: Thread) {
    && (th.ret.Pending? <==> th.pc in {Start, Check, GiveUp, Schedule, SignalCheck, Again})
    && (th.pc in {GiveUp, Schedule, SignalCheck, Again} ==> !th.nonblock)
    && (th.pc == Wake ==> th.ret.Count?)
    && (th.ret.EAGAIN? ==> th.nonblock && th.role != Clearer)
    && (th.ret.ERESTARTSYS? ==> th.signal && !th.nonblock && th.role != Clearer)
    && (th.ret.EFAULT? ==> th.role != Clearer)
    && (th.got != [] ==> th.role == Reader && th.ret.Count?)
    && (th.ret.Count? ==>
          match th.role
          case Reader => |th.got| == th.ret.n <= th.count
          case Writer => th.ret.n <= |th.data|
          case Clearer => th.ret.n == 0)
  }

  ghost predicate AllExplained(s: Fifo) {
    forall t :: t in s.threads ==> Explained(s.threads[t])
  }

  lemma StepperExplained(s: Fifo, t: nat, fault: bool)
    requires Shape(s) && CanStep(s, t) && ThreadOk(s.threads[t]) && Explained(s.threads[t])
    ensures t in ThreadStep(s, t, fault).threads && Explained(ThreadStep(s, t, fault).threads[t])
  {
    if s.threads[t].pc == Check {
      CheckExplained(s, t, fault);
    }
    hide CheckStep;
  }

  lemma CheckExplained(s: Fifo, t: nat, fault: bool)
    requires Shape(s) && t in s.threads && s.threads[t].pc == Check && Explained(s.threads[t])
    ensures t in CheckStep(s, t, fault).threads && Explained(CheckStep(s, t, fault).threads[t])
  {
  }

  lemma ExplainedKept(s: Fifo, a: Action)
    requires Shape(s) && AllOk(s) && AllExplained(s) && Enabled(s, a)
    ensures AllExplained(Next(s, a))
  {
    OthersOnlyWoken(s, a);
    if a.Step? {
      OneOk(s, a.t);
      StepperExplained(s, a.t, a.fault);
    }
    hide ThreadStep, AllOk;
  }

  lemma {:induction false} RunExplains(s: Fifo, actions: seq<Action>)
    requires Inv(s) && AllExplained(s) && LegalRun(s, actions)
    ensures AllExplained(Run(s, actions))
    decreases |actions|
  {
    hide Mutex, ReadersWait, ClearersNeverSleep, Next, Enabled, AllOk, AllExplained;
    if actions != [] {
      AllOkMeaning(s);
      ExplainedKept(s, actions[0]);
      RunKeeps(s, [actions[0]]);
      assert [actions[0]][1..] == [];
      RunExplains(Next(s, actions[0]), actions[1..]);
    }
  }

  /** A result stays as it is, whatever anyone does, until the same thread makes its next call. */
  lemma ResultStays(s: Fifo, a: Action, t: nat)
    requires Shape(s) && Enabled(s, a) && t in s.threads && !(a.Call? && a.t == t)
    requires s.threads[t].pc in {Wake, Out, Out2, Done}
    ensures t in Next(s, a).threads
    ensures var th, th' := s.threads[t], Next(s, a).threads[t];
            th'.ret == th.ret && th'.got == th.got && th'.data == th.data && th'.pc in {Wake, Out, Out2, Done}
  {
    if a.t != t {
      OthersOnlyWoken(s, a);
      hide Next, Enabled;
    } else if a.Step? {
      OwnResultStays(s, t, a.fault);
      hide ThreadStep;
    }
  }

  lemma OwnResultStays(s: Fifo, t: nat, fault: bool)
    requires Shape(s) && CanStep(s, t) && s.threads[t].pc in {Wake, Out, Out2}
    ensures t in ThreadStep(s, t, fault).threads
    ensures var th, th' := s.threads[t], ThreadStep(s, t, fault).threads[t];
            th'.ret == th.ret && th'.got == th.got && th'.data == th.data && th'.pc in {Out, Out2, Done}
  {
    hide CheckStep;
  }

  /** A sleeper that goes on returns with ERESTARTSYS when a signal is pending and tests the
      buffer again otherwise. */
  lemma SignalEndsWait(s: Fifo, t: nat, fault: bool)
    requires Shape(s) && t in s.threads && s.threads[t].pc == SignalCheck
    ensures CanStep(s, t)
    ensures var s' := Next(s, Step(t, fault));
            && t in s'.threads && s'.owner == s.owner
            && (s'.threads[t].ret == ERESTARTSYS && s'.threads[t].pc == Out2 <==> s.threads[t].signal)
            && (s'.threads[t].ret == s.threads[t].ret && s'.threads[t].pc == Again <==> !s.threads[t].signal)
  {
  }

  /** The clearing step leaves a zeroed and empty buffer. */
  lemma ClearMeans(s: Fifo, t: nat, fault: bool)
    requires Shape(s) && t in s.threads && s.threads[t].pc == Check && s.threads[t].role == Clearer
    ensures CanStep(s, t)
    ensures var s' := Next(s, Step(t, fault));
            s'.len == 0 && |s'.mem| == SIZE && forall i :: 0 <= i < SIZE ==> s'.mem[i] == 0
  {
  }

  /** How far a call is from its end, if it does not fall asleep again. */
  function Distance(pc: Pc): nat {
    match pc
    case GiveUp => 8
    case Schedule => 7
    case SignalCheck => 6
    case Again => 5
    case Start => 5
    case Check => 4
    case Wake => 3
    case Out => 2
    case Out2 => 1
    case Done => 0
  }

  /** Every step of a call brings it nearer to its end, unless it falls asleep where it has to wait. */
  lemma CallGoesOn(s: Fifo, t: nat, fault: bool)
    requires Shape(s) && CanStep(s, t)
    ensures t in Next(s, Step(t, fault)).threads
    ensures var th, th' := s.threads[t], Next(s, Step(t, fault)).threads[t];
            || Distance(th'.pc) < Distance(th.pc)
            || (th.pc == Check && th'.pc == GiveUp && th'.sleeping && th.role != Clearer && s.len == Blocked(th.role))
  {
    if s.threads[t].pc == Check {
      CheckGoesOn(s, t, fault);
    }
    hide CheckStep;
  }

  lemma CheckGoesOn(s: Fifo, t: nat, fault: bool)
    requires Shape(s) && t in s.threads && s.threads[t].pc == Check
    ensures t in CheckStep(s, t, fault).threads
    ensures var th, th' := s.threads[t], CheckStep(s, t, fault).threads[t];
            || th'.pc == Wake || th'.pc == Out
            || (th'.pc == GiveUp && th'.sleeping && th.role != Clearer && s.len == Blocked(th.role))
  {
  }

  predicate CallsAgain(actions: seq<Action>, t: nat) {
    exists j :: 0 <= j < |actions| && actions[j].Call? && actions[j].t == t
  }

  predicate SignalSent(actions: seq<Action>, t: nat) {
    exists i :: 0 <= i < |actions| && actions[i] == Signal(t) && !CallsAgain(actions[i..], t)
  }

  lemma SignalStep(s: Fifo, a: Action, t: nat)
    requires Shape(s) && Enabled(s, a)
    ensures t in s.threads ==> t in Next(s, a).threads
    ensures t in Next(s, a).threads ==>
              (t in s.threads || (a.Call? && a.t == t)) &&
              Next(s, a).threads[t].signal ==
                if a.Call? && a.t == t then false else a == Signal(t) || s.threads[t].signal
  {
    if a.t != t {
      OthersOnlyWoken(s, a);
      hide Next, Enabled;
    } else if a.Step? {
      OwnSignal(s, t, a.fault);
      hide ThreadStep;
    }
  }

  lemma OwnSignal(s: Fifo, t: nat, fault: bool)
    requires Shape(s) && CanStep(s, t)
    ensures t in ThreadStep(s, t, fault).threads
    ensures ThreadStep(s, t, fault).threads[t].signal == s.threads[t].signal
  {
    if s.threads[t].pc == Check {
      CheckKeepsSignal(s, t, fault);
    }
    hide CheckStep;
  }

  lemma CheckKeepsSignal(s: Fifo, t: nat, fault: bool)
    requires Shape(s) && t in s.threads
    ensures t in CheckStep(s, t, fault).threads && CheckStep(s, t, fault).threads[t].signal == s.threads[t].signal
  {
  }

  /** A call has a signal pending exactly if one was sent to it and not before it began. */
  lemma {:induction false} SignalsAreSent(s: Fifo, actions: seq<Action>, t: nat)
    requires Shape(s) && LegalRun(s, actions) && t in Run(s, actions).threads
    ensures Run(s, actions).threads[t].signal <==>
            SignalSent(actions, t) || (t in s.threads && s.threads[t].signal && !CallsAgain(actions, t))
    decreases |actions|
  {
    if actions != [] {
      var a, rest := actions[0], actions[1..];
      SignalStep(s, a, t);
      FirstAction(actions, t);
      hide Next, Enabled, SignalSent, CallsAgain;
      SignalsAreSent(Next(s, a), rest, t);
    }
  }

  lemma FirstAction(actions: seq<Action>, t: nat)
    requires actions != []
    ensures var a, rest := actions[0], actions[1..];
            && (CallsAgain(actions, t) <==> (a.Call? && a.t == t) || CallsAgain(rest, t))
            && (SignalSent(actions, t) <==> (a == Signal(t) && !CallsAgain(rest, t)) || SignalSent(rest, t))
  {
    var a, rest := actions[0], actions[1..];
    assert forall j :: 0 <= j < |rest| ==> rest[j] == actions[j + 1] && rest[j..] == actions[j + 1..];
    if CallsAgain(actions, t) {
      var j :| 0 <= j < |actions| && actions[j].Call? && actions[j].t == t;
      assert j > 0 ==> rest[j - 1] == actions[j];
    }
    if j :| 0 <= j < |rest| && rest[j].Call? && rest[j].t == t {
      assert actions[j + 1] == rest[j];
    }
    assert actions[0..] == actions;
    if SignalSent(actions, t) {
      var i :| 0 <= i < |actions| && actions[i] == Signal(t) && !CallsAgain(actions[i..], t);
      assert i > 0 ==> rest[i - 1] == actions[i] && rest[i - 1..] == actions[i..];
    }
    if SignalSent(rest, t) {
      var i :| 0 <= i < |rest| && rest[i] == Signal(t) && !CallsAgain(rest[i..], t);
      assert actions[i + 1] == rest[i] && rest[i..] == actions[i + 1..];
    }
  }

  // ---------------------------------------------------------------- theorems about every run

  /** In every run, what the successful reads have got since the last clear, in the order in which
      they had the mutex, and then the bytes still held, is what the successful writes have
      accepted of their data; and the buffer never holds more than it has room for. */
  lemma BytesAreConserved(actions: seq<Action>)
    requires LegalRun(Initial(), actions)
    ensures var s, w := Run(Initial(), actions), TrafficOf(Traffic([], []), Initial(), actions);
            Shape(s) && w.written == w.read + s.mem[..s.len]
  {
    RunConserves(Traffic([], []), Initial(), actions);
  }

  /** In every run a finished call has a result that fits it: a count of no more bytes than it
      asked for, and as many as it got; EAGAIN only if it may not wait; ERESTARTSYS only if it
      may and has a signal; and no bytes with an error. */
  lemma ReturnsExplained(actions: seq<Action>, t: nat)
    requires LegalRun(Initial(), actions)
    requires var s := Run(Initial(), actions); t in s.threads && s.threads[t].pc == Done
    ensures var th := Run(Initial(), actions).threads[t];
            match th.ret
            case Pending => false
            case Count(n) =>
              (match th.role
               case Reader => n == |th.got| <= th.count
               case Writer => n <= |th.data|
               case Clearer => n == 0)
            case EAGAIN => th.nonblock && th.got == []
            case ERESTARTSYS => th.signal && !th.nonblock && th.got == []
            case EFAULT => th.role != Clearer && th.got == []
  {
    InitialState();
    RunExplains(Initial(), actions);
  }

  /** At every point where the mutex is free, a reader that sleeps and has not been woken waits
      for an empty buffer. */
  lemma SleepingReaderMeansEmpty(actions: seq<Action>, t: nat)
    requires LegalRun(Initial(), actions)
    requires var s := Run(Initial(), actions);
             s.owner.None? && t in s.threads && s.threads[t].role == Reader && s.threads[t].sleeping
    ensures Run(Initial(), actions).len == 0
  {
    InitialState();
    RunKeeps(Initial(), actions);
  }

  /** Without the ioctl, a writer that sleeps and has not been woken waits for a full buffer;
      so readers and writers never sleep at the same time. */
  lemma SleepingWriterMeansFull(actions: seq<Action>, t: nat)
    requires LegalRun(Initial(), actions) && NoClear(actions)
    requires var s := Run(Initial(), actions);
             s.owner.None? && t in s.threads && s.threads[t].role == Writer && s.threads[t].sleeping
    ensures var s := Run(Initial(), actions);
            s.len == SIZE && forall r :: r in s.threads && s.threads[r].role == Reader ==> !s.threads[r].sleeping
  {
    InitialState();
    RunKeeps(Initial(), actions);
    RunKeepsWriters(Initial(), actions);
  }

  lemma {:induction false} RunExtends(s: Fifo, actions: seq<Action>, a: Action)
    requires Shape(s) && LegalRun(s, actions) && Shape(Run(s, actions)) && Enabled(Run(s, actions), a)
    ensures LegalRun(s, actions + [a]) && Run(s, actions + [a]) == Next(Run(s, actions), a)
    decreases |actions|
  {
    var more := actions + [a];
    if actions == [] {
      ShapeKept(s, a);
      assert more[1..] == [] && LegalRun(Next(s, a), []);
    } else {
      hide Next, Enabled;
      assert more[0] == actions[0] && more[1..] == actions[1..] + [a];
      RunExtends(Next(s, actions[0]), actions[1..], a);
    }
  }

  /** One more step of a run from the start. */
  lemma Go(actions: seq<Action>, s: Fifo, a: Action) returns (more: seq<Action>, s': Fifo)
    requires LegalRun(Initial(), actions) && s == Run(Initial(), actions) && Shape(s) && Enabled(s, a)
    ensures LegalRun(Initial(), more) && s' == Run(Initial(), more) == Next(s, a) && Shape(s')
  {
    RunExtends(Initial(), actions, a);
    ShapeKept(s, a);
    more, s' := actions + [a], Next(s, a);
  }

  /** A writer fills the buffer. */
  lemma FillUp() returns (actions: seq<Action>, s: Fifo)
    ensures LegalRun(Initial(), actions) && s == Run(Initial(), actions) && Shape(s)
    ensures s.owner.None? && s.len == SIZE && s.threads.Keys == {1}
  {
    hide Run, LegalRun;
    actions, s := [], Initial();
    NothingRuns();
    actions, s := Go(actions, s, Call(1, Writer, 0, seq(SIZE, _ => 0), false));
    actions, s := Go(actions, s, Step(1, false));
    actions, s := Go(actions, s, Step(1, false));
    assert s.len == SIZE && s.threads[1].pc == Wake;
    actions, s := Go(actions, s, Step(1, false));
    actions, s := Go(actions, s, Step(1, false));
  }

  lemma NothingRuns()
    ensures LegalRun(Initial(), []) && Run(Initial(), []) == Initial()
  {
  }

  /** A second writer goes to sleep in front of it. */
  lemma FallAsleep(actions: seq<Action>, s: Fifo) returns (more: seq<Action>, s': Fifo)
    requires LegalRun(Initial(), actions) && s == Run(Initial(), actions) && Shape(s)
    requires s.owner.None? && s.len == SIZE && s.threads.Keys == {1}
    ensures LegalRun(Initial(), more) && s' == Run(Initial(), more) && Shape(s')
    ensures s'.owner.None? && s'.threads.Keys == {1, 2}
    ensures s'.threads[2].role == Writer && s'.threads[2].sleeping
  {
    hide Run, LegalRun;
    more, s' := Go(actions, s, Call(2, Writer, 0, [0], false));
    more, s' := Go(more, s', Step(2, false));
    more, s' := Go(more, s', Step(2, false));
    more, s' := Go(more, s', Step(2, false));
  }

  /** A run with the ioctl in which a writer sleeps on although the buffer is empty and nobody
      holds the mutex. */
  lemma ClearStrandsWriter() returns (actions: seq<Action>)
    ensures LegalRun(Initial(), actions)
    ensures var s := Run(Initial(), actions);
            s.owner.None? && s.len == 0 && 2 in s.threads && s.threads[2].role == Writer && s.threads[2].sleeping
  {
    var s;
    actions, s := FillUp();
    actions, s := FallAsleep(actions, s);
    hide Run, LegalRun;
    actions, s := Go(actions, s, Call(3, Clearer, 0, [], false));
    actions, s := Go(actions, s, Step(3, false));
    actions, s := Go(actions, s, Step(3, false));
    actions, s := Go(actions, s, Step(3, false));
  }

  /** A finished call has released the mutex exactly as often as it took it. */
  lemma MutexIsBalanced(actions: seq<Action>, t: nat)
    requires LegalRun(Initial(), actions)
    requires var s := Run(Initial(), actions); t in s.threads && s.threads[t].pc == Done
    ensures var th := Run(Initial(), actions).threads[t];
            th.takes == th.releases && Run(Initial(), actions).owner != Some(t)
  {
    InitialState();
    RunKeeps(Initial(), actions);
  }

  /** Two calls are never inside the critical section together. */
  lemma MutualExclusion(actions: seq<Action>, t: nat, u: nat)
    requires LegalRun(Initial(), actions)
    requires var s := Run(Initial(), actions);
             t in s.threads && u in s.threads && Holds(s.threads[t].pc) && Holds(s.threads[u].pc)
    ensures t == u
  {
    InitialState();
    RunKeeps(Initial(), actions);
  }

  /** Without the ioctl nothing is stuck: some call can go on, unless every unfinished call is a
      reader asleep in front of an empty buffer, or every one a writer asleep in front of a
      full one. */
  lemma Progress(actions: seq<Action>)
    requires LegalRun(Initial(), actions) && NoClear(actions)
    ensures var s := Run(Initial(), actions);
            || (exists t :: CanStep(s, t))
            || (s.len == 0 && forall t :: t in s.threads && s.threads[t].pc != Done ==>
                  s.threads[t].role == Reader && s.threads[t].pc == Schedule)
            || (s.len == SIZE && forall t :: t in s.threads && s.threads[t].pc != Done ==>
                  s.threads[t].role == Writer && s.threads[t].pc == Schedule)
            || (forall t :: t in s.threads ==> s.threads[t].pc == Done)
  {
    InitialState();
    RunKeeps(Initial(), actions);
    RunKeepsWriters(Initial(), actions);
    var s := Run(Initial(), actions);
    if forall t :: !CanStep(s, t) {
      if s.owner.Some? {
        assert CanStep(s, s.owner.value);
      }
      assert forall t :: t in s.threads && s.threads[t].pc != Done ==>
          s.threads[t].pc == Schedule && s.threads[t].sleeping && !CanStep(s, t) by {
        forall t | t in s.threads && s.threads[t].pc != Done
          ensures s.threads[t].pc == Schedule && s.threads[t].sleeping
        {
          assert !CanStep(s, t);
        }
      }
      StuckRoles(s);
    }
  }

  lemma StuckRoles(s: Fifo)
    requires Inv(s) && WritersWait(s) && s.owner.None?
    requires forall t :: t in s.threads && s.threads[t].pc != Done ==> s.threads[t].pc == Schedule && s.threads[t].sleeping
    ensures || (s.len == 0 && forall t :: t in s.threads && s.threads[t].pc != Done ==> s.threads[t].role == Reader)
            || (s.len == SIZE && forall t :: t in s.threads && s.threads[t].pc != Done ==> s.threads[t].role == Writer)
            || (forall t :: t in s.threads ==> s.threads[t].pc == Done)
  {
  }
}
