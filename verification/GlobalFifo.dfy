/** The device: a byte array and a length changed in place under a mutex, and the table of calls
    in progress. Each method is one step of read, write or ioctl, proved to be the step of
    FifoModel. The overlapping memcpy of the driver is the move it is meant to be. */
module GlobalFifo {
  import opened Basics
  import opened FifoModel

  class Device {
    var currentLen: nat
    const mem: array<byte>
    var owner: Option<nat>
    var threads: map<nat, Thread>

    ghost function State(): Fifo
      reads this, mem
    {
      Fifo(mem[..], currentLen, owner, threads)
    }

    constructor ()
      ensures State() == Initial() && fresh(mem)
    {
      mem := new byte[SIZE](_ => 0);
      currentLen, owner, threads := 0, None, map[];
    }

    /** Takes the first n bytes out and moves the others down. */
    method TakeBytes(n: nat) returns (got: seq<byte>)
      requires Shape(State()) && n <= currentLen
      modifies mem, this`currentLen
      ensures mem[..] == Taken(old(mem[..]), old(currentLen), n) && currentLen == old(currentLen) - n
      ensures got == old(mem[..n]) && got + mem[..currentLen] == old(mem[..currentLen])
    {
      got := mem[..n];
      ghost var was := mem[..];
      var i := 0;
      while i < currentLen - n
        modifies mem
        invariant i <= currentLen - n
        invariant forall k :: 0 <= k < i ==> mem[k] == was[n + k]
        invariant forall k :: i <= k < mem.Length ==> mem[k] == was[k]
      {
        mem[i] := mem[n + i];
        i := i + 1;
      }
      assert mem[..] == Taken(was, currentLen, n);
      currentLen := currentLen - n;
    }

    method PutBytes(data: seq<byte>)
      requires Shape(State()) && currentLen + |data| <= SIZE
      modifies mem, this`currentLen
      ensures mem[..] == Put(old(mem[..]), old(currentLen), data) && currentLen == old(currentLen) + |data|
      ensures mem[..currentLen] == old(mem[..currentLen]) + data
    {
      ghost var was := mem[..];
      var i := 0;
      while i < |data|
        modifies mem
        invariant i <= |data|
        invariant forall k :: 0 <= k < i ==> mem[currentLen + k] == data[k]
        invariant forall k :: 0 <= k < mem.Length && !(currentLen <= k < currentLen + i) ==> mem[k] == was[k]
      {
        mem[currentLen + i] := data[i];
        i := i + 1;
      }
      assert forall k :: 0 <= k < |data| ==> mem[currentLen + k] == data[k];
      assert mem[..currentLen] == was[..currentLen];
      assert mem[currentLen..currentLen + |data|] == data;
      assert mem[..] == mem[..currentLen] + mem[currentLen..currentLen + |data|] + mem[currentLen + |data|..];
      assert mem[..] == Put(was, currentLen, data);
      currentLen := currentLen + |data|;
    }

    method ClearBytes()
      requires Shape(State())
      modifies mem, this`currentLen
      ensures mem[..] == seq(SIZE, _ => 0) && currentLen == 0
    {
      currentLen := 0;
      var i := 0;
      while i < SIZE
        modifies mem
        invariant i <= SIZE && forall k :: 0 <= k < i ==> mem[k] == 0
      {
        mem[i] := 0;
        i := i + 1;
      }
    }

    method Set(t: nat, th: Thread)
      modifies this`threads
      ensures threads == old(threads)[t := th]
    {
      threads := threads[t := th];
    }

    /** globalfifo_read with the mutex held, from the test of the buffer on. */
    method ReadLocked(t: nat, fault: bool)
      requires Shape(State()) && t in threads && threads[t].role == Reader
      modifies mem, this
      ensures State() == CheckStep(old(State()), t, fault) && t in threads
      ensures threads[t].pc == Wake ==>
                && threads[t].got == old(mem[..Min(threads[t].count, currentLen)])
                && threads[t].ret == Count(|threads[t].got|)
                && threads[t].got + mem[..currentLen] == old(mem[..currentLen])
      ensures threads[t].pc != Wake ==> mem[..] == old(mem[..]) && currentLen == old(currentLen)
    {
      var th := threads[t];
      if currentLen == 0 {
        if th.nonblock {
          Set(t, th.(pc := Out, ret := EAGAIN));
          return;
        }
        Set(t, th.(pc := GiveUp, sleeping := true));
        return;
      }
      var count := th.count;
      if count > currentLen {
        count := currentLen;
      }
      if fault {
        Set(t, th.(pc := Out, ret := EFAULT));
        return;
      }
      var got := TakeBytes(count);
      Set(t, th.(pc := Wake, ret := Count(count), got := got));
    }

    /** globalfifo_write with the mutex held, from the test of the buffer on. */
    method WriteLocked(t: nat, fault: bool)
      requires Shape(State()) && t in threads && threads[t].role == Writer
      modifies mem, this
      ensures State() == CheckStep(old(State()), t, fault) && t in threads
      ensures threads[t].pc == Wake ==>
                && threads[t].ret == Count(Min(|threads[t].data|, SIZE - old(currentLen)))
                && mem[..currentLen] == old(mem[..currentLen]) + threads[t].data[..threads[t].ret.n]
      ensures threads[t].pc != Wake ==> mem[..] == old(mem[..]) && currentLen == old(currentLen)
    {
      var th := threads[t];
      if currentLen == SIZE {
        if th.nonblock {
          Set(t, th.(pc := Out, ret := EAGAIN));
          return;
        }
        Set(t, th.(pc := GiveUp, sleeping := true));
        return;
      }
      var count := |th.data|;
      if count > SIZE - currentLen {
        count := SIZE - currentLen;
      }
      if fault {
        Set(t, th.(pc := Out, ret := EFAULT));
        return;
      }
      PutBytes(th.data[..count]);
      Set(t, th.(pc := Wake, ret := Count(count)));
    }

    /** wake_up_interruptible on the wait queue of a role. */
    method WakeUp(role: Role)
      modifies this`threads
      ensures threads == Woken(old(threads), role)
    {
      var todo := threads.Keys;
      var woken: map<nat, Thread> := map[];
      while todo != {}
        invariant todo <= threads.Keys && threads == old(threads)
        invariant woken.Keys == threads.Keys - todo
        invariant forall u :: u in woken ==> woken[u] == Woken(threads, role)[u]
        decreases todo
      {
        var u :| u in todo;
        var th := threads[u];
        woken := woken[u := if th.role == role then th.(sleeping := false) else th];
        todo := todo - {u};
      }
      assert woken == Woken(threads, role);
      threads := woken;
    }

    method Step(t: nat, fault: bool)
      requires Shape(State()) && CanStep(State(), t)
      modifies mem, this
      ensures State() == ThreadStep(old(State()), t, fault)
    {
      hide CheckStep, Woken;
      var th := threads[t];
      match th.pc {
        case Start =>
          owner := Some(t);
          Set(t, th.(pc := Check, takes := th.takes + 1));
        case Again =>
          owner := Some(t);
          Set(t, th.(pc := Check, takes := th.takes + 1));
        case Check =>
          if th.role == Reader {
            ReadLocked(t, fault);
          } else if th.role == Writer {
            WriteLocked(t, fault);
          } else {
            ClearLocked(t, fault);
          }
        case GiveUp =>
          owner := None;
          Set(t, th.(pc := Schedule, releases := th.releases + 1));
        case Schedule =>
          Set(t, th.(pc := SignalCheck, sleeping := false));
        case SignalCheck =>
          if th.signal {
            Set(t, th.(pc := Out2, ret := ERESTARTSYS));
          } else {
            Set(t, th.(pc := Again));
          }
        case Wake =>
          Set(t, th.(pc := Out));
          WakeUp(if th.role == Reader then Writer else Reader);
        case Out =>
          owner := None;
          Set(t, th.(pc := Out2, releases := th.releases + 1));
        case Out2 =>
          Set(t, th.(pc := Done, sleeping := false));
      }
    }

    /** FIFO_CLEAR with the mutex held. */
    method ClearLocked(t: nat, fault: bool)
      requires Shape(State()) && t in threads && threads[t].role == Clearer
      modifies mem, this
      ensures State() == CheckStep(old(State()), t, fault)
    {
      ClearBytes();
      Set(t, threads[t].(pc := Out, ret := Count(0)));
    }
  }

  /** Any legal schedule of any number of calls and signals keeps the device's invariant and
      conserves its bytes. */
  method Schedule(d: Device, actions: seq<Action>, ghost before: Traffic)
    requires Inv(d.State()) && LegalRun(d.State(), actions) && Conserved(before, d.State())
    modifies d, d.mem
    ensures d.State() == Run(old(d.State()), actions) && Inv(d.State())
    ensures Conserved(TrafficOf(before, old(d.State()), actions), d.State())
  {
    hide Mutex, ReadersWait, ClearersNeverSleep, ThreadStep;
    ghost var s0 := d.State();
    RunKeeps(s0, actions);
    RunConserves(before, s0, actions);
    var i := 0;
    assert actions[0..] == actions;
    while i < |actions|
      invariant i <= |actions| && Shape(d.State()) && LegalRun(d.State(), actions[i..])
      invariant Run(d.State(), actions[i..]) == Run(s0, actions)
    {
      assert actions[i..][1..] == actions[i + 1..] && actions[i..][0] == actions[i];
      match actions[i] {
        case Call(t, role, count, data, nonblock) =>
          d.Set(t, Thread(role, Start, count, data, nonblock, false, false, Pending, [], 0, 0));
        case Step(t, fault) => d.Step(t, fault);
        case Signal(t) => d.Set(t, d.threads[t].(signal := true, sleeping := false));
      }
      i := i + 1;
    }
  }
}
