/** The two read buffers of a volume_id (volume_id_get_buffer, volume_id_free_buffer in
    extras/volume_id/lib/util.c): one for the start of the device, which only grows, and one
    that is moved to where the last far read was. */
module VolumeIdBuffer {
  import opened Basics

  const SB_BUFFER_SIZE: nat := 0x11000
  const SEEK_BUFFER_SIZE: nat := 0x10000

  /** What the buffers cover; their bytes follow from the device (Valid below). */
  datatype Cache = Cache(sb: bool, sbLen: nat, seek: bool, seekOff: nat, seekLen: nat)

  datatype Got = Failed | InSuperblock(at: nat) | InSeek(at: nat)

  /** How much of a read of len bytes at off the device can give. */
  function Available(size: nat, off: nat, len: nat): nat {
    if off >= size then 0 else Min(len, size - off)
  }

  function GetBuffer(c: Cache, size: nat, off: nat, len: nat): (Cache, Got) {
    if off + len <= SB_BUFFER_SIZE then
      if off + len > c.sbLen then
        var n := Available(size, 0, off + len);
        (c.(sb := true, sbLen := n), if n < off + len then Failed else InSuperblock(off))
      else (c.(sb := true), InSuperblock(off))
    else if len > SEEK_BUFFER_SIZE then (c, Failed)
    else if off < c.seekOff || off + len > c.seekOff + c.seekLen then
      var n := Available(size, off, len);
      (c.(seek := true, seekOff := off, seekLen := n), if n < len then Failed else InSeek(0))
    else (c.(seek := true), InSeek(off - c.seekOff))
  }

  function FreeBuffer(c: Cache): Cache {
    Cache(false, if c.sb then 0 else c.sbLen, false, c.seekOff, if c.seek then 0 else c.seekLen)
  }

  const FRESH: Cache := Cache(false, 0, false, 0, 0)

  predicate CacheOk(c: Cache, size: nat) {
    && c.sbLen <= size && c.sbLen <= SB_BUFFER_SIZE && (!c.sb ==> c.sbLen == 0)
    && c.seekLen <= SEEK_BUFFER_SIZE && (!c.seek ==> c.seekLen == 0)
    && (c.seekLen > 0 ==> c.seekOff + c.seekLen <= size)
  }

  datatype Op = Get(off: nat, len: nat) | Free

  function Apply(c: Cache, size: nat, op: Op): Cache {
    match op
    case Get(off, len) => GetBuffer(c, size, off, len).0
    case Free => FreeBuffer(c)
  }

  function Run(c: Cache, size: nat, ops: seq<Op>): Cache
    decreases |ops|
  {
    if ops == [] then c else Run(Apply(c, size, ops[0]), size, ops[1..])
  }

  lemma {:induction false} RunKeeps(c: Cache, size: nat, ops: seq<Op>)
    requires CacheOk(c, size)
    ensures CacheOk(Run(c, size, ops), size)
    decreases |ops|
  {
    if ops != [] {
      RunKeeps(Apply(c, size, ops[0]), size, ops[1..]);
    }
  }

  /** Whatever was read or freed before, a read succeeds exactly when its range lies in the device
      and one of the buffers can hold it. (An empty range far out needs no room in the device.) */
  lemma ReadSucceeds(size: nat, ops: seq<Op>, off: nat, len: nat)
    ensures var got := GetBuffer(Run(FRESH, size, ops), size, off, len).1;
            && (len > 0 ==>
                  (got != Failed <==>
                   off + len <= size && (off + len <= SB_BUFFER_SIZE || len <= SEEK_BUFFER_SIZE)))
            && (len == 0 ==> (got != Failed <==> off > SB_BUFFER_SIZE || off <= size))
  {
    RunKeeps(FRESH, size, ops);
  }

  /** After any calls, what a successful read hands out is covered by the buffer it lies in, at the
      position for its offset; so the same read again finds it there and changes nothing. */
  lemma ReadIsKept(size: nat, ops: seq<Op>, off: nat, len: nat)
    ensures var (c, got) := GetBuffer(Run(FRESH, size, ops), size, off, len);
            && (got != Failed ==> GetBuffer(c, size, off, len) == (c, got))
            && match got
               case Failed => true
               case InSuperblock(at) => c.sb && at == off && off + len <= c.sbLen
               case InSeek(at) => c.seek && c.seekOff + at == off && at + len <= c.seekLen
  {
    RunKeeps(FRESH, size, ops);
  }

  /** After a free, whatever came before, neither buffer is there or covers anything. */
  lemma NothingAfterFree(size: nat, ops: seq<Op>)
    ensures var c := Apply(Run(FRESH, size, ops), size, Free); !c.sb && c.sbLen == 0 && !c.seek && c.seekLen == 0
  {
    RunKeeps(FRESH, size, ops);
  }

  /** Until the buffers are freed, what the superblock buffer covers only grows. */
  lemma {:induction false} SuperblockGrows(c: Cache, size: nat, ops: seq<Op>)
    requires CacheOk(c, size) && forall i :: 0 <= i < |ops| ==> ops[i].Get?
    ensures c.sbLen <= Run(c, size, ops).sbLen && (c.sb ==> Run(c, size, ops).sb)
    decreases |ops|
  {
    if ops != [] {
      assert ops[0].Get?;
      assert forall i :: 0 <= i < |ops[1..]| ==> ops[1..][i] == ops[i + 1];
      SuperblockGrows(Apply(c, size, ops[0]), size, ops[1..]);
    }
  }

  class VolumeId {
    const device: seq<byte>
    var sbbuf: array?<byte>
    var sbbufLen: nat
    var seekbuf: array?<byte>
    var seekbufOff: nat
    var seekbufLen: nat

    ghost function State(): Cache
      reads this
    {
      Cache(sbbuf != null, sbbufLen, seekbuf != null, seekbufOff, seekbufLen)
    }

    /** The buffers hold the device's bytes. */
    ghost predicate Valid()
      reads this, sbbuf, seekbuf
    {
      && CacheOk(State(), |device|)
      && (sbbuf != null ==> sbbuf.Length == SB_BUFFER_SIZE && sbbuf[..sbbufLen] == device[..sbbufLen])
      && (seekbuf != null ==> seekbuf.Length == SEEK_BUFFER_SIZE)
      && (seekbuf != null && seekbufLen > 0 ==>
            seekbuf[..seekbufLen] == device[seekbufOff..seekbufOff + seekbufLen])
      && (sbbuf != null && seekbuf != null ==> sbbuf != seekbuf)
    }

    constructor (device: seq<byte>)
      ensures Valid() && State() == FRESH && this.device == device
    {
      this.device := device;
      sbbuf, sbbufLen := null, 0;
      seekbuf, seekbufOff, seekbufLen := null, 0, 0;
    }

    /** lseek and read. */
    method ReadAt(buf: array<byte>, off: nat, len: nat) returns (n: nat)
      requires len <= buf.Length
      modifies buf
      ensures n == Available(|device|, off, len)
      ensures n > 0 ==> buf[..n] == device[off..off + n]
      ensures forall k :: n <= k < buf.Length ==> buf[k] == old(buf[k])
    {
      n := 0;
      while n < len && off + n < |device|
        invariant n <= Available(|device|, off, len)
        invariant forall k :: 0 <= k < n ==> buf[k] == device[off + k]
        invariant forall k :: n <= k < buf.Length ==> buf[k] == old(buf[k])
        decreases len - n
      {
        buf[n] := device[off + n];
        n := n + 1;
      }
    }

    /** Returns the buffer and the position in it where the requested bytes are, or null. */
    method Buffer(off: nat, len: nat) returns (buf: array?<byte>, at: nat)
      requires Valid()
      modifies this, sbbuf, seekbuf
      ensures Valid()
      ensures var (c, got) := GetBuffer(old(State()), |device|, off, len);
              State() == c &&
              match got
              case Failed => buf == null
              case InSuperblock(p) => buf == sbbuf && at == p
              case InSeek(p) => buf == seekbuf && at == p
      ensures buf != null && len > 0 ==>
                off + len <= |device| && at + len <= buf.Length && buf[at..at + len] == device[off..off + len]
      ensures old(sbbuf) != null ==>
                sbbuf == old(sbbuf) && sbbuf[..old(sbbufLen)] == old(if sbbuf == null then [] else sbbuf[..sbbufLen])
      ensures old(seekbuf) != null ==> seekbuf == old(seekbuf)
      ensures sbbuf == old(sbbuf) || fresh(sbbuf)
      ensures seekbuf == old(seekbuf) || fresh(seekbuf)
    {
      at := 0;
      if off + len <= SB_BUFFER_SIZE {
        buf, at := FromSuperblock(off, len);
      } else {
        if len > SEEK_BUFFER_SIZE {
          return null, 0;
        }
        buf, at := FromSeek(off, len);
      }
    }

    method FromSuperblock(off: nat, len: nat) returns (buf: array?<byte>, at: nat)
      requires Valid() && off + len <= SB_BUFFER_SIZE
      modifies this`sbbuf, this`sbbufLen, sbbuf
      ensures Valid()
      ensures var (c, got) := GetBuffer(old(State()), |device|, off, len);
              State() == c && at == off && if got == Failed then buf == null else buf == sbbuf
      ensures buf != null && len > 0 ==>
                off + len <= |device| && buf.Length == SB_BUFFER_SIZE && buf[off..off + len] == device[off..off + len]
      ensures old(sbbuf) != null ==>
                sbbuf == old(sbbuf) && sbbuf[..old(sbbufLen)] == old(if sbbuf == null then [] else sbbuf[..sbbufLen])
      ensures sbbuf == old(sbbuf) || fresh(sbbuf)
    {
      at := off;
      if sbbuf == null {
        sbbuf := new byte[SB_BUFFER_SIZE];
      }
      if off + len > sbbufLen {
        var n := GrowSuperblock(off + len);
        if n < off + len {
          return null, at;
        }
      }
      SliceOfPrefix(sbbuf[..], device, sbbufLen, off, off + len);
      return sbbuf, at;
    }

    /** The superblock buffer is read again from the start, up to a later end. */
    method GrowSuperblock(end: nat) returns (n: nat)
      requires Valid() && sbbuf != null && sbbufLen < end <= SB_BUFFER_SIZE
      modifies this`sbbufLen, sbbuf
      ensures Valid() && n == sbbufLen == Available(|device|, 0, end)
      ensures sbbuf[..old(sbbufLen)] == old(sbbuf[..sbbufLen])
    {
      ghost var before := sbbuf[..sbbufLen];
      n := ReadAt(sbbuf, 0, end);
      assert device[0..n] == device[..n];
      SliceOfPrefix(sbbuf[..], device, n, 0, sbbufLen);
      sbbufLen := n;
    }

    method FromSeek(off: nat, len: nat) returns (buf: array?<byte>, at: nat)
      requires Valid() && off + len > SB_BUFFER_SIZE && len <= SEEK_BUFFER_SIZE
      modifies this`seekbuf, this`seekbufOff, this`seekbufLen, seekbuf
      ensures Valid()
      ensures var (c, got) := GetBuffer(old(State()), |device|, off, len);
              State() == c && if got == Failed then buf == null else buf == seekbuf && at == got.at
      ensures buf != null && len > 0 ==>
                off + len <= |device| && at + len <= buf.Length && buf[at..at + len] == device[off..off + len]
      ensures old(seekbuf) != null ==> seekbuf == old(seekbuf)
      ensures seekbuf == old(seekbuf) || fresh(seekbuf)
    {
      hide Available;
      if seekbuf == null {
        seekbuf := new byte[SEEK_BUFFER_SIZE];
      }
      if off < seekbufOff || off + len > seekbufOff + seekbufLen {
        var n := MoveSeek(off, len);
        if n < len {
          return null, 0;
        }
      }
      at := off - seekbufOff;
      if len > 0 {
        InWindow(seekbuf, device, seekbufOff, seekbufLen, off, len);
      }
      return seekbuf, at;
    }

    method MoveSeek(off: nat, len: nat) returns (n: nat)
      requires Valid() && seekbuf != null && len <= SEEK_BUFFER_SIZE
      modifies this`seekbufOff, this`seekbufLen, seekbuf
      ensures Valid() && n == Available(|device|, off, len) && seekbufOff == off && seekbufLen == n
    {
      n := ReadAt(seekbuf, off, len);
      seekbufOff := off;
      seekbufLen := n;
    }

    method FreeBuffers()
      requires Valid()
      modifies this
      ensures Valid() && State() == FreeBuffer(old(State())) && sbbuf == null && seekbuf == null
    {
      if sbbuf != null {
        sbbuf := null;
        sbbufLen := 0;
      }
      if seekbuf != null {
        seekbuf := null;
        seekbufLen := 0;
      }
    }
  }

  /** A range inside the window that a buffer shows of the device. */
  lemma InWindow(buf: array<byte>, device: seq<byte>, start: nat, n: nat, off: nat, len: nat)
    requires n <= buf.Length && start + n <= |device| && buf[..n] == device[start..start + n]
    requires start <= off && off + len <= start + n
    ensures buf[off - start..off - start + len] == device[off..off + len]
  {
    assert forall k :: 0 <= k < n ==> buf[k] == buf[..n][k] == device[start + k];
    var s := buf[off - start..off - start + len];
    assert forall k :: 0 <= k < len ==> s[k] == device[off + k];
  }

  lemma SliceOfPrefix(a: seq<byte>, b: seq<byte>, n: nat, i: nat, j: nat)
    requires i <= j <= n <= |a| && n <= |b| && a[..n] == b[..n]
    ensures a[i..j] == b[i..j]
  {
    assert a[..n][i..j] == a[i..j] && b[..n][i..j] == b[i..j];
  }
}
