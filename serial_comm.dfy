/**
 * The serial channel: a port that is open or closed, a circular receive
 * buffer filled by read completions and drained by `Read`, a circular
 * send buffer filled by `Write` and drained by write completions, and one
 * callback slot per direction.
 *
 * The asynchronous machinery is replaced by explicit state: a count of
 * reads handed to the port and a flag for the one write in flight (with
 * the number of bytes it was given). A completion is an ordinary call of
 * `HandleRead` or `HandleWrite` with the error code and byte count the
 * port reports; the callback it fires is returned as a `Notification`.
 */
module Serial {
  import opened Bytes

  /** `SERIAL_BUFF_SIZE`: the size of the scratch buffer one read fills. */
  const ChunkSize := 512
  /** The capacity of each circular buffer. */
  const Capacity := ChunkSize * 5
  const DefaultBaudRate := 9600

  datatype Option<T> = None | Some(value: T)

  /** A handler registered for one direction; `id` tells handlers apart. */
  datatype Slot = Slot(id: nat)

  /** A call of a registered handler with the channel and an error code (0 means success). */
  datatype Notification = Notification(slot: Slot, ec: int)

  /** `circular_buffer::push_back` at capacity `Capacity`: a full buffer drops its oldest byte. */
  function PushBack(buf: seq<byte>, b: byte): (r: seq<byte>)
    requires |buf| <= Capacity
    ensures |r| == if |buf| < Capacity then |buf| + 1 else Capacity
    ensures r[|r| - 1] == b
  {
    if |buf| == Capacity then buf[1..] + [b] else buf + [b]
  }

  /** A push keeps exactly the newest `Capacity` bytes of the buffer followed by the pushed byte. */
  lemma PushBackKeepsNewest(buf: seq<byte>, b: byte)
    requires |buf| <= Capacity
    ensures PushBack(buf, b) == Newest(buf + [b])
  {
    if |buf| == Capacity {
      assert (buf + [b])[1..] == buf[1..] + [b];
    }
  }

  /** The last `Capacity` bytes of `s` (all of it when it fits). */
  function Newest(s: seq<byte>): (r: seq<byte>)
    ensures |r| <= Capacity && |r| <= |s|
    ensures r == s[|s| - |r|..]
    ensures |s| <= Capacity ==> r == s
    ensures |s| > Capacity ==> |r| == Capacity
  {
    if |s| <= Capacity then s else s[|s| - Capacity..]
  }

  /** Keeping the newest bytes before one more push loses nothing the push would keep. */
  lemma NewestPush(s: seq<byte>, b: byte)
    ensures PushBack(Newest(s), b) == Newest(s + [b])
  {
    PushBackKeepsNewest(Newest(s), b);
    if |s| > Capacity {
      assert Newest(s) + [b] == (s + [b])[|s| - Capacity..];
      assert (s + [b])[|s| - Capacity..][1..] == (s + [b])[|s| + 1 - Capacity..];
    }
  }

  /** Pushing the next byte of `chunk` extends the prefix that has been pushed. */
  lemma PushOneMore(before: seq<byte>, chunk: seq<byte>, i: nat)
    requires i < |chunk|
    ensures PushBack(Newest(before + chunk[..i]), chunk[i]) == Newest(before + chunk[..i + 1])
  {
    var pushed := before + chunk[..i];
    assert chunk[..i + 1] == chunk[..i] + [chunk[i]];
    assert before + chunk[..i + 1] == pushed + [chunk[i]];
    NewestPush(pushed, chunk[i]);
  }

  /** `pat` occurs in `s` starting at index `p`. */
  predicate OccursAt(s: seq<byte>, pat: seq<byte>, p: int)
  {
    0 <= p && p + |pat| <= |s| && s[p..p + |pat|] == pat
  }

  class SerialComm {
    var isOpen: bool
    var portName: string
    var baudRate: int
    /** `crcrcv_`: bytes received and not yet read. */
    var rcv: seq<byte>
    /** `crcsnd_`: bytes written and not yet sent. */
    var snd: seq<byte>
    /** `bufrcv_`: the buffer each asynchronous read fills. */
    const scratch: array<byte>
    /** Reads handed to the port whose completion has not been handled. */
    var readsPending: nat
    /** A write has been handed to the port and its completion not handled. */
    var writePending: bool
    /** How many bytes the write in flight was given. */
    var inFlight: nat
    /** `cbrcv_` and `cbsnd_`: at most one handler per direction. */
    var onRead: Option<Slot>
    var onWrite: Option<Slot>

    ghost predicate Valid()
      reads this
    {
      scratch.Length == ChunkSize
      && |rcv| <= Capacity && |snd| <= Capacity
      && (writePending ==> 0 < inFlight <= |snd|)
    }

    /** A closed port with empty buffers and no handlers. */
    constructor ()
      ensures Valid() && fresh(scratch)
      ensures !isOpen && rcv == [] && snd == []
      ensures readsPending == 0 && !writePending
      ensures onRead == None && onWrite == None
    {
      isOpen, portName, baudRate := false, "", DefaultBaudRate;
      rcv, snd := [], [];
      scratch := new byte[ChunkSize](_ => 0);
      readsPending, writePending, inFlight := 0, false, 0;
      onRead, onWrite := None, None;
    }

    /**
     * `Open`: true at once on an open port; otherwise `deviceOpens` stands
     * for the operating system's answer, and a successful open arms a read.
     */
    method Open(name: string, deviceOpens: bool, rate: int := DefaultBaudRate) returns (ok: bool)
      requires Valid()
      modifies this`isOpen, this`portName, this`baudRate, this`readsPending
      ensures Valid()
      ensures old(isOpen) ==> ok && unchanged(this)
      ensures !old(isOpen) ==> ok == deviceOpens && isOpen == deviceOpens
      ensures !old(isOpen) && deviceOpens ==>
        portName == name && baudRate == rate && readsPending == old(readsPending) + 1
      ensures !old(isOpen) && !deviceOpens ==> unchanged(this)
    {
      if isOpen {
        return true;
      }
      if deviceOpens {
        isOpen, portName, baudRate := true, name, rate;
        StartRead();
      }
      ok := deviceOpens;
    }

    /** `Close`: a no-op on a closed port. Completions still pending arrive later with an error. */
    method Close()
      modifies this`isOpen
      ensures !isOpen
    {
      if isOpen {
        isOpen := false;
      }
    }

    method IsOpen() returns (open: bool)
      ensures open == isOpen
    {
      open := isOpen;
    }

    /**
     * `Lookup(flag, len, from)`: the start of the first occurrence of the
     * first `len` bytes of `flag` at or after `from` in the receive
     * buffer, or -1; `None` stands for a null `flag`.
     */
    method Lookup(flag: Option<seq<byte>>, len: int, from: int := 0) returns (pos: int)
      requires flag.Some? && len > 0 ==> len <= |flag.value|
      ensures flag.None? || len <= 0 || from < 0 ==> pos == -1
      ensures pos != -1 ==> flag.Some? && len > 0 && from <= pos && OccursAt(rcv, flag.value[..len], pos)
      ensures pos != -1 ==> forall p :: from <= p < pos ==> !OccursAt(rcv, flag.value[..len], p)
      ensures pos == -1 && flag.Some? && len > 0 && from >= 0 ==>
        forall p :: from <= p ==> !OccursAt(rcv, flag.value[..len], p)
    {
      if flag.None? || len <= 0 || from < 0 {
        return -1;
      }
      var pat := flag.value[..len];
      var n := |rcv| - len;
      var p := from;
      var i := -1;
      while i != len && p <= n
        invariant from <= p
        invariant -1 <= i <= len
        invariant i == len ==> from < p && OccursAt(rcv, pat, p - 1)
        invariant forall q :: from <= q < (if i == len then p - 1 else p) ==> !OccursAt(rcv, pat, q)
        decreases n + 1 - p
      {
        i := 0;
        var j := p;
        while i < len && flag.value[i] == rcv[j]
          invariant 0 <= i <= len && j == p + i && p + len <= |rcv|
          invariant rcv[p..j] == pat[..i]
        {
          assert rcv[p..j + 1] == rcv[p..j] + [rcv[j]];
          assert pat[..i + 1] == pat[..i] + [pat[i]];
          i, j := i + 1, j + 1;
        }
        assert i < len ==> rcv[p + i] != pat[i];
        p := p + 1;
      }
      pos := if i == len then p - 1 else -1;
    }

    /**
     * `Write(buff, len)`: on an open port, appends as many of the first
     * `len` bytes of `buff` as fit and starts a write cycle when the send
     * buffer was empty; `None` stands for a null `buff`.
     */
    method Write(buff: Option<seq<byte>>, len: int) returns (n: int)
      requires Valid()
      requires buff.Some? && len > 0 ==> len <= |buff.value|
      modifies this`snd, this`writePending, this`inFlight
      ensures Valid()
      ensures buff.None? || len <= 0 || !isOpen ==>
        n == 0 && snd == old(snd) && writePending == old(writePending) && inFlight == old(inFlight)
      ensures buff.Some? && len > 0 && isOpen ==>
        n == (if len < Capacity - |old(snd)| then len else Capacity - |old(snd)|)
        && snd == old(snd) + buff.value[..n]
      ensures buff.Some? && len > 0 && isOpen && old(snd) == [] ==> writePending && inFlight == |snd|
      ensures buff.Some? && len > 0 && isOpen && old(snd) != [] ==>
        writePending == old(writePending) && inFlight == old(inFlight)
    {
      if buff.None? || len <= 0 || !isOpen {
        return 0;
      }
      var n0 := |snd|;
      n := Capacity - n0;
      if n > len {
        n := len;
      }
      PushSend(buff.value[..n]);
      if n0 == 0 && isOpen {
        StartWrite();
      }
    }

    /** The loop of `Write`: pushes `part` byte by byte onto a send buffer with room for it. */
    method PushSend(part: seq<byte>)
      requires |snd| + |part| <= Capacity
      modifies this`snd
      ensures snd == old(snd) + part
    {
      var i := 0;
      while i < |part|
        invariant 0 <= i <= |part|
        invariant snd == old(snd) + part[..i]
      {
        assert part[..i + 1] == part[..i] + [part[i]];
        snd := PushBack(snd, part[i]);
        i := i + 1;
      }
      assert part[..i] == part;
    }

    /**
     * `Read(buff, len, from)`: copies the window `[from, from+len)` of the
     * receive buffer into `buff` and drops every byte before its end. When
     * fewer bytes are buffered, the C++ code returns `|rcv| - from` and
     * still erases `from+len` bytes, more than the buffer holds; that call
     * breaks `erase_begin`'s precondition and is reported as `overrun`, with
     * the receive buffer left as it was.
     */
    method Read(buff: array?<byte>, len: int, from: int := 0) returns (count: int, overrun: bool)
      requires Valid()
      requires buff != null && len > 0 ==> len <= buff.Length
      modifies this`rcv, buff
      ensures Valid()
      ensures buff == null || len <= 0 || from < 0 ==> count == 0 && !overrun && rcv == old(rcv)
      ensures buff != null && (len <= 0 || from < 0) ==> buff[..] == old(buff[..])
      ensures buff != null && len > 0 && from >= 0 && from + len <= |old(rcv)| ==>
        count == len && !overrun
        && buff[..len] == old(rcv)[from..from + len] && buff[len..] == old(buff[len..])
        && rcv == old(rcv)[from + len..]
      ensures buff != null && len > 0 && from == |old(rcv)| ==>
        count == 0 && !overrun && rcv == old(rcv) && buff[..] == old(buff[..])
      ensures buff != null && len > 0 && from >= 0 && from + len > |old(rcv)| && from != |old(rcv)| ==>
        count == |old(rcv)| - from && overrun && rcv == old(rcv)
        && (count > 0 ==> buff[..count] == old(rcv)[from..] && buff[count..] == old(buff[count..]))
        && (count < 0 ==> buff[..] == old(buff[..]))
    {
      if buff == null || len <= 0 || from < 0 {
        return 0, false;
      }
      var end := from + len;
      count := if |rcv| > end then len else |rcv| - from;
      overrun := false;
      if count != 0 {
        assert count > 0 ==> from + count <= |rcv|;
        var i := 0;
        while i < count
          invariant 0 <= i <= (if count < 0 then 0 else count)
          invariant rcv == old(rcv)
          invariant count > 0 ==> buff[..i] == rcv[from..from + i]
          invariant buff[i..] == old(buff[i..])
        {
          buff[i] := rcv[from + i];
          i := i + 1;
        }
        if end <= |rcv| {
          rcv := rcv[end..];
        } else {
          overrun := true;
        }
      }
    }

    /** `RegisterRead`: the given handler replaces any previous one. */
    method RegisterRead(slot: Slot)
      modifies this`onRead
      ensures onRead == Some(slot)
    {
      onRead := Some(slot);
    }

    /** `RegisterWrite`: the given handler replaces any previous one. */
    method RegisterWrite(slot: Slot)
      modifies this`onWrite
      ensures onWrite == Some(slot)
    {
      onWrite := Some(slot);
    }

    /** The port's side of a pending read: the bytes that arrived land in the scratch buffer. */
    method Arrive(data: seq<byte>)
      requires Valid() && readsPending > 0 && |data| <= ChunkSize
      modifies scratch
      ensures scratch[..|data|] == data && scratch[|data|..] == old(scratch[|data|..])
    {
      forall k | 0 <= k < |data| {
        scratch[k] := data[k];
      }
    }

    /**
     * `handle_read(ec, n)`: on success the `n` bytes of the scratch buffer
     * are pushed, in order, onto the receive buffer; the read handler is
     * called; a new read is armed only on success.
     */
    method HandleRead(ec: int, n: int) returns (note: Option<Notification>)
      requires Valid() && readsPending > 0
      requires 0 <= n <= ChunkSize
      modifies this`rcv, this`readsPending
      ensures Valid()
      ensures rcv == if ec == 0 then Newest(old(rcv) + scratch[..n]) else old(rcv)
      ensures readsPending == if ec == 0 then old(readsPending) else old(readsPending) - 1
      ensures note == if onRead.Some? then Some(Notification(onRead.value, ec)) else None
    {
      note := if onRead.Some? then Some(Notification(onRead.value, ec)) else None;
      readsPending := readsPending - 1;
      if ec == 0 {
        ghost var chunk := scratch[..n];
        PushChunk(n);
        StartRead();
        assert scratch[..n] == chunk;
      }
    }

    /** The loop of `handle_read`: pushes the first `n` scratch bytes one by one. */
    method PushChunk(n: int)
      requires Valid() && 0 <= n <= ChunkSize
      modifies this`rcv
      ensures Valid()
      ensures rcv == Newest(old(rcv) + scratch[..n])
    {
      var i := 0;
      ghost var chunk := scratch[..n];
      while i < n
        invariant 0 <= i <= n
        invariant rcv == Newest(old(rcv) + chunk[..i])
      {
        PushOneMore(old(rcv), chunk, i);
        rcv := PushBack(rcv, scratch[i]);
        i := i + 1;
      }
      assert chunk[..n] == chunk;
    }

    /**
     * `handle_write(ec, n)`: on success the `n` bytes sent are erased from
     * the front of the send buffer; the write handler is called; another
     * write is started only on success and only if bytes remain.
     */
    method HandleWrite(ec: int, n: int) returns (note: Option<Notification>)
      requires Valid() && writePending
      requires 0 <= n <= inFlight
      modifies this`snd, this`writePending, this`inFlight
      ensures Valid()
      ensures snd == if ec == 0 then old(snd)[n..] else old(snd)
      ensures writePending <==> ec == 0 && snd != []
      ensures writePending ==> inFlight == |snd|
      ensures !writePending ==> inFlight == old(inFlight)
      ensures note == if onWrite.Some? then Some(Notification(onWrite.value, ec)) else None
    {
      writePending := false;
      if ec == 0 {
        snd := snd[n..];
      }
      note := if onWrite.Some? then Some(Notification(onWrite.value, ec)) else None;
      if ec == 0 {
        StartWrite();
      }
    }

    /** `start_read`: hands the scratch buffer to the port for one more read. */
    method StartRead()
      requires Valid()
      modifies this`readsPending
      ensures Valid()
      ensures readsPending == old(readsPending) + 1
    {
      readsPending := readsPending + 1;
    }

    /**
     * `start_write`: hands the whole send buffer to the port, if it holds
     * anything. Every caller reaches it with no write in flight.
     */
    method StartWrite()
      requires Valid() && !writePending
      modifies this`writePending, this`inFlight
      ensures Valid()
      ensures writePending <==> snd != []
      ensures writePending ==> inFlight == |snd|
      ensures !writePending ==> inFlight == old(inFlight)
    {
      if |snd| > 0 {
        writePending, inFlight := true, |snd|;
      }
    }
  }
}
