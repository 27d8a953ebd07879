/**
 * The test driver's use of the codec and the channel: the read handler
 * `on_read`, which pulls one 22-byte timemark per read completion, and
 * the trigger that the sending thread builds and writes.
 */
module Driver {
  import opened Bytes
  import opened TimeLatch
  import opened Serial

  /** `to_read` in `on_read`: the frame size it asks the channel for. */
  const FrameRequest := 22

  /** What `on_read` reports for one read completion. */
  datatype ReadReport =
    | Decoded(mark: Mark)
    | WrongChecksum(raw: seq<byte>)
    | WrongLength(hasRead: int, raw: seq<byte>)
    | PortError(ec: int)

  /**
   * The decision `on_read` makes from the completion's error code, the
   * count `Read` returned and the bytes it copied.
   */
  function Classify(ec: int, hasRead: int, buff: seq<byte>): (r: ReadReport)
    requires |buff| == FrameRequest
    ensures r.PortError? <==> ec != 0
    ensures r.WrongLength? <==> ec == 0 && hasRead != TimemarkSize
    ensures r.Decoded? <==>
      ec == 0 && hasRead == TimemarkSize && buff[MarkChecksumAt] == Sum(buff[..MarkChecksumAt]) % 128
    ensures r.WrongChecksum? <==>
      ec == 0 && hasRead == TimemarkSize && buff[MarkChecksumAt] != Sum(buff[..MarkChecksumAt]) % 128
    ensures r.Decoded? ==> MarkBody(r.mark)[3..] == buff[3..MarkChecksumAt]
  {
    if ec != 0 then PortError(ec)
    else if hasRead == FrameRequest then
      if Accepts(buff, hasRead) then Decoded(FieldsOf(buff)) else WrongChecksum(buff)
    else WrongLength(hasRead, buff)
  }

  /** A well-formed latch frame read in one piece is decoded to the fields it was built from. */
  lemma LatchFrameDecoded(m: Mark)
    ensures Classify(0, TimemarkSize, MarkFrame(m)) == Decoded(m)
  {
    MarkRoundTrip(m);
  }

  /**
   * `on_read(port, ec)`: on success, reads 22 bytes from the start of the
   * receive buffer and decodes them, or reports a checksum or length
   * fault; on an error, closes the port. `overrun` is raised when the
   * `Read` it calls erases past the end of a receive buffer holding
   * between 1 and 21 bytes.
   */
  method OnRead(port: SerialComm, ec: int) returns (r: ReadReport, overrun: bool)
    requires port.Valid()
    modifies port`rcv, port`isOpen
    ensures port.Valid()
    ensures ec != 0 ==> r == PortError(ec) && !overrun && !port.isOpen && port.rcv == old(port.rcv)
    ensures ec == 0 ==> port.isOpen == old(port.isOpen)
    ensures ec == 0 && |old(port.rcv)| >= FrameRequest ==>
      r == Classify(0, FrameRequest, old(port.rcv)[..FrameRequest])
      && !overrun && port.rcv == old(port.rcv)[FrameRequest..]
    ensures ec == 0 && |old(port.rcv)| == 0 ==>
      r.WrongLength? && r.hasRead == 0 && !overrun && port.rcv == old(port.rcv)
    ensures ec == 0 && 0 < |old(port.rcv)| < FrameRequest ==>
      r.WrongLength? && r.hasRead == |old(port.rcv)| && |r.raw| == FrameRequest && r.raw[..r.hasRead] == old(port.rcv)
      && overrun && port.rcv == old(port.rcv)
  {
    overrun := false;
    if ec == 0 {
      var buff := new byte[FrameRequest](_ => 0);
      var hasRead;
      hasRead, overrun := port.Read(buff, FrameRequest);
      assert buff[..] == buff[..FrameRequest];
      if hasRead == FrameRequest {
        assert buff[..] == old(port.rcv)[..FrameRequest];
        var mark := new Timemark();
        var ok := mark.FromString(buff[..], hasRead);
        if ok {
          r := Decoded(FieldsOf(mark.data[..]));
        } else {
          r := WrongChecksum(buff[..]);
        }
      } else {
        r := WrongLength(hasRead, buff[..]);
      }
    } else {
      port.Close();
      r := PortError(ec);
    }
  }

  /** `on_send(port, ec)`: on an error, closes the port. */
  method OnSend(port: SerialComm, ec: int)
    modifies port`isOpen
    ensures ec != 0 ==> !port.isOpen
    ensures ec == 0 ==> port.isOpen == old(port.isOpen)
  {
    if ec != 0 {
      port.Close();
    }
  }

  /**
   * The trigger `thread_send` builds and transmits: a fresh trigger with
   * the start delay, width and count set, turned into bytes without
   * `complete()` being called, so its checksum byte stays 0.
   */
  method SentTrigger(begin: uint32, width: uint16, count: uint16) returns (frame: seq<byte>, n: int)
    ensures n == TriggerSize && frame == TriggerFrame(begin, width, count, 0)
  {
    var trigger := new Trigger();
    trigger.SetBegin(begin);
    SpliceBegin(0, 0, 1, 0, begin);
    trigger.SetWidth(width);
    SpliceWidth(begin, 0, 1, 0, width);
    trigger.SetCount(count);
    SpliceCount(begin, width, 1, 0, count);
    frame, n := trigger.ToString();
  }

  /** The same trigger with `complete()` called before `to_string`. */
  method CompletedTrigger(begin: uint32, width: uint16, count: uint16) returns (frame: seq<byte>, n: int)
    ensures n == TriggerSize && frame == EncodeTrigger(begin, width, count)
    ensures frame[TriggerChecksumAt] == Sum(frame[..TriggerChecksumAt]) % 128
  {
    var trigger := new Trigger();
    trigger.SetBegin(begin);
    SpliceBegin(0, 0, 1, 0, begin);
    trigger.SetWidth(width);
    SpliceWidth(begin, 0, 1, 0, width);
    trigger.SetCount(count);
    SpliceCount(begin, width, 1, 0, count);
    ghost var unchecked := trigger.data[..];
    trigger.Complete();
    assert unchecked[..TriggerChecksumAt] == TriggerFrame(begin, width, count, 0)[..TriggerChecksumAt];
    frame, n := trigger.ToString();
  }

  /** The completed trigger for the driver's values: a 1000 ms delay, a 1000 ms width, one pulse. */
  lemma DriverTriggerBytes()
    ensures EncodeTrigger(1000, 1000, 1)
         == [0x24, 0x4D, 0x43, 0xE8, 0x03, 0x00, 0xE8, 0x03, 0x01, 0x00, 0x0B, 0x0D, 0x0A]
  {
    var body := TriggerFrame(1000, 1000, 1, 0)[..TriggerChecksumAt];
    assert body == [0x24, 0x4D, 0x43, 0xE8, 0x03, 0x00, 0xE8, 0x03, 0x01, 0x00];
    SumPrefix(body, 1); SumPrefix(body, 2); SumPrefix(body, 3); SumPrefix(body, 4);
    SumPrefix(body, 5); SumPrefix(body, 6); SumPrefix(body, 7); SumPrefix(body, 8);
    SumPrefix(body, 9); SumPrefix(body, 10);
    assert Sum(body[..0]) == 0;
    assert body[..10] == body;
    assert Sum(body) == 651;
  }

  /** The sum of a prefix grows by the next byte. */
  lemma SumPrefix(s: seq<byte>, k: nat)
    requires 0 < k <= |s|
    ensures Sum(s[..k]) == Sum(s[..k - 1]) + s[k - 1]
  {
    assert s[..k][..k - 1] == s[..k - 1];
  }

  /**
   * The frame `thread_send` transmits for its values carries checksum 0,
   * which is not the masked byte sum (0x0B) of the bytes it covers.
   */
  lemma SentTriggerChecksumWrong()
    ensures TriggerFrame(1000, 1000, 1, 0)[TriggerChecksumAt] == 0
    ensures MaskedSum(TriggerFrame(1000, 1000, 1, 0)[..TriggerChecksumAt]) == 0x0B
  {
    DriverTriggerBytes();
    assert TriggerFrame(1000, 1000, 1, 0)[..TriggerChecksumAt] == EncodeTrigger(1000, 1000, 1)[..TriggerChecksumAt];
  }

  /**
   * One pass of the sending thread's loop, with the trigger completed: on
   * an open channel with nothing queued, all 13 bytes are accepted and a
   * write of exactly those bytes is started.
   */
  method SendTrigger(port: SerialComm, begin: uint32, width: uint16, count: uint16) returns (accepted: int)
    requires port.Valid() && port.isOpen && port.snd == []
    modifies port`snd, port`writePending, port`inFlight
    ensures port.Valid()
    ensures accepted == TriggerSize && port.snd == EncodeTrigger(begin, width, count)
    ensures port.writePending && port.inFlight == TriggerSize
    ensures port.rcv == old(port.rcv)
  {
    var output, n := CompletedTrigger(begin, width, count);
    accepted := port.Write(Some(output), n);
    assert output[..n] == output;
  }
}
