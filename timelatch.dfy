/**
 * The time-latch packet codec: the 13-byte trigger frame the host sends
 * to the latch, and the 22-byte timemark frame the latch reports back.
 * Both structs are modelled by their raw bytes, since `complete()`,
 * `is_valid()`, `to_string()` and `from_string()` all work on the
 * struct's memory as a byte string.
 */
module TimeLatch {
  import opened Bytes

  const TriggerSize := 13
  const TimemarkSize := 22
  /** Offset of a trigger's checksum byte; it covers the bytes before it. */
  const TriggerChecksumAt := 10
  /** Offset of a timemark's checksum byte; it covers the bytes before it. */
  const MarkChecksumAt := 19

  /** `'$', 'M', 'C'` */
  const Header: seq<byte> := [0x24, 0x4D, 0x43]
  /** CR LF */
  const Tail: seq<byte> := [0x0D, 0x0A]

  // =====================================================================
  // Trigger frame
  // =====================================================================

  /**
   * The bytes of a `timelatch_trigger` whose fields hold the given values:
   * header, the low three bytes of the start delay, the width, the count,
   * the checksum byte and the tail; multi-byte fields low byte first.
   */
  function TriggerFrame(begin: uint32, width: uint16, count: uint16, checksum: byte): (f: seq<byte>)
    ensures |f| == TriggerSize
  {
    Header + Uint32Bytes(begin)[..3] + Uint16Bytes(width) + Uint16Bytes(count) + [checksum] + Tail
  }

  /** A trigger after `set_begin`, `set_width`, `set_count` and `complete()`. */
  function EncodeTrigger(begin: uint32, width: uint16, count: uint16): (f: seq<byte>)
    ensures |f| == TriggerSize
    ensures f[..3] == Header && f[11..] == Tail
    ensures begin % 0x100_0000 == f[3] as int + 0x100 * f[4] as int + 0x1_0000 * f[5] as int
    ensures width == f[6] as int + 0x100 * f[7] as int
    ensures count == f[8] as int + 0x100 * f[9] as int
    ensures f[TriggerChecksumAt] == Sum(f[..TriggerChecksumAt]) % 128
  {
    var body := TriggerFrame(begin, width, count, 0)[..TriggerChecksumAt];
    var f := TriggerFrame(begin, width, count, MaskedSum(body));
    assert f[..TriggerChecksumAt] == body;
    f
  }

  /** Only the low 24 bits of the start delay reach the frame. */
  lemma BeginHighBitsDropped(begin: uint32, width: uint16, count: uint16, checksum: byte)
    ensures TriggerFrame(begin, width, count, checksum)
         == TriggerFrame(begin % 0x100_0000, width, count, checksum)
  {
    var x, y := begin, begin % 0x100_0000;
    var lowX, lowY := Uint32Bytes(x), Uint32Bytes(y);
    assert y % 0x100_0000 == y;
    DigitsUnique(lowX[0], lowX[1], lowX[2], lowY[0], lowY[1], lowY[2]);
    assert lowX[..3] == lowY[..3];
  }

  /** Three base-256 digits are determined by the value they spell. */
  lemma DigitsUnique(a0: byte, a1: byte, a2: byte, b0: byte, b1: byte, b2: byte)
    requires a0 as int + 0x100 * a1 as int + 0x1_0000 * a2 as int
          == b0 as int + 0x100 * b1 as int + 0x1_0000 * b2 as int
    ensures a0 == b0 && a1 == b1 && a2 == b2
  {
    var v := a0 as int + 0x100 * a1 as int + 0x1_0000 * a2 as int;
    DivModUnique(v, 0x100, a1 as int + 0x100 * a2 as int, a0);
    DivModUnique(v, 0x100, b1 as int + 0x100 * b2 as int, b0);
    var w := a1 as int + 0x100 * a2 as int;
    DivModUnique(w, 0x100, a2 as int, a1);
    DivModUnique(w, 0x100, b2 as int, b1);
  }

  /** Writing new start-delay bytes into a trigger frame changes that field and nothing else. */
  lemma SpliceBegin(begin: uint32, width: uint16, count: uint16, checksum: byte, x: uint32)
    ensures Splice(TriggerFrame(begin, width, count, checksum), 3, Uint32Bytes(x)[..3])
         == TriggerFrame(x, width, count, checksum)
  {
  }

  /** Writing new width bytes into a trigger frame changes that field and nothing else. */
  lemma SpliceWidth(begin: uint32, width: uint16, count: uint16, checksum: byte, x: uint16)
    ensures Splice(TriggerFrame(begin, width, count, checksum), 6, Uint16Bytes(x))
         == TriggerFrame(begin, x, count, checksum)
  {
  }

  /** Writing new count bytes into a trigger frame changes that field and nothing else. */
  lemma SpliceCount(begin: uint32, width: uint16, count: uint16, checksum: byte, x: uint16)
    ensures Splice(TriggerFrame(begin, width, count, checksum), 8, Uint16Bytes(x))
         == TriggerFrame(begin, width, x, checksum)
  {
  }

  /** `timelatch_trigger`: the outbound frame, held as the struct's 13 bytes. */
  class Trigger {
    const data: array<byte>

    ghost predicate Valid()
      reads this
    {
      data.Length == TriggerSize
    }

    /** Zero the struct, then set header, count 1 and tail. */
    constructor ()
      ensures Valid() && fresh(data)
      ensures data[..] == TriggerFrame(0, 0, 1, 0)
    {
      data := new byte[TriggerSize](_ => 0);
      new;
      data[0], data[1], data[2] := 0x24, 0x4D, 0x43;
      SetCount(1);
      data[11], data[12] := 0x0D, 0x0A;
    }

    /** `set_begin`: bytes 0..2 of `uint32_u(x)` go to bytes 3..5. */
    method SetBegin(x: uint32)
      requires Valid()
      modifies data
      ensures data[..] == Splice(old(data[..]), 3, Uint32Bytes(x)[..3])
    {
      var u := Uint32Bytes(x);
      data[3], data[4], data[5] := u[0], u[1], u[2];
    }

    /** `set_width`: the two bytes of `uint16_u(x)` go to bytes 6..7. */
    method SetWidth(x: uint16)
      requires Valid()
      modifies data
      ensures data[..] == Splice(old(data[..]), 6, Uint16Bytes(x))
    {
      var u := Uint16Bytes(x);
      data[6], data[7] := u[0], u[1];
    }

    /** `set_count`: the two bytes of `uint16_u(x)` go to bytes 8..9. */
    method SetCount(x: uint16)
      requires Valid()
      modifies data
      ensures data[..] == Splice(old(data[..]), 8, Uint16Bytes(x))
    {
      var u := Uint16Bytes(x);
      data[8], data[9] := u[0], u[1];
    }

    /** `complete()`: the masked byte sum of bytes 0..9 goes to the checksum byte. */
    method Complete()
      requires Valid()
      modifies data
      ensures data[..] == old(data[..])[TriggerChecksumAt := MaskedSum(old(data[..TriggerChecksumAt]))]
    {
      var c := MaskedChecksum(data, TriggerChecksumAt);
      data[TriggerChecksumAt] := c;
    }

    /** `to_string(n)`: a copy of the struct's bytes, and their count. */
    method ToString() returns (output: seq<byte>, n: int)
      requires Valid()
      ensures n == TriggerSize && output == data[..]
    {
      n := data.Length;
      output := data[..];
    }
  }

  // =====================================================================
  // Timemark frame
  // =====================================================================

  /** The fields of a `timelatch_timemark`, as the struct's members read them. */
  datatype Mark = Mark(
    serialNo: byte,
    ascYear: uint16, ascMonth: byte, ascDay: byte, ascHour: byte, ascMinute: byte,
    ascSecond: byte, ascMillisec: uint16, ascTenMicrosec: byte,
    widthSecond: uint16, widthMillisec: uint16, widthTenMicrosec: byte)

  /** The 19 bytes a timemark's checksum covers: header, then the fields in struct order. */
  function MarkBody(m: Mark): (b: seq<byte>)
    ensures |b| == MarkChecksumAt
  {
    Header + [m.serialNo] + Uint16Bytes(m.ascYear)
    + [m.ascMonth, m.ascDay, m.ascHour, m.ascMinute, m.ascSecond]
    + Uint16Bytes(m.ascMillisec) + [m.ascTenMicrosec]
    + Uint16Bytes(m.widthSecond) + Uint16Bytes(m.widthMillisec) + [m.widthTenMicrosec]
  }

  /** A well-formed timemark frame as a latch sends it for `m`. */
  function MarkFrame(m: Mark): (f: seq<byte>)
    ensures |f| == TimemarkSize
  {
    MarkBody(m) + [MaskedSum(MarkBody(m))] + Tail
  }

  /** The fields a `timelatch_timemark` holds after `memcpy` of the 22 bytes `f`. */
  function FieldsOf(f: seq<byte>): (m: Mark)
    requires |f| == TimemarkSize
    ensures MarkBody(m)[3..] == f[3..MarkChecksumAt]
  {
    Mark(f[3], Uint16Of(f[4], f[5]), f[6], f[7], f[8], f[9],
         f[10], Uint16Of(f[11], f[12]), f[13],
         Uint16Of(f[14], f[15]), Uint16Of(f[16], f[17]), f[18])
  }

  /** The test `is_valid()` performs on the struct's bytes. */
  predicate ChecksumHolds(f: seq<byte>)
    requires |f| == TimemarkSize
  {
    f[MarkChecksumAt] == MaskedSum(f[..MarkChecksumAt])
  }

  /** The verdict of `from_string(rcvd, n)`. */
  function Accepts(rcvd: seq<byte>, n: int): (ok: bool)
    requires n == TimemarkSize ==> |rcvd| >= TimemarkSize
    ensures ok ==> n == TimemarkSize
    ensures n == TimemarkSize ==> (ok <==> rcvd[MarkChecksumAt] == Sum(rcvd[..MarkChecksumAt]) % 128)
  {
    n == TimemarkSize && (
      assert rcvd[..TimemarkSize][..MarkChecksumAt] == rcvd[..MarkChecksumAt];
      ChecksumHolds(rcvd[..TimemarkSize]))
  }

  /** Every frame a latch sends is accepted, and its fields read back as sent. */
  lemma MarkRoundTrip(m: Mark)
    ensures Accepts(MarkFrame(m), TimemarkSize)
    ensures FieldsOf(MarkFrame(m)) == m
  {
    var f := MarkFrame(m);
    assert f[..MarkChecksumAt] == MarkBody(m);
    var m' := FieldsOf(f);
    assert MarkBody(m')[3..] == MarkBody(m)[3..];
    Uint16Injective(m'.ascYear, m.ascYear);
    Uint16Injective(m'.ascMillisec, m.ascMillisec);
    Uint16Injective(m'.widthSecond, m.widthSecond);
    Uint16Injective(m'.widthMillisec, m.widthMillisec);
  }

  lemma Uint16Injective(x: uint16, y: uint16)
    requires Uint16Bytes(x) == Uint16Bytes(y)
    ensures x == y
  {
  }

  /**
   * An accepted frame that starts with `$MC` is the latch frame of its
   * fields whatever its last two bytes: `from_string` never compares the
   * tail with CR LF (nor the header with `$MC`, see ZeroFrameAccepted).
   */
  lemma AcceptedFrameShape(f: seq<byte>)
    requires |f| == TimemarkSize && Accepts(f, TimemarkSize) && f[..3] == Header
    ensures MarkFrame(FieldsOf(f)) == f[..TimemarkSize - 2] + Tail
  {
    var body := MarkBody(FieldsOf(f));
    assert body == Header + f[3..MarkChecksumAt];
    assert body == f[..MarkChecksumAt];
    assert f[..TimemarkSize - 2] == f[..MarkChecksumAt] + [f[MarkChecksumAt]];
  }

  /** The all-zero frame passes `from_string`: neither header nor tail is checked. */
  lemma ZeroFrameAccepted()
    ensures Accepts(seq(TimemarkSize, _ => 0), TimemarkSize)
  {
    var z: seq<byte> := seq(TimemarkSize, _ => 0);
    SumOfZeros(z[..MarkChecksumAt]);
  }

  lemma {:induction false} SumOfZeros(s: seq<byte>)
    requires forall k :: 0 <= k < |s| ==> s[k] == 0
    ensures Sum(s) == 0
  {
    if s != [] {
      SumOfZeros(s[..|s| - 1]);
    }
  }

  /**
   * Flipping bit 7 of a covered byte changes the sum by 128 and so goes
   * unnoticed: the checksum does not detect every single-bit error.
   */
  lemma Bit7FlipUndetected(f: seq<byte>, i: nat)
    requires |f| == TimemarkSize && i < MarkChecksumAt
    ensures Accepts(f[i := FlipBit(f[i], 7)], TimemarkSize) == Accepts(f, TimemarkSize)
  {
    var v := FlipBit(f[i], 7);
    var g := f[i := v];
    assert g[..MarkChecksumAt] == f[..MarkChecksumAt][i := v];
    assert g[MarkChecksumAt] == f[MarkChecksumAt];
    SumUpdate(f[..MarkChecksumAt], i, v);
    assert Pow2(7) == 128;
    var s: int := Sum(f[..MarkChecksumAt]);
    var t: int := Sum(g[..MarkChecksumAt]);
    if t == s + 128 {
      DivModUnique(t, 128, s / 128 + 1, s % 128);
    } else {
      DivModUnique(t, 128, s / 128 - 1, s % 128);
    }
  }

  /**
   * In an accepted frame, flipping any bit of the checksum byte, or any of
   * bits 0..6 of a covered byte, makes `from_string` reject it.
   */
  lemma OtherBitFlipsDetected(f: seq<byte>, i: nat, k: nat)
    requires |f| == TimemarkSize && Accepts(f, TimemarkSize)
    requires i <= MarkChecksumAt && k < 8 && !(i < MarkChecksumAt && k == 7)
    ensures !Accepts(f[i := FlipBit(f[i], k)], TimemarkSize)
  {
    var v := FlipBit(f[i], k);
    var g := f[i := v];
    var s: int := Sum(f[..MarkChecksumAt]);
    if i < MarkChecksumAt {
      assert g[..MarkChecksumAt] == f[..MarkChecksumAt][i := v];
      SumUpdate(f[..MarkChecksumAt], i, v);
      var p := Pow2(k);
      assert 0 < p < 128 by {
        if k == 0 {} else if k == 1 {} else if k == 2 {} else if k == 3 {}
        else if k == 4 {} else if k == 5 {} else {}
      }
      ShiftChangesResidue(s, p);
      ShiftChangesResidue(s - p, p);
    } else {
      assert g[..MarkChecksumAt] == f[..MarkChecksumAt];
    }
  }

  /** Adding an amount strictly between 0 and 128 changes a value's residue modulo 128. */
  lemma ShiftChangesResidue(s: int, p: int)
    requires 0 < p < 128
    ensures (s + p) % 128 != s % 128
  {
    var q := s / 128;
    var r := s % 128;
    if r + p < 128 {
      DivModUnique(s + p, 128, q, r + p);
    } else {
      DivModUnique(s + p, 128, q + 1, r + p - 128);
    }
  }

  /** `timelatch_timemark`: the inbound frame, held as the struct's 22 bytes. */
  class Timemark {
    const data: array<byte>

    ghost predicate Valid()
      reads this
    {
      data.Length == TimemarkSize
    }

    /** A mark before `from_string` (the C++ struct is left uninitialised; the model zeroes it). */
    constructor ()
      ensures Valid() && fresh(data)
    {
      data := new byte[TimemarkSize](_ => 0);
    }

    /** `from_string(rcvd, n)`: rejects any `n` but 22, otherwise copies the bytes and checks them. */
    method FromString(rcvd: seq<byte>, n: int) returns (ok: bool)
      requires Valid()
      requires n == TimemarkSize ==> |rcvd| >= TimemarkSize
      modifies data
      ensures ok == Accepts(rcvd, n)
      ensures data[..] == if n == TimemarkSize then rcvd[..TimemarkSize] else old(data[..])
    {
      if n != TimemarkSize {
        return false;
      }
      forall k | 0 <= k < TimemarkSize {
        data[k] := rcvd[k];
      }
      assert data[..] == rcvd[..TimemarkSize];
      ok := IsValid();
    }

    /** `is_valid()`: the masked byte sum of bytes 0..18 equals byte 19. */
    method IsValid() returns (valid: bool)
      requires Valid()
      ensures valid == ChecksumHolds(data[..])
      ensures valid <==> data[MarkChecksumAt] == Sum(data[..MarkChecksumAt]) % 128
    {
      var sum := MaskedChecksum(data, MarkChecksumAt);
      valid := sum == data[MarkChecksumAt];
    }

    /** `asc_year()`: bytes 4 and 5 read as a little-endian `uint16`. */
    function AscYear(): (year: uint16)
      requires Valid()
      reads this, data
      ensures Uint16Bytes(year) == data[4..6]
      ensures year == FieldsOf(data[..]).ascYear
    {
      Uint16Of(data[4], data[5])
    }
  }
}
