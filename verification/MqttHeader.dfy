/** mqtt_header: builds and parses the fixed header. */
module MqttHeader {
  import opened Bytes
  import opened Packets
  import opened Fields
  import opened Framing
  import opened Updates

  /** A number moved left by 7 * i bits. */
  function Shifted(d: nat, i: nat): nat
    requires i <= 4
  {
    if i == 0 then d else if i == 1 then d * 0x80 else if i == 2 then d * 0x4000
    else if i == 3 then d * 0x20_0000 else d * 0x1000_0000
  }

  lemma DecodeAppend(x: bytes, b: byte)
    requires |x| < 4
    ensures DecodeLength(x) < Shifted(1, |x|)
    ensures DecodeLength(x + [b]) == DecodeLength(x) + Shifted(b % 0x80, |x|)
  {
    if x != [] {
      assert (x + [b])[1..] == x[1..] + [b] && (x + [b])[0] == x[0];
      DecodeAppend(x[1..], b);
      var d := b % 0x80;
      assert 0x80 * Shifted(d, |x| - 1) == Shifted(d, |x|);
    }
  }

  /** Two shifts by seven bits are one by fourteen, and so on. */
  lemma Shifts(n: nat)
    ensures n / 0x80 / 0x80 == n / 0x4000
    ensures n / 0x4000 / 0x80 == n / 0x20_0000
  {
  }

  /** The branches of build_header. */
  function EncodeBranches(n: nat): bytes
    requires n < MAX_REMAINING
  {
    if n < 0x80 then [n % 0x80]
    else if n < 0x4000 then [n % 0x80 + 0x80, n / 0x80 % 0x80]
    else if n < 0x20_0000 then [n % 0x80 + 0x80, n / 0x80 % 0x80 + 0x80, n / 0x4000 % 0x80]
    else [n % 0x80 + 0x80, n / 0x80 % 0x80 + 0x80, n / 0x4000 % 0x80 + 0x80, n / 0x20_0000 % 0x80]
  }

  lemma EncodeStep(n: nat)
    requires n >= 0x80
    ensures EncodeLength(n) == [n % 0x80 + 0x80] + EncodeLength(n / 0x80)
  {
  }

  lemma EncodeLast(n: nat)
    requires n < 0x80
    ensures EncodeLength(n) == [n % 0x80]
  {
  }

  /** They write what the encoding algorithm of the protocol writes. */
  lemma EncodeCases(n: nat)
    requires n < MAX_REMAINING
    ensures EncodeBranches(n) == EncodeLength(n)
  {
    hide EncodeLength;
    Shifts(n);
    if n < 0x80 {
      EncodeLast(n);
    } else {
      EncodeStep(n);
      if n < 0x4000 {
        EncodeLast(n / 0x80);
      } else {
        EncodeStep(n / 0x80);
        if n < 0x20_0000 {
          EncodeLast(n / 0x4000);
        } else {
          EncodeStep(n / 0x4000);
          EncodeLast(n / 0x20_0000);
        }
      }
    }
  }

  /** One byte of the remaining length. */
  lemma LengthByte(t: ptype, hf: nibble, digits: bytes, b: byte, rest: bytes)
    requires |digits| < 4
    ensures Parse(HLen(t, hf, digits), [b] + rest) ==
            if b < 0x80 then Finished(HDone(t, hf, DecodeLength(digits + [b])), rest)
            else if |digits| == 3 then Bad
            else Parse(HLen(t, hf, digits + [b]), rest)
  {
    hide Parse, DecodeLength;
    ParseField(HLen(t, hf, digits), [b], rest);
  }

  datatype HeaderStatus = HdrType | HdrLen

  class Header {
    const hbuf: array<byte>
    var hlen: nat
    var dlen: nat
    var status: HeaderStatus
    var kind: nibble
    var hflags: nibble
    var finished: bool

    ghost predicate Valid()
      reads this
    {
      hbuf.Length == 4 && hlen <= 4 && dlen < TWO_TO_THE_32
    }

    /** The state of a header that is being received. */
    ghost predicate Receiving()
      reads this
    {
      && Valid()
      && (finished || status.HdrLen? ==> 1 <= kind <= 14)
      && (!finished ==> hlen < 4)
      && (finished ==> dlen < MAX_REMAINING)
    }

    ghost function AsField(): (f: Field)
      requires Receiving()
      reads this, hbuf
      ensures InHeader(f) && Typed(f)
    {
      if finished then HDone(kind, hflags, dlen)
      else if status.HdrType? then HType
      else HLen(kind, hflags, hbuf[..hlen])
    }

    constructor (t: nibble)
      ensures Receiving() && !finished && AsField() == HType && fresh(hbuf)
      ensures kind == t && hflags == 0 && dlen == 0
    {
      hbuf := new byte[4];
      hlen, dlen, status, kind, hflags, finished := 0, 0, HdrType, t, 0, false;
    }

    /** The copy constructor keeps type, flags and length only. */
    constructor Copy(header: Header)
      requires header.Valid()
      ensures Valid() && !finished && fresh(hbuf)
      ensures kind == header.kind && hflags == header.hflags && dlen == header.dlen
    {
      hbuf := new byte[4];
      hlen, status, finished := 0, HdrType, false;
      kind, hflags, dlen := header.kind, header.hflags, header.dlen;
    }

    method Reset()
      requires Valid()
      modifies this
      ensures Receiving() && AsField() == HType && !finished
    {
      status, finished := HdrType, false;
      kind, hflags, dlen, hlen := 0, 0, 0, 0;
    }

    method SetHeaderFlags(flags: nibble)
      modifies `hflags
      ensures hflags == flags
    {
      hflags := flags;
    }

    method SetRemainingLength(len: nat)
      requires len < TWO_TO_THE_32
      modifies `dlen
      ensures dlen == len
    {
      dlen := len;
    }

    method SetDup(yes: bool)
      modifies `hflags
      ensures IsDup(hflags) == yes && hflags % 8 == old(hflags) % 8
    {
      if yes {
        if hflags < 8 { hflags := hflags + 8; }
      } else {
        if hflags >= 8 { hflags := hflags - 8; }
      }
    }

    /** Appends the fixed header; lengths of 268435456 and more are refused. */
    method BuildHeader(out: bytes) returns (ok: bool, out': bytes)
      requires Valid()
      ensures ok <==> dlen < MAX_REMAINING
      ensures out' == if ok then out + HeaderBytes(kind, hflags, dlen) else out
    {
      hide EncodeLength;
      var header := new byte[5](_ => 0);
      var len := 1;
      header[0] := kind * 0x10 + hflags;
      if dlen < 0x80 {
        header[1] := dlen % 0x80;
        len := 2;
      } else if dlen < 0x4000 {
        header[1] := dlen % 0x80 + 0x80;
        header[2] := dlen / 0x80 % 0x80;
        len := 3;
      } else if dlen < 0x20_0000 {
        header[1] := dlen % 0x80 + 0x80;
        header[2] := dlen / 0x80 % 0x80 + 0x80;
        header[3] := dlen / 0x4000 % 0x80;
        len := 4;
      } else if dlen < MAX_REMAINING {
        header[1] := dlen % 0x80 + 0x80;
        header[2] := dlen / 0x80 % 0x80 + 0x80;
        header[3] := dlen / 0x4000 % 0x80 + 0x80;
        header[4] := dlen / 0x20_0000 % 0x80;
        len := 5;
      } else {
        return false, out;
      }
      assert header[..len] == [kind * 0x10 + hflags] + EncodeBranches(dlen);
      EncodeCases(dlen);
      return true, out + header[..len];
    }

    method UpdateHeaderType(data: bytes) returns (left: int)
      requires Receiving() && !finished && status.HdrType? && data != []
      modifies this
      ensures Valid() && (left < 0 ==> Refused(old(AsField()), [], data, left))
      ensures left >= 0 ==> Receiving() && left < |data| && Advanced(old(AsField()), [], data, left, AsField(), [])
    {
      assert [] + data == [data[0]] + data[1..];
      ParseField(HType, [data[0]], data[1..]);
      var ch := data[0];
      var t := ch / 0x10;
      if t <= 0 || t >= 15 {
        return -1;
      }
      kind, hflags, status, hlen := t, ch % 0x10, HdrLen, 0;
      assert hbuf[..0] == [] && [] + data[1..] == data[1..];
      return |data| - 1;
    }

    /** Collects the bytes of the remaining length, up to the first without continuation bit; `used` of
        them come from the input. */
    method CollectDigits(data: bytes) returns (used: nat)
      requires Receiving() && !finished && status.HdrLen? && data != []
      modifies `hlen, hbuf
      ensures Valid() && 0 < used <= |data| && 0 < hlen
      ensures Parse(old(AsField()), data) ==
              if hbuf[hlen - 1] < 0x80 then Finished(HDone(kind, hflags, DecodeLength(hbuf[..hlen])), data[used..])
              else if hlen == 4 then Bad
              else Parse(HLen(kind, hflags, hbuf[..hlen]), data[used..])
      ensures hbuf[hlen - 1] < 0x80 || hlen == 4 || used == |data|
    {
      hide Parse, DecodeLength, Take, Need;
      ghost var f, digits := AsField(), hbuf[..hlen];
      used := 0;
      while hlen < hbuf.Length && used < |data|
        invariant used <= |data| && hlen <= 4 && (used == 0 ==> hlen < 4)
        invariant digits == hbuf[..hlen] && (used > 0 ==> hlen > 0 && hbuf[hlen - 1] >= 0x80)
        invariant Parse(f, data) == if hlen == 4 then Bad else Parse(HLen(kind, hflags, digits), data[used..])
      {
        var b := data[used];
        LengthByte(kind, hflags, digits, b, data[used + 1..]);
        assert data[used..] == [b] + data[used + 1..];
        hbuf[hlen] := b;
        hlen := hlen + 1;
        used := used + 1;
        digits := digits + [b];
        assert hbuf[..hlen] == digits;
        if hbuf[hlen - 1] < 0x80 {
          break;
        }
      }
    }

    method UpdateHeaderLen(data: bytes) returns (left: int)
      requires Receiving() && !finished && status.HdrLen? && data != []
      modifies this, hbuf
      ensures Valid() && (left < 0 ==> Refused(old(AsField()), [], data, left))
      ensures left >= 0 ==> Receiving() && left < |data| && Advanced(old(AsField()), [], data, left, AsField(), [])
    {
      hide Take, Need, DecodeLength;
      assert hlen < hbuf.Length;  // the check at the entry of the handler never fires
      var used := CollectDigits(data);
      assert [] + data == data && [] + data[used..] == data[used..];
      if hbuf[hlen - 1] >= 0x80 {
        if hlen == 4 {
          return -1;
        }
        return |data| - used;
      }
      SumDigits();
      finished := true;
      return |data| - used;
    }

    /** dlen_ from the digits; they do not overlap, so the or of the shifted digits is their sum. */
    method SumDigits()
      requires Valid()
      modifies `dlen
      ensures Valid() && dlen == DecodeLength(hbuf[..hlen]) < MAX_REMAINING
    {
      dlen := 0;
      var i := 0;
      while i < hlen
        invariant i <= hlen && dlen == DecodeLength(hbuf[..i])
        invariant dlen < Shifted(1, i)
      {
        DecodeAppend(hbuf[..i], hbuf[i]);
        assert hbuf[..i + 1] == hbuf[..i] + [hbuf[i]];
        dlen := dlen + Shifted(hbuf[i] % 0x80, i);
        i := i + 1;
      }
    }

    /** Reads header bytes until the header is complete; returns the number of bytes left. */
    method Update(data: bytes) returns (left: int)
      requires Receiving()
      modifies this, hbuf
      ensures data == [] ==> left == -1
      ensures data != [] ==> Valid() && (left >= 0 ==> Receiving())
      ensures data != [] && left < 0 ==> Refused(old(AsField()), [], data, left)
      ensures data != [] && left >= 0 ==> Reads(Parse(old(AsField()), [] + data), data, left, AsField(), [])
    {
      hide Parse, Take, Need;
      if data == [] {
        return -1;
      }
      ghost var f := AsField();
      left := |data|;
      AdvanceStart(f, [], data);
      while left > 0 && !finished
        invariant 0 <= left <= |data| && Receiving()
        invariant Advanced(f, [], data, left, AsField(), [])
        decreases left
      {
        var rest := data[|data| - left..];
        ghost var g := AsField();
        var ret := -1;
        match status {
          case HdrType => ret := UpdateHeaderType(rest);
          case HdrLen => ret := UpdateHeaderLen(rest);
        }
        if ret < 0 {
          return -1;
        }
        AdvanceNext(f, [], data, left, g, [], ret, AsField(), []);
        left := ret;
      }
      FieldNeeds();
      AdvanceEnd(f, [], data, left, AsField(), []);
    }

    lemma FieldNeeds()
      requires Receiving()
      ensures if finished then Stops(AsField()) else Waits(AsField(), [])
    {
    }
  }
}
