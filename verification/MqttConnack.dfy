/** mqtt_connack. */
module MqttConnack {
  import opened Bytes
  import opened Packets
  import opened Fields
  import opened Updates
  import opened MqttHeader

  class ConnackMessage {
    const header: Header
    const buff: array<byte>
    var dlen: nat
    var connFlags: byte
    var connackCode: byte
    var session: bool
    var finished: bool

    ghost predicate Valid()
      reads this, header
    {
      header.Valid() && header.kind == CONNACK && buff.Length == 2
    }

    function Content(): Packet
      reads this, header
    {
      Connack(header.hflags, connFlags, connackCode)
    }

    ghost predicate Receiving()
      reads this, header
    {
      Valid() && (!finished ==> dlen < 2)
    }

    ghost function AsField(): (f: Field)
      requires Receiving()
      reads this, header
      ensures Typed(f) && !InHeader(f)
    {
      if finished then Done(Content()) else KVar(header.hflags)
    }

    ghost function Part(): bytes
      requires Receiving()
      reads this, header, buff
    {
      if finished then [] else buff[..dlen]
    }

    constructor ()
      ensures Valid() && fresh(header) && fresh(header.hbuf) && fresh(buff) && !finished
      ensures Content() == Connack(0, 0, 0) && !session
    {
      header := new Header(CONNACK);
      buff := new byte[2];
      dlen, connFlags, connackCode, session, finished := 0, 0, 0, false, false;
    }

    constructor Received(h: Header)
      requires h.Valid() && h.kind == CONNACK
      ensures Receiving() && !finished && fresh(header) && fresh(header.hbuf) && fresh(buff)
      ensures AsField() == KVar(h.hflags) && Part() == [] && !session
    {
      header := new Header.Copy(h);
      buff := new byte[2];
      dlen, connFlags, connackCode, session, finished := 0, 0, 0, false, false;
    }

    method SetSession(on: bool)
      modifies `session, `connFlags
      ensures session == on && connFlags == if on then 1 else 0
    {
      session := on;
      connFlags := if on then 1 else 0;
    }

    method ToString(out: bytes) returns (ok: bool, out': bytes)
      requires Valid()
      modifies header`dlen
      ensures Valid() && Content() == old(Content())
      ensures ok && out' == out + Print(Content())
    {
      hide EncodeLength;
      header.SetRemainingLength(2);
      ok, out' := header.BuildHeader(out);
      out' := out' + [connFlags];
      out' := out' + [connackCode];
    }

    /** The flag byte is stored; `session` is not derived from it. */
    method UpdateHeaderVar(data: bytes) returns (left: int)
      requires Receiving() && !finished && data != []
      modifies this, buff
      ensures Receiving() && 0 <= left < |data| && session == old(session)
      ensures Advanced(old(AsField()), old(Part()), data, left, AsField(), Part())
    {
      hide Parse;
      ghost var f, part := AsField(), Part();
      assert dlen < 2;  // the check at the entry of the handler never fires
      var used;
      dlen, used := Fill(buff, dlen, 2, data);
      left := |data| - used;
      if dlen < 2 {
        AdvancePart(f, part, data);
        assert data[..used] == data;
        return;
      }
      AdvanceField(f, part, data, used);
      connFlags, connackCode := buff[0], buff[1];
      finished := true;
    }

    method Update(data: bytes) returns (left: int)
      requires Receiving()
      modifies this, buff
      ensures data == [] ==> left == -1
      ensures data != [] ==> left >= 0 && Receiving()
      ensures data != [] ==>
                Reads(Parse(old(AsField()), old(Part()) + data), data, left, AsField(), Part())
    {
      hide Parse, Take, Need, Advanced;
      if data == [] {
        return -1;
      }
      ghost var f, part := AsField(), Part();
      left := |data|;
      AdvanceStart(f, part, data);
      while left > 0 && !finished
        invariant 0 <= left <= |data| && Receiving()
        invariant Advanced(f, part, data, left, AsField(), Part())
        decreases left
      {
        ghost var g, part' := AsField(), Part();
        var ret := UpdateHeaderVar(data[|data| - left..]);
        AdvanceNext(f, part, data, left, g, part', ret, AsField(), Part());
        left := ret;
      }
      FieldWaits();
      AdvanceEnd(f, part, data, left, AsField(), Part());
    }

    lemma FieldWaits()
      requires Receiving()
      ensures if finished then Stops(AsField()) && Part() == [] else Waits(AsField(), Part())
    {
    }
  }
}
