/** CCID bulk messages (reader.c), sections 6.1 and 6.2 of the USB CCID specification Rev 1.1. */
module CcidFrames {
  import opened Bytes
  import opened Buffers
  import opened Fifos

  const CMD_ICCPOWERON: byte := 0x62
  const CMD_GETSLOTSTAT: byte := 0x65
  const CMD_XFRBLOCK: byte := 0x6F
  const RESP_DATA: byte := 0x80
  const RESP_SLOTSTAT: byte := 0x81
  const HDR_SIZE: nat := 10

  type Ctl = c: bytes | |c| == 3 witness [0, 0, 0]
  const CTL_ZERO: Ctl := [0, 0, 0]

  datatype Message = Message(kind: byte, slot: byte, seqno: byte, ctl: Ctl, payload: bytes)

  function Header(m: Message): (s: bytes)
    ensures |s| == HDR_SIZE
  {
    [m.kind] + LeEncode(|m.payload|, 4) + [m.slot, m.seqno] + m.ctl
  }

  function Frame(m: Message): bytes {
    Header(m) + m.payload
  }

  // The message at the front of a packet; None for a packet cut short.
  function ParseFrame(pkt: bytes): Option<Message> {
    if |pkt| < HDR_SIZE then None else
    var n := LeDecode(pkt[1..5]);
    if |pkt| - HDR_SIZE < n then None
    else Some(Message(pkt[0], pkt[5], pkt[6], pkt[7..10], pkt[10..10 + n]))
  }

  // Framing loses nothing, whatever trails the message.
  lemma FrameRoundTrip(m: Message, junk: bytes)
    requires |m.payload| < 0x1_0000_0000
    ensures ParseFrame(Frame(m) + junk) == Some(m)
  {
    var pkt := Frame(m) + junk;
    PowersOf256();
    LeDecodeOfEncode(|m.payload|, 4);
    assert pkt[1..5] == LeEncode(|m.payload|, 4);
    assert pkt[7..10] == m.ctl;
    assert pkt[10..10 + |m.payload|] == m.payload;
  }

  // No strict prefix of a message is taken for one.
  lemma CutFrameIsRejected(m: Message, n: nat)
    requires |m.payload| < 0x1_0000_0000 && n < |Frame(m)|
    ensures ParseFrame(Frame(m)[..n]) == None
  {
    if HDR_SIZE <= n {
      PowersOf256();
      LeDecodeOfEncode(|m.payload|, 4);
      assert Frame(m)[..n][1..5] == LeEncode(|m.payload|, 4);
    }
  }

  // What a parsed packet holds is the packet's own front.
  lemma ParsedIsFront(pkt: bytes)
    requires ParseFrame(pkt).Some?
    ensures Frame(ParseFrame(pkt).value) <= pkt
  {
    var m := ParseFrame(pkt).value;
    PowersOf256();
    LeEncodeOfDecode(pkt[1..5]);
    assert Header(m) == pkt[..10];
    assert Frame(m) == pkt[..10 + |m.payload|];
  }

  // The ten octets of a header, unless they do not fit.
  method PutHeader(bp: Buffer, m: Message) returns (ok: bool)
    requires bp.Valid() && bp.Contents() == [] && |m.payload| < 0x1_0000_0000
    modifies bp`wpos, bp.mem
    ensures bp.Valid() && ok == (HDR_SIZE <= old(bp.size - bp.wpos))
    ensures ok ==> bp.Contents() == Header(m) && bp.wpos == old(bp.wpos) + HDR_SIZE
  {
    ok := bp.PutU8(m.kind);
    if !ok { return; }
    ok := bp.PutU32le(|m.payload|);
    if !ok { return; }
    ghost var size := [m.kind] + LeEncode(|m.payload|, 4);
    assert bp.Contents() == size;
    ok := bp.PutU8(m.slot);
    if !ok { return; }
    ok := bp.PutU8(m.seqno);
    if !ok { return; }
    assert bp.Contents() == size + [m.slot, m.seqno];
    ok := bp.Put(m.ctl);
  }

  // ccid_build_command, given the sequence number. The rounded-up buffer runs out exactly where
  // its size no longer fits an unsigned int.
  method BuildFrame(m: Message) returns (bp: Buffer?)
    requires |m.payload| < 0x1_0000_0000
    ensures bp != null <==> |m.payload| + 24 <= 0x1_0000_0000
    ensures bp != null ==> fresh(bp) && fresh(bp.mem) && bp.Valid() && bp.Contents() == Frame(m)
  {
    bp := new Buffer.AllocWrite(ToU32(16 + |m.payload|));
    var ok := PutHeader(bp, m);
    if !ok { return null; }
    if |m.payload| != 0 {
      ok := bp.Put(m.payload);
      if !ok { return null; }
    }
  }

  // The fields in front of the payload; `s` is what the packet holds.
  method GetHeader(pkt: Buffer, ghost s: bytes) returns (ok: bool, m: Message, len: u32)
    requires pkt.Valid() && pkt.Contents() == s && HDR_SIZE <= |s|
    modifies pkt`rpos
    ensures pkt.Valid() && ok && pkt.Contents() == s[10..] && pkt.rpos == old(pkt.rpos) + HDR_SIZE
    ensures m == Message(s[0], s[5], s[6], s[7..10], []) && len == LeDecode(s[1..5])
  {
    hide LeDecode, LeEncode, Buffer.Model, Fifos.Fifo.Take;
    var kind, slot, seqno, ctl;
    m, len, slot, seqno := Message(0, 0, 0, CTL_ZERO, []), 0, 0, 0;
    ok, kind := pkt.GetU8();
    if ok {
      ok, len := pkt.GetU32le();
    }
    assert ok && pkt.Contents() == s[5..] && len == LeDecode(s[1..5]) by { assert s[1..][..4] == s[1..5]; }
    if ok { ok, slot := pkt.GetU8(); }
    assert ok && slot == s[5] && pkt.Contents() == s[6..];
    if ok { ok, seqno := pkt.GetU8(); }
    assert ok && seqno == s[6] && pkt.Contents() == s[7..];
    if ok { ok, ctl := pkt.Get(3); }
    if ok { m := Message(kind, slot, seqno, ctl, []); }
  }

  // ccid_response_create: reads the header and cuts the buffer down to the payload.
  method ParseResponse(pkt: Buffer) returns (resp: Option<Message>)
    requires pkt.Valid() && |pkt.Contents()| < 0x1_0000_0000
    modifies pkt`rpos, pkt`wpos
    ensures pkt.Valid() && resp == ParseFrame(old(pkt.Contents()))
    ensures resp.Some? ==> pkt.Contents() == resp.value.payload && pkt.rpos == old(pkt.rpos) + HDR_SIZE
  {
    if pkt.Available() < 10 {
      return None;
    }
    hide LeDecode;
    ghost var s := pkt.Contents();
    var ok, m, len := GetHeader(pkt, s);
    if !ok { return None; }
    ok := pkt.Truncate(len);
    if !ok { return None; }
    assert s[10..][..len] == s[10..10 + len];
    var payload := pkt.mem[pkt.off + pkt.rpos..pkt.off + pkt.wpos];
    return Some(m.(payload := payload));
  }
}
