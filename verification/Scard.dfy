/** The card: command APDUs, status words, and GET RESPONSE reassembly (scard.c). */
module Scard {
  import opened Bytes
  import opened Buffers
  import opened Usb
  import opened CcidFrames
  import opened CcidTransport
  import opened CcidReaders

  const INS_GET_RESPONSE: byte := 0xc0

  // A response APDU with its status word split off.
  datatype Reply = Reply(data: bytes, sw: u16)

  function Apdu(cla: byte, ins: byte, p1: byte, p2: byte, lc: byte, data: bytes): bytes {
    [cla, ins, p1, p2, lc] + data
  }

  function SplitStatus(r: bytes): Option<Reply> {
    if |r| < 2 then None else
    var high: nat := r[|r| - 2];
    Some(Reply(r[..|r| - 2], high * 256 + r[|r| - 1]))
  }

  function StatusBytes(sw: u16): bytes {
    [sw / 256, sw % 256]
  }

  lemma SplitStatusOfReply(r: Reply)
    ensures SplitStatus(r.data + StatusBytes(r.sw)) == Some(r)
  {
    assert (r.data + StatusBytes(r.sw))[..|r.data|] == r.data;
  }

  function Transmit(w: Wire, st: Link, slot: byte, apdu: bytes): (r: (Link, Option<Reply>))
    ensures r.1.Some? ==> HDR_SIZE + |r.1.value.data| + 2 <= Capacity(w.max)
  {
    var (st', resp) := Transact(w, st, BlockCommand(slot, apdu));
    (st', if resp.None? then None else SplitStatus(resp.value.payload))
  }

  predicate More(sw: u16) {
    sw / 256 == 0x61
  }

  // How many octets status 61xx announces; 00 stands for 256.
  function Advertised(sw: u16): (n: nat)
    ensures 1 <= n <= 256
  {
    if sw % 256 == 0 then 256 else sw % 256
  }

  function GetResponse(sw: u16): bytes {
    Apdu(0, INS_GET_RESPONSE, 0, 0, sw % 256, [])
  }

  // While the card announces more, fetch it and append it, as long as there is room.
  function Collect(w: Wire, st: Link, slot: byte, got: Reply, room: nat): (Link, Option<Reply>)
    decreases room
  {
    if !More(got.sw) then (st, Some(got)) else
    var (st', r) := Transmit(w, st, slot, GetResponse(got.sw));
    if r.None? || |r.value.data| != Advertised(got.sw) || |r.value.data| > room then (st', None)
    else Collect(w, st', slot, Reply(got.data + r.value.data, r.value.sw), room - |r.value.data|)
  }

  function Room(w: Wire, used: nat): nat
    requires HDR_SIZE + used <= Capacity(w.max)
  {
    Capacity(w.max) - HDR_SIZE - used
  }

  function ExchangeCard(w: Wire, st: Link, slot: byte, apdu: bytes): (Link, Option<Reply>) {
    var (st', r) := Transmit(w, st, slot, apdu);
    if r.None? then (st', None) else Collect(w, st', slot, r.value, Room(w, |r.value.data|))
  }

  // ifd_build_apdu
  method BuildApdu(cla: byte, ins: byte, p1: byte, p2: byte, data: Option<bytes>, len: u32) returns (apdu: Buffer?)
    requires data.Some? ==> |data.value| == len
    ensures apdu == null <==> len > 0xFF
    ensures apdu != null ==> fresh(apdu) && fresh(apdu.mem) && apdu.Valid()
    ensures apdu != null ==> apdu.Contents() == Apdu(cla, ins, p1, p2, len, if data.Some? then data.value else [])
    ensures apdu != null ==>
      && apdu.Contents()[..5] == [cla, ins, p1, p2, len]
      && apdu.Contents()[5..] == if data.Some? then data.value else []
  {
    if len > 0xFF {
      return null;
    }
    apdu := new Buffer.AllocWrite(5 + len);
    var ok := PutApduHeader(apdu, cla, ins, p1, p2, len);
    if !ok { return null; }
    if data.Some? {
      ok := apdu.Put(data.value);
      if !ok { return null; }
    }
  }

  method PutApduHeader(apdu: Buffer, cla: byte, ins: byte, p1: byte, p2: byte, lc: byte) returns (ok: bool)
    requires apdu.Valid() && apdu.Contents() == []
    modifies apdu`wpos, apdu.mem
    ensures apdu.Valid() && ok == (5 <= old(apdu.size - apdu.wpos))
    ensures ok ==> apdu.Contents() == [cla, ins, p1, p2, lc] && apdu.wpos == old(apdu.wpos) + 5
  {
    ok := apdu.PutU8(cla);
    if !ok { return; }
    ok := apdu.PutU8(ins);
    if !ok { return; }
    ok := apdu.PutU8(p1);
    if !ok { return; }
    assert apdu.Contents() == [cla, ins, p1];
    ok := apdu.PutU8(p2);
    if !ok { return; }
    ok := apdu.PutU8(lc);
  }

  class Card {
    const reader: Reader
    const slot: byte
    var keySlot: byte
    var pinRequired: bool

    constructor (reader: Reader, slot: byte)
      ensures this.reader == reader && this.slot == slot && keySlot == 0 && pinRequired
    {
      this.reader, this.slot, keySlot, pinRequired := reader, slot, 0, true;
    }

    ghost function Wire(): Wire {
      reader.Wire()
    }

    ghost function Link(): Link
      reads reader, reader.dev
    {
      reader.Link()
    }

    // A reply stays in the packet it came in; what is left of that buffer is room for more.
    ghost predicate Holds(rapdu: Buffer?, data: Option<bytes>)
      reads rapdu, if rapdu == null then {} else {rapdu.mem}
    {
      && (data.None? <==> rapdu == null)
      && (rapdu != null ==>
            && rapdu.Valid() && rapdu.Contents() == data.value
            && rapdu.rpos == HDR_SIZE && rapdu.size == Capacity(reader.maxMessage))
    }

    ghost predicate HoldsReply(rapdu: Buffer?, sw: u16, reply: Option<Reply>)
      reads rapdu, if rapdu == null then {} else {rapdu.mem}
    {
      && Holds(rapdu, if reply.Some? then Some(reply.value.data) else None)
      && (reply.Some? ==> sw == reply.value.sw)
    }

    // ifd_card_apdu: the last two octets are the status word and leave the buffer.
    method CardApdu(apdu: Buffer) returns (rapdu: Buffer?, sw: u16, ghost reply: Option<Reply>)
      requires apdu.Valid() && |apdu.Contents()| + 24 <= 0x1_0000_0000
      modifies reader`ccidSeq, reader.dev`log
      ensures (Link(), reply) == Transmit(Wire(), old(Link()), slot, old(apdu.Contents()))
      ensures HoldsReply(rapdu, sw, reply)
      ensures rapdu != null ==> fresh(rapdu) && fresh(rapdu.mem)
    {
      hide Transact;
      ghost var resp;
      sw, reply := 0, None;
      rapdu, resp := reader.ApduXfer(slot, apdu);
      if rapdu == null {
        return;
      }
      if rapdu.Available() < 2 {
        return null, 0, None;
      }
      ghost var r := rapdu.Contents();
      reply := SplitStatus(r);
      var swpos := rapdu.off + rapdu.wpos - 2;
      assert rapdu.mem[swpos] == r[|r| - 2] && rapdu.mem[swpos + 1] == r[|r| - 1];
      var high: nat := rapdu.mem[swpos];
      sw := high * 256 + rapdu.mem[swpos + 1];
      rapdu.wpos := rapdu.wpos - 2;
      assert rapdu.Contents() == r[..|r| - 2];
    }

    // ifd_card_xfer: the fixed buffer's tailroom bounds the rounds, whatever the card answers.
    method CardXfer(apdu: Buffer) returns (rapdu: Buffer?, sw: u16, ghost reply: Option<Reply>)
      requires apdu.Valid() && |apdu.Contents()| + 24 <= 0x1_0000_0000
      modifies reader`ccidSeq, reader.dev`log
      ensures (Link(), reply) == ExchangeCard(Wire(), old(Link()), slot, old(apdu.Contents()))
      ensures HoldsReply(rapdu, sw, reply)
      ensures rapdu != null ==> fresh(rapdu) && fresh(rapdu.mem)
    {
      hide Transmit;
      rapdu, sw, reply := CardApdu(apdu);
      if rapdu == null {
        return;
      }
      ghost var st, got := Link(), reply.value;
      while sw / 256 == 0x61
        invariant rapdu != null && fresh(rapdu) && fresh(rapdu.mem)
        invariant reply.Some? && HoldsReply(rapdu, sw, reply)
        invariant Collect(Wire(), st, slot, got, Room(Wire(), |got.data|))
               == Collect(Wire(), Link(), slot, reply.value, rapdu.size - rapdu.wpos)
        decreases if rapdu == null then 0 else rapdu.size - rapdu.wpos
      {
        var ok;
        ghost var more;
        ok, sw, more := FetchMore(rapdu, sw, reply.value);
        if !ok {
          return null, sw, None;
        }
        reply := Some(Reply(reply.value.data + more.value.data, sw));
      }
    }

    // One round of that loop: the announced octets, appended behind those already there.
    method FetchMore(rapdu: Buffer, sw: u16, ghost have: Reply) returns (ok: bool, sw': u16, ghost more: Option<Reply>)
      requires HoldsReply(rapdu, sw, Some(have))
      modifies rapdu`wpos, rapdu.mem, reader`ccidSeq, reader.dev`log
      ensures (Link(), more) == Transmit(Wire(), old(Link()), slot, GetResponse(sw))
      ensures ok == (more.Some? && |more.value.data| == Advertised(sw) <= old(rapdu.size - rapdu.wpos))
      ensures ok ==> sw' == more.value.sw && rapdu.wpos == old(rapdu.wpos) + |more.value.data|
      ensures ok ==> HoldsReply(rapdu, sw', Some(Reply(have.data + more.value.data, sw')))
    {
      hide Transmit, Buffer.Model, Capacity, Fifos.Fifo.Put;
      var lc := sw % 256;
      var len := if lc != 0 then lc else 0x100;
      var rapdu2;
      rapdu2, sw', more := RequestMore(lc);
      if rapdu2 == null || rapdu2.Available() != len {
        return false, sw', more;
      }
      ok := rapdu.Put(rapdu2.mem[rapdu2.off + rapdu2.rpos..rapdu2.off + rapdu2.wpos]);
    }

    method RequestMore(lc: byte) returns (rapdu: Buffer?, sw: u16, ghost reply: Option<Reply>)
      modifies reader`ccidSeq, reader.dev`log
      ensures (Link(), reply) == Transmit(Wire(), old(Link()), slot, Apdu(0, INS_GET_RESPONSE, 0, 0, lc, []))
      ensures HoldsReply(rapdu, sw, reply)
      ensures rapdu != null ==> fresh(rapdu) && fresh(rapdu.mem)
    {
      hide Transmit, Buffer.Model;
      var apdu := BuildApdu(0, INS_GET_RESPONSE, 0, 0, None, lc);
      rapdu, sw, reply := CardApdu(apdu);
    }
  }

  // GET RESPONSE reassembly is concatenation

  // The answers the card gives to a command and to the GET RESPONSEs that its status words ask for.
  ghost predicate Answers(w: Wire, st: Link, slot: byte, apdu: bytes, answers: seq<Reply>, st': Link)
    decreases |answers|
  {
    answers != [] &&
    var (st1, r) := Transmit(w, st, slot, apdu);
    r == Some(answers[0])
    && if |answers| == 1 then st' == st1
       else More(answers[0].sw) && Answers(w, st1, slot, GetResponse(answers[0].sw), answers[1..], st')
  }

  function Join(answers: seq<Reply>): bytes {
    if answers == [] then [] else answers[0].data + Join(answers[1..])
  }

  // Each of these answers is as long as the status word before it said, and the last one ends it.
  predicate Continues(sw: u16, rest: seq<Reply>)
    decreases |rest|
  {
    if rest == [] then !More(sw)
    else |rest[0].data| == Advertised(sw) && Continues(rest[0].sw, rest[1..])
  }

  function LastStatus(sw: u16, rest: seq<Reply>): u16 {
    if rest == [] then sw else rest[|rest| - 1].sw
  }

  lemma {:induction false} ContinuesMeans(sw: u16, rest: seq<Reply>)
    requires Continues(sw, rest)
    ensures !More(LastStatus(sw, rest))
    ensures forall i | 0 <= i < |rest| :: |rest[i].data| == Advertised(LastStatus(sw, rest[..i]))
    decreases |rest|
  {
    if rest != [] {
      ContinuesMeans(rest[0].sw, rest[1..]);
      forall i | 0 < i < |rest|
        ensures |rest[i].data| == Advertised(LastStatus(sw, rest[..i]))
      {
        assert rest[i] == rest[1..][i - 1];
        assert LastStatus(rest[0].sw, rest[1..][..i - 1]) == LastStatus(sw, rest[..i]);
      }
    }
  }

  lemma {:induction false} CollectJoins(w: Wire, st: Link, slot: byte, got: Reply, room: nat)
    returns (rest: seq<Reply>)
    requires Collect(w, st, slot, got, room).1.Some?
    ensures var (st', r) := Collect(w, st, slot, got, room);
      && Continues(got.sw, rest) && |Join(rest)| <= room
      && r == Some(Reply(got.data + Join(rest), LastStatus(got.sw, rest)))
      && (rest == [] ==> st' == st)
      && (rest != [] ==> More(got.sw) && Answers(w, st, slot, GetResponse(got.sw), rest, st'))
    decreases room
  {
    hide Transmit;
    rest := [];
    if More(got.sw) {
      var (st1, r) := Transmit(w, st, slot, GetResponse(got.sw));
      var more := CollectJoins(w, st1, slot, Reply(got.data + r.value.data, r.value.sw), room - |r.value.data|);
      rest := [r.value] + more;
      assert rest[1..] == more;
      assert (got.data + r.value.data) + Join(more) == got.data + Join(rest);
    } else {
      assert got.data + Join([]) == got.data;
    }
  }

  lemma {:induction false} JoinedIsCollected(
      w: Wire, st: Link, slot: byte, got: Reply, room: nat, rest: seq<Reply>, st': Link)
    requires Continues(got.sw, rest) && |Join(rest)| <= room
    requires rest == [] ==> st' == st
    requires rest != [] ==> More(got.sw) && Answers(w, st, slot, GetResponse(got.sw), rest, st')
    ensures Collect(w, st, slot, got, room)
         == (st', Some(Reply(got.data + Join(rest), LastStatus(got.sw, rest))))
    decreases |rest|
  {
    hide Transmit;
    if rest == [] {
      assert got.data + Join([]) == got.data;
    } else {
      var (st1, r) := Transmit(w, st, slot, GetResponse(got.sw));
      assert r == Some(rest[0]) && |Join(rest)| == |rest[0].data| + |Join(rest[1..])|;
      var got' := Reply(got.data + r.value.data, r.value.sw);
      JoinedIsCollected(w, st1, slot, got', room - |r.value.data|, rest[1..], st');
      assert got'.data + Join(rest[1..]) == got.data + Join(rest);
    }
  }

  ghost predicate Reassembles(
      w: Wire, st: Link, slot: byte, apdu: bytes, answers: seq<Reply>, st': Link, reply: Reply)
  {
    && Answers(w, st, slot, apdu, answers, st')
    && Continues(answers[0].sw, answers[1..])
    && reply == Reply(Join(answers), answers[|answers| - 1].sw)
    && HDR_SIZE + |reply.data| <= Capacity(w.max)
  }

  // Whatever the card answers: a reply is returned exactly when the answers are as long as
  // announced and fit the buffer, and it is then their data joined, with the last status word.
  lemma ReassemblyIsConcatenation(w: Wire, st: Link, slot: byte, apdu: bytes, st': Link, reply: Reply)
    ensures ExchangeCard(w, st, slot, apdu) == (st', Some(reply)) <==>
      exists answers: seq<Reply> :: Reassembles(w, st, slot, apdu, answers, st', reply)
  {
    hide Transmit;
    var (st1, r) := Transmit(w, st, slot, apdu);
    if ExchangeCard(w, st, slot, apdu) == (st', Some(reply)) {
      var rest := CollectJoins(w, st1, slot, r.value, Room(w, |r.value.data|));
      var answers := [r.value] + rest;
      assert answers[1..] == rest;
      assert Reassembles(w, st, slot, apdu, answers, st', reply);
    }
    forall answers: seq<Reply> | Reassembles(w, st, slot, apdu, answers, st', reply)
      ensures ExchangeCard(w, st, slot, apdu) == (st', Some(reply))
    {
      assert answers == [r.value] + answers[1..];
      JoinedIsCollected(w, st1, slot, r.value, Room(w, |r.value.data|), answers[1..], st');
    }
  }

  // The status handed up never asks for more, and a card that keeps asking is cut off: every
  // round but the last adds at least one octet to a buffer of fixed size.

  function Outs(log: Log): nat {
    if log == [] then 0 else Outs(log[..|log| - 1]) + if log[|log| - 1].BulkOut? then 1 else 0
  }

  lemma {:induction false} OutsOfExtension(log: Log, log': Log)
    requires log <= log' && forall i | |log| <= i < |log'| :: !log'[i].BulkOut?
    ensures Outs(log') == Outs(log)
    decreases |log'|
  {
    if log < log' {
      OutsOfExtension(log, log'[..|log'| - 1]);
    } else {
      assert log == log';
    }
  }

  lemma TransmitSendsOnce(w: Wire, st: Link, slot: byte, apdu: bytes)
    ensures Outs(Transmit(w, st, slot, apdu).0.log) == Outs(st.log) + 1
  {
    var c := BlockCommand(slot, apdu);
    var pkt := Packet(st, c);
    var sent := Accepts(w.oracle, st.log, pkt);
    var log := st.log + [BulkOut(pkt, sent)];
    assert log[..|log| - 1] == st.log;
    if sent {
      AwaitIsDecidedByLast(w, log, slot, st.seqno % 256, c.expected, RETRIES);
      OutsOfExtension(log, Await(w, log, slot, st.seqno % 256, c.expected, RETRIES).0);
    }
  }

  lemma {:induction false} CollectIsBounded(w: Wire, st: Link, slot: byte, got: Reply, room: nat)
    ensures var (st', r) := Collect(w, st, slot, got, room);
      && Outs(st'.log) <= Outs(st.log) + room + 1
      && (r.Some? ==> !More(r.value.sw) && Outs(st'.log) <= Outs(st.log) + |r.value.data| - |got.data|)
    decreases room
  {
    hide Transmit;
    if More(got.sw) {
      TransmitSendsOnce(w, st, slot, GetResponse(got.sw));
      var (st', r) := Transmit(w, st, slot, GetResponse(got.sw));
      if r.Some? && |r.value.data| == Advertised(got.sw) && |r.value.data| <= room {
        CollectIsBounded(w, st', slot, Reply(got.data + r.value.data, r.value.sw), room - |r.value.data|);
      }
    }
  }

  lemma CardXferIsBounded(w: Wire, st: Link, slot: byte, apdu: bytes)
    ensures var (st', r) := ExchangeCard(w, st, slot, apdu);
      && Outs(st.log) < Outs(st'.log)
      && (Outs(st'.log) == Outs(st.log) + 1 || Outs(st'.log) + 8 <= Outs(st.log) + Capacity(w.max))
      && (r.Some? ==> !More(r.value.sw))
  {
    hide Transmit;
    TransmitSendsOnce(w, st, slot, apdu);
    var (st1, r) := Transmit(w, st, slot, apdu);
    if r.Some? {
      CollectIsBounded(w, st1, slot, r.value, Room(w, |r.value.data|));
      CollectKeepsSends(w, st1, slot, r.value, Room(w, |r.value.data|));
    }
  }

  lemma {:induction false} CollectKeepsSends(w: Wire, st: Link, slot: byte, got: Reply, room: nat)
    ensures Outs(st.log) <= Outs(Collect(w, st, slot, got, room).0.log)
    decreases room
  {
    hide Transmit;
    if More(got.sw) {
      TransmitSendsOnce(w, st, slot, GetResponse(got.sw));
      var (st', r) := Transmit(w, st, slot, GetResponse(got.sw));
      if r.Some? && |r.value.data| == Advertised(got.sw) && |r.value.data| <= room {
        CollectKeepsSends(w, st', slot, Reply(got.data + r.value.data, r.value.sw), room - |r.value.data|);
      }
    }
  }
}
