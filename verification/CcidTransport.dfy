/** One command and its response over the bulk pipe (reader.c): what ccid_xfer computes. */
module CcidTransport {
  import opened Bytes
  import opened Usb
  import opened CcidFrames

  const RETRIES: nat := 6

  // The device and the reader's largest message: all that stays fixed.
  datatype Wire = Wire(oracle: Oracle, max: u32)

  // The reader's sequence counter and everything that went over the wire: all that changes.
  datatype Link = Link(seqno: nat, log: Log)

  datatype Command = Command(slot: byte, kind: byte, ctl: Ctl, payload: bytes, expected: byte)

  datatype Verdict = Accept(m: Message) | Fail | Ignore

  // What one received packet means for the command with this slot and sequence number:
  // cut or foreign packets and time extensions (status bits 10) are ignored.
  function Judge(slot: byte, seqno: byte, expected: byte, pkt: bytes): Verdict {
    match ParseFrame(pkt)
    case None => Ignore
    case Some(m) =>
      if m.slot != slot || m.seqno != seqno then Ignore
      else if m.kind != expected then Fail
      else if m.ctl[0] / 0x40 == 0 then Accept(m)
      else if m.ctl[0] / 0x40 == 2 then Ignore
      else Fail
  }

  // Receive until a packet decides, the pipe fails, or the retries run out.
  function Await(w: Wire, log: Log, slot: byte, seqno: byte, expected: byte, retries: nat): (r: (Log, Option<Message>))
    ensures r.1.Some? ==> HDR_SIZE + |r.1.value.payload| <= Capacity(w.max)
    decreases retries
  {
    if retries == 0 then (log, None) else
    var got := NextPacket(w.oracle, w.max, log);
    var log' := log + [BulkIn(got)];
    match got
    case None => (log', None)
    case Some(pkt) =>
      match Judge(slot, seqno, expected, pkt)
      case Accept(m) => (log', Some(m))
      case Fail => (log', None)
      case Ignore => Await(w, log', slot, seqno, expected, retries - 1)
  }

  function Packet(st: Link, c: Command): bytes {
    Frame(Message(c.kind, c.slot, st.seqno % 256, c.ctl, c.payload))
  }

  // A command that cannot be sent leaves its sequence number for the next one.
  function Transact(w: Wire, st: Link, c: Command): (r: (Link, Option<Message>))
    ensures r.1.Some? ==> HDR_SIZE + |r.1.value.payload| <= Capacity(w.max)
  {
    var pkt := Packet(st, c);
    var sent := Accepts(w.oracle, st.log, pkt);
    var log := st.log + [BulkOut(pkt, sent)];
    if !sent then (Link(st.seqno, log), None) else
    var (log', resp) := Await(w, log, c.slot, st.seqno % 256, c.expected, RETRIES);
    (Link(st.seqno % 256 + 1, log'), resp)
  }

  // Filtering over arbitrary packet streams

  // Polling only adds packets, at most one a retry, and all but the last are ignorable. What is
  // returned can be read off the packets: the message that the last one holds, if it is accepted;
  // and that is one to this slot, with this number, the expected type and clear status bits.
  lemma {:induction false} AwaitIsDecidedByLast(w: Wire, log: Log, slot: byte, seqno: byte, expected: byte, retries: nat)
    ensures var (log', resp) := Await(w, log, slot, seqno, expected, retries);
      && log <= log' && |log'| <= |log| + retries
      && (forall i | |log| <= i < |log'| :: log'[i].BulkIn?)
      && (forall i | |log| <= i < |log'| - 1 ::
            log'[i].got.Some? && Judge(slot, seqno, expected, log'[i].got.value) == Ignore)
      && (retries > 0 ==> log < log')
      && (retries == 0 ==> resp == None)
      && (resp.Some? ==> var m := resp.value;
            && log' != [] && log'[|log'| - 1].BulkIn? && log'[|log'| - 1].got.Some?
            && ParseFrame(log'[|log'| - 1].got.value) == resp
            && m.slot == slot && m.seqno == seqno && m.kind == expected && m.ctl[0] < 0x40)
      && (log < log' ==> var last := log'[|log'| - 1].got;
            && (forall m :: resp == Some(m) <==>
                  last.Some? && Judge(slot, seqno, expected, last.value) == Accept(m))
            && (last.Some? && Judge(slot, seqno, expected, last.value) == Ignore ==> |log'| == |log| + retries))
    decreases retries
  {
    if retries != 0 {
      var got := NextPacket(w.oracle, w.max, log);
      if got.Some? && Judge(slot, seqno, expected, got.value) == Ignore {
        AwaitIsDecidedByLast(w, log + [BulkIn(got)], slot, seqno, expected, retries - 1);
      }
    }
  }

  // The same on the octets of one packet, as sections 6.2 and 6.2.6 of the USB CCID specification
  // Rev 1.1 lay them out: type, length, slot, number, and in bits 6 and 7 of octet 7 whether the
  // command succeeded (00), failed (01) or needs more time (10).

  predicate HoldsMessage(p: bytes) {
    HDR_SIZE <= |p| && LeDecode(p[1..5]) <= |p| - HDR_SIZE
  }

  predicate RespondsTo(slot: byte, seqno: byte, p: bytes) {
    HoldsMessage(p) && p[5] == slot && p[6] == seqno
  }

  predicate IsExtension(slot: byte, seqno: byte, expected: byte, p: bytes) {
    RespondsTo(slot, seqno, p) && p[0] == expected && 0x80 <= p[7] < 0xC0
  }

  predicate IsSuccess(slot: byte, seqno: byte, expected: byte, p: bytes) {
    RespondsTo(slot, seqno, p) && p[0] == expected && p[7] < 0x40
  }

  predicate IsFailure(slot: byte, seqno: byte, expected: byte, p: bytes) {
    RespondsTo(slot, seqno, p) && (p[0] != expected || 0x40 <= p[7] < 0x80 || 0xC0 <= p[7])
  }

  function MessageOf(p: bytes): Message
    requires HoldsMessage(p)
  {
    Message(p[0], p[5], p[6], p[7..10], p[10..10 + LeDecode(p[1..5])])
  }

  lemma ParsedOnOctets(p: bytes)
    ensures ParseFrame(p) == if HoldsMessage(p) then Some(MessageOf(p)) else None
  {
    hide LeDecode;
  }

  lemma JudgedOnOctets(slot: byte, seqno: byte, expected: byte, p: bytes)
    ensures Judge(slot, seqno, expected, p) ==
      if IsSuccess(slot, seqno, expected, p) then Accept(MessageOf(p))
      else if IsFailure(slot, seqno, expected, p) then Fail
      else Ignore
  {
    hide LeDecode;
  }

  // The first packet ends the polling iff it answers the command with anything but a time
  // extension; it ends it with its message iff it reports success.
  lemma PacketDecides(w: Wire, log: Log, slot: byte, seqno: byte, expected: byte, p: bytes, retries: nat)
    requires NextPacket(w.oracle, w.max, log) == Some(p) && retries > 1
    ensures var (log', resp) := Await(w, log, slot, seqno, expected, retries);
      var log1 := log + [BulkIn(Some(p))];
      && log1 <= log'
      && (log1 < log' <==> !RespondsTo(slot, seqno, p) || IsExtension(slot, seqno, expected, p))
      && (log1 < log' ==> (log', resp) == Await(w, log1, slot, seqno, expected, retries - 1))
      && (IsFailure(slot, seqno, expected, p) ==> (log', resp) == (log1, None))
      && (IsSuccess(slot, seqno, expected, p) ==> (log', resp) == (log1, Some(MessageOf(p))))
  {
    hide Judge;
    var log1 := log + [BulkIn(Some(p))];
    AwaitIsDecidedByLast(w, log1, slot, seqno, expected, retries - 1);
    JudgedOnOctets(slot, seqno, expected, p);
  }

  // However often the card asks for more time, as long as there are retries: its answer is returned.
  lemma {:induction false} ExtensionsOnlyDelay(
      slot: byte, seqno: byte, expected: byte, extensions: seq<bytes>, answer: bytes, retries: nat)
    requires (forall p <- extensions :: IsExtension(slot, seqno, expected, p)) && |extensions| < retries
    requires IsSuccess(slot, seqno, expected, answer)
    ensures Filter(slot, seqno, expected, extensions + [answer], retries) == Got(MessageOf(answer))
    decreases |extensions|
  {
    hide Judge;
    if extensions == [] {
      assert extensions + [answer] == [answer];
      JudgedOnOctets(slot, seqno, expected, answer);
    } else {
      assert IsExtension(slot, seqno, expected, extensions[0]);
      JudgedOnOctets(slot, seqno, expected, extensions[0]);
      assert (extensions + [answer])[1..] == extensions[1..] + [answer];
      ExtensionsOnlyDelay(slot, seqno, expected, extensions[1..], answer, retries - 1);
    }
  }

  // The loop as written lets go of a null response when a packet is cut, which C leaves undefined.
  datatype Written = Returned(resp: Option<Message>) | NullAccess

  function AwaitAsWritten(
      w: Wire, log: Log, slot: byte, seqno: byte, expected: byte, retries: nat): (Log, Written)
    decreases retries
  {
    if retries == 0 then (log, Returned(None)) else
    var got := NextPacket(w.oracle, w.max, log);
    var log' := log + [BulkIn(got)];
    if got == None then (log', Returned(None))
    else if ParseFrame(got.value) == None then (log', NullAccess)
    else match Judge(slot, seqno, expected, got.value)
      case Accept(m) => (log', Returned(Some(m)))
      case Fail => (log', Returned(None))
      case Ignore => AwaitAsWritten(w, log', slot, seqno, expected, retries - 1)
  }

  predicate Whole(e: Event) {
    e.BulkIn? && e.got.Some? ==> ParseFrame(e.got.value).Some?
  }

  // It does what is intended exactly when every packet that the intended loop receives is whole.
  lemma {:induction false} WrittenIsIntendedIffWhole(
      w: Wire, log: Log, slot: byte, seqno: byte, expected: byte, retries: nat)
    ensures var (log', resp) := Await(w, log, slot, seqno, expected, retries);
      && log <= log'
      && (AwaitAsWritten(w, log, slot, seqno, expected, retries) == (log', Returned(resp))
          <==> forall e <- log'[|log|..] :: Whole(e))
      && ((exists e <- log'[|log|..] :: !Whole(e))
          <==> AwaitAsWritten(w, log, slot, seqno, expected, retries).1 == NullAccess)
    decreases retries
  {
    hide ParseFrame;
    if retries == 0 {
      assert log[|log|..] == [];
    } else {
      var got := NextPacket(w.oracle, w.max, log);
      var e, log1 := BulkIn(got), log + [BulkIn(got)];
      var log' := Await(w, log, slot, seqno, expected, retries).0;
      assert log1[|log|..] == [e];
      if got.Some? && Judge(slot, seqno, expected, got.value) == Ignore {
        WrittenIsIntendedIffWhole(w, log1, slot, seqno, expected, retries - 1);
        assert log'[|log|..] == [e] + log'[|log1|..];
        assert e in log'[|log|..] && forall x <- log'[|log1|..] :: x in log'[|log|..];
      }
    }
  }

  // One packet that announces more than is there is enough, however much of the buffer is filled.
  lemma OverlongPacketIsFatal(w: Wire, log: Log, slot: byte, seqno: byte, expected: byte, p: bytes)
    requires NextPacket(w.oracle, w.max, log) == Some(p)
    requires HDR_SIZE <= |p| && |p| - HDR_SIZE < LeDecode(p[1..5])
    ensures AwaitAsWritten(w, log, slot, seqno, expected, RETRIES).1 == NullAccess
  {
  }

  // So is an empty one: where the kernel does not write the length back, the filler is read as
  // a length that no buffer holds.
  lemma EmptyPacketIsFatal(w: Wire, log: Log, slot: byte, seqno: byte, expected: byte)
    requires w.oracle.answers(log) == Some([]) && NextPacket(w.oracle, w.max, log).Some?
    ensures AwaitAsWritten(w, log, slot, seqno, expected, RETRIES).1 == NullAccess
  {
    var p := NextPacket(w.oracle, w.max, log).value;
    if HDR_SIZE <= |p| {
      assert p[1..5] == [0xAA, 0xAA, 0xAA, 0xAA];
      assert LeDecode([0xAA]) == 0xAA && LeDecode([0xAA, 0xAA]) == 0xAAAA && LeDecode([0xAA, 0xAA, 0xAA]) == 0xAAAAAA;
    }
  }

  // But a packet cut behind its header is not noticed there: the filler completes the payload.
  lemma CutPacketIsCompleted(w: Wire, log: Log, m: Message, n: nat)
    requires !w.oracle.writesBack && |m.payload| < 0x1_0000_0000
    requires HDR_SIZE <= n <= |Frame(m)| <= Capacity(w.max) && IsInt(Capacity(w.max))
    requires w.oracle.answers(log) == Some(Frame(m)[..n])
    ensures NextPacket(w.oracle, w.max, log).Some?
    ensures ParseFrame(NextPacket(w.oracle, w.max, log).value)
         == Some(m.(payload := m.payload[..n - HDR_SIZE] + Filler(|Frame(m)| - n)))
  {
    var cap := Capacity(w.max);
    var filled := m.(payload := m.payload[..n - HDR_SIZE] + Filler(|Frame(m)| - n));
    var p := NextPacket(w.oracle, w.max, log).value;
    assert Header(filled) == Header(m);
    assert p == Frame(filled) + Filler(cap - |Frame(m)|);
    FrameRoundTrip(filled, Filler(cap - |Frame(m)|));
  }

  // The same decision on a stream of packets known in advance.
  datatype Outcome = Got(m: Message) | Refused | Exhausted | Waiting

  function Filter(slot: byte, seqno: byte, expected: byte, packets: seq<bytes>, retries: nat): Outcome {
    if retries == 0 then Exhausted
    else if packets == [] then Waiting
    else match Judge(slot, seqno, expected, packets[0])
      case Accept(m) => Got(m)
      case Fail => Refused
      case Ignore => Filter(slot, seqno, expected, packets[1..], retries - 1)
  }

  // Inserting an ignorable packet anywhere costs one retry and changes nothing else: with one
  // retry more the decision is the same, with no retry more it is the same or the retries run out.
  lemma {:induction false} IgnorableOnlyCostsRetries(
      slot: byte, seqno: byte, expected: byte, before: seq<bytes>, noise: bytes, after: seq<bytes>, retries: nat)
    requires Judge(slot, seqno, expected, noise) == Ignore
    ensures |before| <= retries ==>
      Filter(slot, seqno, expected, before + [noise] + after, retries + 1)
      == Filter(slot, seqno, expected, before + after, retries)
    ensures Filter(slot, seqno, expected, before + [noise] + after, retries)
         in {Filter(slot, seqno, expected, before + after, retries), Exhausted}
    decreases |before|
  {
    var s, t := before + [noise] + after, before + after;
    if before == [] {
      assert s[1..] == t;
      if retries > 0 {
        FewerRetries(slot, seqno, expected, t, retries);
      }
    } else {
      assert s[0] == t[0] == before[0];
      assert s[1..] == before[1..] + [noise] + after && t[1..] == before[1..] + after;
      if retries > 0 {
        IgnorableOnlyCostsRetries(slot, seqno, expected, before[1..], noise, after, retries - 1);
      }
    }
  }

  lemma {:induction false} FewerRetries(slot: byte, seqno: byte, expected: byte, packets: seq<bytes>, retries: nat)
    requires retries > 0
    ensures Filter(slot, seqno, expected, packets, retries - 1)
         in {Filter(slot, seqno, expected, packets, retries), Exhausted}
    decreases retries
  {
    if retries > 1 && packets != [] {
      FewerRetries(slot, seqno, expected, packets[1..], retries - 1);
    }
  }

  // The device delivers these packets, in this order, from this point on.
  ghost predicate Delivers(w: Wire, log: Log, packets: seq<bytes>)
    decreases |packets|
  {
    packets == []
    || (NextPacket(w.oracle, w.max, log) == Some(packets[0])
        && Delivers(w, log + [BulkIn(Some(packets[0]))], packets[1..]))
  }

  lemma {:induction false} AwaitFilters(
      w: Wire, log: Log, slot: byte, seqno: byte, expected: byte, packets: seq<bytes>, retries: nat)
    requires Delivers(w, log, packets)
    ensures var resp := Await(w, log, slot, seqno, expected, retries).1;
      match Filter(slot, seqno, expected, packets, retries)
      case Got(m) => resp == Some(m)
      case Refused => resp == None
      case Exhausted => resp == None
      case Waiting => |packets| < retries
    decreases retries
  {
    if retries > 0 && packets != [] {
      AwaitFilters(w, log + [BulkIn(Some(packets[0]))], slot, seqno, expected, packets[1..], retries - 1);
    }
  }

  // So a card that asks for more time up to five times is heard.
  lemma SlowAnswerIsReturned(w: Wire, st: Link, c: Command, extensions: seq<bytes>, answer: bytes)
    requires Accepts(w.oracle, st.log, Packet(st, c)) && |extensions| <= 5
    requires Delivers(w, st.log + [BulkOut(Packet(st, c), true)], extensions + [answer])
    requires forall p <- extensions :: IsExtension(c.slot, st.seqno % 256, c.expected, p)
    requires IsSuccess(c.slot, st.seqno % 256, c.expected, answer)
    ensures Transact(w, st, c).1 == Some(MessageOf(answer))
  {
    hide Await, Filter, Delivers, Packet, IsSuccess;
    ExtensionsOnlyDelay(c.slot, st.seqno % 256, c.expected, extensions, answer, RETRIES);
    AwaitFilters(w, st.log + [BulkOut(Packet(st, c), true)], c.slot, st.seqno % 256, c.expected, extensions + [answer], RETRIES);
  }

  // Sequence numbers over whole runs

  function SentCount(log: Log): nat {
    if log == [] then 0
    else SentCount(log[..|log| - 1]) + if log[|log| - 1].BulkOut? && log[|log| - 1].ok then 1 else 0
  }

  // Every command, sent or not, carries the number of commands sent before it, modulo 256.
  ghost predicate Numbered(log: Log) {
    forall i | 0 <= i < |log| && log[i].BulkOut? ::
      HDR_SIZE <= |log[i].pkt| && log[i].pkt[6] == SentCount(log[..i]) % 256
  }

  ghost predicate InStep(st: Link) {
    Numbered(st.log) && st.seqno <= 256 && st.seqno % 256 == SentCount(st.log) % 256
  }

  lemma NumberedExtend(log: Log, e: Event)
    requires Numbered(log)
    requires e.BulkOut? ==> HDR_SIZE <= |e.pkt| && e.pkt[6] == SentCount(log) % 256
    ensures Numbered(log + [e])
    ensures SentCount(log + [e]) == SentCount(log) + if e.BulkOut? && e.ok then 1 else 0
  {
    var log' := log + [e];
    assert log'[..|log|] == log;
    forall i | 0 <= i < |log'| && log'[i].BulkOut?
      ensures HDR_SIZE <= |log'[i].pkt| && log'[i].pkt[6] == SentCount(log'[..i]) % 256
    {
      if i < |log| {
        assert log'[..i] == log[..i];
      }
    }
  }

  lemma {:induction false} AwaitKeepsNumbers(
      w: Wire, log: Log, slot: byte, seqno: byte, expected: byte, retries: nat)
    requires Numbered(log)
    ensures var log' := Await(w, log, slot, seqno, expected, retries).0;
      Numbered(log') && SentCount(log') == SentCount(log)
    decreases retries
  {
    if retries != 0 {
      var got := NextPacket(w.oracle, w.max, log);
      NumberedExtend(log, BulkIn(got));
      if got.Some? {
        AwaitKeepsNumbers(w, log + [BulkIn(got)], slot, seqno, expected, retries - 1);
      }
    }
  }

  lemma PacketCarriesNumber(st: Link, c: Command)
    ensures HDR_SIZE <= |Packet(st, c)| && Packet(st, c)[6] == st.seqno % 256
  {
  }

  lemma TransactInStep(w: Wire, st: Link, c: Command)
    requires InStep(st)
    ensures InStep(Transact(w, st, c).0)
  {
    hide Await, Packet, Numbered, SentCount;
    PacketCarriesNumber(st, c);
    var pkt := Packet(st, c);
    var sent := Accepts(w.oracle, st.log, pkt);
    NumberedExtend(st.log, BulkOut(pkt, sent));
    AwaitKeepsNumbers(w, st.log + [BulkOut(pkt, sent)], c.slot, st.seqno % 256, c.expected, RETRIES);
  }

  function Run(w: Wire, st: Link, cs: seq<Command>): Link
    decreases |cs|
  {
    if cs == [] then st else Run(w, Transact(w, st, cs[0]).0, cs[1..])
  }

  // For every device and every sequence of commands the counter stays in 0..256 and sent commands
  // are numbered 0, 1, 2, ... modulo 256.
  lemma {:induction false} RunInStep(w: Wire, st: Link, cs: seq<Command>)
    requires InStep(st)
    ensures InStep(Run(w, st, cs))
    decreases |cs|
  {
    if cs != [] {
      TransactInStep(w, st, cs[0]);
      RunInStep(w, Transact(w, st, cs[0]).0, cs[1..]);
    }
  }

  lemma {:induction false} SentCountMonotone(log: Log, i: nat, j: nat)
    requires i <= j <= |log|
    ensures SentCount(log[..i]) <= SentCount(log[..j])
    decreases j - i
  {
    if i < j {
      SentCountMonotone(log, i, j - 1);
      assert log[..j][..j - 1] == log[..j - 1];
    }
  }

  // A response to one of the 255 commands sent before the current one is never taken for the
  // current one's.
  lemma StaleIsIgnored(log: Log, i: nat, j: nat, slot: byte, expected: byte, pkt: bytes)
    requires Numbered(log) && i < j < |log|
    requires log[i].BulkOut? && log[i].ok && log[j].BulkOut?
    requires SentCount(log[..j]) - SentCount(log[..i]) <= 255
    requires ParseFrame(pkt).Some? && ParseFrame(pkt).value.seqno == log[i].pkt[6]
    ensures Judge(slot, log[j].pkt[6], expected, pkt) == Ignore
  {
    assert log[..i + 1][..i] == log[..i];
    assert SentCount(log[..i + 1]) == SentCount(log[..i]) + 1;
    SentCountMonotone(log, i + 1, j);
  }
}
