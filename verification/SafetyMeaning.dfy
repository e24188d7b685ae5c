/** What staying inside the automaton says about a log, without mentioning the automaton's stages. */
module SafetyMeaning {
  import opened Bytes
  import opened Usb
  import opened CcidFrames
  import opened CcidTransport
  import opened CcidReaders
  import opened Scard
  import opened PivDriver
  import opened Sessions
  import opened Safety

  function Sent(e: Event): Option<Message> {
    if e.BulkOut? then ParseFrame(e.pkt) else None
  }

  predicate SendsBlock(e: Event) {
    Sent(e).Some? && Sent(e).value.kind == CMD_XFRBLOCK
  }

  predicate SendsPowerOn(e: Event) {
    Sent(e).Some? && Sent(e).value.kind == CMD_ICCPOWERON
  }

  predicate SendsPin(e: Event) {
    SendsBlock(e) && IsPinVerify(Sent(e).value.payload)
  }

  predicate SendsAuthenticate(e: Event) {
    SendsBlock(e) && IsAuthenticate(Sent(e).value.payload)
  }

  predicate SendsGetResponse(e: Event) {
    SendsBlock(e) && |Sent(e).value.payload| == 5 && Sent(e).value.payload[1] == INS_GET_RESPONSE
  }

  // Safe logs have safe prefixes

  ghost predicate Safe(pinGiven: bool, log: Log) {
    Monitor(pinGiven, log).stage != Violated
  }

  lemma {:induction false} PrefixIsSafe(pinGiven: bool, log: Log, n: nat)
    requires Safe(pinGiven, log) && n <= |log|
    ensures Safe(pinGiven, log[..n])
    decreases |log|
  {
    hide Judge, NextBlock;
    if n < |log| {
      PrefixIsSafe(pinGiven, log[..|log| - 1], n);
      assert log[..|log| - 1][..n] == log[..n];
    } else {
      assert log[..n] == log;
    }
  }

  // A PIN is presented at most once

  function PinCount(log: Log): nat {
    if log == [] then 0 else PinCount(log[..|log| - 1]) + if SendsPin(log[|log| - 1]) then 1 else 0
  }

  predicate PinIsOut(stage: Stage) {
    stage.Applet? && stage.phase in {Presenting, Deciphering}
  }

  lemma {:induction false} PinAtMostOnce(pinGiven: bool, log: Log)
    requires Safe(pinGiven, log)
    ensures PinCount(log) == if PinIsOut(Monitor(pinGiven, log).stage) && pinGiven then 1 else 0
    decreases |log|
  {
    hide Judge;
    if log != [] {
      PrefixIsSafe(pinGiven, log, |log| - 1);
      PinAtMostOnce(pinGiven, log[..|log| - 1]);
    }
  }

  // Power-on selectors rise

  function Selectors(log: Log): seq<byte> {
    if log == [] then [] else
    var e := log[|log| - 1];
    Selectors(log[..|log| - 1]) + if SendsPowerOn(e) then [Sent(e).value.ctl[0]] else []
  }

  predicate Rising(s: seq<byte>) {
    (forall i, j | 0 <= i < j < |s| :: s[i] < s[j]) && (forall i | 0 <= i < |s| :: s[i] <= 3)
  }

  ghost predicate SelectorsFit(stage: Stage, s: seq<byte>) {
    && Rising(s)
    && (stage.Fresh? || stage.SlotAsked? ==> s == [])
    && (stage.PowerTried? ==> s != [] && s[|s| - 1] == stage.select)
  }

  lemma SelectorsStep(pinGiven: bool, log: Log, e: Event)
    requires SelectorsFit(Monitor(pinGiven, log).stage, Selectors(log)) && Safe(pinGiven, log + [e])
    ensures SelectorsFit(Monitor(pinGiven, log + [e]).stage, Selectors(log + [e]))
  {
    hide Judge, Monitor, SelectApdu, Rising, Selectors, StatusOf, ParseFrame, IsPinVerify, IsAuthenticate, MayDecipher;
    MonitorStep(pinGiven, log, e);
    SelectorsGrow(log, e);
    if SendsPowerOn(e) {
      RisesWith(Selectors(log), Sent(e).value.ctl[0]);
    }
  }

  lemma SelectorsGrow(log: Log, e: Event)
    ensures Selectors(log + [e]) == if SendsPowerOn(e) then Selectors(log) + [Sent(e).value.ctl[0]] else Selectors(log)
  {
    assert (log + [e])[..|log|] == log;
  }

  lemma {:induction false} SelectorsRise(pinGiven: bool, log: Log)
    requires Safe(pinGiven, log)
    ensures SelectorsFit(Monitor(pinGiven, log).stage, Selectors(log))
    decreases |log|
  {
    hide Observe, Rising;
    if log != [] {
      var front, e := log[..|log| - 1], log[|log| - 1];
      PrefixIsSafe(pinGiven, log, |front|);
      SelectorsRise(pinGiven, front);
      assert front + [e] == log;
      SelectorsStep(pinGiven, front, e);
    } else {
      NothingRises();
    }
  }

  lemma NothingRises()
    ensures Rising([])
  {
  }

  lemma RisesWith(s: seq<byte>, v: byte)
    ensures Rising(s) && v <= 3 && (s != [] ==> s[|s| - 1] < v) ==> Rising(s + [v])
  {
  }

  // Asking for the slot comes first, and power comes before any block

  lemma {:induction false} NothingSentIsFresh(pinGiven: bool, log: Log)
    requires Safe(pinGiven, log) && forall e <- log :: !e.BulkOut?
    ensures Monitor(pinGiven, log) == Watch(Fresh, None, 0)
    decreases |log|
  {
    if log != [] {
      PrefixIsSafe(pinGiven, log, |log| - 1);
      NothingSentIsFresh(pinGiven, log[..|log| - 1]);
      assert log[|log| - 1] in log;
    }
  }

  lemma FirstAsksForSlot(pinGiven: bool, log: Log, k: nat)
    requires Safe(pinGiven, log) && k < |log| && log[k].BulkOut?
    requires forall e <- log[..k] :: !e.BulkOut?
    ensures Sent(log[k]).Some? && Sent(log[k]).value.kind == CMD_GETSLOTSTAT
  {
    PrefixIsSafe(pinGiven, log, k + 1);
    PrefixIsSafe(pinGiven, log, k);
    NothingSentIsFresh(pinGiven, log[..k]);
    assert log[..k + 1] == log[..k] + [log[k]];
    MonitorStep(pinGiven, log[..k], log[k]);
  }

  // What a command needs to have been granted

  datatype Right = Present | Powered | Selected | Verified

  predicate Requests(r: Right, m: Message) {
    match r
    case Present => m.kind == CMD_GETSLOTSTAT
    case Powered => m.kind == CMD_ICCPOWERON
    case Selected => m.kind == CMD_XFRBLOCK && m.payload == SelectApdu()
    case Verified => m.kind == CMD_XFRBLOCK && IsPinVerify(m.payload)
  }

  // A slot status that reports a card; any answer to a power-on; status 9000 to the others.
  predicate Grants(r: Right, m: Message) {
    match r
    case Present => ReportsCard(m)
    case Powered => true
    case _ => StatusOf(m) == Some(SW_SUCCESS)
  }

  function LastSent(log: Log): Option<Message> {
    if log == [] then None
    else if log[|log| - 1].BulkOut? then Sent(log[|log| - 1])
    else LastSent(log[..|log| - 1])
  }

  // Requested at i, and nothing but GET RESPONSE sent since.
  ghost predicate RequestedAt(log: Log, r: Right, i: nat) {
    && i < |log| && Sent(log[i]).Some? && Requests(r, Sent(log[i]).value)
    && forall k | i < k < |log| && log[k].BulkOut? :: SendsGetResponse(log[k])
  }

  // Answered at j: the packet answers the command last sent, and grants what i requested.
  ghost predicate GrantedAt(log: Log, r: Right, i: nat, j: nat) {
    && i < j < |log| && RequestedAt(log[..j], r, i)
    && log[j].BulkIn? && log[j].got.Some? && LastSent(log[..j]).Some?
    && var c := LastSent(log[..j]).value;
       var verdict := Judge(c.slot, c.seqno, Expected(c.kind), log[j].got.value);
       verdict.Accept? && Grants(r, verdict.m)
  }

  ghost predicate Requested(log: Log, r: Right) {
    exists i: nat :: RequestedAt(log, r, i)
  }

  ghost predicate Granted(log: Log, r: Right) {
    exists i: nat, j: nat :: GrantedAt(log, r, i, j)
  }

  // The rights a stage stands for.
  ghost predicate Earned(pinGiven: bool, log: Log) {
    var w := Monitor(pinGiven, log);
    && (w.inFlight.Some? ==> LastSent(log) == w.inFlight)
    && match w.stage
       case SlotAsked(answer) =>
         Requested(log, Present) && (answer.Some? && ReportsCard(answer.value) ==> Granted(log, Present))
       case PowerTried(_, answer) =>
         Granted(log, Present) && Requested(log, Powered) && (answer.Some? ==> Granted(log, Powered))
       case Applet(phase, status) =>
         && Granted(log, Powered)
         && (phase == Selecting ==> Requested(log, Selected))
         && (phase == Presenting ==> Requested(log, Verified))
         && (phase != Selecting || status == Some(SW_SUCCESS) ==> Granted(log, Selected))
         && (phase == Presenting && status == Some(SW_SUCCESS) ==> Granted(log, Verified))
         && (phase == Deciphering && pinGiven ==> Granted(log, Verified))
       case _ => true
  }

  lemma RightsPersist(log: Log, e: Event, r: Right)
    ensures Granted(log, r) ==> Granted(log + [e], r)
    ensures Requested(log, r) && (e.BulkOut? ==> SendsGetResponse(e)) ==> Requested(log + [e], r)
    ensures e.BulkOut? && Sent(e).Some? && Requests(r, Sent(e).value) ==> Requested(log + [e], r)
  {
    hide Judge, LastSent, Sent, SendsGetResponse;
    var log' := log + [e];
    if Granted(log, r) {
      var i: nat, j: nat :| GrantedAt(log, r, i, j);
      assert log'[..j] == log[..j];
      assert GrantedAt(log', r, i, j);
    }
    if Requested(log, r) && (e.BulkOut? ==> SendsGetResponse(e)) {
      var i: nat :| RequestedAt(log, r, i);
      assert RequestedAt(log', r, i);
    }
    if e.BulkOut? && Sent(e).Some? && Requests(r, Sent(e).value) {
      assert RequestedAt(log', r, |log|);
    }
  }

  lemma AnswerGrants(log: Log, e: Event, r: Right)
    requires Requested(log, r) && e.BulkIn? && e.got.Some? && LastSent(log).Some?
    requires var c := LastSent(log).value;
      var verdict := Judge(c.slot, c.seqno, Expected(c.kind), e.got.value);
      verdict.Accept? && Grants(r, verdict.m)
    ensures Granted(log + [e], r)
  {
    hide Judge, LastSent, Sent, SendsGetResponse, Grants;
    var log' := log + [e];
    var i: nat :| RequestedAt(log, r, i);
    assert log'[..|log|] == log;
    assert GrantedAt(log', r, i, |log|);
  }

  lemma EarnedStep(pinGiven: bool, log: Log, e: Event)
    requires Earned(pinGiven, log) && Safe(pinGiven, log + [e])
    ensures Earned(pinGiven, log + [e])
  {
    hide Judge, Requested, Granted, Monitor, SelectApdu;
    var w, log' := Monitor(pinGiven, log), log + [e];
    MonitorStep(pinGiven, log, e);
    assert log'[..|log|] == log;
    RightsPersist(log, e, Present);
    RightsPersist(log, e, Powered);
    RightsPersist(log, e, Selected);
    RightsPersist(log, e, Verified);
    if e.BulkIn? && w.inFlight.Some? && e.got.Some? {
      var c := w.inFlight.value;
      var verdict := Judge(c.slot, c.seqno, Expected(c.kind), e.got.value);
      if verdict.Accept? {
        if w.stage.SlotAsked? && ReportsCard(verdict.m) {
          AnswerGrants(log, e, Present);
        } else if w.stage.PowerTried? {
          AnswerGrants(log, e, Powered);
        } else if w.stage.Applet? && StatusOf(verdict.m) == Some(SW_SUCCESS) {
          if w.stage.phase == Selecting { AnswerGrants(log, e, Selected); }
          if w.stage.phase == Presenting { AnswerGrants(log, e, Verified); }
        }
      }
    }
  }

  lemma {:induction false} SafeIsEarned(pinGiven: bool, log: Log)
    requires Safe(pinGiven, log)
    ensures Earned(pinGiven, log)
    decreases |log|
  {
    hide Observe, Granted, Requested;
    if log != [] {
      var front, e := log[..|log| - 1], log[|log| - 1];
      PrefixIsSafe(pinGiven, log, |front|);
      SafeIsEarned(pinGiven, front);
      assert front + [e] == log;
      EarnedStep(pinGiven, front, e);
    }
  }

  lemma CommandsAreEarned(pinGiven: bool, log: Log, k: nat)
    requires Safe(pinGiven, log) && k < |log|
    ensures SendsPowerOn(log[k]) ==> Granted(log[..k], Present)
    ensures SendsBlock(log[k]) ==> Granted(log[..k], Powered)
    ensures SendsPin(log[k]) ==> Granted(log[..k], Selected)
    ensures SendsAuthenticate(log[k]) ==>
      Granted(log[..k], Selected) && (pinGiven ==> Granted(log[..k], Verified))
  {
    hide Granted, Requested, Judge;
    PrefixIsSafe(pinGiven, log, k);
    PrefixIsSafe(pinGiven, log, k + 1);
    SafeIsEarned(pinGiven, log[..k]);
    assert log[..k + 1] == log[..k] + [log[k]];
    MonitorStep(pinGiven, log[..k], log[k]);
  }

  // Nothing else is ever sent: not another kind of command, not another APDU.

  predicate IsKnownBlock(apdu: bytes) {
    || apdu == SelectApdu() || apdu == VerifyApdu(None) || IsPinVerify(apdu) || IsAuthenticate(apdu)
    || (|apdu| == 5 && apdu[1] == INS_GET_RESPONSE)
  }

  predicate IsKnown(m: Message) {
    || m.kind == CMD_GETSLOTSTAT
    || (m.kind == CMD_ICCPOWERON && m.ctl[0] <= 3)
    || (m.kind == CMD_XFRBLOCK && IsKnownBlock(m.payload))
  }

  lemma NothingElseIsSent(pinGiven: bool, log: Log, k: nat)
    requires Safe(pinGiven, log) && k < |log| && log[k].BulkOut?
    ensures Sent(log[k]).Some? && IsKnown(Sent(log[k]).value)
  {
    hide Judge, Monitor, SelectApdu, VerifyApdu, MayDecipher;
    PrefixIsSafe(pinGiven, log, k + 1);
    assert log[..k + 1] == log[..k] + [log[k]];
    MonitorStep(pinGiven, log[..k], log[k]);
  }

  // Commands are numbered in the order they are sent.
  lemma {:induction false} SafeIsNumbered(pinGiven: bool, log: Log)
    requires Safe(pinGiven, log)
    ensures Monitor(pinGiven, log).sent == SentCount(log) && Numbered(log)
    decreases |log|
  {
    hide Judge, Next, Numbered, Header;
    if log == [] {
      NothingIsNumbered();
    } else {
      var front, e := log[..|log| - 1], log[|log| - 1];
      PrefixIsSafe(pinGiven, log, |front|);
      SafeIsNumbered(pinGiven, front);
      assert front + [e] == log;
      NumberedExtend(front, e);
    }
  }

  lemma NothingIsNumbered()
    ensures Numbered([])
  {
  }

  // Power is not tried again once a power-on was answered.

  predicate PowerIsOn(stage: Stage) {
    (stage.PowerTried? && stage.answer.Some?) || stage.Applet?
  }

  // From a power-on request until anything but GET RESPONSE is sent, the stage is that request's.
  lemma {:induction false} StageSinceRequest(pinGiven: bool, log: Log, i: nat, n: nat)
    requires Safe(pinGiven, log) && RequestedAt(log, Powered, i) && i < n <= |log|
    ensures Monitor(pinGiven, log[..n]).stage.PowerTried?
    decreases n
  {
    hide Judge, Monitor, SelectApdu, NextBlock;
    PrefixIsSafe(pinGiven, log, n);
    assert log[..n] == log[..n - 1] + [log[n - 1]];
    MonitorStep(pinGiven, log[..n - 1], log[n - 1]);
    if n > i + 1 {
      StageSinceRequest(pinGiven, log, i, n - 1);
      assert log[n - 1].BulkOut? ==> SendsGetResponse(log[n - 1]);
      SelectIsNoGetResponse();
    }
  }

  lemma SelectIsNoGetResponse()
    ensures SelectApdu()[1] != INS_GET_RESPONSE
  {
  }

  lemma {:induction false} PowerStaysOn(pinGiven: bool, log: Log, j: nat, n: nat)
    requires Safe(pinGiven, log) && j <= n <= |log| && PowerIsOn(Monitor(pinGiven, log[..j]).stage)
    ensures PowerIsOn(Monitor(pinGiven, log[..n]).stage)
    decreases n
  {
    hide Judge, Monitor, SelectApdu;
    if j < n {
      PowerStaysOn(pinGiven, log, j, n - 1);
      PrefixIsSafe(pinGiven, log, n);
      assert log[..n] == log[..n - 1] + [log[n - 1]];
      MonitorStep(pinGiven, log[..n - 1], log[n - 1]);
    }
  }

  lemma NoPowerOnAfterAnswer(pinGiven: bool, log: Log, i: nat, j: nat, k: nat)
    requires Safe(pinGiven, log) && GrantedAt(log, Powered, i, j) && j < k < |log|
    ensures !SendsPowerOn(log[k])
  {
    hide Judge, Monitor, SelectApdu;
    PrefixIsSafe(pinGiven, log, j);
    PrefixIsSafe(pinGiven, log, j + 1);
    StageSinceRequest(pinGiven, log[..j], i, j);
    assert log[..j][..j] == log[..j];
    SafeIsEarned(pinGiven, log[..j]);
    assert log[..j + 1] == log[..j] + [log[j]];
    MonitorStep(pinGiven, log[..j], log[j]);
    PowerStaysOn(pinGiven, log, j + 1, k);
    PrefixIsSafe(pinGiven, log, k + 1);
    assert log[..k + 1] == log[..k] + [log[k]];
    MonitorStep(pinGiven, log[..k], log[k]);
  }

  // All of it, of one log.
  ghost predicate Disciplined(pinGiven: bool, log: Log) {
    && (forall k: nat | k < |log| && log[k].BulkOut? && (forall e <- log[..k] :: !e.BulkOut?) ::
          Sent(log[k]).Some? && Sent(log[k]).value.kind == CMD_GETSLOTSTAT)
    && (forall k: nat | k < |log| && log[k].BulkOut? :: Sent(log[k]).Some? && IsKnown(Sent(log[k]).value))
    && PinCount(log) <= (if pinGiven then 1 else 0)
    && Numbered(log)
    && Rising(Selectors(log))
    && (forall i: nat, j: nat, k: nat | GrantedAt(log, Powered, i, j) && j < k < |log| :: !SendsPowerOn(log[k]))
    && (forall k: nat | k < |log| && SendsPowerOn(log[k]) :: Granted(log[..k], Present))
    && (forall k: nat | k < |log| && SendsBlock(log[k]) :: Granted(log[..k], Powered))
    && (forall k: nat | k < |log| && SendsPin(log[k]) :: Granted(log[..k], Selected))
    && (forall k: nat | k < |log| && SendsAuthenticate(log[k]) ::
          Granted(log[..k], Selected) && (pinGiven ==> Granted(log[..k], Verified)))
  }

  lemma SafeIsDisciplined(pinGiven: bool, log: Log)
    requires Safe(pinGiven, log)
    ensures Disciplined(pinGiven, log)
  {
    hide Safe, Granted, GrantedAt, SendsBlock, SendsPin, SendsAuthenticate, SendsPowerOn, Sent, Rising, IsKnown, Numbered;
    PinAtMostOnce(pinGiven, log);
    SelectorsRise(pinGiven, log);
    SafeIsNumbered(pinGiven, log);
    forall k: nat | k < |log| && log[k].BulkOut? && (forall e <- log[..k] :: !e.BulkOut?)
      ensures Sent(log[k]).Some? && Sent(log[k]).value.kind == CMD_GETSLOTSTAT
    {
      FirstAsksForSlot(pinGiven, log, k);
    }
    forall i: nat, j: nat, k: nat | GrantedAt(log, Powered, i, j) && j < k < |log|
      ensures !SendsPowerOn(log[k])
    {
      NoPowerOnAfterAnswer(pinGiven, log, i, j, k);
    }
    forall k: nat | k < |log| && log[k].BulkOut?
      ensures Sent(log[k]).Some? && IsKnown(Sent(log[k]).value)
    {
      NothingElseIsSent(pinGiven, log, k);
    }
    forall k: nat | k < |log|
      ensures SendsPowerOn(log[k]) ==> Granted(log[..k], Present)
      ensures SendsBlock(log[k]) ==> Granted(log[..k], Powered)
      ensures SendsPin(log[k]) ==> Granted(log[..k], Selected)
      ensures SendsAuthenticate(log[k]) ==>
        Granted(log[..k], Selected) && (pinGiven ==> Granted(log[..k], Verified))
    {
      CommandsAreEarned(pinGiven, log, k);
    }
  }

  // For every device, every tree, every PIN or none: the whole run.
  lemma WholeRun(o: Oracle, t: Tree, pin: Option<bytes>, opts: seq<Option<byte>>, ciphertext: bytes)
    ensures Disciplined(pin.Some?, ProgramRun(o, [], t, pin, opts, ciphertext).0)
  {
    hide ProgramRun, Monitor, Disciplined;
    RunIsSafe(o, t, pin, opts, ciphertext);
    SafeIsDisciplined(pin.Some?, ProgramRun(o, [], t, pin, opts, ciphertext).0);
  }
}
