/**
 Where the PIV driver reads more than its standards allow: strict readers beside the code's own,
 and exactly when the two agree.
 */
module PivStandards {
  import opened Bytes
  import opened PivCodec
  import opened PivDriver

  // Padding: section 7.2.2 of RFC 8017 asks for a PS of at least eight octets.
  function RfcPaddingSize(s: bytes): Option<nat> {
    if |s| < 11 || s[0] != 0 || s[1] != 2 || FirstZero(s, 2) < 10 || FirstZero(s, 2) == |s| then None
    else Some(FirstZero(s, 2) + 1)
  }

  lemma RfcPaddingMeans(s: bytes, ps: bytes, message: bytes)
    requires 0 !in ps
    ensures 8 <= |ps| ==> RfcPaddingSize(Pad(ps, message)) == Some(|ps| + 3)
    ensures RfcPaddingSize(s).Some? ==>
      var n := RfcPaddingSize(s).value;
      11 <= n <= |s| && 0 !in s[2..n - 1] && s == Pad(s[2..n - 1], s[n..])
  {
    UnpadOfPad(ps, message);
    UnpadIff(s);
  }

  predicate ShortPadding(s: bytes) {
    2 <= |s| && s[0] == 0 && s[1] == 2 && exists i | 2 <= i < |s| && i <= 9 :: s[i] == 0
  }

  lemma PaddingAgreesIff(s: bytes)
    ensures PaddingSize(s) == RfcPaddingSize(s) <==> !ShortPadding(s)
  {
  }

  // An empty PS and an empty message are accepted.
  lemma ShortPaddingIsAccepted()
    ensures PaddingSize([0, 2, 0]) == Some(3) && RfcPaddingSize([0, 2, 0]) == None
  {
  }

  // Lengths: 80 alone is none, and 83 does not stand for itself.
  lemma LooseLengthIsAccepted(rest: bytes)
    ensures LooseLength([0x80] + rest) == Some(Decoded(0x80, 1)) && ReadLength([0x80] + rest) == None
    ensures LooseLength([0x83, 0, 0, 2] + rest) == Some(Decoded(0x83, 1))
    ensures ReadLength([0x83, 0, 0, 2] + rest) == Some(Decoded(2, 4))
  {
    ThreeOctets(2, [0x83, 0, 0, 2] + rest);
  }

  lemma ThreeOctets(v: byte, s: bytes)
    requires 4 <= |s| && s[..4] == [0x83, 0, 0, v]
    ensures ReadLength(s) == Some(Decoded(v, 4))
  {
    assert s[0] == 0x83 && s[1..4] == s[..4][1..] == [0, 0, v];
    assert [0, 0, v][..2] == [0, 0] && [0, 0][..1] == [0];
    assert BigEndian([0]) == 0 && BigEndian([0, 0]) == 0;
  }

  // The header of a response whose lengths both say what follows.
  function StrictHeaderSize(s: bytes): (r: Option<nat>)
    ensures r.Some? ==> 4 <= r.value <= |s|
  {
    if |s| == 0 || s[0] != 0x7c then None else
    match ReadLength(s[1..])
    case None => None
    case Some(outer) =>
      var i := 1 + outer.size;
      if |s| <= i || outer.len != |s| - i || s[i] != 0x82 then None else
      match ReadLength(s[i + 1..])
      case None => None
      case Some(l) => if l.len == |s| - (i + 1 + l.size) then Some(i + 1 + l.size) else None
  }

  lemma StrictHeaderOfWrap(payload: bytes)
    requires |payload| + 4 < 0x1_0000
    ensures StrictHeaderSize(Wrap(payload)).Some?
    ensures Wrap(payload)[StrictHeaderSize(Wrap(payload)).value..] == payload
  {
    hide Length, ReadLength;
    var e2 := Length(|payload|);
    var obj := [0x82] + e2 + payload;
    var e1, w := Length(|obj|), Wrap(payload);
    assert w == [0x7c] + (e1 + ([0x82] + (e2 + payload)));
    assert w[1..] == e1 + obj;
    LengthRoundTrip(|obj|, obj);
    LengthRoundTrip(|payload|, payload);
    var i := 1 + |e1|;
    assert w[i] == 0x82 && w[i + 1..] == e2 + payload;
    assert w[i + 1 + |e2|..] == payload;
  }

  // Both lengths of a strict header have a form of at most three octets.
  predicate ShortHeader(s: bytes)
    requires StrictHeaderSize(s).Some?
  {
    var outer := ReadLength(s[1..]).value;
    s[1] < 0x83 && s[2 + outer.size] < 0x83
  }

  // Both lengths, as decode_length reads them, begin a form that is one and count what follows.
  predicate ExactLengths(s: bytes)
    requires HeaderSize(s).Some?
  {
    var outer := LooseLength(s[1..]).value;
    var i := 1 + outer.size;
    var l := LooseLength(s[i + 1..]).value;
    && BeginsLength(s[1]) && outer.len == |s| - i
    && BeginsLength(s[i + 1]) && l.len == |s| - (i + 1 + l.size)
  }

  // A header that a strict reader finds is the driver's exactly if both lengths are short forms;
  // one that the driver finds is a strict reader's exactly if both lengths are ones and count what
  // follows. Where neither finds one they agree.
  lemma HeaderAgreesIff(s: bytes)
    ensures StrictHeaderSize(s).Some? ==> (HeaderSize(s) == StrictHeaderSize(s) <==> ShortHeader(s))
    ensures HeaderSize(s).Some? ==> (HeaderSize(s) == StrictHeaderSize(s) <==> ExactLengths(s))
    ensures StrictHeaderSize(s).Some? && HeaderSize(s).Some? && !ShortHeader(s) ==>
      HeaderSize(s).value < StrictHeaderSize(s).value
  {
    hide ReadLength, LooseLength;
    if s != [] {
      SameLength(s[1..]);
      var strict, loose := ReadLength(s[1..]), LooseLength(s[1..]);
      if strict.Some? && 1 + strict.value.size < |s| {
        SameLength(s[2 + strict.value.size..]);
      }
      if loose.Some? && 1 + loose.value.size < |s| {
        SameLength(s[2 + loose.value.size..]);
      }
    }
  }

  lemma SameLength(s: bytes)
    ensures LooseLength(s) == ReadLength(s) <==> s == [] || BeginsLength(s[0])
    ensures s == [] ==> LooseLength(s) == None
    ensures LooseLength(s).Some? ==> 1 <= LooseLength(s).value.size <= 3
    ensures ReadLength(s).Some? ==> 1 <= ReadLength(s).value.size
    ensures ReadLength(s).Some? && s[0] < 0x83 ==> BeginsLength(s[0])
    ensures s != [] && s[0] >= 0x83 ==>
      LooseLength(s) == Some(Decoded(s[0], 1)) && (ReadLength(s).Some? ==> 4 <= ReadLength(s).value.size)
  {
    ShortForms(s);
  }

  // A legal response that the driver refuses: the length is on three octets where one would do.
  lemma LongFormIsRefused()
    ensures HeaderSize([0x7c, 0x83, 0, 0, 2, 0x82, 0]) == None
    ensures StrictHeaderSize([0x7c, 0x83, 0, 0, 2, 0x82, 0]) == Some(7)
  {
    var s := [0x7c, 0x83, 0, 0, 2, 0x82, 0];
    assert s[1..][..4] == [0x83, 0, 0, 2] && s[6..] == [0];
    ThreeOctets(2, s[1..]);
  }

  // The lengths are read and ignored: octets behind an object that is empty by its own account
  // are taken for its payload.
  lemma IgnoredLengthIsAccepted(x: byte, y: byte)
    ensures HeaderSize([0x7c, 0x01, 0x82, 0x00, x, y]) == Some(4)
    ensures StrictHeaderSize([0x7c, 0x01, 0x82, 0x00, x, y]) == None
  {
    var s := [0x7c, 0x01, 0x82, 0x00, x, y];
    assert s[1..][0] == 0x01 && s[3..][0] == 0x00;
  }

  // Both together: what a strict reader takes for the message of a response.
  function StrictUnwrap(data: bytes): Option<bytes> {
    match StrictHeaderSize(data)
    case None => None
    case Some(h) =>
      match RfcPaddingSize(data[h..])
      case None => None
      case Some(p) => Some(data[h..][p..])
  }

  lemma StrictUnwrapOfResponse(ps: bytes, message: bytes)
    requires 0 !in ps && 8 <= |ps| && |Pad(ps, message)| + 4 < 0x1_0000
    ensures StrictUnwrap(Wrap(Pad(ps, message))) == Some(message)
  {
    hide Wrap, Pad, StrictHeaderSize, RfcPaddingSize;
    StrictHeaderOfWrap(Pad(ps, message));
    RfcPaddingMeans([], ps, message);
    UnpadOfPad(ps, message);
  }

  // A message that a strict reader finds is the driver's exactly if both lengths are short forms;
  // one that the driver finds is a strict reader's exactly if the lengths count what follows and
  // the padding is not short.
  lemma UnwrapAgreesIff(data: bytes)
    ensures StrictUnwrap(data).Some? ==> (Unwrap(data) == StrictUnwrap(data) <==> ShortHeader(data))
    ensures Unwrap(data).Some? ==>
      (Unwrap(data) == StrictUnwrap(data) <==>
        ExactLengths(data) && !ShortPadding(data[HeaderSize(data).value..]))
  {
    hide HeaderSize, StrictHeaderSize, PaddingSize, RfcPaddingSize, ExactLengths, ShortPadding, ShortHeader;
    HeaderAgreesIff(data);
    if HeaderSize(data).Some? {
      var h := HeaderSize(data).value;
      PaddingAgreesIff(data[h..]);
      RfcPaddingIsPadding(data[h..]);
      if StrictUnwrap(data).Some? && Unwrap(data).Some? && h < StrictHeaderSize(data).value {
        LaterPaddingIsLonger(data, h, StrictHeaderSize(data).value);
      }
    }
  }

  // Two headers of different size cannot lead to the same message.
  lemma LaterPaddingIsLonger(data: bytes, h: nat, h': nat)
    requires h < h' <= |data| && PaddingSize(data[h..]).Some? && RfcPaddingSize(data[h'..]).Some?
    ensures data[h..][PaddingSize(data[h..]).value..] != data[h'..][RfcPaddingSize(data[h'..]).value..]
  {
    var s, s' := data[h..], data[h'..];
    assert s[h' - h..] == s' && s[h' - h] == 0 && s'[1] == 2;
    assert h' - h >= 2;
    assert FirstZero(s, 2) <= h' - h;
  }

  lemma RfcPaddingIsPadding(s: bytes)
    ensures RfcPaddingSize(s).Some? ==> PaddingSize(s) == RfcPaddingSize(s)
  {
  }

  // No message comes out of a legal response whose length is on more octets than needed,
  lemma LongFormIsNotUnwrapped(message: bytes)
    requires |message| <= 0x70
    ensures var padded := Pad([1, 1, 1, 1, 1, 1, 1, 1], message);
      var data := [0x7c, 0x83, 0, 0, |padded| + 2, 0x82, |padded|] + padded;
      Unwrap(data) == None && StrictUnwrap(data) == Some(message)
  {
    hide Pad, PaddingSize, RfcPaddingSize;
    var ps := [1, 1, 1, 1, 1, 1, 1, 1];
    var padded := Pad(ps, message);
    PaddedSize(ps, message);
    var data := [0x7c, 0x83, 0, 0, |padded| + 2, 0x82, |padded|] + padded;
    assert data[1..][..4] == [0x83, 0, 0, |padded| + 2] && data[6..][0] == |padded| && data[7..] == padded;
    ThreeOctets(|padded| + 2, data[1..]);
    RfcPaddingMeans([], ps, message);
    UnpadOfPad(ps, message);
  }

  // and trailing octets can become cleartext.
  lemma TrailingOctetsAreUnwrapped(message: bytes)
    ensures var data := [0x7c, 0x01, 0x82, 0x00] + Pad([1, 1, 1, 1, 1, 1, 1, 1], message);
      Unwrap(data) == Some(message) && StrictUnwrap(data) == None
  {
    hide Pad, PaddingSize, RfcPaddingSize;
    var padded := Pad([1, 1, 1, 1, 1, 1, 1, 1], message);
    var data := [0x7c, 0x01, 0x82, 0x00] + padded;
    assert data[1..][0] == 0x01 && data[3..][0] == 0x00 && data[4..] == padded;
    UnpadOfPad([1, 1, 1, 1, 1, 1, 1, 1], message);
    PaddedSize([1, 1, 1, 1, 1, 1, 1, 1], message);
  }

  lemma PaddedSize(ps: bytes, message: bytes)
    ensures |Pad(ps, message)| == |ps| + |message| + 3
  {
  }
}
