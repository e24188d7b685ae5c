/** The BER-TLV template and the padding of the PIV decipher command (yubikey.c). */
module PivCodec {
  import opened Bytes
  import opened Buffers
  import opened Fifos

  // The shortest definite form of a length below 65536, section 8.1.3 of ITU-T X.690.
  function Length(len: nat): (e: bytes)
    ensures 1 <= |e| <= 3
  {
    if len < 0x80 then [len]
    else if len < 0x100 then [0x81, len]
    else [0x82, len / 256 % 256, len % 256]
  }

  datatype Decoded = Decoded(len: nat, size: nat)

  function BigEndian(s: bytes): nat {
    if s == [] then 0 else BigEndian(s[..|s| - 1]) * 256 + s[|s| - 1]
  }

  // A BER reader, for all definite forms of that section, the shortest or not: up to 7F the first
  // octet is the length, from 81 to FE it counts the octets of the length behind it. The indefinite
  // form 80 is not used here, section 5.2.2.2 of ISO/IEC 7816-4:2005, and FF is reserved.
  function ReadLength(s: bytes): Option<Decoded> {
    if s == [] || s[0] == 0x80 || s[0] == 0xFF then None
    else if s[0] < 0x80 then Some(Decoded(s[0], 1))
    else
      var n := s[0] - 0x80;
      if |s| <= n then None else Some(Decoded(BigEndian(s[1..n + 1]), n + 1))
  }

  // What it takes and what it finds, for the forms that this code knows.
  lemma ShortForms(s: bytes)
    ensures s != [] && s[0] == 0x81 ==>
      ReadLength(s) == if |s| >= 2 then Some(Decoded(s[1], 2)) else None
    ensures s != [] && s[0] == 0x82 ==>
      ReadLength(s) == if |s| >= 3 then Some(Decoded(s[1] as nat * 256 + s[2], 3)) else None
  {
    if |s| >= 2 && s[0] == 0x81 {
      assert s[1..2] == [s[1]] && BigEndian([s[1]]) == s[1];
    }
    if |s| >= 3 && s[0] == 0x82 {
      assert s[1..3][..1] == [s[1]] && BigEndian([s[1]]) == s[1];
    }
  }

  // Length and ReadLength are inverse, and no form that a BER reader takes is shorter.
  lemma LengthRoundTrip(len: nat, rest: bytes)
    requires len < 0x1_0000
    ensures ReadLength(Length(len) + rest) == Some(Decoded(len, |Length(len)|))
    ensures (Length(len) + rest)[|Length(len)|..] == rest
  {
    ShortForms(Length(len) + rest);
    assert len == len / 256 % 256 * 256 + len % 256;
  }

  lemma LengthIsMinimal(s: bytes)
    requires ReadLength(s).Some?
    ensures |Length(ReadLength(s).value.len)| <= ReadLength(s).value.size
  {
    ShortForms(s);
  }

  // The template of section 3.2.4 of NIST SP 800-73-4 Part 2: an empty response object and the
  // ciphertext, inside a dynamic authentication template.
  function Inner(ciphertext: bytes): bytes {
    [0x82, 0x00, 0x81] + Length(|ciphertext|) + ciphertext
  }

  function Template(ciphertext: bytes): bytes {
    [0x7c] + Length(|Inner(ciphertext)|) + Inner(ciphertext)
  }

  // How a card reads a template, front to back: the inverse of Template, defined without it.
  function ReadTemplate(t: bytes): Option<bytes> {
    if |t| == 0 || t[0] != 0x7c then None else
    match ReadLength(t[1..])
    case None => None
    case Some(outer) =>
      var inner := t[1 + outer.size..];
      if |inner| != outer.len || |inner| < 3 || inner[..3] != [0x82, 0x00, 0x81] then None else
      match ReadLength(inner[3..])
      case None => None
      case Some(l) =>
        var ct := inner[3 + l.size..];
        if |ct| == l.len then Some(ct) else None
  }

  lemma TemplateRoundTrip(ciphertext: bytes)
    requires |ciphertext| <= 0xFF00
    ensures ReadTemplate(Template(ciphertext)) == Some(ciphertext)
  {
    var inner, t := Inner(ciphertext), Template(ciphertext);
    assert t[1..] == Length(|inner|) + inner;
    LengthRoundTrip(|inner|, inner);
    assert inner[3..] == Length(|ciphertext|) + ciphertext;
    LengthRoundTrip(|ciphertext|, ciphertext);
    assert t[1 + |Length(|inner|)|..] == t[1..][|Length(|inner|)|..];
    assert inner[3 + |Length(|ciphertext|)|..] == inner[3..][|Length(|ciphertext|)|..];
  }

  // The rest of `encoded` from pos on; the encoder only ever grows it to the front.
  ghost predicate Pushed(before: bytes, pos: nat, after: bytes, pos': nat, pushed: bytes) {
    && |before| == |after| && pos <= |before|
    && pos' == pos - |pushed|
    && after[pos'..] == pushed + before[pos..]
    && after[..pos'] == before[..pos']
  }

  lemma PushedTwice(s0: bytes, p0: nat, s1: bytes, p1: nat, s2: bytes, p2: nat, a: bytes, b: bytes)
    requires Pushed(s0, p0, s1, p1, a) && Pushed(s1, p1, s2, p2, b)
    ensures Pushed(s0, p0, s2, p2, b + a)
  {
    assert b + (a + s0[p0..]) == (b + a) + s0[p0..];
    assert s1[..p1][..p2] == s1[..p2] && s0[..p1][..p2] == s0[..p2];
  }

  // enc_push_byte keeps the low eight bits.
  method PushByte(encoded: array<byte>, pos: u32, b: nat) returns (pos': u32)
    requires 0 < pos <= encoded.Length
    modifies encoded
    ensures Pushed(old(encoded[..]), pos, encoded[..], pos', [b % 256])
  {
    pos' := pos - 1;
    encoded[pos'] := b % 256;
    assert encoded[..][pos'..] == [b % 256] + old(encoded[..])[pos..];
  }

  method PushLength(encoded: array<byte>, pos: u32, len: u32) returns (pos': u32)
    requires |Length(len)| <= pos <= encoded.Length
    modifies encoded
    ensures Pushed(old(encoded[..]), pos, encoded[..], pos', Length(len))
  {
    ghost var s0 := encoded[..];
    pos' := PushByte(encoded, pos, len);
    ghost var s1, p1 := encoded[..], pos';
    if len < 0x80 {
    } else if len < 0x100 {
      pos' := PushByte(encoded, pos', 0x81);
      PushedTwice(s0, pos, s1, p1, encoded[..], pos', [len], [0x81]);
    } else {
      pos' := PushByte(encoded, pos', len / 256);
      ghost var s2, p2 := encoded[..], pos';
      PushedTwice(s0, pos, s1, p1, s2, p2, [len % 256], [len / 256 % 256]);
      pos' := PushByte(encoded, pos', 0x82);
      PushedTwice(s0, pos, s2, p2, encoded[..], pos', [len / 256 % 256] + [len % 256], [0x82]);
      assert Length(len) == [0x82] + ([len / 256 % 256] + [len % 256]);
    }
  }

  // enc_push; a block that does not fit is not written, and the answer is then 0.
  method Push(encoded: array<byte>, pos: u32, data: bytes) returns (pos': u32)
    requires pos <= encoded.Length
    modifies encoded
    ensures |data| <= pos ==> Pushed(old(encoded[..]), pos, encoded[..], pos', data)
    ensures |data| > pos ==> pos' == 0 && encoded[..] == old(encoded[..])
  {
    if |data| > pos {
      return 0;
    }
    pos' := pos - |data|;
    forall i | 0 <= i < |data| {
      encoded[pos' + i] := data[i];
    }
    assert encoded[..][pos'..] == data + old(encoded[..])[pos..];
  }

  lemma TemplateParts(ct: bytes)
    ensures Inner(ct) == [0x82] + ([0x00] + ([0x81] + (Length(|ct|) + ct)))
    ensures Template(ct) == [0x7c] + (Length(|Inner(ct)|) + Inner(ct))
    ensures 0 < |Template(ct)| <= |ct| + 10
  {
  }

  // The part of the encoder that works in its array, back to front.
  method PushInner(encoded: array<byte>, pos: u32, ciphertext: bytes) returns (pos': u32)
    requires |Inner(ciphertext)| <= pos <= encoded.Length
    modifies encoded
    ensures Pushed(old(encoded[..]), pos, encoded[..], pos', Inner(ciphertext))
  {
    hide Length, Inner, Template;
    ghost var s0, value := encoded[..], Length(|ciphertext|) + ciphertext;
    TemplateParts(ciphertext);
    pos' := Push(encoded, pos, ciphertext);
    ghost var s1, p1 := encoded[..], pos';
    pos' := PushLength(encoded, pos', |ciphertext|);
    ghost var s2, p2 := encoded[..], pos';
    PushedTwice(s0, pos, s1, p1, s2, p2, ciphertext, Length(|ciphertext|));
    pos' := PushByte(encoded, pos', 0x81);
    ghost var s3, p3 := encoded[..], pos';
    pos' := PushByte(encoded, pos', 0x00);
    ghost var s4, p4 := encoded[..], pos';
    PushedTwice(s2, p2, s3, p3, s4, p4, [0x81], [0x00]);
    PushedTwice(s0, pos, s2, p2, s4, p4, value, [0x00] + [0x81]);
    pos' := PushByte(encoded, pos', 0x82);
    PushedTwice(s0, pos, s4, p4, encoded[..], pos', [0x00] + [0x81] + value, [0x82]);
    assert Inner(ciphertext) == [0x82] + ([0x00] + [0x81] + value);
  }

  // Written back to front, read front to back: the template, whenever 32 octets are to spare.
  method EncodeDecipherArgs(ciphertext: bytes) returns (result: Buffer?)
    requires |ciphertext| < 0x1_0000_0000 - 32
    ensures result == null <==> |ciphertext| > 992
    ensures result != null ==> fresh(result) && fresh(result.mem) && result.Valid()
    ensures result != null ==> result.Contents() == Template(ciphertext) && 0 < |result.Contents()| <= 1002
  {
    hide Template, Inner, Length, Buffer.Model;
    var encoded := new byte[1024](i => 0);
    if |ciphertext| + 32 > encoded.Length {
      return null;
    }
    TemplateParts(ciphertext);
    var pos := PushInner(encoded, 1024, ciphertext);
    pos := PushLength(encoded, pos, encoded.Length - pos);
    pos := PushByte(encoded, pos, 0x7c);
    ghost var t := Template(ciphertext);
    assert 22 <= pos && encoded[..][pos..] == t && |t| <= 1002;
    assert encoded[pos..] == encoded[..][pos..];
    result := new Buffer.AllocWrite(1024);
    assert result.Contents() == [];
    var ok := result.Put(encoded[pos..]);
    assert ok && [] + t == t;
  }

  // decode_length on enough octets: a first octet other than 81 and 82 is taken for the length.
  function LooseLength(s: bytes): Option<Decoded> {
    if s == [] then None
    else if s[0] == 0x81 then if |s| < 2 then None else Some(Decoded(s[1], 2))
    else if s[0] == 0x82 then if |s| < 3 then None else Some(Decoded(s[1] as nat * 256 + s[2], 3))
    else Some(Decoded(s[0], 1))
  }

  predicate BeginsLength(b: byte) {
    b < 0x80 || b == 0x81 || b == 0x82
  }

  // decode_length undoes enc_push_length whatever follows, and agrees with a strict reader
  // exactly when the first octet, if there is one, begins a form of at most three octets.
  lemma LooseLengthRoundTrip(len: nat, s: bytes, rest: bytes)
    requires len < 0x1_0000
    ensures LooseLength(Length(len) + rest) == Some(Decoded(len, |Length(len)|))
    ensures LooseLength(s) == ReadLength(s) <==> s == [] || BeginsLength(s[0])
  {
    ShortForms(s);
    ShortForms(Length(len) + rest);
    LengthRoundTrip(len, rest);
  }

  // The size of the header 7c L 82 L' in front of a response.
  function HeaderSize(s: bytes): (r: Option<nat>)
    ensures r.Some? ==> 4 <= r.value <= |s| && r.value <= 8
  {
    if |s| == 0 || s[0] != 0x7c then None else
    match LooseLength(s[1..])
    case None => None
    case Some(outer) =>
      var i := 1 + outer.size;
      if |s| <= i || s[i] != 0x82 then None else
      match LooseLength(s[i + 1..])
      case None => None
      case Some(l) => Some(i + 1 + l.size)
  }

  function Wrap(payload: bytes): bytes {
    var obj := [0x82] + Length(|payload|) + payload;
    [0x7c] + Length(|obj|) + obj
  }

  lemma WrapRoundTrip(payload: bytes)
    requires |payload| + 4 < 0x1_0000
    ensures HeaderSize(Wrap(payload)).Some?
    ensures Wrap(payload)[HeaderSize(Wrap(payload)).value..] == payload
  {
    hide Length, LooseLength;
    var e2 := Length(|payload|);
    var obj := [0x82] + e2 + payload;
    var e1, w := Length(|obj|), Wrap(payload);
    assert w == [0x7c] + (e1 + ([0x82] + (e2 + payload)));
    assert w[1..] == e1 + obj;
    LooseLengthRoundTrip(|obj|, [], obj);
    LooseLengthRoundTrip(|payload|, [], payload);
    var i := 1 + |e1|;
    assert w[i] == 0x82 && w[i + 1..] == e2 + payload;
    assert w[i + 1 + |e2|..] == payload;
  }

  // The octets behind the readable ones never decide: a header found with their help is longer
  // than what is readable.
  lemma HeaderOfPrefix(m: bytes, n: nat)
    requires 8 <= |m| && n <= |m|
    ensures HeaderSize(m[..n]) ==
      if HeaderSize(m).Some? && HeaderSize(m).value <= n then HeaderSize(m) else None
  {
    var c := m[..n];
    if 1 < n && m[0] == 0x7c {
      LengthOfPrefix(m[1..], n - 1);
      assert m[1..][..n - 1] == c[1..];
      var i := 1 + LooseLength(m[1..]).value.size;
      if i < n && m[i] == 0x82 {
        LengthOfPrefix(m[i + 1..], n - (i + 1));
        assert m[i + 1..][..n - (i + 1)] == c[i + 1..];
      }
    }
  }

  // With eight octets at hand, the header is read without looking for an end.
  lemma HeaderInPlenty(m: bytes)
    requires 8 <= |m|
    ensures m[0] != 0x7c ==> HeaderSize(m) == None
    ensures LooseLength(m[1..]).Some? && LooseLength(m[1..]).value.size <= 3
    ensures m[0] == 0x7c ==>
      var i := 1 + LooseLength(m[1..]).value.size;
      && LooseLength(m[i + 1..]).Some?
      && HeaderSize(m) == if m[i] == 0x82 then Some(i + 1 + LooseLength(m[i + 1..]).value.size) else None
  {
    LengthOfPrefix(m[1..], 3);
    LengthOfPrefix(m[2 + LooseLength(m[1..]).value.size..], 3);
  }

  lemma LengthOfPrefix(m: bytes, n: nat)
    requires 3 <= |m| && n <= |m|
    ensures LooseLength(m).Some?
    ensures LooseLength(m[..n]) ==
      if LooseLength(m).value.size <= n then LooseLength(m) else None
  {
  }

  // The position is relative to `start`, as in the C pointer the code indexes.
  method DecodeLength(data: array<byte>, start: nat, pos: nat) returns (pos': nat, len: nat)
    requires start + pos + 3 <= data.Length
    ensures pos < pos' <= pos + 3 && LooseLength(data[start + pos..]) == Some(Decoded(len, pos' - pos))
  {
    pos' := pos;
    len := data[start + pos'];
    pos' := pos' + 1;
    if len == 0x81 {
      len := data[start + pos'];
      pos' := pos' + 1;
    } else if len == 0x82 {
      len := data[start + pos'];
      pos' := pos' + 1;
      len := len * 256 + data[start + pos'];
      pos' := pos' + 1;
    }
  }

  // Skips the header, or leaves everything readable. Up to eight octets are looked at before the
  // buffer is asked how many there are, so that many must exist behind the read position.
  method DecodeDecipherResp(resp: Buffer) returns (ok: bool)
    requires resp.Valid() && resp.rpos + 8 <= resp.size
    modifies resp`rpos
    ensures resp.Valid() && ok == HeaderSize(old(resp.Contents())).Some?
    ensures ok ==> resp.rpos == old(resp.rpos) + HeaderSize(old(resp.Contents())).value
    ensures ok ==> resp.Contents() == old(resp.Contents())[HeaderSize(old(resp.Contents())).value..]
    ensures !ok ==> resp.rpos == old(resp.rpos)
  {
    hide LooseLength, HeaderSize;
    var data, start := resp.mem, resp.off + resp.rpos;
    ghost var m := data[start..];
    HeaderInPlenty(m);
    HeaderOfPrefix(m, resp.wpos - resp.rpos);
    assert m[..resp.wpos - resp.rpos] == resp.Contents();
    var i := 0;
    if data[start + i] != 0x7c {
      return false;
    }
    i := i + 1;
    var len;
    assert data[start + i..] == m[i..];
    i, len := DecodeLength(data, start, i);
    if data[start + i] != 0x82 {
      return false;
    }
    i := i + 1;
    assert data[start + i..] == m[i..];
    i, len := DecodeLength(data, start, i);
    ok := resp.Skip(i);
  }

  // The first zero octet from i on, or the end.
  function FirstZero(s: bytes, i: nat): (k: nat)
    requires i <= |s|
    ensures i <= k <= |s| && (k < |s| ==> s[k] == 0)
    ensures forall j | i <= j < k :: s[j] != 0
    decreases |s| - i
  {
    if i == |s| || s[i] == 0 then i else FirstZero(s, i + 1)
  }

  // The size of the padding 00 02 PS 00 in front of a message, section 7.2.2 of RFC 8017,
  // without that section's lower bound on PS.
  function PaddingSize(s: bytes): Option<nat> {
    if |s| < 2 || s[0] != 0 || s[1] != 2 || FirstZero(s, 2) == |s| then None else Some(FirstZero(s, 2) + 1)
  }

  function Pad(ps: bytes, message: bytes): bytes {
    [0x00, 0x02] + ps + [0x00] + message
  }

  lemma UnpadOfPad(ps: bytes, message: bytes)
    requires 0 !in ps
    ensures PaddingSize(Pad(ps, message)) == Some(|ps| + 3)
    ensures Pad(ps, message)[|ps| + 3..] == message
  {
    var s := Pad(ps, message);
    assert s[2 + |ps|] == 0;
    assert forall i | 2 <= i < 2 + |ps| :: s[i] == ps[i - 2];
  }

  // Padding is found exactly where there is some, and there is only one way to see it.
  lemma UnpadIff(s: bytes)
    ensures PaddingSize(s).Some? <==> 2 <= |s| && s[..2] == [0x00, 0x02] && exists i | 2 <= i < |s| :: s[i] == 0
    ensures PaddingSize(s).Some? ==>
      var n := PaddingSize(s).value; 3 <= n <= |s| && 0 !in s[2..n - 1] && s == Pad(s[2..n - 1], s[n..])
  {
    if PaddingSize(s).Some? {
      var n := PaddingSize(s).value;
      assert s == s[..2] + s[2..n - 1] + [s[n - 1]] + s[n..];
    }
  }

  lemma SplitIsUnique(ps: bytes, message: bytes, ps': bytes, message': bytes)
    requires 0 !in ps && 0 !in ps' && Pad(ps, message) == Pad(ps', message')
    ensures ps == ps' && message == message'
  {
    UnpadOfPad(ps, message);
    UnpadOfPad(ps', message');
    assert Pad(ps, message)[2..2 + |ps|] == ps && Pad(ps', message')[2..2 + |ps|] == ps';
  }

  // Reads two octets before asking how many there are.
  method RemovePadding(bp: Buffer) returns (ok: bool)
    requires bp.Valid() && bp.rpos + 2 <= bp.size
    modifies bp`rpos
    ensures bp.Valid()
    ensures var n := PaddingSize(old(bp.Contents())[..old(bp.Available())]);
            && ok == n.Some?
            && (ok ==> n.value <= |old(bp.Contents())| && bp.Contents() == old(bp.Contents())[n.value..])
            && (!ok ==> bp.rpos == old(bp.rpos))
  {
    var data, start, len := bp.mem, bp.off + bp.rpos, bp.Available();
    ghost var s := bp.Contents()[..len];
    if data[start] != 0x00 || data[start + 1] != 0x02 {
      return false;
    }
    var i := 2;
    assert 2 <= len ==> s[0] == 0 && s[1] == 2;
    while i < len
      invariant bp.rpos == old(bp.rpos) && (2 <= len ==> i <= len && FirstZero(s, 2) == FirstZero(s, i))
    {
      assert data[start + i] == s[i];
      if data[start + i] == 0 {
        assert PaddingSize(s) == Some(i + 1);
        ok := bp.Skip(i + 1);
        return true;
      }
      i := i + 1;
    }
    return false;
  }
}
