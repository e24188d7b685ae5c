/** The cursor over one USB descriptor (uusb_const.h). */
module DtParsers {
  import opened Bytes

  // What an unsigned long holds of a number.
  function Low64(n: nat): u64 {
    n % 0x1_0000_0000_0000_0000
  }

  // Keeping only 64 bits after every step leaves what keeping 64 bits at the end leaves.
  lemma ShiftedInWidth(v: nat, b: byte)
    ensures Low64(Low64(v) * 256 + b) == Low64(b + 256 * v) && Low64(0) == 0
  {
    var q, r := v / 0x1_0000_0000_0000_0000, Low64(v);
    assert v == q * 0x1_0000_0000_0000_0000 + r;
    var k, x := 256 * q, r * 256 + b;
    assert b + 256 * v == x + k * 0x1_0000_0000_0000_0000;
  }

  lemma LeDecodeStep(s: bytes)
    ensures s == [] ==> LeDecode(s) == 0
    ensures s != [] ==> LeDecode(s) == s[0] + 256 * LeDecode(s[1..])
  {
  }

  class DtParser {
    const mem: bytes
    var pos: nat
    var left: nat
    var okay: bool

    ghost predicate Valid()
      reads this
    {
      pos + left <= |mem|
    }

    ghost function Rest(): bytes
      requires Valid()
      reads this
    {
      mem[pos..pos + left]
    }

    // Positioned behind the length and type octets of the record at `start`.
    constructor (data: bytes, start: nat, len: nat)
      requires 2 <= len && start + len <= |data|
      ensures Valid() && okay && mem == data && pos == start + 2 && left == len - 2
      ensures Rest() == data[start..start + len][2..]
    {
      mem, pos, left, okay := data, start + 2, len - 2, true;
    }

    // The record's next n octets, least significant first.
    method GetInteger(n: nat) returns (result: u64)
      requires Valid()
      modifies this
      ensures Valid() && okay == (old(okay) && n <= old(left))
      ensures n <= old(left) ==>
        result == Low64(LeDecode(old(Rest())[..n]))
        && pos == old(pos) + n && Rest() == old(Rest())[n..]
      ensures n > old(left) ==> result == 0 && pos == old(pos) && Rest() == []
    {
      if n > left {
        okay := false;
        left := 0;
        return 0;
      }
      result := Assemble(mem[pos..pos + n]);
      assert Rest()[..n] == mem[pos..pos + n];
      pos := pos + n;
      left := left - n;
    }

    // From the most significant octet down.
    static method Assemble(p: bytes) returns (result: u64)
      ensures result == Low64(LeDecode(p))
    {
      hide LeDecode, Low64;
      result := 0;
      var i := |p|;
      LeDecodeStep(p[i..]);
      ShiftedInWidth(0, 0);
      while i != 0
        invariant i <= |p| && result == Low64(LeDecode(p[i..]))
      {
        i := i - 1;
        assert p[i..][1..] == p[i + 1..];
        LeDecodeStep(p[i..]);
        ShiftedInWidth(LeDecode(p[i + 1..]), p[i]);
        result := Low64(result * 256 + p[i]);
      }
      assert p[0..] == p;
    }

    method Skip(n: nat) returns (ok: bool)
      requires Valid()
      modifies this
      ensures Valid() && ok == (n <= old(left)) && okay == (old(okay) && ok)
      ensures ok ==> pos == old(pos) + n && Rest() == old(Rest())[n..]
      ensures !ok ==> pos == old(pos) && Rest() == []
    {
      if n > left {
        okay := false;
        left := 0;
        return false;
      }
      pos := pos + n;
      left := left - n;
      return true;
    }

    method GetByte() returns (ok: bool, v: byte)
      requires Valid() && okay
      modifies this
      ensures Valid() && ok == okay == (1 <= old(left))
      ensures ok ==> old(Rest()) == LeEncode(v, 1) + Rest() && pos == old(pos) + 1
    {
      hide LeDecode, LeEncode;
      var r := GetInteger(1);
      Narrowing(old(Rest()), 1);
      return okay, r % 0x100;
    }

    method GetWord16() returns (ok: bool, v: u16)
      requires Valid() && okay
      modifies this
      ensures Valid() && ok == okay == (2 <= old(left))
      ensures ok ==> old(Rest()) == LeEncode(v, 2) + Rest() && pos == old(pos) + 2
    {
      hide LeDecode, LeEncode;
      var r := GetInteger(2);
      Narrowing(old(Rest()), 2);
      return okay, r % 0x1_0000;
    }

    method GetWord32() returns (ok: bool, v: u32)
      requires Valid() && okay
      modifies this
      ensures Valid() && ok == okay == (4 <= old(left))
      ensures ok ==> old(Rest()) == LeEncode(v, 4) + Rest() && pos == old(pos) + 4
    {
      hide LeDecode, LeEncode;
      var r := GetInteger(4);
      Narrowing(old(Rest()), 4);
      return okay, r % 0x1_0000_0000;
    }
  }

  // Narrowing the assembled integer to its field's width loses nothing; the field is recovered from it.
  lemma Narrowing(s: bytes, n: nat)
    requires n in {1, 2, 4}
    ensures n <= |s| ==> LeDecode(s[..n]) < Pow256(n) && s == LeEncode(LeDecode(s[..n]), n) + s[n..]
    ensures Pow256(1) == 0x100 && Pow256(2) == 0x1_0000 && Pow256(4) == 0x1_0000_0000
  {
    PowersOf256();
    if n <= |s| {
      LeEncodeOfDecode(s[..n]);
      assert s == s[..n] + s[n..];
    }
  }
}
