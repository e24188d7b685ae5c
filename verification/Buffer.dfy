/** The cursor buffer of bufparser.h. */
module Buffers {
  import opened Bytes
  import opened Fifos

  // The parts of a memory image after `src` was written at `start`.
  lemma WrittenAt(before: bytes, src: bytes, start: nat, off: nat, rpos: nat, after: bytes)
    requires off + rpos <= start && start + |src| <= |before| == |after|
    requires forall i | 0 <= i < |src| :: after[start + i] == src[i]
    requires forall i | 0 <= i < |before| && !(start <= i < start + |src|) :: after[i] == before[i]
    ensures after[off..off + rpos] == before[off..off + rpos]
    ensures after[off + rpos..start + |src|] == before[off + rpos..start] + src
  {
    assert after[start..start + |src|] == src;
    assert after[off + rpos..start] == before[off + rpos..start];
    assert after[off + rpos..start + |src|] == after[off + rpos..start] + after[start..start + |src|];
  }

  lemma SlicesOfAll(mem: array<byte>, off: nat, rpos: nat, wpos: nat)
    requires rpos <= wpos && off + wpos <= mem.Length
    ensures mem[off..off + rpos] == mem[..][off..off + rpos]
    ensures mem[off + rpos..off + wpos] == mem[..][off + rpos..off + wpos]
  {
  }

  /**
   The C struct holds a data pointer; here the pointer is an array and an offset into it, so a
   buffer may view part of another buffer's memory.
   */
  class Buffer {
    const mem: array<byte>
    const off: nat
    const size: nat
    var rpos: nat
    var wpos: nat

    ghost predicate Valid()
      reads this
    {
      rpos <= wpos <= size && off + size <= mem.Length
    }

    ghost function Contents(): bytes
      requires Valid()
      reads this, mem
    {
      mem[off + rpos..off + wpos]
    }

    ghost function Model(): Fifo
      requires Valid()
      reads this, mem
    {
      Fifo(mem[off..off + rpos], Contents(), size - wpos)
    }

    // A view for reading: everything is readable, nothing more fits.
    constructor InitRead(data: array<byte>, start: nat, len: nat)
      requires start + len <= data.Length
      ensures Valid() && mem == data && off == start && size == len
      ensures rpos == 0 && wpos == len
    {
      mem, off, size, rpos, wpos := data, start, len, 0, len;
    }

    constructor InitWrite(data: array<byte>, start: nat, len: nat)
      requires start + len <= data.Length
      ensures Valid() && mem == data && off == start && size == len
      ensures rpos == wpos == 0
    {
      mem, off, size, rpos, wpos := data, start, len, 0, 0;
    }

    // The rounded size passes through an unsigned int: close below 2^32 it becomes 0.
    constructor AllocWrite(len: nat)
      ensures Valid() && fresh(mem) && off == 0 && mem.Length == RoundUp8(len) && size == ToU32(RoundUp8(len))
      ensures rpos == wpos == 0
      ensures len + 8 <= 0x1_0000_0000 ==> len <= size < len + 8 && size % 8 == 0
      ensures 0x1_0000_0000 < len + 8 <= 0x1_0000_0007 ==> size == 0
    {
      mem := new byte[RoundUp8(len)];
      off, size, rpos, wpos := 0, ToU32(RoundUp8(len)), 0, 0;
    }

    function Available(): u32
      requires Valid()
      reads this
    {
      ToU32(wpos - rpos)
    }

    function Tailroom(): u32
      requires Valid()
      reads this
    {
      ToU32(size - wpos)
    }

    method Skip(count: u32) returns (ok: bool)
      requires Valid()
      modifies this`rpos
      ensures Valid() && ok == (count <= |old(Contents())|)
      ensures Model() == old(Model()).Take(count)
      ensures rpos == old(rpos) + if ok then count else 0
    {
      if count > wpos - rpos {
        return false;
      }
      rpos := rpos + count;
      return true;
    }

    method Seek(newPos: u32) returns (ok: bool)
      requires Valid()
      modifies this`rpos
      ensures Valid() && ok == (newPos <= wpos)
      ensures rpos == if ok then newPos else old(rpos)
      ensures ok ==> Model().Stream() == old(Model()).Stream() && |Model().consumed| == newPos
    {
      if newPos > wpos {
        return false;
      }
      rpos := newPos;
      return true;
    }

    method Get(count: u32) returns (ok: bool, dest: bytes)
      requires Valid()
      modifies this`rpos
      ensures Valid() && ok == (count <= |old(Contents())|)
      ensures Model() == old(Model()).Take(count)
      ensures dest == if ok then old(Contents())[..count] else []
      ensures Contents() == if ok then old(Contents())[count..] else old(Contents())
      ensures rpos == old(rpos) + if ok then count else 0
    {
      if count > wpos - rpos {
        return false, [];
      }
      dest := mem[off + rpos..off + rpos + count];
      rpos := rpos + count;
      return true, dest;
    }

    method GetU8() returns (ok: bool, v: byte)
      requires Valid()
      modifies this`rpos
      ensures Valid() && ok == (1 <= |old(Contents())|)
      ensures Contents() == if ok then old(Contents())[1..] else old(Contents())
      ensures rpos == old(rpos) + if ok then 1 else 0
      ensures ok ==> v == old(Contents())[0]
    {
      var dest;
      ok, dest := Get(1);
      v := if ok then dest[0] else 0;
    }

    method GetU16le() returns (ok: bool, v: u16)
      requires Valid()
      modifies this`rpos
      ensures Valid() && ok == (2 <= |old(Contents())|)
      ensures Contents() == if ok then old(Contents())[2..] else old(Contents())
      ensures rpos == old(rpos) + if ok then 2 else 0
      ensures ok ==> LeEncode(v, 2) == old(Contents())[..2]
    {
      var dest;
      ok, dest := Get(2);
      v := 0;
      if ok {
        LeFieldInverse(0, dest, 2);
        PowersOf256();
        v := LeDecode(dest);
      }
    }

    method GetU32le() returns (ok: bool, v: u32)
      requires Valid()
      modifies this`rpos
      ensures Valid() && ok == (4 <= |old(Contents())|)
      ensures Contents() == if ok then old(Contents())[4..] else old(Contents())
      ensures rpos == old(rpos) + if ok then 4 else 0
      ensures ok ==> LeEncode(v, 4) == old(Contents())[..4] && v == LeDecode(old(Contents())[..4])
    {
      var dest;
      ok, dest := Get(4);
      v := 0;
      if ok {
        LeFieldInverse(0, dest, 4);
        PowersOf256();
        v := LeDecode(dest);
      }
    }

    method GetU64le() returns (ok: bool, v: u64)
      requires Valid()
      modifies this`rpos
      ensures Valid() && ok == (8 <= |old(Contents())|)
      ensures Contents() == if ok then old(Contents())[8..] else old(Contents())
      ensures rpos == old(rpos) + if ok then 8 else 0
      ensures ok ==> LeEncode(v, 8) == old(Contents())[..8]
    {
      var dest;
      ok, dest := Get(8);
      v := 0;
      if ok {
        LeFieldInverse(0, dest, 8);
        PowersOf256();
        v := LeDecode(dest);
      }
    }

    // The result views this buffer's memory: no octet is copied.
    method GetBuffer(count: u32) returns (ok: bool, res: Buffer?)
      requires Valid()
      modifies this`rpos
      ensures Valid() && ok == (count <= |old(Contents())|)
      ensures Model() == old(Model()).Take(count)
      ensures ok <==> res != null
      ensures ok ==> fresh(res) && res.Valid() && res.mem == mem && res.off == off + old(rpos)
      ensures ok ==> res.Model() == Fifo([], old(Contents())[..count], 0)
    {
      if count > wpos - rpos {
        return false, null;
      }
      res := new Buffer.InitRead(mem, off + rpos, count);
      assert res.Model() == Fifo([], Contents()[..count], 0);
      var _ := Skip(count);
      return true, res;
    }

    // memcpy into this buffer's memory.
    method Write(start: nat, src: bytes)
      requires start + |src| <= mem.Length
      modifies mem
      ensures forall i | 0 <= i < |src| :: mem[start + i] == src[i]
      ensures forall i | 0 <= i < mem.Length && !(start <= i < start + |src|) :: mem[i] == old(mem[i])
    {
      forall i | 0 <= i < |src| {
        mem[start + i] := src[i];
      }
    }

    // Only the `|src|` octets behind the write position change, and only if they all fit.
    method Put(src: bytes) returns (ok: bool)
      requires Valid()
      modifies this`wpos, mem
      ensures Valid() && ok == (|src| <= old(size - wpos))
      ensures Model() == old(Model()).Put(src)
      ensures Contents() == old(Contents()) + if ok then src else []
      ensures wpos == old(wpos) + if ok then |src| else 0
      ensures forall i | 0 <= i < mem.Length && !(off + old(wpos) <= i < off + wpos) :: mem[i] == old(mem[i])
    {
      if |src| > size - wpos {
        return false;
      }
      Append(src);
      return true;
    }

    method Append(src: bytes)
      requires Valid() && |src| <= size - wpos
      modifies this`wpos, mem
      ensures Valid() && wpos == old(wpos) + |src|
      ensures Contents() == old(Contents()) + src
      ensures mem[off..off + rpos] == old(mem[off..off + rpos])
      ensures forall i | 0 <= i < mem.Length && !(off + old(wpos) <= i < off + wpos) :: mem[i] == old(mem[i])
    {
      ghost var before := mem[..];
      SlicesOfAll(mem, off, rpos, wpos);
      Write(off + wpos, src);
      WrittenAt(before, src, off + wpos, off, rpos, mem[..]);
      wpos := wpos + |src|;
      SlicesOfAll(mem, off, rpos, wpos);
    }

    method PutU8(v: byte) returns (ok: bool)
      requires Valid()
      modifies this`wpos, mem
      ensures Valid() && ok == (1 <= old(size - wpos))
      ensures Contents() == old(Contents()) + if ok then [v] else []
      ensures wpos == old(wpos) + if ok then 1 else 0
    {
      ok := Put([v]);
    }

    method PutU16le(v: u16) returns (ok: bool)
      requires Valid()
      modifies this`wpos, mem
      ensures Valid() && ok == (2 <= old(size - wpos))
      ensures Contents() == old(Contents()) + if ok then LeEncode(v, 2) else []
      ensures wpos == old(wpos) + if ok then 2 else 0
      ensures v == LeDecode(LeEncode(v, 2))
    {
      PowersOf256();
      LeDecodeOfEncode(v, 2);
      ok := Put(LeEncode(v, 2));
    }

    method PutU32le(v: u32) returns (ok: bool)
      requires Valid()
      modifies this`wpos, mem
      ensures Valid() && ok == (4 <= old(size - wpos))
      ensures Contents() == old(Contents()) + if ok then LeEncode(v, 4) else []
      ensures wpos == old(wpos) + if ok then 4 else 0
      ensures v == LeDecode(LeEncode(v, 4))
    {
      PowersOf256();
      LeDecodeOfEncode(v, 4);
      ok := Put(LeEncode(v, 4));
    }

    method PutU64le(v: u64) returns (ok: bool)
      requires Valid()
      modifies this`wpos, mem
      ensures Valid() && ok == (8 <= old(size - wpos))
      ensures Contents() == old(Contents()) + if ok then LeEncode(v, 8) else []
      ensures wpos == old(wpos) + if ok then 8 else 0
      ensures v == LeDecode(LeEncode(v, 8))
    {
      PowersOf256();
      LeDecodeOfEncode(v, 8);
      ok := Put(LeEncode(v, 8));
    }

    // Keep only the first `len` readable octets.
    method Truncate(len: nat) returns (ok: bool)
      requires Valid()
      modifies this`wpos
      ensures Valid() && ok == (len <= ToU32(|old(Contents())|))
      ensures Contents() == if ok then old(Contents())[..len] else old(Contents())
      ensures wpos == if ok then rpos + len else old(wpos)
    {
      if Available() < len {
        return false;
      }
      assert Contents()[..len] == mem[off + rpos..off + rpos + len];
      wpos := rpos + len;
      return true;
    }
  }

  // buffer_copy: get from one buffer straight into another one's memory.
  method Copy(src: Buffer, count: u32, dst: Buffer) returns (ok: bool)
    requires src.Valid() && dst.Valid() && src != dst && src.mem != dst.mem
    modifies src`rpos, dst`wpos, dst.mem
    ensures src.Valid() && dst.Valid()
    ensures ok == old(src.Model()).CanCopy(count, old(dst.Model()))
    ensures [src.Model(), dst.Model()] == Apply(old([src.Model(), dst.Model()]), Op.Copy(0, 1, count))
  {
    if dst.Tailroom() < count {
      return false;
    }
    var data;
    ok, data := src.Get(count);
    if ok {
      var _ := dst.Put(data);
    }
  }

  // Runs of calls on a family of buffers

  // Different buffers over different memory.
  ghost predicate Separate(bs: seq<Buffer>)
    reads set b <- bs
  {
    && (forall b <- bs :: b.Valid())
    && forall i, j | 0 <= i < j < |bs| :: bs[i] != bs[j] && bs[i].mem != bs[j].mem
  }

  ghost function Models(bs: seq<Buffer>): (fs: seq<Fifo>)
    requires forall b <- bs :: b.Valid()
    reads (set b <- bs), (set b <- bs :: b.mem)
    ensures |fs| == |bs| && forall i | 0 <= i < |bs| :: fs[i] == bs[i].Model()
  {
    seq(|bs|, i requires 0 <= i < |bs| reads (set b <- bs), (set b <- bs :: b.mem) requires bs[i].Valid() => bs[i].Model())
  }

  method PerformOne(bs: seq<Buffer>, op: Op)
    requires Separate(bs) && Fits(op, |bs|)
    modifies (set b <- bs), (set b <- bs :: b.mem)
    ensures Separate(bs) && Models(bs) == Apply(old(Models(bs)), op)
  {
    hide Buffer.Model;
    match op
    case Put(id, src) =>
      var _ := bs[id].Put(src);
    case Get(id, n) =>
      var _, _ := bs[id].Get(n);
    case Skip(id, n) =>
      var _ := bs[id].Skip(n);
    case View(id, n) =>
      var _, _ := bs[id].GetBuffer(n);
    case Copy(from, to, n) =>
      ghost var fs := Models(bs);
      var _ := Copy(bs[from], n, bs[to]);
      CopyInFamily(fs, from, to, n, bs[from].Model(), bs[to].Model());
  }

  lemma CopyInFamily(fs: seq<Fifo>, from: nat, to: nat, n: u32, src: Fifo, dst: Fifo)
    requires Fits(Op.Copy(from, to, n), |fs|)
    requires [src, dst] == Apply([fs[from], fs[to]], Op.Copy(0, 1, n))
    ensures Apply(fs, Op.Copy(from, to, n)) == fs[to := dst][from := src]
  {
    var two := [fs[from], fs[to]];
    assert src == Apply(two, Op.Copy(0, 1, n))[0] && dst == Apply(two, Op.Copy(0, 1, n))[1];
  }

  // Whatever is called in whatever order: the buffers go through the run of the queues they stand
  // for. So nothing is lost, reordered or overwritten in any of them.
  method Perform(bs: seq<Buffer>, ops: seq<Op>)
    requires Separate(bs) && forall op <- ops :: Fits(op, |bs|)
    modifies (set b <- bs), (set b <- bs :: b.mem)
    ensures Separate(bs) && Models(bs) == Run(old(Models(bs)), ops)
    ensures forall k | 0 <= k < |bs| ::
      && Models(bs)[k].Stream() == old(Models(bs))[k].Stream() + AllDelivered(old(Models(bs)), ops, k)
      && old(Models(bs))[k].consumed <= Models(bs)[k].consumed
    decreases |ops|
  {
    ghost var fs := Models(bs);
    if ops != [] {
      assert ops[0] in ops && forall op <- ops[1..] :: op in ops;
      PerformOne(bs, ops[0]);
      Perform(bs, ops[1..]);
    }
    forall k | 0 <= k < |bs|
      ensures Models(bs)[k].Stream() == fs[k].Stream() + AllDelivered(fs, ops, k)
      ensures fs[k].consumed <= Models(bs)[k].consumed
    {
      RunIsFifo(fs, ops, k);
    }
  }
}
