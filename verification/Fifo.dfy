/**
 The queue a Buffer stands for: octets already read, octets still readable, and room for more.
 The operations here specify the methods of Buffer; the lemmas are about whole runs of them.
 */
module Fifos {
  import opened Bytes

  datatype Fifo = Fifo(consumed: bytes, readable: bytes, room: nat) {

    // Everything that was ever put into the queue.
    function Stream(): bytes {
      consumed + readable
    }

    function Put(src: bytes): Fifo {
      if |src| <= room then Fifo(consumed, readable + src, room - |src|) else this
    }

    function Take(n: nat): Fifo {
      if n <= |readable| then Fifo(consumed + readable[..n], readable[n..], room) else this
    }

    // buffer_copy compares the count with the tailroom as an unsigned int.
    predicate CanCopy(n: nat, dst: Fifo) {
      n <= ToU32(dst.room) && n <= |readable|
    }
  }

  // One call on one of a family of buffers; View extracts a sub-buffer.
  datatype Op =
    | Put(id: nat, src: bytes)
    | Get(id: nat, n: u32)
    | Skip(id: nat, n: u32)
    | View(id: nat, n: u32)
    | Copy(from: nat, to: nat, n: u32)

  predicate Fits(op: Op, count: nat) {
    match op
    case Put(id, _) => id < count
    case Get(id, _) => id < count
    case Skip(id, _) => id < count
    case View(id, _) => id < count
    case Copy(from, to, _) => from < count && to < count && from != to
  }

  function Apply(fs: seq<Fifo>, op: Op): (r: seq<Fifo>)
    requires Fits(op, |fs|)
    ensures |r| == |fs|
  {
    match op
    case Put(id, src) => fs[id := fs[id].Put(src)]
    case Get(id, n) => fs[id := fs[id].Take(n)]
    case Skip(id, n) => fs[id := fs[id].Take(n)]
    case View(id, n) => fs[id := fs[id].Take(n)]
    case Copy(from, to, n) =>
      if fs[from].CanCopy(n, fs[to]) then
        fs[to := fs[to].Put(fs[from].readable[..n])][from := fs[from].Take(n)]
      else
        fs
  }

  function Run(fs: seq<Fifo>, ops: seq<Op>): (r: seq<Fifo>)
    requires forall op <- ops :: Fits(op, |fs|)
    ensures |r| == |fs|
    decreases |ops|
  {
    if ops == [] then fs else Run(Apply(fs, ops[0]), ops[1..])
  }

  // What a call delivers into buffer k: the source of a put that fitted, or the octets copied.
  function Delivered(fs: seq<Fifo>, op: Op, k: nat): bytes
    requires Fits(op, |fs|) && k < |fs|
  {
    match op
    case Put(id, src) => if id == k && |src| <= fs[k].room then src else []
    case Copy(from, to, n) => if to == k && fs[from].CanCopy(n, fs[to]) then fs[from].readable[..n] else []
    case _ => []
  }

  function AllDelivered(fs: seq<Fifo>, ops: seq<Op>, k: nat): bytes
    requires (forall op <- ops :: Fits(op, |fs|)) && k < |fs|
    decreases |ops|
  {
    if ops == [] then [] else Delivered(fs, ops[0], k) + AllDelivered(Apply(fs, ops[0]), ops[1..], k)
  }

  lemma ApplyDelivers(fs: seq<Fifo>, op: Op, k: nat)
    requires Fits(op, |fs|) && k < |fs|
    ensures Apply(fs, op)[k].Stream() == fs[k].Stream() + Delivered(fs, op, k)
    ensures |Apply(fs, op)[k].Stream()| + Apply(fs, op)[k].room == |fs[k].Stream()| + fs[k].room
    ensures fs[k].consumed <= Apply(fs, op)[k].consumed
  {
    match op
    case Put(_, src) => PutExtends(fs[k], src);
    case Get(_, n) => TakeKeeps(fs[k], n);
    case Skip(_, n) => TakeKeeps(fs[k], n);
    case View(_, n) => TakeKeeps(fs[k], n);
    case Copy(from, to, n) =>
      TakeKeeps(fs[k], n);
      if fs[from].CanCopy(n, fs[to]) {
        PutExtends(fs[k], fs[from].readable[..n]);
      }
  }

  lemma PutExtends(f: Fifo, src: bytes)
    ensures f.Put(src).Stream() == f.Stream() + if |src| <= f.room then src else []
  {
    Associates(f.consumed, f.readable, src);
  }

  lemma TakeKeeps(f: Fifo, n: nat)
    ensures f.Take(n).Stream() == f.Stream()
  {
    if n <= |f.readable| {
      Associates(f.consumed, f.readable[..n], f.readable[n..]);
      assert f.readable[..n] + f.readable[n..] == f.readable;
    }
  }

  // Over every run, on every buffer: what was consumed followed by what is readable is what was
  // there at the start followed by what was delivered, in order; the capacity is never exceeded
  // and what was consumed stays consumed.
  lemma {:induction false} RunIsFifo(fs: seq<Fifo>, ops: seq<Op>, k: nat)
    requires (forall op <- ops :: Fits(op, |fs|)) && k < |fs|
    ensures Run(fs, ops)[k].Stream() == fs[k].Stream() + AllDelivered(fs, ops, k)
    ensures |Run(fs, ops)[k].Stream()| + Run(fs, ops)[k].room == |fs[k].Stream()| + fs[k].room
    ensures fs[k].consumed <= Run(fs, ops)[k].consumed
    decreases |ops|
  {
    if ops != [] {
      assert ops[0] in ops && forall op <- ops[1..] :: op in ops;
      var gs := Apply(fs, ops[0]);
      ApplyDelivers(fs, ops[0], k);
      RunIsFifo(gs, ops[1..], k);
      Associates(fs[k].Stream(), Delivered(fs, ops[0], k), AllDelivered(gs, ops[1..], k));
    }
  }

  lemma Associates(a: bytes, b: bytes, c: bytes)
    ensures (a + b) + c == a + (b + c)
  {
  }
}
