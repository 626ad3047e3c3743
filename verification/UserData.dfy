// The packet queue of am_adp/am_userdata/am_userdata.c: a circular byte buffer of length-prefixed packets.

module UserData {
  import opened Bits
  import opened Seqs

  const INT_MAX := 0x7FFF_FFFF
  const HEADER := 4

  type Packet = seq<byte>

  // ---- framing ----------------------------------------------------------------------------------

  /** The bytes of an int in memory, little end first. */
  function Int32(n: nat): (b: seq<byte>)
    requires n <= INT_MAX
    ensures |b| == HEADER
  {
    [n % 256, n / 256 % 256, n / 65536 % 256, n / 16777216]
  }

  function FromInt32(b: seq<byte>): nat
    requires |b| == HEADER
  {
    var b0: int, b1: int, b2: int, b3: int := b[0], b[1], b[2], b[3];
    b0 + 256 * b1 + 65536 * b2 + 16777216 * b3
  }

  lemma Int32ReadsBack(n: nat)
    requires n <= INT_MAX
    ensures FromInt32(Int32(n)) == n
  {
    assert n / 65536 == n / 256 / 256 && n / 16777216 == n / 65536 / 256;
  }

  predicate Sized(p: Packet) {
    |p| <= INT_MAX - HEADER
  }

  ghost predicate AllSized(queue: seq<Packet>) {
    forall i :: 0 <= i < |queue| ==> Sized(queue[i])
  }

  /** What the ring holds for a queue of packets, oldest first. */
  ghost function Framed(queue: seq<Packet>): seq<byte>
    requires AllSized(queue)
  {
    if queue == [] then [] else Int32(|queue[0]|) + queue[0] + Framed(queue[1..])
  }

  lemma {:induction false} FramedAppended(queue: seq<Packet>, p: Packet)
    requires AllSized(queue) && Sized(p)
    ensures Framed(queue + [p]) == Framed(queue) + (Int32(|p|) + p)
  {
    if queue == [] {
      assert queue + [p] == [p] && [p][1..] == [];
    } else {
      assert (queue + [p])[1..] == queue[1..] + [p];
      FramedAppended(queue[1..], p);
      var h, q := Int32(|queue[0]|) + queue[0], Framed(queue[1..]);
      assert h + (q + (Int32(|p|) + p)) == (h + q) + (Int32(|p|) + p);
    }
  }

  /** The front of a framed queue is the length and the bytes of its first packet. */
  lemma FramedFront(queue: seq<Packet>)
    requires AllSized(queue) && queue != []
    ensures var all, n := Framed(queue), |queue[0]|;
            && |all| >= HEADER + n && FromInt32(all[..HEADER]) == n
            && all[HEADER..][..n] == queue[0] && all[HEADER..][n..] == Framed(queue[1..])
  {
    Int32ReadsBack(|queue[0]|);
    Parts(Int32(|queue[0]|), queue[0], Framed(queue[1..]));
  }

  lemma Parts(a: seq<byte>, b: seq<byte>, c: seq<byte>)
    ensures var all := a + b + c;
            all[..|a|] == a && all[|a|..] == b + c && all[|a|..][..|b|] == b && all[|a|..][|b|..] == c
  {
    var all := a + b + c;
    assert all[|a|..] == b + c;
  }

  /** What packets take in the ring: four bytes for each, and its own. */
  function Stored(queue: seq<Packet>): nat {
    if queue == [] then 0 else 4 + |queue[0]| + Stored(queue[1..])
  }

  lemma {:induction false} FramedSize(queue: seq<Packet>)
    requires AllSized(queue)
    ensures |Framed(queue)| == Stored(queue)
  {
    if queue != [] {
      FramedSize(queue[1..]);
    }
  }

  // ---- the queue as the caller sees it ----------------------------------------------------------

  /** A write is accepted when header and packet fit into what is free. */
  ghost predicate Fits(capacity: nat, queue: seq<Packet>, p: Packet)
    requires AllSized(queue)
  {
    |Framed(queue)| + HEADER + |p| <= capacity
  }

  /** A read takes the oldest packet, unless no more than a header is stored. */
  ghost predicate Readable(queue: seq<Packet>)
    requires AllSized(queue)
  {
    |Framed(queue)| > HEADER
  }

  /** The one stored queue that cannot be read is a lone empty packet. */
  lemma UnreadableExactly(queue: seq<Packet>)
    requires AllSized(queue)
    ensures !Readable(queue) <==> queue == [] || queue == [[]]
  {
    if |queue| > 1 {
      assert Framed(queue[1..]) == Int32(|queue[1]|) + queue[1] + Framed(queue[1..][1..]);
    } else if |queue| == 1 {
      assert queue == [queue[0]] && Framed(queue[1..]) == [];
    }
  }

  datatype Op = WriteOp(p: Packet) | ReadOp(size: int)

  /** The queue, the accepted packets and the packets taken out, the dropped ones included, after a run. */
  datatype Outcome = Outcome(queue: seq<Packet>, accepted: seq<Packet>, taken: seq<Packet>)

  ghost predicate Ready(ops: seq<Op>) {
    forall i :: 0 <= i < |ops| ==> ops[i].WriteOp? ==> Sized(ops[i].p)
  }

  ghost function Run(capacity: nat, queue: seq<Packet>, ops: seq<Op>): (o: Outcome)
    requires AllSized(queue) && Ready(ops)
    ensures AllSized(o.queue)
    decreases |ops|
  {
    if ops == [] then Outcome(queue, [], []) else
      var rest := ops[1..];
      match ops[0]
      case WriteOp(p) =>
        if Fits(capacity, queue, p) then
          assert Sized(ops[0].p);
          var more := Run(capacity, queue + [p], rest); Outcome(more.queue, [p] + more.accepted, more.taken)
        else Run(capacity, queue, rest)
      case ReadOp(_) =>
        if Readable(queue) then
          var more := Run(capacity, queue[1..], rest); Outcome(more.queue, more.accepted, [queue[0]] + more.taken)
        else Run(capacity, queue, rest)
  }

  /** First in, first out, nothing lost or invented, over every run: what was there and what was accepted is what
      was taken and what is left, in order. */
  lemma {:induction false} Conservation(capacity: nat, queue: seq<Packet>, ops: seq<Op>)
    requires AllSized(queue) && Ready(ops)
    ensures var o := Run(capacity, queue, ops); queue + o.accepted == o.taken + o.queue
    decreases |ops|
  {
    if ops != [] {
      var rest := ops[1..];
      match ops[0]
      case WriteOp(p) =>
        assert Sized(ops[0].p);
        if Fits(capacity, queue, p) {
          Conservation(capacity, queue + [p], rest);
          Regroup(queue, [p], Run(capacity, queue + [p], rest).accepted);
        } else {
          Conservation(capacity, queue, rest);
        }
      case ReadOp(_) =>
        if Readable(queue) {
          Conservation(capacity, queue[1..], rest);
          var more := Run(capacity, queue[1..], rest);
          assert [queue[0]] + queue[1..] == queue;
          Regroup([queue[0]], queue[1..], more.accepted);
          Regroup([queue[0]], more.taken, more.queue);
        } else {
          Conservation(capacity, queue, rest);
        }
    }
  }

  // ---- the ring ---------------------------------------------------------------------------------

  /** The bytes between the read and the write position, around the end. */
  function Between(data: seq<byte>, pread: nat, pwrite: nat): seq<byte>
    requires pread < |data| && pwrite < |data|
  {
    if pread <= pwrite then data[pread..pwrite] else data[pread..] + data[..pwrite]
  }

  function Moved(pos: nat, len: nat, size: nat): (p: nat)
    requires pos < size && len <= size
    ensures p < size
  {
    if pos + len >= size then pos + len - size else pos + len
  }

  lemma TakenFromRing(data: seq<byte>, pread: nat, pwrite: nat, len: nat)
    requires pread < |data| && pwrite < |data| && len <= |Between(data, pread, pwrite)|
    ensures Between(data, Moved(pread, len, |data|), pwrite) == Between(data, pread, pwrite)[len..]
    ensures pread + len <= |data| ==> Between(data, pread, pwrite)[..len] == data[pread..pread + len]
    ensures pread + len > |data| ==>
              Between(data, pread, pwrite)[..len] == data[pread..] + data[..pread + len - |data|]
  {
  }

  lemma SplicedParts(s: seq<byte>, b: seq<byte>)
    requires |b| <= |s|
    ensures Splice(s, 0, b)[..|b|] == b && Splice(s, 0, b)[|b|..] == s[|b|..]
  {
  }

  lemma StoredAhead(s: seq<byte>, pread: nat, pwrite: nat, b: seq<byte>)
    requires pread < |s| && pwrite < |s| && pwrite + |b| <= |s| && |Between(s, pread, pwrite)| + |b| < |s|
    ensures Between(Splice(s, pwrite, b), pread, Moved(pwrite, |b|, |s|)) == Between(s, pread, pwrite) + b
  {
  }

  /** The same around the end: a goes up to the end of the array and b to its beginning. */
  lemma StoredAround(s: seq<byte>, pread: nat, pwrite: nat, a: seq<byte>, b: seq<byte>)
    requires pread < |s| && pwrite < |s| && pwrite + |a| == |s| && |Between(s, pread, pwrite)| + |a| + |b| < |s|
    ensures Between(Splice(Splice(s, pwrite, a), 0, b), pread, |b|) == Between(s, pread, pwrite) + (a + b)
  {
    var u := Splice(s, pwrite, a);
    assert pread <= pwrite && |b| < pread;
    assert u == s[..pwrite] + a;
    BehindHead(u, b, pread);
    assert u[pread..] == s[pread..pwrite] + a;
    Regroup(s[pread..pwrite], a, b);
  }

  lemma BehindHead(u: seq<byte>, b: seq<byte>, from: nat)
    requires |b| <= from <= |u|
    ensures Splice(u, 0, b)[from..] == u[from..] && Splice(u, 0, b)[..|b|] == b
  {
  }

  class RingBuffer {
    const data: array<byte>
    var pread: nat
    var pwrite: nat
    ghost var queue: seq<Packet>

    ghost predicate Shape()
      reads this, data
    {
      0 < data.Length <= INT_MAX && pread < data.Length && pwrite < data.Length
    }

    ghost function Contents(): seq<byte>
      requires Shape()
      reads this, data
    {
      Between(data[..], pread, pwrite)
    }

    /** The ring holds exactly the framed packets of the queue. */
    ghost predicate Valid()
      reads this, data
    {
      Shape() && AllSized(queue) && Contents() == Framed(queue)
    }

    ghost function Capacity(): nat
      requires data.Length > 0
    {
      data.Length - 1
    }

    constructor (len: nat)
      requires 0 < len <= INT_MAX
      ensures Valid() && fresh(data) && data.Length == len && queue == []
    {
      data := new byte[len](_ => 0);
      pread, pwrite, queue := 0, 0, [];
    }

    /** userdata_ring_buf_free, as a signed difference. */
    function Free(): (n: int)
      requires Shape()
      reads this, data
      ensures n == Capacity() - |Contents()|
    {
      var free := pread - pwrite;
      (if free <= 0 then free + data.Length else free) - 1
    }

    /** userdata_ring_buf_avail. What is available and what is free add up to size - 1. */
    function Avail(): (n: int)
      requires Shape()
      reads this, data
      ensures n == |Contents()| && n + Free() == data.Length - 1
    {
      var avail := pwrite - pread;
      if avail < 0 then avail + data.Length else avail
    }

    /** memcpy out of the ring. */
    method CopyOut(buf: array<byte>, at: nat, from: nat, len: nat, ghost bytes: seq<byte>)
      requires at + len <= buf.Length && from + len <= data.Length && buf != data
      requires bytes == data[..][from..from + len]
      modifies buf
      ensures buf[..] == Splice(old(buf[..]), at, bytes)
      ensures data[..] == old(data[..])
    {
      forall k | 0 <= k < len {
        buf[at + k] := data[from + k];
      }
    }

    /** memcpy into the ring. */
    method CopyIn(at: nat, buf: seq<byte>)
      requires at + |buf| <= data.Length
      modifies data
      ensures data[..] == Splice(old(data[..]), at, buf)
    {
      forall k | 0 <= k < |buf| {
        data[at + k] := buf[k];
      }
    }

    method Advance(pos: nat, len: nat) returns (p: nat)
      requires pos < data.Length && pos + len <= data.Length
      ensures p == Moved(pos, len, data.Length)
    {
      p := (pos + len) % data.Length;
    }

    /** userdata_ring_buf_read. */
    method Read(buf: array<byte>, len: nat)
      requires Shape() && len <= |Contents()| && len <= buf.Length && buf != data
      modifies this`pread, buf
      ensures Shape() && Contents() == old(Contents())[len..]
      ensures buf[..len] == old(Contents())[..len] && buf[len..] == old(buf[len..])
    {
      TakenFromRing(data[..], pread, pwrite, len);
      ghost var before, taken := buf[..], Contents()[..len];
      var split := if pread + len > data.Length then data.Length - pread else 0;
      if split > 0 {
        ReadAround(buf, len, split, data[..][pread..], data[..][..len - split]);
      } else {
        CopyOut(buf, 0, pread, len, taken);
        pread := Advance(pread, len);
      }
      assert buf[..] == Splice(before, 0, taken);
      SplicedParts(before, taken);
    }

    /** A read across the end of the ring, in two pieces. */
    method ReadAround(buf: array<byte>, len: nat, split: nat, ghost first: seq<byte>, ghost second: seq<byte>)
      requires Shape() && len <= data.Length && len <= buf.Length && buf != data
      requires split == data.Length - pread < len
      requires first == data[..][pread..] && second == data[..][..len - split]
      modifies this`pread, buf
      ensures buf[..] == Splice(old(buf[..]), 0, first + second)
      ensures data[..] == old(data[..]) && pread == Moved(old(pread), len, data.Length)
    {
      SpliceJoins(buf[..], 0, first, second);
      CopyOut(buf, 0, pread, split, first);
      pread := 0;
      CopyOut(buf, split, pread, len - split, second);
      pread := Advance(pread, len - split);
    }

    /** userdata_ring_buf_write. */
    method Write(buf: seq<byte>)
      requires Shape() && |buf| <= Free()
      modifies this`pwrite, data
      ensures Shape() && Contents() == old(Contents()) + buf
    {
      var split := if pwrite + |buf| > data.Length then data.Length - pwrite else 0;
      var rest := buf;
      if split > 0 {
        StoredAround(data[..], pread, pwrite, buf[..split], buf[split..]);
        assert buf == buf[..split] + buf[split..];
        CopyIn(pwrite, buf[..split]);
        rest := buf[split..];
        pwrite := 0;
      } else {
        StoredAhead(data[..], pread, pwrite, buf);
      }
      CopyIn(pwrite, rest);
      pwrite := Advance(pwrite, |rest|);
    }

    /** read_unused_data, when there is memory for it. */
    method Discard(len: nat)
      requires Shape() && len <= |Contents()|
      modifies this`pread
      ensures Shape() && Contents() == old(Contents())[len..]
    {
      var buf := new byte[len](_ => 0);
      Read(buf, len);
    }

    /** userdata_package_write: the whole packet joins the queue, or nothing is written. */
    method PackageWrite(buf: Packet) returns (ret: int)
      requires Valid() && Sized(buf)
      modifies this`pwrite, this`queue, data
      ensures Valid()
      ensures if Fits(Capacity(), old(queue), buf) then ret == |buf| && queue == old(queue) + [buf]
              else ret == 0 && queue == old(queue)
      ensures Stored(old(queue)) + 4 + |buf| <= data.Length - 1 <==> queue == old(queue) + [buf]
    {
      FramedSize(queue);
      var cnt := Free();
      if cnt < |buf| + HEADER {
        return 0;
      }
      FramedAppended(queue, buf);
      Write(Int32(|buf|));
      Write(buf);
      queue := queue + [buf];
      return |buf|;
    }

    /**
     * userdata_package_read: the oldest packet leaves the queue whole. It is handed over if the caller has room for
     * it and dropped otherwise. The branch for a length above what is available is never taken.
     */
    method PackageRead(buf: array<byte>, size: int) returns (cnt: int)
      requires Valid() && size <= buf.Length && buf != data
      modifies this`pread, this`queue, buf
      ensures Valid()
      ensures !Readable(old(queue)) ==> cnt == 0 && queue == old(queue) && buf[..] == old(buf[..])
      ensures Readable(old(queue)) ==>
                && old(queue) != [] && queue == old(queue)[1..]
                && var p := old(queue)[0];
                   if |p| <= size
                   then cnt == |p| && buf[..|p|] == p && buf[|p|..] == old(buf[|p|..])
                   else cnt == 0 && buf[..] == old(buf[..])
    {
      cnt := Avail();
      if cnt <= HEADER {
        cnt := 0;
        Discard(0);
        return;
      }
      FramedFront(queue);
      var header := new byte[HEADER](_ => 0);
      Read(header, HEADER);
      var udCnt := FromInt32(header[..]);
      cnt := Avail();
      if cnt < udCnt {
        assert false;
      } else {
        cnt := TakeBody(buf, size, udCnt, queue[0]);
      }
      queue := queue[1..];
    }

    /** The bytes p of the packet are handed over or dropped. */
    method TakeBody(buf: array<byte>, size: int, udCnt: nat, ghost p: Packet) returns (cnt: int)
      requires Shape() && size <= buf.Length && buf != data && udCnt == |p| <= |Contents()| && Contents()[..|p|] == p
      modifies this`pread, buf
      ensures Shape() && Contents() == old(Contents())[|p|..]
      ensures if |p| <= size
              then cnt == |p| && buf[..|p|] == p && buf[|p|..] == old(buf[|p|..])
              else cnt == 0 && buf[..] == old(buf[..])
    {
      cnt := 0;
      if udCnt > size {
        Discard(udCnt);
      } else if udCnt > 0 {
        Read(buf, udCnt);
        cnt := udCnt;
      }
    }

    /** Any run of package writes and reads does to the ring what Run does to the queue. */
    method Perform(ops: seq<Op>, buf: array<byte>) returns (ghost o: Outcome)
      requires Valid() && Ready(ops) && buf != data
      requires forall i :: 0 <= i < |ops| && ops[i].ReadOp? ==> ops[i].size <= buf.Length
      modifies this, data, buf
      ensures Valid() && o == Run(Capacity(), old(queue), ops) && queue == o.queue
      ensures old(queue) + o.accepted == o.taken + queue
      decreases |ops|
    {
      o := Run(Capacity(), queue, ops);
      Conservation(Capacity(), queue, ops);
      if ops != [] {
        match ops[0] {
          case WriteOp(p) => var _ := PackageWrite(p);
          case ReadOp(size) => var _ := PackageRead(buf, size);
        }
        ghost var rest := Perform(ops[1..], buf);
      }
    }
  }
}
