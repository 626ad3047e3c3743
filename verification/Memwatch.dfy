// The heap tracker of am_adp/am_mem/memwatch.c on an uncorrupted heap: the chain of tracked blocks, the
// count and byte accounting, the allocation limit, no-mans-land (NML) blocks and the grab list.

module Memwatch {
  import opened Arith
  import opened Bits
  import opened Seqs

  const SIZE_LIMIT: nat := 0x1_0000_0000_0000_0000
  type Size = n: nat | n < SIZE_LIMIT
  const LONG_MAX: nat := 0x7FFF_FFFF_FFFF_FFFF
  const MW_VAL_NEW: byte := 0xFE
  const MW_VAL_NML: byte := 0xFC
  const GRAB_BYTES := 1024

  /** (long) of a size_t. */
  function AsLong(size: nat): (r: int)
    ensures size < SIZE_LIMIT ==> -0x8000_0000_0000_0000 <= r <= LONG_MAX && (r == size || r == size - SIZE_LIMIT)
  {
    if size <= LONG_MAX then size else size - SIZE_LIMIT
  }

  function Filled(n: nat, v: byte): (s: seq<byte>)
    ensures |s| == n && forall i :: 0 <= i < n ==> s[i] == v
  {
    seq(n, _ => v)
  }

  /**
   * mwData and the user bytes behind it; `check` tells whether the header's checksum matches, `purged` that
   * mwFreeUp has given the memory back with the header as it was.
   */
  class Block {
    const size: nat
    var prev: Block?
    var next: Block?
    var nml: bool
    var check: bool
    var purged: bool
    var data: seq<byte>

    constructor (size: nat, next: Block?)
      ensures this.size == size && prev == null && this.next == next && !nml && check && !purged
      ensures data == Filled(size, MW_VAL_NEW)
    {
      this.size, prev, this.next, nml, check, purged := size, null, next, false, true, false;
      data := Filled(size, MW_VAL_NEW);
    }
  }

  /** The user bytes of a block moved into one of another size. */
  function Moved(data: seq<byte>, size: nat): (s: seq<byte>)
    ensures |s| == size
    ensures forall i :: 0 <= i < size ==> s[i] == if i < |data| then data[i] else MW_VAL_NEW
  {
    if size < |data| then data[..size] else data + Filled(size - |data|, MW_VAL_NEW)
  }

  datatype GrabKind = Grabbed | NoMansLand

  class Grab {
    const kind: GrabKind
    var next: Grab?

    constructor (kind: GrabKind, next: Grab?)
      ensures this.kind == kind && this.next == next
    {
      this.kind, this.next := kind, next;
    }
  }

  // ---- live blocks of a chain -------------------------------------------------------------------

  /** The blocks of a chain that are not no-mans-land, in chain order. */
  ghost function LiveIn(chain: seq<Block>, dead: set<Block>): seq<Block> {
    if chain == [] then []
    else (if chain[0] in dead then [] else [chain[0]]) + LiveIn(chain[1..], dead)
  }

  ghost function Bytes(blocks: seq<Block>): nat {
    if blocks == [] then 0 else blocks[0].size + Bytes(blocks[1..])
  }

  /** The blocks a client holds, newest first, and those it has freed, last first. */
  datatype Holding = Holding(held: seq<Block>, freed: seq<Block>)

  /** What a client may do; k counts the blocks it holds, or those it has freed where the name says so. */
  datatype HeapOp =
    | MallocOp(size: nat)
    | FreeOp(k: nat)
    | ReallocOp(k: nat, size: nat)
    | ReallocNullOp(size: nat)
    | FreeUpOp(needed: nat, urgent: bool)
    | FreeNullOp
    | FreeAgainOp(k: nat)
    | ReallocFreedOp(k: nat, size: nat)
    | LimitOp(lim: int)
    | LevelOp(level: int)
    | GrabOp(kb: nat)
    | DropOp(kb: nat)
    | WriteOp(k: nat, at: nat, v: byte)

  /** Calls on null or on a block freed before. */
  predicate Idle(op: HeapOp) {
    op.FreeNullOp? || op.FreeAgainOp? || op.ReallocFreedOp?
  }

  /** Calls that touch no tracked block, only limit, level and grabbed memory. */
  predicate ChangesSetup(op: HeapOp) {
    op.LimitOp? || op.LevelOp? || op.GrabOp? || op.DropOp?
  }

  /** The call frees held block k; q is its answer. */
  ghost predicate Gives(h: Holding, op: HeapOp, q: Block?) {
    (op.FreeOp? || (op.ReallocOp? && (q != null || op.size == 0))) && op.k < |h.held|
  }

  /** Held block k becomes a freed one, and q, if it is one, a held one. */
  ghost function Replaced(h: Holding, k: nat, q: Block?): Holding
    requires k < |h.held|
  {
    Holding(Plus(q, Cut(h.held, k)), [h.held[k]] + h.freed)
  }

  /** What one call with answer q does to the client's blocks. */
  ghost function Step(h: Holding, op: HeapOp, q: Block?): Holding {
    if Gives(h, op, q) then Replaced(h, op.k, q)
    else Holding(Plus(q, h.held), h.freed)
  }

  /** These blocks contain these bytes. */
  ghost predicate Stocked(blocks: seq<Block>, data: seq<seq<byte>>)
    reads blocks`data
  {
    |data| == |blocks| && forall i :: 0 <= i < |blocks| ==> blocks[i].data == data[i]
  }

  ghost function PlusData(q: Block?, bytes: seq<byte>, data: seq<seq<byte>>): seq<seq<byte>> {
    if q == null then data else [bytes] + data
  }

  function Written(bytes: seq<byte>, at: nat, v: byte): (r: seq<byte>)
    requires at < |bytes|
    ensures |r| == |bytes| && forall i :: 0 <= i < |r| ==> r[i] == if i == at then v else bytes[i]
  {
    bytes[at := v]
  }

  lemma StockedPlus(q: Block?, bytes: seq<byte>, held: seq<Block>, data: seq<seq<byte>>)
    requires Stocked(held, data) && (q != null ==> q.data == bytes)
    ensures Stocked(Plus(q, held), PlusData(q, bytes, data))
  {
  }

  lemma StockedCut(held: seq<Block>, data: seq<seq<byte>>, k: nat)
    requires Stocked(held, data) && k < |held|
    ensures Stocked(Cut(held, k), Cut(data, k))
  {
    forall i | 0 <= i < |held| - 1
      ensures Cut(held, k)[i].data == Cut(data, k)[i]
    {
      var j := if i < k then i else i + 1;
      assert Cut(held, k)[i] == held[j] && Cut(data, k)[i] == data[j];
    }
  }

  lemma StockedWhole(held: seq<Block>, data: seq<seq<byte>>, k: nat)
    requires k < |held| == |data| && Stocked(Cut(held, k), Cut(data, k)) && held[k].data == data[k]
    ensures Stocked(held, data)
  {
    forall i | 0 <= i < |held|
      ensures held[i].data == data[i]
    {
      if i != k {
        var j := if i < k then i else i - 1;
        assert Cut(held, k)[j] == held[i] && Cut(data, k)[j] == data[i];
      }
    }
  }

  /** What a block contains that a call answers: fill bytes, or the old bytes of the block it resizes. */
  function FirstBytes(data: seq<seq<byte>>, op: HeapOp): seq<byte> {
    if op.ReallocOp? && op.k < |data| then Moved(data[op.k], op.size)
    else if op.MallocOp? || op.ReallocNullOp? then Filled(op.size, MW_VAL_NEW)
    else []
  }

  /** The blocks that stay keep their contents, but for the byte that a client writes. */
  ghost function StepData(h: Holding, data: seq<seq<byte>>, op: HeapOp, q: Block?): (r: seq<seq<byte>>)
    requires |data| == |h.held|
    ensures |r| == |Step(h, op, q).held|
  {
    PlusData(q, FirstBytes(data, op),
             if Gives(h, op, q) then Cut(data, op.k)
             else if op.WriteOp? && op.k < |data| && op.at < |data[op.k]|
             then data[op.k := Written(data[op.k], op.at, op.v)]
             else data)
  }

  ghost function RunData(h: Holding, data: seq<seq<byte>>, ops: seq<HeapOp>, answers: seq<Block?>): seq<seq<byte>>
    requires |ops| == |answers| && |data| == |h.held|
    decreases |ops|
  {
    if ops == [] then data
    else RunData(Step(h, ops[0], answers[0]), StepData(h, data, ops[0], answers[0]), ops[1..], answers[1..])
  }

  ghost function RunOps(h: Holding, ops: seq<HeapOp>, answers: seq<Block?>): Holding
    requires |ops| == |answers|
    decreases |ops|
  {
    if ops == [] then h else RunOps(Step(h, ops[0], answers[0]), ops[1..], answers[1..])
  }

  /** The limit of some state, and the bytes in use. */
  datatype Limits = Limits(on: bool, limit: int, bytes: int)

  /** The limit, the no-mans-land level, and how much memory mwGrab holds. */
  datatype Setup = Setup(useLimit: bool, allocLimit: int, level: nat, kb: nat)

  /** How much mwDrop takes away at most. */
  function MostDropped(kb: nat): nat {
    if kb == 0 then 60000 else kb
  }

  /** What one call does to the setup; n counts what mwGrab got, or what an urgent mwFreeUp gave back. */
  ghost function Configured(s: Setup, op: HeapOp, n: nat): Setup {
    match op
    case LimitOp(lim) => s.(useLimit := lim != 0, allocLimit := lim)
    case LevelOp(level) => if 0 <= level <= 2 then s.(level := level) else s
    case GrabOp(_) => s.(kb := s.kb + n)
    case DropOp(kb) => s.(kb := s.kb - MinNat(MostDropped(kb), s.kb))
    case FreeUpOp(_, true) => s.(kb := s.kb - MinNat(n, s.kb))
    case _ => s
  }

  ghost function Configure(s: Setup, ops: seq<HeapOp>, counts: seq<nat>): Setup
    requires |ops| == |counts|
    decreases |ops|
  {
    if ops == [] then s else Configure(Configured(s, ops[0], counts[0]), ops[1..], counts[1..])
  }

  predicate AllOk(ops: seq<HeapOp>) {
    ops == [] || (OpOk(ops[0]) && AllOk(ops[1..]))
  }

  /** The limit is not changed. */
  predicate KeepsLimit(ops: seq<HeapOp>) {
    ops == [] || (!ops[0].LimitOp? && KeepsLimit(ops[1..]))
  }

  /** Calls on null or on freed blocks are answered with null. */
  ghost predicate IdleAnswers(ops: seq<HeapOp>, answers: seq<Block?>)
    requires |ops| == |answers|
    decreases |ops|
  {
    ops == [] || ((Idle(ops[0]) ==> answers[0] == null) && IdleAnswers(ops[1..], answers[1..]))
  }

  /** Idle calls change neither blocks nor setup, and calls on the setup no blocks. */
  lemma NoStep(h: Holding, op: HeapOp, s: Setup, data: seq<seq<byte>>)
    requires |data| == |h.held|
    ensures Idle(op) || ChangesSetup(op) || op.WriteOp? ==> Step(h, op, null) == h
    ensures Idle(op) || ChangesSetup(op) ==> StepData(h, data, op, null) == data
    ensures Idle(op) || op.WriteOp? ==> Configured(s, op, 0) == s
  {
  }

  /** The blocks a run was given. */
  ghost function Given(answers: seq<Block?>): seq<Block> {
    if answers == [] then [] else Plus(answers[0], Given(answers[1..]))
  }

  lemma {:induction false} BytesCut(s: seq<Block>, k: nat)
    requires k < |s|
    ensures Bytes(Cut(s, k)) == Bytes(s) - s[k].size
  {
    if k == 0 {
      assert Cut(s, 0) == s[1..];
    } else {
      BytesCut(s[1..], k - 1);
      CutTail(s, k);
    }
  }

  lemma StepConserves(h: Holding, op: HeapOp, q: Block?)
    ensures var after := Step(h, op, q);
            && |after.held| + |after.freed| == |h.held| + |h.freed| + |Plus(q, [])|
            && Bytes(after.held) + Bytes(after.freed) == Bytes(h.held) + Bytes(h.freed) + Bytes(Plus(q, []))
  {
    if Gives(h, op, q) {
      BytesCut(h.held, op.k);
      assert ([h.held[op.k]] + h.freed)[1..] == h.freed;
      BytesPlus(q, Cut(h.held, op.k));
    } else {
      BytesPlus(q, h.held);
    }
  }

  lemma BytesPlus(q: Block?, s: seq<Block>)
    ensures |Plus(q, s)| == |s| + |Plus(q, [])| && Bytes(Plus(q, s)) == Bytes(s) + Bytes(Plus(q, []))
  {
    if q != null {
      assert Plus(q, s)[1..] == s;
    }
  }

  /** Nothing gets lost: blocks and bytes, held and freed, are the earlier ones and those given since. */
  lemma {:induction false} RunConserves(h: Holding, ops: seq<HeapOp>, answers: seq<Block?>)
    requires |ops| == |answers|
    ensures var end := RunOps(h, ops, answers);
            && |end.held| + |end.freed| == |h.held| + |h.freed| + |Given(answers)|
            && Bytes(end.held) + Bytes(end.freed) == Bytes(h.held) + Bytes(h.freed) + Bytes(Given(answers))
    decreases |ops|
  {
    if ops != [] {
      StepConserves(h, ops[0], answers[0]);
      RunConserves(Step(h, ops[0], answers[0]), ops[1..], answers[1..]);
      BytesPlus(answers[0], Given(answers[1..]));
    }
  }

  /** A null free, a double free or a stale realloc can be taken out of a run without a trace. */
  lemma {:induction false} IdleVanishes(h: Holding, ops: seq<HeapOp>, answers: seq<Block?>, i: nat)
    requires |ops| == |answers| && i < |ops| && Idle(ops[i]) && answers[i] == null
    ensures RunOps(h, ops, answers) == RunOps(h, Cut(ops, i), Cut(answers, i))
    decreases i
  {
    if i == 0 {
      assert Cut(ops, 0) == ops[1..] && Cut(answers, 0) == answers[1..];
    } else {
      IdleVanishes(Step(h, ops[0], answers[0]), ops[1..], answers[1..], i - 1);
      CutTail(ops, i);
      CutTail(answers, i);
    }
  }

  predicate OpOk(op: HeapOp) {
    op.MallocOp? || op.ReallocOp? || op.ReallocNullOp? || op.ReallocFreedOp? ==> op.size < SIZE_LIMIT
  }

  lemma DistinctTail(s: seq<Block>)
    requires Distinct(s) && s != []
    ensures Distinct(s[1..])
  {
    var t := s[1..];
    forall i, j | 0 <= i < j < |t|
      ensures t[i] != t[j]
    {
      assert t[i] == s[i + 1] && t[j] == s[j + 1];
    }
  }

  lemma {:induction false} WithoutAt(s: seq<Block>, k: nat, b: Block)
    requires Distinct(s) && k < |s| && b == s[k]
    ensures Without(s, b) == Cut(s, k)
  {
    if k == 0 {
      assert Cut(s, 0) == s[1..];
    } else {
      DistinctTail(s);
      assert s[0] != b && s[1..][k - 1] == b;
      WithoutAt(s[1..], k - 1, b);
      CutTail(s, k);
    }
  }

  lemma {:induction false} LiveDistinct(chain: seq<Block>, dead: set<Block>)
    requires Distinct(chain)
    ensures Distinct(LiveIn(chain, dead))
  {
    if chain != [] {
      LiveDistinct(chain[1..], dead);
      LiveMembers(chain[1..], dead, chain[0]);
    }
  }

  ghost predicate Within<T>(a: seq<T>, b: seq<T>) {
    forall k :: 0 <= k < |a| ==> a[k] in b
  }

  /** The chain with a new block, if there is one. */
  ghost function Plus(p: Block?, chain: seq<Block>): seq<Block> {
    if p == null then chain else [p] + chain
  }

  lemma LiveFront(p: Block, chain: seq<Block>, dead: set<Block>)
    requires p !in dead
    ensures LiveIn([p] + chain, dead) == [p] + LiveIn(chain, dead)
  {
    assert ([p] + chain)[1..] == chain;
  }

  lemma WithinPlus(a: seq<Block>, b: seq<Block>, p: Block?)
    requires Within(a, b)
    ensures Within(Plus(p, a), Plus(p, b))
  {
    if p != null {
      assert forall k :: 0 < k < |Plus(p, a)| ==> Plus(p, a)[k] == a[k - 1];
      assert p == Plus(p, b)[0];
      assert forall k :: 0 <= k < |b| ==> b[k] == Plus(p, b)[k + 1];
    }
  }

  lemma WithinTrans(a: seq<Block>, b: seq<Block>, c: seq<Block>)
    requires Within(a, b) && Within(b, c)
    ensures Within(a, c)
  {
  }

  ghost predicate NoneDead(chain: seq<Block>, dead: set<Block>) {
    forall b :: b in chain ==> b !in dead
  }

  /** The sequence without its element b. */
  ghost function Without(s: seq<Block>, b: Block): seq<Block> {
    if s == [] then [] else if s[0] == b then s[1..] else [s[0]] + Without(s[1..], b)
  }

  lemma {:induction false} LiveMembers(chain: seq<Block>, dead: set<Block>, b: Block)
    ensures b in LiveIn(chain, dead) <==> b in chain && b !in dead
  {
    if chain != [] {
      LiveMembers(chain[1..], dead, b);
    }
  }

  /** Marking a block that is not in the chain changes nothing. */
  lemma {:induction false} LiveUnmarked(chain: seq<Block>, dead: set<Block>, b: Block)
    requires b !in chain
    ensures LiveIn(chain, dead + {b}) == LiveIn(chain, dead)
  {
    if chain != [] {
      LiveUnmarked(chain[1..], dead, b);
    }
  }

  lemma CutTail<T>(chain: seq<T>, i: nat)
    requires 0 < i < |chain|
    ensures Cut(chain, i) == [chain[0]] + Cut(chain[1..], i - 1)
    ensures Cut(chain, i)[0] == chain[0] && Cut(chain, i)[1..] == Cut(chain[1..], i - 1)
  {
  }

  /**
   * Freeing live block i, by marking it or by unlinking it, takes exactly that block out of the live
   * ones: one block and its bytes.
   */
  lemma {:induction false} LiveFreed(chain: seq<Block>, dead: set<Block>, i: nat)
    requires Distinct(chain) && i < |chain| && chain[i] !in dead
    ensures LiveIn(chain, dead + {chain[i]}) == Without(LiveIn(chain, dead), chain[i])
    ensures LiveIn(Cut(chain, i), dead) == Without(LiveIn(chain, dead), chain[i])
    ensures |Without(LiveIn(chain, dead), chain[i])| == |LiveIn(chain, dead)| - 1
    ensures Bytes(Without(LiveIn(chain, dead), chain[i])) == Bytes(LiveIn(chain, dead)) - chain[i].size
    decreases i
  {
    var b := chain[i];
    if i == 0 {
      LiveUnmarked(chain[1..], dead, b);
      assert Cut(chain, 0) == chain[1..];
    } else {
      LiveFreed(chain[1..], dead, i - 1);
      CutTail(chain, i);
      assert b == chain[1..][i - 1] && chain[0] != b;
      var live, tail := LiveIn(chain, dead), LiveIn(chain[1..], dead);
      if chain[0] in dead {
        assert live == tail;
      } else {
        assert live[0] == chain[0] && live[1..] == tail;
        assert ([chain[0]] + Without(tail, b))[1..] == Without(tail, b);
      }
    }
  }

  /** Unlinking a no-mans-land block leaves the live ones as they are. */
  lemma {:induction false} LivePurged(chain: seq<Block>, dead: set<Block>, i: nat)
    requires i < |chain| && chain[i] in dead
    ensures LiveIn(Cut(chain, i), dead) == LiveIn(chain, dead)
    decreases i
  {
    if i == 0 {
      assert Cut(chain, 0) == chain[1..];
    } else {
      LivePurged(chain[1..], dead, i - 1);
      CutTail(chain, i);
    }
  }

  // ---- the grab list ----------------------------------------------------------------------------

  /** The grab list without its first `kb` entries of a kind. */
  ghost function DropFirst(grabs: seq<Grab>, kb: nat, kind: GrabKind): seq<Grab> {
    if grabs == [] || kb == 0 then grabs
    else if grabs[0].kind == kind then DropFirst(grabs[1..], kb - 1, kind)
    else [grabs[0]] + DropFirst(grabs[1..], kb, kind)
  }

  ghost function OfKind(grabs: seq<Grab>, kind: GrabKind): seq<Grab> {
    if grabs == [] then []
    else (if grabs[0].kind == kind then [grabs[0]] else []) + OfKind(grabs[1..], kind)
  }

  ghost function MinNat(a: nat, b: nat): nat {
    if a < b then a else b
  }

  /**
   * Dropping takes the first min(kb, n) of the n entries of the kind, and keeps the others and all
   * entries of the other kind in order.
   */
  lemma DropConserves(grabs: seq<Grab>, kb: nat, kind: GrabKind)
    ensures var n, after := |OfKind(grabs, kind)|, DropFirst(grabs, kb, kind);
            && |after| == |grabs| - MinNat(kb, n)
            && OfKind(after, kind) == OfKind(grabs, kind)[MinNat(kb, n)..]
            && OfKind(after, OtherKind(kind)) == OfKind(grabs, OtherKind(kind))
  {
    DropTakesMany(grabs, kb, kind);
    DropTakesFirst(grabs, kb, kind);
    DropKeepsOther(grabs, kb, kind);
  }

  lemma {:induction false} DropTakesMany(grabs: seq<Grab>, kb: nat, kind: GrabKind)
    ensures |DropFirst(grabs, kb, kind)| == |grabs| - MinNat(kb, |OfKind(grabs, kind)|)
  {
    if grabs != [] && kb != 0 {
      DropTakesMany(grabs[1..], if grabs[0].kind == kind then kb - 1 else kb, kind);
    }
  }

  lemma {:induction false} DropTakesFirst(grabs: seq<Grab>, kb: nat, kind: GrabKind)
    ensures var ofKind := OfKind(grabs, kind);
            OfKind(DropFirst(grabs, kb, kind), kind) == ofKind[MinNat(kb, |ofKind|)..]
  {
    if grabs != [] && kb != 0 {
      var g, tail := grabs[0], grabs[1..];
      var later := OfKind(tail, kind);
      if g.kind == kind {
        DropTakesFirst(tail, kb - 1, kind);
        BehindFront(g, later, MinNat(kb - 1, |later|));
      } else {
        DropTakesFirst(tail, kb, kind);
        var rest := DropFirst(tail, kb, kind);
        assert ([g] + rest)[0] == g && ([g] + rest)[1..] == rest;
      }
    }
  }

  lemma BehindFront(g: Grab, s: seq<Grab>, n: nat)
    requires n <= |s|
    ensures ([g] + s)[n + 1..] == s[n..]
  {
  }

  lemma {:induction false} DropKeepsOther(grabs: seq<Grab>, kb: nat, kind: GrabKind)
    ensures OfKind(DropFirst(grabs, kb, kind), OtherKind(kind)) == OfKind(grabs, OtherKind(kind))
  {
    if grabs != [] && kb != 0 {
      var g, tail := grabs[0], grabs[1..];
      if g.kind == kind {
        DropKeepsOther(tail, kb - 1, kind);
      } else {
        DropKeepsOther(tail, kb, kind);
        var rest := DropFirst(tail, kb, kind);
        assert DropFirst(grabs, kb, kind) == [g] + rest && ([g] + rest)[1..] == rest;
      }
    }
  }

  /** Dropping one at a time is dropping all at once. */
  lemma {:induction false} DropStep(a: seq<Grab>, g: Grab, rest: seq<Grab>, kb: nat, kind: GrabKind)
    requires kb > 0 && g.kind == kind && OfKind(a, kind) == []
    ensures DropFirst(a + ([g] + rest), kb, kind) == DropFirst(a + rest, kb - 1, kind)
    decreases |a|
  {
    if a == [] {
      assert a + ([g] + rest) == [g] + rest && a + rest == rest;
      assert ([g] + rest)[1..] == rest;
    } else {
      var x, y := a[1..] + ([g] + rest), a[1..] + rest;
      DropStep(a[1..], g, rest, kb, kind);
      Headed(a, [g] + rest);
      Headed(a, rest);
      assert a[0].kind != kind;
      DropPast(a[0], x, kb, kind);
      DropPast(a[0], y, kb - 1, kind);
    }
  }

  lemma Headed(a: seq<Grab>, rest: seq<Grab>)
    requires a != []
    ensures a + rest == [a[0]] + (a[1..] + rest)
  {
  }

  lemma DropPast(g: Grab, rest: seq<Grab>, kb: nat, kind: GrabKind)
    requires g.kind != kind
    ensures DropFirst([g] + rest, kb, kind) == [g] + DropFirst(rest, kb, kind)
  {
    assert ([g] + rest)[1..] == rest;
  }

  ghost function Before(s: seq<Block>, i: int): Block?
    requires 0 <= i < |s|
  {
    if i == 0 then null else s[i - 1]
  }

  ghost function After(s: seq<Block>, i: int): Block?
    requires 0 <= i < |s|
  {
    if i == |s| - 1 then null else s[i + 1]
  }

  /** Cutting block i joins its two neighbours and leaves every other block between the same ones. */
  lemma CutNeighbours(s: seq<Block>, i: nat, j: nat)
    requires i < |s| && j < |s| - 1
    ensures var k := if j < i then j else j + 1;
            && Cut(s, i)[j] == s[k]
            && Before(Cut(s, i), j) == (if j == i then Before(s, i) else Before(s, k))
            && After(Cut(s, i), j) == (if j + 1 == i then After(s, i) else After(s, k))
  {
  }

  lemma CutDistinct(s: seq<Block>, i: nat)
    requires Distinct(s) && i < |s|
    ensures Distinct(Cut(s, i)) && s[i] !in Cut(s, i)
  {
    var t := Cut(s, i);
    assert forall k :: 0 <= k < |t| ==> t[k] == s[if k < i then k else k + 1];
  }

  /** Cutting block i keeps every other block. */
  lemma CutKeeps(s: seq<Block>, i: nat)
    requires i < |s|
    ensures Within(Cut(s, i), s)
    ensures forall b :: b in s && b != s[i] ==> b in Cut(s, i)
  {
    forall b | b in s && b != s[i]
      ensures b in Cut(s, i)
    {
      var k :| 0 <= k < |s| && s[k] == b;
      assert Cut(s, i)[if k < i then k else k - 1] == b;
    }
  }

  /** Block i of a chain: links to its neighbours, flag and checksum as the tracker left them. */
  ghost predicate NodeOk(s: seq<Block>, dead: set<Block>, i: int)
    requires 0 <= i < |s|
    reads {s[i]}`prev, {s[i]}`next, {s[i]}`nml, {s[i]}`check, {s[i]}`purged, {s[i]}`data
  {
    && s[i].prev == Before(s, i) && s[i].next == After(s, i)
    && s[i].check && !s[i].purged && |s[i].data| == s[i].size <= LONG_MAX && (s[i].nml <==> s[i] in dead)
  }

  ghost function GrabAfter(s: seq<Grab>, i: int): Grab?
    requires 0 <= i < |s|
  {
    if i == |s| - 1 then null else s[i + 1]
  }

  /** Entry i of the grab list: its link. */
  ghost predicate GrabOk(s: seq<Grab>, i: int)
    requires 0 <= i < |s|
    reads {s[i]}`next
  {
    s[i].next == GrabAfter(s, i)
  }

  ghost predicate KeptIn(blocks: seq<Block>, chain: seq<Block>)
    reads blocks`check, blocks`purged
  {
    forall i :: 0 <= i < |blocks| ==> blocks[i].check && !blocks[i].purged ==> blocks[i] in chain
  }

  lemma KeptTrans(a: seq<Block>, b: seq<Block>, c: seq<Block>)
    requires KeptIn(a, b) && KeptIn(b, c)
    ensures KeptIn(a, c)
  {
    forall i | 0 <= i < |a| && a[i].check && !a[i].purged
      ensures a[i] in c
    {
      var k :| 0 <= k < |b| && b[k] == a[i];
    }
  }

  lemma KeptPlus(a: seq<Block>, b: seq<Block>, p: Block)
    requires KeptIn(a, b)
    ensures KeptIn(a, [p] + b)
  {
    assert forall k :: 0 <= k < |b| ==> b[k] == ([p] + b)[k + 1];
  }

  ghost predicate Apart(a: seq<Block>, b: seq<Block>) {
    forall i :: 0 <= i < |a| ==> a[i] !in b
  }

  lemma CutLeaves(s: seq<Block>, i: nat)
    requires Distinct(s) && i < |s|
    ensures s[i] !in Cut(s, i) && forall b :: b in Cut(s, i) ==> b in s
  {
    forall k | 0 <= k < |s| - 1
      ensures Cut(s, i)[k] != s[i] && Cut(s, i)[k] in s
    {
      assert Cut(s, i)[k] == s[if k < i then k else k + 1];
    }
  }

  /** Blocks apart from `live` are apart from it without its block k, and with a new block. */
  lemma ApartAfter(freed: seq<Block>, live: seq<Block>, k: nat, q: Block?)
    requires Apart(freed, live) && k < |live| && Distinct(live) && q !in freed && q != live[k]
    ensures Apart([live[k]] + freed, Plus(q, Cut(live, k)))
  {
    var all, now := [live[k]] + freed, Plus(q, Cut(live, k));
    CutLeaves(live, k);
    forall i | 0 <= i < |all|
      ensures all[i] !in now
    {
      assert i > 0 ==> all[i] == freed[i - 1];
    }
  }

  // ---- the tracker ------------------------------------------------------------------------------

  /** A question to the system allocator, and its answer. */
  datatype Ask = Ask(needed: nat, ok: bool)

  /** How often the allocator was asked, and the last question. */
  datatype Log = Log(count: nat, last: Ask)

  /** If the allocator was asked between two logs, then lastly for `needed` bytes and with this answer. */
  ghost predicate Asked(before: Log, after: Log, needed: nat, ok: bool) {
    if after.count > before.count then after.last == Ask(needed, ok) else after == before && !ok
  }

  lemma AskedTwice(a: Log, b: Log, c: Log, needed: nat, ok: bool)
    requires Asked(a, b, needed, false) && Asked(b, c, needed, ok)
    ensures Asked(a, c, needed, ok)
  {
  }

  /** The allocator was asked for `needed` bytes and lastly refused. */
  ghost predicate Refused(before: Log, after: Log, needed: nat) {
    after.count > before.count && after.last == Ask(needed, false)
  }

  class Heap {
    const overhead: Size      // mwDataSize + 2 * mwOverflowZoneSize
    var head: Block?
    var tail: Block?
    var numCur: int           // mwNumCurAlloc
    var statCur: int          // mwStatCurAlloc
    var useLimit: bool
    var allocLimit: int
    var nmlMode: nat          // mwNML
    var grabList: Grab?
    var grabSize: int
    ghost var chain: seq<Block>
    ghost var dead: set<Block>
    ghost var grabs: seq<Grab>
    ghost var asked: Log      // what the system allocator was asked

    /** The chain from head to tail is linked both ways; flags and checksums are as the tracker left them. */
    ghost predicate Linked()
      reads `head, `tail, `chain, `dead, chain`prev, chain`next, chain`nml, chain`check, chain`purged, chain`data
    {
      && Distinct(chain)
      && head == (if chain == [] then null else chain[0])
      && tail == (if chain == [] then null else chain[|chain| - 1])
      && forall i :: 0 <= i < |chain| ==> NodeOk(chain, dead, i)
    }

    /** The blocks in use, newest first. */
    ghost function Live(): seq<Block>
      reads `chain, `dead
    {
      LiveIn(chain, dead)
    }

    ghost predicate Accounted()
      reads `numCur, `statCur, `chain, `dead
    {
      numCur == |Live()| && statCur == Bytes(Live())
    }

    ghost predicate GrabsLinked()
      reads `grabList, `grabSize, `grabs, grabs`next
    {
      && Distinct(grabs)
      && grabList == (if grabs == [] then null else grabs[0])
      && (forall i :: 0 <= i < |grabs| ==> GrabOk(grabs, i))
      && grabSize == GRAB_BYTES * |grabs|
    }

    ghost predicate Valid()
      reads `head, `tail, `chain, `dead, chain`prev, chain`next, chain`nml, chain`check, chain`purged, chain`data
      reads `numCur, `statCur, `grabList, `grabSize, `grabs, grabs`next
    {
      Linked() && Accounted() && GrabsLinked()
    }

    /** A pointer as a caller may pass it: null, tracked, or without a matching checksum before it. */
    ghost predicate Pointer(p: Block?)
      reads this, p
    {
      p != null && p.check ==> p in chain
    }

    /** Each of these blocks is still in the chain, was purged, or has its header overwritten. */
    ghost predicate Kept(blocks: seq<Block>)
      reads `chain, blocks`check, blocks`purged
    {
      KeptIn(blocks, chain)
    }

    ghost function Config(): Setup
      reads `useLimit, `allocLimit, `nmlMode, `grabs
    {
      Setup(useLimit, allocLimit, nmlMode, |OfKind(grabs, Grabbed)|)
    }

    /** The limit is that of an earlier state, and bytes that were within it still are. */
    ghost predicate LimitKept(was: Limits)
      reads `useLimit, `allocLimit, `statCur
    {
      && useLimit == was.on && allocLimit == was.limit
      && (was.on && was.bytes <= was.limit ==> statCur <= allocLimit)
    }

    /** Blocks that are not live, and unless purged may be passed again. */
    ghost predicate FreedOk(freed: seq<Block>)
      reads `chain, `dead, freed`check, freed`purged
    {
      Kept(freed) && Apart(freed, Live())
    }

    constructor (overhead: Size)
      ensures Valid() && chain == [] && grabs == [] && !useLimit && nmlMode == 0
    {
      this.overhead := overhead;
      head, tail, numCur, statCur := null, null, 0, 0;
      useLimit, allocLimit, nmlMode := false, 0, 0;
      grabList, grabSize := null, 0;
      chain, dead, grabs, asked := [], {}, [], Log(0, Ask(0, false));
    }

    /** The system allocator answers arbitrarily, but never hands out more than LONG_MAX bytes. */
    method SysMalloc(needed: nat) returns (ok: bool)
      modifies this`asked
      ensures asked == Log(old(asked).count + 1, Ask(needed, ok)) && (ok ==> needed <= LONG_MAX)
    {
      ok := *;
      if needed > LONG_MAX {
        ok := false;
      }
      asked := Log(asked.count + 1, Ask(needed, ok));
    }

    /** The bytes mwMalloc asks for, as a size_t. */
    function Needed(size: nat): nat {
      (overhead + size) % SIZE_LIMIT
    }

    /** That is overhead and size, unless it does not fit a size_t; the test of mwMalloc tells exactly that. */
    lemma NeededExactly(size: Size)
      ensures overhead + size < SIZE_LIMIT ==> Needed(size) == overhead + size
      ensures Needed(size) < size <==> overhead + size >= SIZE_LIMIT
    {
      var sum := overhead + size;
      if sum < SIZE_LIMIT {
        QuotientUnique(sum, SIZE_LIMIT, 0, sum);
      } else {
        QuotientUnique(sum, SIZE_LIMIT, 1, sum - SIZE_LIMIT);
      }
    }

    /** mwIsHeapOK: walks the chain, checks both link directions and looks for a block. */
    method IsHeapOK(includes: Block?) returns (ok: bool)
      requires Linked()
      ensures ok <==> includes == null || includes in chain
    {
      var found, mw := false, head;
      ghost var i := 0;
      while mw != null
        invariant 0 <= i <= |chain|
        invariant mw == if i < |chain| then chain[i] else null
        invariant found <==> includes in chain[..i]
        decreases |chain| - i
      {
        assert NodeOk(chain, dead, i);
        assert i > 0 ==> NodeOk(chain, dead, i - 1);
        assert i < |chain| - 1 ==> NodeOk(chain, dead, i + 1);
        if includes == mw {
          found := true;
        }
        if mw.prev != null {
          if mw == head || mw.prev.next != mw {
            return false;
          }
        }
        if mw.next != null {
          if mw == tail || mw.next.prev != mw {
            return false;
          }
        } else if mw != tail {
          return false;
        }
        mw := mw.next;
        i := i + 1;
      }
      assert chain[..i] == chain;
      return includes == null || found;
    }

    /** mwIsOwned: on an uncorrupted heap exactly the blocks of the chain are owned. */
    method IsOwned(mw: Block) returns (owned: bool)
      requires Valid() && Pointer(mw)
      ensures owned <==> mw in chain
    {
      if head == null && tail == null && statCur == 0 {
        return false;
      }
      if !mw.check {
        var ok := IsHeapOK(mw);
        forall k | 0 <= k < |chain|
          ensures chain[k] != mw
        {
          assert NodeOk(chain, dead, k);
        }
        return false;
      }
      ghost var i :| 0 <= i < |chain| && chain[i] == mw;
      assert NodeOk(chain, dead, i);
      assert i > 0 ==> NodeOk(chain, dead, i - 1);
      assert i < |chain| - 1 ==> NodeOk(chain, dead, i + 1);
      var retv := 0;
      if mw.prev != null {
        if mw.prev.next == mw {
          retv := retv + 1;
        }
      } else if head == mw {
        retv := retv + 1;
      }
      if mw.next != null {
        if mw.next.prev == mw {
          retv := retv + 1;
        }
      } else if tail == mw {
        retv := retv + 1;
      }
      if mw.check {
        retv := retv + 1;
      }
      return retv > 2;
    }

    /** mwUnlink. */
    method Unlink(mw: Block, ghost i: nat)
      requires Linked() && i < |chain| && chain[i] == mw
      modifies this`head, this`tail, this`chain, chain`prev, chain`next
      ensures Linked() && chain == Cut(old(chain), i) && mw !in chain
    {
      ghost var before := chain;
      assert forall k :: 0 <= k < |before| ==> NodeOk(before, dead, k);
      Bypass(mw, i);
      chain := Cut(before, i);
      CutDistinct(before, i);
      forall j | 0 <= j < |chain|
        ensures NodeOk(chain, dead, j)
      {
        var k := if j < i then j else j + 1;
        CutNeighbours(before, i, j);
        assert old(NodeOk(before, dead, k));
      }
    }

    /** The neighbours of a block are joined. */
    method Bypass(mw: Block, ghost i: nat)
      requires Linked() && i < |chain| && chain[i] == mw
      modifies this`head, this`tail, chain`prev, chain`next
      ensures head == if i == 0 then After(chain, 0) else chain[0]
      ensures tail == if i == |chain| - 1 then Before(chain, i) else chain[|chain| - 1]
      ensures forall k :: 0 <= k < |chain| ==>
                chain[k].next == if k + 1 == i then After(chain, i) else old(chain[k].next)
      ensures forall k :: 0 <= k < |chain| ==>
                chain[k].prev == if k == i + 1 then Before(chain, i) else old(chain[k].prev)
    {
      assert NodeOk(chain, dead, i);
      if mw.prev == null {
        head := mw.next;
      } else {
        mw.prev.next := mw.next;
      }
      if mw.next == null {
        tail := mw.prev;
      } else {
        mw.next.prev := mw.prev;
      }
    }

    /** The block's index in the chain. */
    ghost function IndexOf(p: Block): (i: nat)
      requires p in chain
      reads this
      ensures i < |chain| && chain[i] == p
    {
      var i :| 0 <= i < |chain| && chain[i] == p;
      i
    }

    lemma LiveTracked(p: Block)
      ensures p in Live() <==> p in chain && p !in dead
    {
      LiveMembers(chain, dead, p);
    }

    /**
     * What a freed block has become: with a no-mans-land level it stays at its place in the chain, filled, else it has
     * left the chain and its header is overwritten.
     */
    ghost predicate Released(p: Block, before: seq<Block>)
      reads `nmlMode, `chain, p`data, p`check
    {
      if nmlMode != 0 then chain == before && p.data == Filled(p.size, MW_VAL_NML)
      else p !in chain && !p.check
    }

    /**
     * mwFree. A live block leaves the live ones, with its count and bytes; null, no-mans-land blocks,
     * blocks freed before and wild pointers change nothing.
     */
    method Free(p: Block?)
      requires Valid() && Pointer(p)
      modifies this`head, this`tail, this`chain, this`dead, this`numCur, this`statCur
      modifies chain`prev, chain`next, chain`nml, chain`check, chain`data
      ensures Valid()
      ensures p != null && p in old(Live()) ==>
                && Live() == Without(old(Live()), p) && statCur == old(statCur) - AsLong(p.size)
                && Released(p, old(chain))
      ensures p != null ==> p !in Live() && Pointer(p)
      ensures Within(chain, old(chain)) && statCur <= old(statCur)
      ensures p == null || p !in old(Live()) ==>
                chain == old(chain) && dead == old(dead) && numCur == old(numCur) && statCur == old(statCur)
      ensures forall b :: b in old(chain) && b != p ==> b.data == old(b.data) && b.check == old(b.check)
      ensures Kept(old(chain))
    {
      if p == null {
        return;
      }
      var owned := IsOwned(p);
      LiveTracked(p);
      if owned {
        ghost var i := IndexOf(p);
        assert NodeOk(chain, dead, i);
        if !p.nml {
          FreeLive(p, i);
        }
      }
    }

    /** The part of mwFree behind the ownership test. */
    method FreeLive(p: Block, ghost i: nat)
      requires Valid() && i < |chain| && chain[i] == p && !p.nml
      modifies this`head, this`tail, this`chain, this`dead, this`numCur, this`statCur
      modifies chain`prev, chain`next, chain`nml, chain`check, chain`data
      ensures Valid() && Live() == Without(old(Live()), p) && statCur == old(statCur) - AsLong(p.size)
      ensures p !in Live() && (p.check ==> p in chain) && Within(chain, old(chain)) && statCur <= old(statCur)
      ensures forall b :: b in old(chain) && b != p ==> b.data == old(b.data) && b.check == old(b.check)
      ensures Released(p, old(chain))
      ensures Kept(old(chain))
    {
      assert GrabsLinked();
      FreeTracked(p, i);
    }

    method FreeTracked(p: Block, ghost i: nat)
      requires Linked() && Accounted() && i < |chain| && chain[i] == p && !p.nml
      modifies this`head, this`tail, this`chain, this`dead, this`numCur, this`statCur
      modifies chain`prev, chain`next, chain`nml, chain`check, chain`data
      ensures Linked() && Accounted() && Live() == Without(old(Live()), p) && statCur == old(statCur) - AsLong(p.size)
      ensures p !in Live() && (p.check ==> p in chain) && Within(chain, old(chain)) && statCur <= old(statCur)
      ensures forall b :: b in old(chain) && b != p ==> b.data == old(b.data) && b.check == old(b.check)
      ensures Released(p, old(chain))
      ensures Kept(old(chain))
    {
      ghost var live := Without(Live(), p);
      Discount(p, i, live);
      Release(p, i, live);
    }

    /** The counters give up live block i, which is still in the chain; `live` are the others. */
    method Discount(p: Block, ghost i: nat, ghost live: seq<Block>)
      requires live == Without(Live(), p)
      requires Linked() && Accounted() && i < |chain| && chain[i] == p && !p.nml
      modifies this`numCur, this`statCur
      ensures p !in dead && statCur == old(statCur) - AsLong(p.size) && statCur <= old(statCur)
      ensures numCur == |live| && statCur == Bytes(live)
    {
      assert NodeOk(chain, dead, i);
      LiveFreed(chain, dead, i);
      numCur := numCur - 1;
      statCur := statCur - AsLong(p.size);
    }

    /** The block is marked as no-mans-land or given back. */
    method Release(p: Block, ghost i: nat, ghost live: seq<Block>)
      requires live == Without(Live(), p)
      requires Linked() && i < |chain| && chain[i] == p && p !in dead
      modifies this`head, this`tail, this`chain, this`dead
      modifies chain`prev, chain`next, chain`nml, chain`check, chain`data
      ensures Linked() && Live() == live
      ensures p !in Live() && (p.check ==> p in chain) && Within(chain, old(chain))
      ensures forall b :: b in old(chain) && b != p ==> b.data == old(b.data) && b.check == old(b.check)
      ensures Released(p, old(chain))
      ensures Kept(old(chain))
    {
      if nmlMode != 0 {
        MarkNml(p, i, live);
      } else {
        Discard(p, i, live);
      }
    }

    method Overwrite(p: Block)
      requires Linked() && p !in chain
      modifies p`check
      ensures Linked() && !p.check
    {
      assert forall k :: 0 <= k < |chain| ==> NodeOk(chain, dead, k);
      p.check := false;
      assert forall k :: 0 <= k < |chain| ==> NodeOk(chain, dead, k);
    }

    /** The chain without block i. */
    lemma CutOut(p: Block, i: nat, live: seq<Block>) returns (after: seq<Block>)
      requires Linked() && i < |chain| && chain[i] == p && p !in dead && live == Without(Live(), p)
      ensures after == Cut(chain, i) && LiveIn(after, dead) == live
      ensures p !in after && forall k :: 0 <= k < |after| ==> after[k] in chain
    {
      after := Cut(chain, i);
      LiveFreed(chain, dead, i);
      CutLeaves(chain, i);
    }

    method Detach(p: Block, ghost i: nat, ghost after: seq<Block>, ghost live: seq<Block>)
      requires Linked() && i < |chain| && chain[i] == p && after == Cut(chain, i) && LiveIn(after, dead) == live
      modifies this`head, this`tail, this`chain, chain`prev, chain`next
      ensures Linked() && chain == after && Live() == live
    {
      Unlink(p, i);
    }

    /** The block leaves the chain and its header is overwritten. */
    method Discard(p: Block, ghost i: nat, ghost live: seq<Block>)
      requires Linked() && i < |chain| && chain[i] == p && p !in dead && nmlMode == 0 && live == Without(Live(), p)
      modifies this`head, this`tail, this`chain, chain`prev, chain`next, p`check
      ensures Linked() && Released(p, old(chain)) && Live() == live
      ensures p !in Live() && (p.check ==> p in chain) && Within(chain, old(chain)) && Kept(old(chain))
      ensures forall b :: b in old(chain) && b != p ==> b.check == old(b.check)
    {
      ghost var after := CutOut(p, i, live);
      Detach(p, i, after, live);
      Overwrite(p);
      LiveTracked(p);
    }

    /** The block stays in the chain as no-mans-land. */
    method MarkNml(p: Block, ghost i: nat, ghost live: seq<Block>)
      requires Linked() && i < |chain| && chain[i] == p && p !in dead && nmlMode != 0 && live == Without(Live(), p)
      modifies this`dead, p`nml, p`data
      ensures Linked() && Released(p, old(chain)) && Live() == live
      ensures p !in Live() && Kept(old(chain))
    {
      ghost var before := dead;
      assert forall k :: 0 <= k < |chain| ==> NodeOk(chain, before, k);
      LiveFreed(chain, dead, i);
      p.nml := true;
      p.data := Filled(p.size, MW_VAL_NML);
      dead := dead + {p};
      forall k | 0 <= k < |chain|
        ensures NodeOk(chain, dead, k)
      {
        assert old(NodeOk(chain, before, k));
      }
      LiveTracked(p);
    }

    /** mwDrop_: drops up to `kb` grabbed blocks of a kind, 60000 for 0, and returns how many. */
    method DropMem(kb: nat, kind: GrabKind) returns (n: nat)
      requires GrabsLinked()
      modifies this`grabList, this`grabSize, this`grabs, grabs`next
      ensures GrabsLinked()
      ensures var most := if kb == 0 then 60000 else kb;
              n == MinNat(most, |OfKind(old(grabs), kind)|) && grabs == DropFirst(old(grabs), most, kind)
    {
      n := 0;
      if grabList == null && kb == 0 {
        return;
      }
      n := DropUpTo(if kb == 0 then 60000 else kb, kind);
    }

    /** The loop of mwDrop_. */
    method DropUpTo(most: nat, kind: GrabKind) returns (n: nat)
      requires GrabsLinked()
      modifies this`grabList, this`grabSize, this`grabs, grabs`next
      ensures GrabsLinked()
      ensures n == MinNat(most, |OfKind(old(grabs), kind)|) && grabs == DropFirst(old(grabs), most, kind)
    {
      n := 0;
      ghost var all := grabs;
      var pr: Grab?, gd := null, grabList;
      ghost var i := 0;
      while n < most
        invariant GrabsLinked() && Dropping(all, grabs, i, n, most, kind)
        invariant gd == if i < |grabs| then grabs[i] else null
        invariant pr == if i == 0 then null else grabs[i - 1]
        decreases |grabs| - i
      {
        if gd == null {
          break;
        }
        assert GrabOk(grabs, i);
        if gd.kind == kind {
          var next := gd.next;
          DropOne(pr, gd, i, all, n, most, kind);
          gd := next;
          n := n + 1;
        } else {
          DroppingSkip(all, grabs, i, n, most, kind);
          pr, gd := gd, gd.next;
          i := i + 1;
        }
      }
      DroppingEnds(all, grabs, i, n, most, kind);
    }

    /**
     * mwGrab_: grabs up to `kb` blocks of a kind, 65000 for 0, and returns how many. Grabbing stops before the
     * tracked bytes and the grabbed ones together pass the limit.
     */
    method GrabMem(kb: nat, kind: GrabKind) returns (n: nat)
      requires GrabsLinked()
      modifies this`grabList, this`grabSize, this`grabs, this`asked
      ensures GrabsLinked() && n <= (if kb == 0 then 65000 else kb)
      ensures n < (if kb == 0 then 65000 else kb) ==>
                (useLimit && statCur + grabSize + GRAB_BYTES > allocLimit) || Refused(old(asked), asked, GRAB_BYTES)
      ensures |grabs| == n + |old(grabs)| && grabs[n..] == old(grabs) && AllOf(grabs[..n], kind)
      ensures OfKind(grabs, OtherKind(kind)) == old(OfKind(grabs, OtherKind(kind)))
      ensures useLimit && n > 0 ==> statCur + grabSize <= allocLimit
      ensures forall i :: 0 <= i < n ==> fresh(grabs[i])
    {
      ghost var before := grabs;
      var most := if kb == 0 then 65000 else kb;
      n := 0;
      while n < most
        invariant GrabsLinked() && n <= most
        invariant |grabs| == n + |before| && grabs[n..] == before && AllOf(grabs[..n], kind)
        invariant useLimit && n > 0 ==> statCur + grabSize <= allocLimit
        invariant old(asked).count <= asked.count
        invariant forall i :: 0 <= i < n ==> fresh(grabs[i])
      {
        var ok := TryGrab(kind);
        if !ok {
          break;
        }
        n := n + 1;
      }
      MoreOfKind(grabs, n, before, kind);
    }

    /** One turn of the loop: the limit and the system are asked for one more block. */
    method TryGrab(kind: GrabKind) returns (ok: bool)
      requires GrabsLinked()
      modifies this`grabList, this`grabSize, this`grabs, this`asked
      ensures GrabsLinked() && old(asked).count <= asked.count
      ensures ok ==> |grabs| == 1 + |old(grabs)| && grabs[1..] == old(grabs) && grabs[0].kind == kind && fresh(grabs[0])
      ensures ok && useLimit ==> statCur + grabSize <= allocLimit
      ensures !ok ==>
                && grabs == old(grabs) && grabSize == old(grabSize)
                && (|| (useLimit && statCur + grabSize + GRAB_BYTES > allocLimit)
                    || Refused(old(asked), asked, GRAB_BYTES))
    {
      if useLimit && statCur + grabSize + GRAB_BYTES > allocLimit {
        return false;
      }
      ok := SysMalloc(GRAB_BYTES);
      if ok {
        GrabOne(kind);
      }
    }

    method GrabOne(kind: GrabKind)
      requires GrabsLinked()
      modifies this`grabList, this`grabSize, this`grabs
      ensures GrabsLinked() && |grabs| == 1 + |old(grabs)| && grabs[1..] == old(grabs) && grabs[0].kind == kind
      ensures grabSize == old(grabSize) + GRAB_BYTES
      ensures fresh(grabs[0])
    {
      ghost var before := grabs;
      assert forall k :: 0 <= k < |before| ==> GrabOk(before, k);
      var gd := new Grab(kind, grabList);
      grabSize := grabSize + GRAB_BYTES;
      grabList := gd;
      grabs := [gd] + before;
      forall k | 0 <= k < |grabs|
        ensures GrabOk(grabs, k)
      {
        assert k > 0 ==> grabs[k] == before[k - 1] && GrabOk(before, k - 1);
      }
    }

    /** mwNoMansLand: an unknown level is ignored; the known ones drop or grab no-mans-land memory. */
    method NoMansLandLevel(level: int)
      requires GrabsLinked()
      modifies this`grabList, this`grabSize, this`grabs, this`nmlMode, this`asked, grabs`next
      ensures GrabsLinked() && nmlMode == if 0 <= level <= 2 then level else old(nmlMode)
      ensures level == 0 ==> grabs == DropFirst(old(grabs), 60000, NoMansLand)
      ensures level == 2 ==>
                && OfKind(grabs, Grabbed) == old(OfKind(grabs, Grabbed)) && |old(grabs)| <= |grabs|
                && (|grabs| - |old(grabs)| < 65000 ==>
                      || (useLimit && statCur + grabSize + GRAB_BYTES > allocLimit)
                      || Refused(old(asked), asked, GRAB_BYTES))
      ensures level != 0 && level != 2 ==> grabs == old(grabs)
      ensures forall i :: 0 <= i < |grabs| ==> grabs[i] in old(grabs) || fresh(grabs[i])
    {
      if level == 0 {
        DropNml();
      } else if level == 2 {
        GrabNml();
      } else if level != 1 {
        return;
      }
      nmlMode := level;
    }

    method DropNml()
      requires GrabsLinked()
      modifies this`grabList, this`grabSize, this`grabs, grabs`next
      ensures GrabsLinked() && grabs == DropFirst(old(grabs), 60000, NoMansLand)
      ensures forall i :: 0 <= i < |grabs| ==> grabs[i] in old(grabs)
    {
      DropSubset(grabs, 60000, NoMansLand);
      var _ := DropMem(0, NoMansLand);
    }

    method GrabNml()
      requires GrabsLinked()
      modifies this`grabList, this`grabSize, this`grabs, this`asked
      ensures GrabsLinked() && |old(grabs)| <= |grabs|
      ensures OfKind(grabs, Grabbed) == old(OfKind(grabs, Grabbed))
      ensures |grabs| - |old(grabs)| < 65000 ==>
                (useLimit && statCur + grabSize + GRAB_BYTES > allocLimit) || Refused(old(asked), asked, GRAB_BYTES)
      ensures forall i :: 0 <= i < |grabs| ==> grabs[i] in old(grabs) || fresh(grabs[i])
    {
      ghost var before := grabs;
      var n := GrabMem(0, NoMansLand);
      assert forall i :: n <= i < |grabs| ==> grabs[i] == before[i - n];
    }

    /** mwLimit: 0 switches the limit off. */
    method Limit(lim: int)
      modifies this`useLimit, this`allocLimit
      ensures allocLimit == lim && (useLimit <==> lim != 0)
    {
      useLimit := lim != 0;
      allocLimit := lim;
    }

    /** The loops of mwFreeUp over the grab list: drops entries of a kind until `needed` bytes can be had. */
    method FreeGrabs(needed: nat, kind: GrabKind) returns (ok: bool)
      requires GrabsLinked()
      modifies this`grabList, this`grabSize, this`grabs, this`asked, grabs`next
      ensures GrabsLinked() && OfKind(grabs, OtherKind(kind)) == old(OfKind(grabs, OtherKind(kind)))
      ensures Asked(old(asked), asked, needed, ok)
      ensures !ok ==> OfKind(grabs, kind) == []
      ensures Within(grabs, old(grabs))
      ensures |OfKind(grabs, kind)| <= |old(OfKind(grabs, kind))|
    {
      ghost var all := grabs;
      ok := false;
      while true
        invariant GrabsLinked() && OfKind(grabs, OtherKind(kind)) == OfKind(all, OtherKind(kind))
        invariant Within(grabs, all) && Asked(old(asked), asked, needed, false)
        invariant |OfKind(grabs, kind)| <= |OfKind(all, kind)|
        decreases |grabs|
      {
        ghost var before := grabs;
        DropConserves(before, 1, kind);
        DropSubset(before, 1, kind);
        var n := DropMem(1, kind);
        if n == 0 {
          return false;
        }
        ok := SysMalloc(needed);
        if ok {
          return;
        }
      }
    }

    /** Unlinks a no-mans-land block and returns the one behind it. `all` is an earlier chain. */
    method Purge(mw: Block, ghost i: nat, ghost all: seq<Block>) returns (mw2: Block?)
      requires Linked() && i < |chain| && chain[i] == mw && mw in dead
      requires Within(chain, all) && Kept(all)
      modifies this`head, this`tail, this`chain, chain`prev, chain`next, mw`purged
      ensures Linked() && Live() == old(Live()) && chain == Cut(old(chain), i) && mw.purged
      ensures mw2 == if i < |chain| then chain[i] else null
      ensures Within(chain, all) && Kept(all)
    {
      assert NodeOk(chain, dead, i);
      mw2 := mw.next;
      LivePurged(chain, dead, i);
      CutKeeps(chain, i);
      ghost var before := chain;
      Unlink(mw, i);
      GiveBack(mw);
      forall k | 0 <= k < |all| && all[k].check && !all[k].purged
        ensures all[k] in chain
      {
        assert all[k] in before && all[k] != mw;
      }
    }

    method GiveBack(mw: Block)
      requires Linked() && mw !in chain
      modifies mw`purged
      ensures Linked() && mw.purged
    {
      assert forall k :: 0 <= k < |chain| ==> NodeOk(chain, dead, k);
      mw.purged := true;
      assert forall k :: 0 <= k < |chain| ==> NodeOk(chain, dead, k);
    }

    /** One turn of the walk below: a block is purged and the system asked again. */
    method PurgeAndAsk(mw: Block, ghost i: nat, ghost all: seq<Block>, needed: nat) returns (mw2: Block?, ok: bool)
      requires Linked() && i < |chain| && chain[i] == mw && mw in dead
      requires Within(chain, all) && Kept(all)
      modifies this`head, this`tail, this`chain, this`asked, chain`prev, chain`next, mw`purged
      ensures Linked() && Live() == old(Live()) && chain == Cut(old(chain), i)
      ensures mw2 == if i < |chain| then chain[i] else null
      ensures Within(chain, all) && Kept(all)
      ensures asked == Log(old(asked).count + 1, Ask(needed, ok))
    {
      mw2 := Purge(mw, i, all);
      ok := SysMalloc(needed);
    }

    lemma LinkedAt(i: nat)
      requires Linked() && i < |chain|
      ensures chain[i].next == After(chain, i) && (chain[i].nml <==> chain[i] in dead)
    {
      assert NodeOk(chain, dead, i);
    }

    /** The walk of mwFreeUp over the chain: unlinks no-mans-land blocks until `needed` bytes can be had. */
    method FreeNml(needed: nat) returns (ok: bool)
      requires Linked()
      modifies this`head, this`tail, this`chain, this`asked, chain`prev, chain`next, chain`purged
      ensures Linked() && Live() == old(Live()) && Asked(old(asked), asked, needed, ok)
      ensures !ok ==> NoneDead(chain, dead)
      ensures Within(chain, old(chain))
      ensures Kept(old(chain))
    {
      ghost var all := chain;
      ghost var i := 0;
      var mw := head;
      while mw != null
        invariant Linked() && Live() == old(Live()) && i <= |chain|
        invariant mw == if i < |chain| then chain[i] else null
        invariant forall k :: 0 <= k < i ==> chain[k] !in dead
        invariant Within(chain, all) && Kept(all) && Asked(old(asked), asked, needed, false)
        decreases |chain| - i
      {
        LinkedAt(i);
        if !mw.nml {
          mw := mw.next;
          i := i + 1;
        } else {
          mw, ok := PurgeAndAsk(mw, i, all, needed);
          if ok {
            return;
          }
        }
      }
      return false;
    }

    /**
     * mwFreeUp: gives back no-mans-land memory, and grabbed memory when urgent, until `needed` bytes can be
     * had. No live block is touched, and failure means that nothing was left to give back.
     */
    method FreeUp(needed: nat, urgent: bool) returns (freed: nat)
      requires Valid()
      modifies this`head, this`tail, this`chain, this`grabList, this`grabSize, this`grabs, this`asked
      modifies chain`prev, chain`next, chain`purged, grabs`next
      ensures Valid() && Live() == old(Live())
      ensures Within(chain, old(chain)) && Within(grabs, old(grabs))
      ensures freed == needed || freed == 0
      ensures needed > 0 ==> Asked(old(asked), asked, needed, freed == needed)
      ensures old(asked).count <= asked.count
      ensures freed == 0 < needed ==> OfKind(grabs, NoMansLand) == [] && NoneDead(chain, dead)
      ensures freed == 0 < needed && urgent ==> OfKind(grabs, Grabbed) == []
      ensures !urgent ==> OfKind(grabs, Grabbed) == old(OfKind(grabs, Grabbed))
      ensures Kept(old(chain))
      ensures |OfKind(grabs, Grabbed)| <= |old(OfKind(grabs, Grabbed))|
    {
      ghost var start := asked;
      var ok := FreeNmlMemory(needed);
      if ok {
        return needed;
      }
      if !urgent {
        return 0;
      }
      ghost var between := asked;
      ok := FreeGrabsOf(needed, Grabbed);
      AskedTwice(start, between, asked, needed, ok);
      return if ok then needed else 0;
    }

    /** FreeGrabs on the whole tracker. */
    method FreeGrabsOf(needed: nat, kind: GrabKind) returns (ok: bool)
      requires Valid()
      modifies this`grabList, this`grabSize, this`grabs, this`asked, grabs`next
      ensures Valid() && Within(grabs, old(grabs)) && Asked(old(asked), asked, needed, ok)
      ensures !ok ==> OfKind(grabs, kind) == []
      ensures OfKind(grabs, OtherKind(kind)) == old(OfKind(grabs, OtherKind(kind)))
      ensures |OfKind(grabs, kind)| <= |old(OfKind(grabs, kind))|
    {
      ok := FreeGrabs(needed, kind);
    }

    /** The part of mwFreeUp that is always tried. */
    method FreeNmlMemory(needed: nat) returns (ok: bool)
      requires Valid()
      modifies this`head, this`tail, this`chain, this`grabList, this`grabSize, this`grabs, this`asked
      modifies chain`prev, chain`next, chain`purged, grabs`next
      ensures Valid() && Live() == old(Live())
      ensures Within(chain, old(chain)) && Within(grabs, old(grabs))
      ensures !ok ==> OfKind(grabs, NoMansLand) == [] && NoneDead(chain, dead)
      ensures OfKind(grabs, Grabbed) == old(OfKind(grabs, Grabbed)) && Asked(old(asked), asked, needed, ok)
      ensures Kept(old(chain))
    {
      ghost var start := asked;
      ok := FreeGrabsOf(needed, NoMansLand);
      if !ok {
        ghost var between := asked;
        ok := FreeNmlOf(needed);
        AskedTwice(start, between, asked, needed, ok);
      }
    }

    /** FreeNml on the whole tracker. */
    method FreeNmlOf(needed: nat) returns (ok: bool)
      requires Valid()
      modifies this`head, this`tail, this`chain, this`asked, chain`prev, chain`next, chain`purged
      ensures Valid() && Live() == old(Live()) && Asked(old(asked), asked, needed, ok)
      ensures !ok ==> NoneDead(chain, dead)
      ensures Within(chain, old(chain)) && Kept(old(chain))
    {
      ok := FreeNml(needed);
    }

    /** The end of mwMalloc: the new block becomes the head and is counted. */
    method Push(size: nat) returns (p: Block)
      requires Linked() && Accounted() && size <= LONG_MAX
      modifies this`head, this`tail, this`chain, this`numCur, this`statCur, chain`prev
      ensures fresh(p) && p.size == size && p.data == Filled(size, MW_VAL_NEW) && p.check
      ensures Linked() && Accounted() && Live() == [p] + old(Live()) && chain == Plus(p, old(chain))
      ensures statCur == old(statCur) + AsLong(size)
    {
      ghost var live := Live();
      p := new Block(size, head);
      LinkFront(p);
      numCur := numCur + 1;
      statCur := statCur + AsLong(size);
      LiveFront(p, chain[1..], dead);
      assert chain[1..] == old(chain) && Live() == [p] + live && ([p] + live)[1..] == live;
    }

    /** A new block becomes the head. */
    method LinkFront(p: Block)
      requires Linked() && p !in chain && p !in dead && p.prev == null && p.next == head
      requires p.check && !p.purged && !p.nml && |p.data| == p.size <= LONG_MAX
      modifies this`head, this`tail, this`chain, chain`prev
      ensures Linked() && chain == [p] + old(chain)
    {
      ghost var before := chain;
      assert forall k :: 0 <= k < |before| ==> NodeOk(before, dead, k);
      if head != null {
        head.prev := p;
      }
      head := p;
      if tail == null {
        tail := p;
      }
      chain := [p] + before;
      assert NodeOk(chain, dead, 0);
      forall k | 0 < k < |chain|
        ensures NodeOk(chain, dead, k)
      {
        assert chain[k] == before[k - 1] && old(NodeOk(before, dead, k - 1));
      }
    }

    /**
     * mwMalloc. Null changes no live block; otherwise the new block is the newest live one. With the limit on,
     * an allocation that would pass it fails, and a successful one ends within it.
     */
    method Malloc(size: nat) returns (p: Block?)
      requires Valid() && size < SIZE_LIMIT
      modifies this`head, this`tail, this`chain, this`numCur, this`statCur, this`grabList, this`grabSize, this`grabs
      modifies this`asked, chain`prev, chain`next, chain`purged, grabs`next
      ensures Valid()
      ensures p == null ==> Live() == old(Live()) && statCur == old(statCur)
      ensures Within(chain, Plus(p, old(chain))) && Within(grabs, old(grabs))
      ensures p != null ==>
                && fresh(p) && p.size == size && p.data == Filled(size, MW_VAL_NEW) && p.check
                && Live() == [p] + old(Live())
      ensures useLimit && AsLong(size) + old(statCur) > allocLimit ==> p == null
      ensures p == null ==>
                || Needed(size) < size || (useLimit && AsLong(size) + old(statCur) > allocLimit)
                || Refused(old(asked), asked, Needed(size))
      ensures p != null ==> statCur == old(statCur) + AsLong(size)
      ensures useLimit && p != null ==> statCur <= allocLimit
      ensures Kept(old(chain))
      ensures OfKind(grabs, Grabbed) == old(OfKind(grabs, Grabbed))
    {
      var needed := Needed(size);
      if needed < size {
        return null;
      }
      if useLimit && AsLong(size) + statCur > allocLimit {
        return null;
      }
      p := Take(size, needed);
    }

    /** mwMalloc behind its checks. */
    method Take(size: nat, needed: nat) returns (p: Block?)
      requires Valid() && size <= needed
      modifies this`head, this`tail, this`chain, this`numCur, this`statCur, this`grabList, this`grabSize, this`grabs
      modifies this`asked, chain`prev, chain`next, chain`purged, grabs`next
      ensures Valid() && Within(chain, Plus(p, old(chain))) && Within(grabs, old(grabs))
      ensures p == null ==> Live() == old(Live()) && statCur == old(statCur) && Refused(old(asked), asked, needed)
      ensures p != null ==>
                && fresh(p) && p.size == size <= LONG_MAX && p.data == Filled(size, MW_VAL_NEW) && p.check
                && Live() == [p] + old(Live()) && statCur == old(statCur) + AsLong(size)
      ensures Kept(old(chain))
      ensures OfKind(grabs, Grabbed) == old(OfKind(grabs, Grabbed))
    {
      ghost var before := chain;
      var ok := Obtain(needed);
      if !ok {
        return null;
      }
      WithinPlus(chain, before, null);
      p := PushAfter(size, before);
    }

    /** Push, seen from an earlier chain. */
    method PushAfter(size: nat, ghost before: seq<Block>) returns (p: Block)
      requires Valid() && size <= LONG_MAX && Within(chain, before) && Kept(before)
      modifies this`head, this`tail, this`chain, this`numCur, this`statCur, chain`prev
      ensures fresh(p) && p.size == size && p.data == Filled(size, MW_VAL_NEW) && p.check
      ensures Valid() && Live() == [p] + old(Live()) && Within(chain, Plus(p, before)) && Kept(before)
      ensures statCur == old(statCur) + AsLong(size)
    {
      ghost var freed := chain;
      p := Push(size);
      WithinPlus(freed, before, p);
      KeptPlus(before, freed, p);
    }

    /**
     * mwRealloc: mwMalloc for null, mwFree for size 0; else a live block is replaced by a new one with the same
     * leading bytes, or left alone when the limit or the system refuses. Other pointers change nothing.
     */
    method Realloc(p: Block?, size: nat) returns (q: Block?)
      requires Valid() && Pointer(p) && size < SIZE_LIMIT
      modifies this`head, this`tail, this`chain, this`dead, this`numCur, this`statCur, this`useLimit
      modifies this`grabList, this`grabSize, this`grabs, this`asked, chain, grabs`next
      ensures Valid() && useLimit == old(useLimit)
      ensures p == null && q == null ==> Live() == old(Live())
      ensures p == null && q != null ==>
                fresh(q) && q.size == size && q.data == Filled(size, MW_VAL_NEW) && Live() == [q] + old(Live())
      ensures p != null && p !in old(Live()) ==> q == null && Live() == old(Live())
      ensures p != null && p in old(Live()) && size == 0 ==> q == null && Live() == Without(old(Live()), p)
      ensures p != null && p in old(Live()) && size > 0 && q == null ==>
                && Live() == old(Live())
                && (|| Needed(size) < size || OverLimit(old(statCur), size, p)
                    || Refused(old(asked), asked, Needed(size)))
      ensures p != null && q != null ==>
                && fresh(q) && q.size == size && q.data == Moved(old(p.data), size)
                && Live() == [q] + Without(old(Live()), p)
      ensures p != null && q != null ==>
                forall i :: 0 <= i < size ==> q.data[i] == if i < old(|p.data|) then old(p.data)[i] else MW_VAL_NEW
      ensures p != null && q == null && size != 0 ==> p.data == old(p.data)
      ensures useLimit && q != null ==> statCur <= allocLimit
      ensures q == null ==> statCur <= old(statCur)
      ensures Within(chain, Plus(q, old(chain))) && Within(grabs, old(grabs))
      ensures forall b :: b in old(chain) && b != p ==> b.data == old(b.data)
      ensures Kept(old(chain))
      ensures OfKind(grabs, Grabbed) == old(OfKind(grabs, Grabbed))
    {
      if p == null {
        q := Malloc(size);
      } else {
        q := ReallocBlock(p, size);
      }
    }

    /** mwRealloc on a pointer that is not null. */
    method ReallocBlock(p: Block, size: nat) returns (q: Block?)
      requires Valid() && Pointer(p) && size < SIZE_LIMIT
      modifies this`head, this`tail, this`chain, this`dead, this`numCur, this`statCur, this`useLimit
      modifies this`grabList, this`grabSize, this`grabs, this`asked, chain, grabs`next
      ensures Valid() && useLimit == old(useLimit)
      ensures p !in old(Live()) ==> q == null && Live() == old(Live())
      ensures p in old(Live()) && size == 0 ==> q == null && Live() == Without(old(Live()), p)
      ensures p in old(Live()) && size > 0 && q == null ==>
                && Live() == old(Live())
                && (|| Needed(size) < size || OverLimit(old(statCur), size, p)
                    || Refused(old(asked), asked, Needed(size)))
      ensures q != null ==>
                && fresh(q) && q.size == size && q.data == Moved(old(p.data), size)
                && Live() == [q] + Without(old(Live()), p)
      ensures useLimit && q != null ==> statCur <= allocLimit
      ensures q == null ==> statCur <= old(statCur)
      ensures Within(chain, Plus(q, old(chain))) && Within(grabs, old(grabs))
      ensures q == null && size != 0 ==> p.data == old(p.data)
      ensures forall b :: b in old(chain) && b != p ==> b.data == old(b.data)
      ensures Kept(old(chain))
      ensures OfKind(grabs, Grabbed) == old(OfKind(grabs, Grabbed))
    {
      if size == 0 {
        LiveTracked(p);
        Free(p);
        return null;
      }
      q := ReallocTested(p, size);
    }

    /** mwRealloc from its ownership test on. */
    method ReallocTested(p: Block, size: nat) returns (q: Block?)
      requires Valid() && Pointer(p) && size < SIZE_LIMIT
      modifies this`head, this`tail, this`chain, this`dead, this`numCur, this`statCur, this`useLimit
      modifies this`grabList, this`grabSize, this`grabs, this`asked, chain, grabs`next
      ensures Valid() && useLimit == old(useLimit)
      ensures p !in old(Live()) ==> q == null
      ensures q == null ==> Live() == old(Live()) && statCur == old(statCur)
      ensures q == null && p in old(Live()) ==>
                || Needed(size) < size || OverLimit(old(statCur), size, p)
                || Refused(old(asked), asked, Needed(size))
      ensures q != null ==>
                && fresh(q) && q.size == size && q.data == Moved(old(p.data), size)
                && Live() == [q] + Without(old(Live()), p)
      ensures useLimit && q != null ==> statCur <= allocLimit
      ensures Within(chain, Plus(q, old(chain))) && Within(grabs, old(grabs))
      ensures q == null ==> p.data == old(p.data)
      ensures forall b :: b in old(chain) && b != p ==> b.data == old(b.data)
      ensures Kept(old(chain))
      ensures OfKind(grabs, Grabbed) == old(OfKind(grabs, Grabbed))
    {
      LiveTracked(p);
      var owned := IsOwned(p);
      if !owned {
        return null;
      }
      ghost var i := IndexOf(p);
      assert NodeOk(chain, dead, i);
      if p.nml {
        return null;
      }
      q := ReallocLive(p, size);
    }

    /** Resizing p with `cur` bytes in use would pass the limit. */
    ghost predicate OverLimit(cur: int, size: nat, p: Block)
      reads `useLimit, `allocLimit
    {
      useLimit && AsLong(size) + cur - AsLong(p.size) > allocLimit
    }

    /** mwRealloc on a live block: the limit is checked for the difference and then switched off. */
    method ReallocLive(p: Block, size: nat) returns (q: Block?)
      requires Valid() && p in Live() && size < SIZE_LIMIT
      modifies this`head, this`tail, this`chain, this`dead, this`numCur, this`statCur, this`useLimit
      modifies this`grabList, this`grabSize, this`grabs, this`asked, chain, grabs`next
      ensures Valid() && useLimit == old(useLimit)
      ensures q == null ==>
                && Live() == old(Live())
                && (|| Needed(size) < size || OverLimit(old(statCur), size, p)
                    || Refused(old(asked), asked, Needed(size)))
      ensures q != null ==>
                && fresh(q) && q.size == size && q.data == Moved(old(p.data), size)
                && Live() == [q] + Without(old(Live()), p)
      ensures useLimit && q != null ==> statCur <= allocLimit
      ensures q == null ==> statCur == old(statCur)
      ensures Within(chain, Plus(q, old(chain))) && Within(grabs, old(grabs))
      ensures q == null ==> p.data == old(p.data)
      ensures forall b :: b in old(chain) && b != p ==> b.data == old(b.data)
      ensures Kept(old(chain))
      ensures OfKind(grabs, Grabbed) == old(OfKind(grabs, Grabbed))
    {
      if useLimit && AsLong(size) + statCur - AsLong(p.size) > allocLimit {
        assert OverLimit(statCur, size, p);
        return null;
      }
      q := ReplaceUnlimited(p, size);
    }

    /** The replacement with the limit switched off and restored. */
    method ReplaceUnlimited(p: Block, size: nat) returns (q: Block?)
      requires Valid() && p in Live() && size < SIZE_LIMIT
      modifies this`head, this`tail, this`chain, this`dead, this`numCur, this`statCur, this`useLimit
      modifies this`grabList, this`grabSize, this`grabs, this`asked, chain, grabs`next
      ensures Valid() && useLimit == old(useLimit)
      ensures if q == null
              then Live() == old(Live()) && statCur == old(statCur)
                   && (Needed(size) < size || Refused(old(asked), asked, Needed(size)))
              else fresh(q) && q.size == size && q.data == Moved(old(p.data), size)
                   && Live() == [q] + Without(old(Live()), p)
                   && statCur == old(statCur) + AsLong(size) - AsLong(p.size)
      ensures Within(chain, Plus(q, old(chain))) && Within(grabs, old(grabs)) && Kept(old(chain))
      ensures q == null ==> p.data == old(p.data)
      ensures forall b :: b in old(chain) && b != p ==> b.data == old(b.data)
      ensures OfKind(grabs, Grabbed) == old(OfKind(grabs, Grabbed))
    {
      var oldUseLimit := useLimit;
      useLimit := false;
      q := Replace(p, size);
      assert GrabsLinked();
      useLimit := oldUseLimit;
      assert GrabsLinked();
    }

    /** mwRealloc's malloc, copy and free. */
    method Replace(p: Block, size: nat) returns (q: Block?)
      requires Valid() && !useLimit && p in Live() && size < SIZE_LIMIT
      modifies this`head, this`tail, this`chain, this`dead, this`numCur, this`statCur
      modifies this`grabList, this`grabSize, this`grabs, this`asked, chain, grabs`next
      ensures Valid()
      ensures if q == null
              then Live() == old(Live()) && statCur == old(statCur)
                   && (Needed(size) < size || Refused(old(asked), asked, Needed(size)))
              else fresh(q) && q.size == size && q.data == Moved(old(p.data), size)
                   && Live() == [q] + Without(old(Live()), p)
                   && statCur == old(statCur) + AsLong(size) - AsLong(p.size)
      ensures Within(chain, Plus(q, old(chain))) && Within(grabs, old(grabs)) && Kept(old(chain))
      ensures q == null ==> p.data == old(p.data)
      ensures forall b :: b in old(chain) && b != p ==> b.data == old(b.data)
      ensures OfKind(grabs, Grabbed) == old(OfKind(grabs, Grabbed))
    {
      ghost var before, live := chain, Live();
      LiveTracked(p);
      q := Malloc(size);
      if q != null {
        FillAndFree(q, p, before, live);
      }
      assert Linked() && Accounted() && GrabsLinked();
    }

    /** The copy and the free; `before` and `live` are the chain and the live blocks before the malloc. */
    method FillAndFree(q: Block, p: Block, ghost before: seq<Block>, ghost live: seq<Block>)
      requires Valid() && Live() == [q] + live && p in live && p != q && q.data == Filled(q.size, MW_VAL_NEW)
      requires Within(chain, Plus(q, before)) && Kept(before)
      modifies this`head, this`tail, this`chain, this`dead, this`numCur, this`statCur
      modifies chain`prev, chain`next, chain`nml, chain`check, chain`data
      ensures Valid() && Live() == [q] + Without(live, p) && statCur == old(statCur) - AsLong(p.size)
      ensures q.data == Moved(old(p.data), q.size)
      ensures forall b :: b in before && b != p && b != q ==> b.data == old(b.data)
      ensures Within(chain, Plus(q, before)) && Kept(before)
    {
      ghost var with := chain;
      assert p in [q] + live && ([q] + live)[1..] == live;
      LiveTracked(p);
      LiveTracked(q);
      CopyBytes(q, p);
      Free(p);
      WithinTrans(chain, with, Plus(q, before));
      KeptTrans(before, with, chain);
    }

    method CopyBytes(q: Block, p: Block)
      requires Linked() && q in Live() && p in Live() && p != q && q.data == Filled(q.size, MW_VAL_NEW)
      modifies q`data
      ensures Linked() && q.data == Moved(p.data, q.size)
    {
      LiveTracked(p);
      LiveTracked(q);
      assert NodeOk(chain, dead, IndexOf(p)) && NodeOk(chain, dead, IndexOf(q));
      assert forall k :: 0 <= k < |chain| ==> NodeOk(chain, dead, k);
      q.data := if q.size < p.size then p.data[..q.size] else p.data + q.data[p.size..];
      assert q.data == Moved(p.data, q.size);
      assert forall k :: 0 <= k < |chain| ==> NodeOk(chain, dead, k);
    }

    /** The system allocator, asked again after mwFreeUp when it refuses. */
    method Obtain(needed: nat) returns (ok: bool)
      requires Valid()
      modifies this`head, this`tail, this`chain, this`grabList, this`grabSize, this`grabs, this`asked
      modifies chain`prev, chain`next, chain`purged, grabs`next
      ensures Valid() && Live() == old(Live()) && Within(chain, old(chain)) && Within(grabs, old(grabs))
      ensures if ok then needed <= LONG_MAX else Refused(old(asked), asked, needed)
      ensures Kept(old(chain))
      ensures OfKind(grabs, Grabbed) == old(OfKind(grabs, Grabbed))
    {
      ok := SysMalloc(needed);
      if !ok {
        ok := ObtainAgain(needed);
      }
    }

    /** The second try behind mwFreeUp; the system has refused once. */
    method ObtainAgain(needed: nat) returns (ok: bool)
      requires Valid() && asked.count > 0 && asked.last == Ask(needed, false)
      modifies this`head, this`tail, this`chain, this`grabList, this`grabSize, this`grabs, this`asked
      modifies chain`prev, chain`next, chain`purged, grabs`next
      ensures Valid() && Live() == old(Live()) && Within(chain, old(chain)) && Within(grabs, old(grabs))
      ensures Kept(old(chain)) && asked.count >= old(asked).count
      ensures if ok then needed <= LONG_MAX else asked.last == Ask(needed, false)
      ensures OfKind(grabs, Grabbed) == old(OfKind(grabs, Grabbed))
    {
      var freed := FreeUp(needed, false);
      if freed < needed {
        return false;
      }
      assert Linked() && Accounted() && GrabsLinked();
      ok := SysMalloc(needed);
    }

    method DropOne(pr: Grab?, gd: Grab, ghost i: nat, ghost all: seq<Grab>, ghost n: nat, ghost most: nat,
                   ghost kind: GrabKind)
      requires GrabsLinked() && i < |grabs| && gd == grabs[i] && gd.kind == kind
      requires pr == if i == 0 then null else grabs[i - 1]
      requires Dropping(all, grabs, i, n, most, kind) && n < most
      modifies this`grabList, this`grabSize, this`grabs, grabs`next
      ensures GrabsLinked() && grabs == Cut(old(grabs), i) && Dropping(all, grabs, i, n + 1, most, kind)
    {
      DroppingTake(all, grabs, i, n, most, kind);
      Unhook(pr, gd, i);
    }

    /** Takes entry i out of the grab list. */
    method Unhook(pr: Grab?, gd: Grab, ghost i: nat)
      requires GrabsLinked() && i < |grabs| && gd == grabs[i]
      requires pr == if i == 0 then null else grabs[i - 1]
      modifies this`grabList, this`grabSize, this`grabs, grabs`next
      ensures GrabsLinked() && grabs == Cut(old(grabs), i)
    {
      ghost var before := grabs;
      assert forall k :: 0 <= k < |before| ==> GrabOk(before, k);
      assert GrabOk(before, i) && (i > 0 ==> before[0] != gd);
      if pr != null {
        pr.next := gd.next;
      }
      if grabList == gd {
        grabList := gd.next;
      }
      grabSize := grabSize - GRAB_BYTES;
      grabs := Cut(before, i);
      forall j | 0 <= j < |grabs|
        ensures GrabOk(grabs, j)
      {
        var k := if j < i then j else j + 1;
        assert grabs[j] == before[k] && old(GrabOk(before, k));
      }
    }

    /**
     * The accounting over whole runs: whatever sequence of calls a client makes, on blocks it holds, on null and on
     * blocks it has freed, with changes of the limit, the no-mans-land level and the grabbed memory in between, the
     * held blocks are exactly the live ones and what the answers of the calls make of the first ones, the two
     * counters are their number and their bytes, and limit, level and grabbed memory are what the calls say. Unless
     * the limit is changed, bytes within it stay within it. A freed block stays out of the live ones, and may be
     * passed again until mwFreeUp purges it; calls on purged blocks are not made.
     */
    method Perform(ops: seq<HeapOp>, start: Holding, ghost data: seq<seq<byte>>)
      returns (end: Holding, answers: seq<Block?>, ghost counts: seq<nat>)
      requires Valid() && start.held == Live() && FreedOk(start.freed) && AllOk(ops) && Stocked(start.held, data)
      modifies this, chain, grabs`next
      ensures |answers| == |ops| && Stocked(end.held, RunData(start, data, ops, answers))
      ensures Valid() && end.held == Live() && FreedOk(end.freed)
      ensures |answers| == |ops| && end == RunOps(start, ops, answers) && IdleAnswers(ops, answers)
      ensures |counts| == |ops| && Config() == Configure(old(Config()), ops, counts)
      ensures numCur == |end.held| && statCur == Bytes(end.held) && grabSize == GRAB_BYTES * |grabs|
      ensures KeepsLimit(ops) ==> LimitKept(Limits(old(useLimit), old(allocLimit), old(statCur)))
      decreases |ops|
    {
      if ops == [] {
        return start, [], [];
      }
      var h, q;
      ghost var n;
      h, q, n := PerformOne(ops[0], start, data);
      var rest;
      ghost var others;
      end, rest, others := Perform(ops[1..], h, StepData(start, data, ops[0], q));
      answers, counts := [q] + rest, [n] + others;
      assert answers[1..] == rest && counts[1..] == others;
    }

    method PerformOne(op: HeapOp, h: Holding, ghost data: seq<seq<byte>>)
      returns (after: Holding, answer: Block?, ghost n: nat)
      requires Valid() && h.held == Live() && FreedOk(h.freed) && OpOk(op) && Stocked(h.held, data)
      modifies this, chain, grabs`next
      ensures Valid() && after.held == Live() && FreedOk(after.freed)
      ensures after == Step(h, op, answer) && Config() == Configured(old(Config()), op, n)
      ensures Stocked(after.held, StepData(h, data, op, answer))
      ensures Idle(op) ==> answer == null
      ensures !op.LimitOp? ==> LimitKept(Limits(old(useLimit), old(allocLimit), old(statCur)))
      ensures forall i :: 0 <= i < |chain| ==> chain[i] in old(chain) || fresh(chain[i])
      ensures forall i :: 0 <= i < |grabs| ==> grabs[i] in old(grabs) || fresh(grabs[i])
    {
      after, answer, n := h, null, 0;
      NoStep(h, op, Config(), data);
      if Idle(op) {
        PerformIdle(op, h, data);
      } else if ChangesSetup(op) {
        n := PerformSetup(op, h, data);
      } else if op.WriteOp? {
        PerformWrite(op, h, data);
      } else {
        after, answer, n := PerformBlocks(op, h, data);
      }
    }

    /** The calls that allocate, free, resize or give back. */
    method PerformBlocks(op: HeapOp, h: Holding, ghost data: seq<seq<byte>>)
      returns (after: Holding, answer: Block?, ghost n: nat)
      requires Valid() && h.held == Live() && FreedOk(h.freed) && OpOk(op) && !Idle(op) && !ChangesSetup(op)
      requires !op.WriteOp? && Stocked(h.held, data)
      modifies this, chain, grabs`next
      ensures Valid() && after.held == Live() && FreedOk(after.freed)
      ensures after == Step(h, op, answer) && Config() == Configured(old(Config()), op, n)
      ensures Stocked(after.held, StepData(h, data, op, answer))
      ensures LimitKept(Limits(old(useLimit), old(allocLimit), old(statCur)))
      ensures forall i :: 0 <= i < |chain| ==> chain[i] in old(chain) || fresh(chain[i])
      ensures forall i :: 0 <= i < |grabs| ==> grabs[i] in old(grabs)
    {
      after, answer, n := h, null, 0;
      match op {
        case MallocOp(size) =>
          after, answer := PerformMalloc(size, h, data);
        case FreeOp(k) =>
          if k < |h.held| {
            after := PerformFree(k, h, data);
          }
          assert Stocked(after.held, StepData(h, data, op, answer));
        case ReallocOp(k, size) =>
          if k < |h.held| {
            after, answer := PerformRealloc(k, size, h, data);
          }
        case ReallocNullOp(size) =>
          after, answer := PerformReallocNull(size, h, data);
        case FreeUpOp(needed, urgent) =>
          n := PerformFreeUp(needed, urgent, h, data);
      }
    }

    /** mwLimit, mwNoMansLand, mwGrab and mwDrop touch no tracked block. */
    method PerformSetup(op: HeapOp, h: Holding, ghost data: seq<seq<byte>>) returns (ghost n: nat)
      requires Valid() && h.held == Live() && FreedOk(h.freed) && ChangesSetup(op) && Stocked(h.held, data)
      modifies this`useLimit, this`allocLimit, this`nmlMode, this`grabList, this`grabSize, this`grabs, this`asked
      modifies grabs`next
      ensures Valid() && h.held == Live() && FreedOk(h.freed) && Config() == Configured(old(Config()), op, n)
      ensures Stocked(h.held, data)
      ensures forall i :: 0 <= i < |grabs| ==> grabs[i] in old(grabs) || fresh(grabs[i])
    {
      n := ChangeSetup(op);
    }

    method ChangeSetup(op: HeapOp) returns (ghost n: nat)
      requires GrabsLinked() && ChangesSetup(op)
      modifies this`useLimit, this`allocLimit, this`nmlMode, this`grabList, this`grabSize, this`grabs, this`asked
      modifies grabs`next
      ensures GrabsLinked() && Config() == Configured(old(Config()), op, n)
      ensures forall i :: 0 <= i < |grabs| ==> grabs[i] in old(grabs) || fresh(grabs[i])
    {
      n := 0;
      match op {
        case LimitOp(lim) =>
          Limit(lim);
        case LevelOp(level) =>
          PerformLevel(level);
        case GrabOp(kb) =>
          n := PerformGrab(kb);
        case DropOp(kb) =>
          PerformDrop(kb);
      }
    }

    method PerformLevel(level: int)
      requires GrabsLinked()
      modifies this`grabList, this`grabSize, this`grabs, this`nmlMode, this`asked, grabs`next
      ensures GrabsLinked() && Config() == Configured(old(Config()), LevelOp(level), 0)
      ensures forall i :: 0 <= i < |grabs| ==> grabs[i] in old(grabs) || fresh(grabs[i])
    {
      if level == 0 {
        DropConserves(grabs, 60000, NoMansLand);
      }
      NoMansLandLevel(level);
    }

    method PerformGrab(kb: nat) returns (ghost n: nat)
      requires GrabsLinked()
      modifies this`grabList, this`grabSize, this`grabs, this`asked
      ensures GrabsLinked() && Config() == Configured(old(Config()), GrabOp(kb), n)
      ensures forall i :: 0 <= i < |grabs| ==> grabs[i] in old(grabs) || fresh(grabs[i])
    {
      ghost var before := grabs;
      var got := GrabMem(kb, Grabbed);
      n := got;
      assert forall i :: n <= i < |grabs| ==> grabs[i] == before[i - n];
      GrabbedMore(grabs, n, before, Grabbed);
    }

    method PerformDrop(kb: nat)
      requires GrabsLinked()
      modifies this`grabList, this`grabSize, this`grabs, grabs`next
      ensures GrabsLinked() && Config() == Configured(old(Config()), DropOp(kb), 0)
      ensures forall i :: 0 <= i < |grabs| ==> grabs[i] in old(grabs)
    {
      DropConserves(grabs, MostDropped(kb), Grabbed);
      DropSubset(grabs, MostDropped(kb), Grabbed);
      var _ := DropMem(kb, Grabbed);
    }

    /** A client writes a byte of a block it holds. */
    method PerformWrite(op: HeapOp, h: Holding, ghost data: seq<seq<byte>>)
      requires Valid() && h.held == Live() && FreedOk(h.freed) && op.WriteOp? && Stocked(h.held, data)
      modifies chain`data
      ensures Valid() && h.held == Live() && FreedOk(h.freed) && Config() == old(Config())
      ensures Stocked(h.held, StepData(h, data, op, null))
    {
      if op.k < |h.held| && op.at < |h.held[op.k].data| {
        LiveAt(op.k);
        PutByte(h.held[op.k], op.at, op.v);
      }
    }

    method PutByte(p: Block, at: nat, v: byte)
      requires Linked() && p in chain && at < |p.data|
      modifies p`data
      ensures Linked() && p.data == Written(old(p.data), at, v)
    {
      assert forall k :: 0 <= k < |chain| ==> NodeOk(chain, dead, k);
      p.data := p.data[at := v];
      forall k | 0 <= k < |chain|
        ensures NodeOk(chain, dead, k)
      {
        assert old(NodeOk(chain, dead, k));
      }
    }

    method PerformIdle(op: HeapOp, h: Holding, ghost data: seq<seq<byte>>)
      requires Valid() && h.held == Live() && FreedOk(h.freed) && OpOk(op) && Idle(op) && Stocked(h.held, data)
      modifies this, chain, grabs`next
      ensures Valid() && h.held == Live() && FreedOk(h.freed) && numCur == old(numCur) && statCur == old(statCur)
      ensures Stocked(h.held, data)
      ensures Config() == old(Config())
      ensures LimitKept(Limits(old(useLimit), old(allocLimit), old(statCur)))
      ensures forall i :: 0 <= i < |chain| ==> chain[i] in old(chain) || fresh(chain[i])
      ensures forall i :: 0 <= i < |grabs| ==> grabs[i] in old(grabs)
    {
      match op {
        case FreeNullOp =>
          PerformFreeAgain(null, h, data);
        case FreeAgainOp(k) =>
          if k < |h.freed| {
            PerformFreeAgain(h.freed[k], h, data);
          }
        case ReallocFreedOp(k, size) =>
          if k < |h.freed| {
            PerformReallocFreed(h.freed[k], size, h, data);
          }
      }
    }

    method PerformMalloc(size: nat, h: Holding, ghost data: seq<seq<byte>>) returns (after: Holding, q: Block?)
      requires Valid() && h.held == Live() && FreedOk(h.freed) && size < SIZE_LIMIT && Stocked(h.held, data)
      modifies this, chain, grabs`next
      ensures Valid() && after.held == Live() && FreedOk(after.freed)
      ensures Stocked(after.held, PlusData(q, Filled(size, MW_VAL_NEW), data))
      ensures after == Holding(Plus(q, h.held), h.freed)
      ensures Config() == old(Config())
      ensures LimitKept(Limits(old(useLimit), old(allocLimit), old(statCur)))
      ensures forall i :: 0 <= i < |chain| ==> chain[i] in old(chain) || fresh(chain[i])
      ensures forall i :: 0 <= i < |grabs| ==> grabs[i] in old(grabs)
    {
      q := MallocHeld(size, h.held, h.freed);
      after := Holding(if q == null then h.held else [q] + h.held, h.freed);
      StockedPlus(q, Filled(size, MW_VAL_NEW), h.held, data);
    }

    /** mwMalloc beside held blocks and blocks freed before. */
    method MallocHeld(size: nat, ghost live: seq<Block>, ghost freed: seq<Block>) returns (q: Block?)
      requires Valid() && live == Live() && FreedOk(freed) && size < SIZE_LIMIT
      modifies this`head, this`tail, this`chain, this`numCur, this`statCur, this`grabList, this`grabSize, this`grabs
      modifies this`asked, chain`prev, chain`next, chain`purged, grabs`next
      ensures Valid() && Live() == Plus(q, live) && Config() == old(Config())
      ensures q != null ==> fresh(q) && q.data == Filled(size, MW_VAL_NEW)
      ensures LimitKept(Limits(old(useLimit), old(allocLimit), old(statCur)))
      ensures Within(chain, Plus(q, old(chain))) && Within(grabs, old(grabs))
      ensures KeptIn(freed, old(chain)) && KeptIn(old(chain), chain)
    {
      q := Malloc(size);
    }

    method PerformReallocNull(size: nat, h: Holding, ghost data: seq<seq<byte>>) returns (after: Holding, q: Block?)
      requires Valid() && h.held == Live() && FreedOk(h.freed) && size < SIZE_LIMIT && Stocked(h.held, data)
      modifies this, chain, grabs`next
      ensures Valid() && after.held == Live() && FreedOk(after.freed)
      ensures Stocked(after.held, PlusData(q, Filled(size, MW_VAL_NEW), data))
      ensures after == Holding(Plus(q, h.held), h.freed)
      ensures Config() == old(Config())
      ensures LimitKept(Limits(old(useLimit), old(allocLimit), old(statCur)))
      ensures forall i :: 0 <= i < |chain| ==> chain[i] in old(chain) || fresh(chain[i])
      ensures forall i :: 0 <= i < |grabs| ==> grabs[i] in old(grabs)
    {
      q := ReallocNullHeld(size, h.held, h.freed, data);
      after := Holding(if q == null then h.held else [q] + h.held, h.freed);
      StockedPlus(q, Filled(size, MW_VAL_NEW), h.held, data);
    }

    /** mwRealloc on null beside held blocks and blocks freed before. */
    method ReallocNullHeld(size: nat, ghost live: seq<Block>, ghost freed: seq<Block>, ghost data: seq<seq<byte>>)
      returns (q: Block?)
      requires Valid() && live == Live() && FreedOk(freed) && size < SIZE_LIMIT && Stocked(live, data)
      modifies this, chain, grabs`next
      ensures Valid() && Live() == Plus(q, live) && Config() == old(Config()) && Stocked(live, data)
      ensures q != null ==> fresh(q) && q.data == Filled(size, MW_VAL_NEW)
      ensures LimitKept(Limits(old(useLimit), old(allocLimit), old(statCur)))
      ensures Within(chain, Plus(q, old(chain))) && Within(grabs, old(grabs))
      ensures KeptIn(freed, old(chain)) && KeptIn(old(chain), chain)
    {
      AllTracked(live);
      q := Realloc(null, size);
    }

    lemma AllTracked(live: seq<Block>)
      requires Linked() && live == Live()
      ensures forall i :: 0 <= i < |live| ==> live[i] in chain
    {
      forall i | 0 <= i < |live|
        ensures live[i] in chain
      {
        LiveTracked(live[i]);
      }
    }

    method PerformFree(k: nat, h: Holding, ghost data: seq<seq<byte>>) returns (after: Holding)
      requires Valid() && h.held == Live() && FreedOk(h.freed) && k < |h.held| && Stocked(h.held, data)
      modifies this, chain, grabs`next
      ensures Valid() && after.held == Live() && FreedOk(after.freed)
      ensures Stocked(after.held, Cut(data, k))
      ensures after == Replaced(h, k, null)
      ensures Config() == old(Config())
      ensures LimitKept(Limits(old(useLimit), old(allocLimit), old(statCur)))
      ensures forall i :: 0 <= i < |chain| ==> chain[i] in old(chain) || fresh(chain[i])
      ensures forall i :: 0 <= i < |grabs| ==> grabs[i] in old(grabs)
    {
      LiveAt(k);
      ghost var before := chain;
      StockedCut(h.held, data, k);
      FreeHeld(h.held[k], k, h.held, h.freed, Cut(data, k));
      after := Holding(Cut(h.held, k), [h.held[k]] + h.freed);
      FreedAfter(h, k, null, before);
    }

    /** mwFree on a block that is held, beside blocks freed before. */
    method FreeHeld(p: Block, ghost k: nat, ghost live: seq<Block>, ghost freed: seq<Block>,
                    ghost rest: seq<seq<byte>>)
      requires Valid() && live == Live() && k < |live| && p == live[k] && Pointer(p) && Stocked(Cut(live, k), rest)
      requires Without(live, p) == Cut(live, k) && FreedOk(freed)
      modifies this`head, this`tail, this`chain, this`dead, this`numCur, this`statCur
      modifies chain`prev, chain`next, chain`nml, chain`check, chain`data
      ensures Valid() && Live() == Cut(live, k) && statCur <= old(statCur) && Within(chain, old(chain))
      ensures KeptIn(freed, old(chain)) && KeptIn(old(chain), chain) && Stocked(Cut(live, k), rest)
    {
      OthersTracked(p, k, live);
      Free(p);
    }

    /** The live blocks but for one are in the chain and are not that one. */
    lemma OthersTracked(p: Block, k: nat, live: seq<Block>)
      requires Linked() && live == Live() && k < |live| && p == live[k]
      ensures forall i :: 0 <= i < |live| - 1 ==> Cut(live, k)[i] in chain && Cut(live, k)[i] != p
    {
      LiveDistinct(chain, dead);
      forall i | 0 <= i < |live| - 1
        ensures Cut(live, k)[i] in chain && Cut(live, k)[i] != p
      {
        var j := if i < k then i else i + 1;
        assert Cut(live, k)[i] == live[j];
        LiveTracked(live[j]);
      }
    }

    method PerformRealloc(k: nat, size: nat, h: Holding, ghost data: seq<seq<byte>>)
      returns (after: Holding, q: Block?)
      requires Valid() && h.held == Live() && FreedOk(h.freed) && k < |h.held| && size < SIZE_LIMIT
      requires Stocked(h.held, data)
      modifies this, chain, grabs`next
      ensures Valid() && after.held == Live() && FreedOk(after.freed)
      ensures if q != null || size == 0 then Stocked(after.held, PlusData(q, Moved(data[k], size), Cut(data, k)))
              else Stocked(after.held, data)
      ensures after == if q != null || size == 0 then Replaced(h, k, q) else h
      ensures Config() == old(Config())
      ensures LimitKept(Limits(old(useLimit), old(allocLimit), old(statCur)))
      ensures forall i :: 0 <= i < |chain| ==> chain[i] in old(chain) || fresh(chain[i])
      ensures forall i :: 0 <= i < |grabs| ==> grabs[i] in old(grabs)
    {
      LiveAt(k);
      ghost var before := chain;
      StockedCut(h.held, data, k);
      q := ReallocHeld(h.held[k], k, size, h.held, h.freed, data[k], Cut(data, k));
      if q != null || size == 0 {
        FreedAfter(h, k, q, before);
        StockedPlus(q, Moved(data[k], size), Cut(h.held, k), Cut(data, k));
        after := Holding((if q == null then [] else [q]) + Cut(h.held, k), [h.held[k]] + h.freed);
      } else {
        KeptTrans(h.freed, before, chain);
        StockedWhole(h.held, data, k);
        after := h;
      }
    }

    /** mwRealloc on a block that is held, beside blocks freed before. */
    method ReallocHeld(p: Block, ghost k: nat, size: nat, ghost live: seq<Block>, ghost freed: seq<Block>,
                       ghost bytes: seq<byte>, ghost rest: seq<seq<byte>>)
      returns (q: Block?)
      requires Valid() && live == Live() && k < |live| && p == live[k] && p in live && Pointer(p) && size < SIZE_LIMIT
      requires p.data == bytes && Stocked(Cut(live, k), rest)
      requires Without(live, p) == Cut(live, k) && FreedOk(freed)
      modifies this, chain, grabs`next
      ensures Valid() && Config() == old(Config()) && (q != null ==> fresh(q))
      ensures Live() == if q != null || size == 0 then Plus(q, Cut(live, k)) else live
      ensures LimitKept(Limits(old(useLimit), old(allocLimit), old(statCur)))
      ensures Within(chain, Plus(q, old(chain))) && Within(grabs, old(grabs))
      ensures KeptIn(freed, old(chain)) && KeptIn(old(chain), chain) && Stocked(Cut(live, k), rest)
      ensures q != null ==> q.data == Moved(bytes, size)
      ensures q == null && size != 0 ==> p.data == bytes
    {
      OthersTracked(p, k, live);
      q := Realloc(p, size);
    }

    method PerformFreeUp(needed: nat, urgent: bool, h: Holding, ghost data: seq<seq<byte>>) returns (ghost n: nat)
      requires Valid() && h.held == Live() && FreedOk(h.freed) && Stocked(h.held, data)
      modifies this, chain, grabs`next
      ensures Valid() && h.held == Live() && FreedOk(h.freed) && Stocked(h.held, data)
      ensures Config() == Configured(old(Config()), FreeUpOp(needed, urgent), n) && statCur == old(statCur)
      ensures forall i :: 0 <= i < |chain| ==> chain[i] in old(chain) || fresh(chain[i])
      ensures forall i :: 0 <= i < |grabs| ==> grabs[i] in old(grabs)
    {
      ghost var before := |OfKind(grabs, Grabbed)|;
      var _ := FreeUp(needed, urgent);
      n := before - |OfKind(grabs, Grabbed)|;
    }

    /** Block k of the held ones has joined the freed ones, and q the held ones. */
    lemma FreedAfter(h: Holding, k: nat, q: Block?, before: seq<Block>)
      requires k < |h.held| && Distinct(h.held) && Apart(h.freed, h.held) && q !in h.freed && q != h.held[k]
      requires Live() == Plus(q, Cut(h.held, k)) && h.held[k] in before
      requires KeptIn(h.freed, before) && KeptIn(before, chain)
      ensures FreedOk([h.held[k]] + h.freed)
    {
      ApartAfter(h.freed, h.held, k, q);
      KeptTrans(h.freed, before, chain);
    }

    /** mwFree on null or on a block freed before. */
    method PerformFreeAgain(p: Block?, h: Holding, ghost data: seq<seq<byte>>)
      requires Valid() && h.held == Live() && FreedOk(h.freed) && (p == null || p in h.freed) && Stocked(h.held, data)
      modifies this, chain, grabs`next
      ensures Valid() && h.held == Live() && FreedOk(h.freed) && numCur == old(numCur) && statCur == old(statCur)
      ensures Stocked(h.held, data)
      ensures Config() == old(Config())
      ensures LimitKept(Limits(old(useLimit), old(allocLimit), old(statCur)))
      ensures forall i :: 0 <= i < |chain| ==> chain[i] in old(chain) || fresh(chain[i])
      ensures forall i :: 0 <= i < |grabs| ==> grabs[i] in old(grabs)
    {
      if p == null || !p.purged {
        ghost var before := chain;
        Free(p);
        KeptTrans(h.freed, before, chain);
      }
    }

    /** mwRealloc on a block freed before. */
    method PerformReallocFreed(p: Block, size: nat, h: Holding, ghost data: seq<seq<byte>>)
      requires Valid() && h.held == Live() && FreedOk(h.freed) && p in h.freed && size < SIZE_LIMIT
      requires Stocked(h.held, data)
      modifies this, chain, grabs`next
      ensures Valid() && h.held == Live() && FreedOk(h.freed) && numCur == old(numCur) && statCur == old(statCur)
      ensures Stocked(h.held, data)
      ensures Config() == old(Config())
      ensures LimitKept(Limits(old(useLimit), old(allocLimit), old(statCur)))
      ensures forall i :: 0 <= i < |chain| ==> chain[i] in old(chain) || fresh(chain[i])
      ensures forall i :: 0 <= i < |grabs| ==> grabs[i] in old(grabs)
    {
      if !p.purged {
        ghost var before := chain;
        var q := Realloc(p, size);
        KeptTrans(h.freed, before, chain);
      }
    }

    /** A block that is held is tracked, and taking it out of the held ones is taking out its index. */
    lemma LiveAt(k: nat)
      requires Linked() && k < |Live()|
      ensures Pointer(Live()[k]) && Live()[k] in Live() && Live()[k] in chain && Distinct(Live())
      ensures Without(Live(), Live()[k]) == Cut(Live(), k)
    {
      LiveTracked(Live()[k]);
      LiveDistinct(chain, dead);
      WithoutAt(Live(), k, Live()[k]);
    }
  }

  ghost function OtherKind(kind: GrabKind): GrabKind {
    if kind == Grabbed then NoMansLand else Grabbed
  }

  /** After n of at most `most` drops and with i entries skipped, `grabs` is what is left of `all`. */
  ghost predicate Dropping(all: seq<Grab>, grabs: seq<Grab>, i: nat, n: nat, most: nat, kind: GrabKind) {
    && i <= |grabs| && n <= most && OfKind(grabs[..i], kind) == []
    && DropFirst(grabs, most - n, kind) == DropFirst(all, most, kind)
    && |OfKind(all, kind)| == n + |OfKind(grabs, kind)|
    && forall k :: 0 <= k < |grabs| ==> grabs[k] in all
  }

  lemma DroppingTake(all: seq<Grab>, grabs: seq<Grab>, i: nat, n: nat, most: nat, kind: GrabKind)
    requires Dropping(all, grabs, i, n, most, kind) && i < |grabs| && n < most && grabs[i].kind == kind
    ensures Dropping(all, Cut(grabs, i), i, n + 1, most, kind)
  {
    var a, g, rest := grabs[..i], grabs[i], grabs[i + 1..];
    TakenApart(grabs, i, a, g, rest);
    DropStep(a, g, rest, most - n, kind);
    TakenCount(a, g, rest, kind);
    CutWithin(grabs, i);
  }

  lemma TakenApart(s: seq<Grab>, i: nat, a: seq<Grab>, g: Grab, rest: seq<Grab>)
    requires i < |s| && a == s[..i] && g == s[i] && rest == s[i + 1..]
    ensures s == a + ([g] + rest) && Cut(s, i) == a + rest && Cut(s, i)[..i] == a
  {
  }

  lemma TakenCount(a: seq<Grab>, g: Grab, rest: seq<Grab>, kind: GrabKind)
    requires g.kind == kind
    ensures |OfKind(a + ([g] + rest), kind)| == 1 + |OfKind(a + rest, kind)|
  {
    KindSplit(a, [g] + rest, kind);
    KindSplit(a, rest, kind);
    assert ([g] + rest)[1..] == rest;
  }

  lemma CutWithin(s: seq<Grab>, i: nat)
    requires i < |s|
    ensures Within(Cut(s, i), s)
  {
    forall k | 0 <= k < |s| - 1
      ensures Cut(s, i)[k] in s
    {
      assert Cut(s, i)[k] == s[if k < i then k else k + 1];
    }
  }

  lemma DroppingSkip(all: seq<Grab>, grabs: seq<Grab>, i: nat, n: nat, most: nat, kind: GrabKind)
    requires Dropping(all, grabs, i, n, most, kind) && i < |grabs| && grabs[i].kind != kind
    ensures Dropping(all, grabs, i + 1, n, most, kind)
  {
    KindSplit(grabs[..i], [grabs[i]], kind);
    assert grabs[..i + 1] == grabs[..i] + [grabs[i]];
  }

  lemma DroppingEnds(all: seq<Grab>, grabs: seq<Grab>, i: nat, n: nat, most: nat, kind: GrabKind)
    requires Dropping(all, grabs, i, n, most, kind) && (i == |grabs| || n == most)
    ensures n == MinNat(most, |OfKind(all, kind)|) && grabs == DropFirst(all, most, kind)
  {
    if i == |grabs| {
      assert grabs[..i] == grabs;
      DropAllGone(grabs, most - n, kind);
    }
  }

  ghost predicate AllOf(grabs: seq<Grab>, kind: GrabKind) {
    forall k :: 0 <= k < |grabs| ==> grabs[k].kind == kind
  }

  lemma {:induction false} NoneOfOther(grabs: seq<Grab>, kind: GrabKind)
    requires AllOf(grabs, kind)
    ensures OfKind(grabs, OtherKind(kind)) == []
  {
    if grabs != [] {
      NoneOfOther(grabs[1..], kind);
    }
  }

  lemma GrabbedMore(grabs: seq<Grab>, n: nat, before: seq<Grab>, kind: GrabKind)
    requires |grabs| == n + |before| && grabs[n..] == before && AllOf(grabs[..n], kind)
    ensures |OfKind(grabs, kind)| == n + |OfKind(before, kind)|
  {
    assert grabs == grabs[..n] + before;
    KindSplit(grabs[..n], before, kind);
    AllAreOfKind(grabs[..n], kind);
  }

  lemma {:induction false} AllAreOfKind(grabs: seq<Grab>, kind: GrabKind)
    requires AllOf(grabs, kind)
    ensures OfKind(grabs, kind) == grabs
  {
    if grabs != [] {
      AllAreOfKind(grabs[1..], kind);
    }
  }

  lemma MoreOfKind(grabs: seq<Grab>, n: nat, before: seq<Grab>, kind: GrabKind)
    requires |grabs| == n + |before| && grabs[n..] == before && AllOf(grabs[..n], kind)
    ensures OfKind(grabs, OtherKind(kind)) == OfKind(before, OtherKind(kind))
  {
    KindSplit(grabs[..n], before, OtherKind(kind));
    NoneOfOther(grabs[..n], kind);
    assert grabs == grabs[..n] + before;
  }

  /** Dropping as many as were just grabbed restores the grab list. */
  lemma {:induction false} GrabDropRoundTrip(grabbed: seq<Grab>, before: seq<Grab>, kind: GrabKind)
    requires AllOf(grabbed, kind)
    ensures DropFirst(grabbed + before, |grabbed|, kind) == before
  {
    if grabbed == [] {
      assert grabbed + before == before;
    } else {
      GrabDropRoundTrip(grabbed[1..], before, kind);
      assert (grabbed + before)[1..] == grabbed[1..] + before;
    }
  }

  lemma {:induction false} DropSubset(grabs: seq<Grab>, kb: nat, kind: GrabKind)
    ensures Within(DropFirst(grabs, kb, kind), grabs)
  {
    if grabs != [] && kb != 0 {
      DropSubset(grabs[1..], if grabs[0].kind == kind then kb - 1 else kb, kind);
    }
  }

  lemma {:induction false} KindSplit(a: seq<Grab>, b: seq<Grab>, kind: GrabKind)
    ensures OfKind(a + b, kind) == OfKind(a, kind) + OfKind(b, kind)
  {
    if a == [] {
      assert a + b == b;
    } else {
      KindSplit(a[1..], b, kind);
      assert (a + b)[0] == a[0] && (a + b)[1..] == a[1..] + b;
      var first := if a[0].kind == kind then [a[0]] else [];
      Regroup(first, OfKind(a[1..], kind), OfKind(b, kind));
    }
  }

  lemma {:induction false} DropAllGone(grabs: seq<Grab>, kb: nat, kind: GrabKind)
    requires OfKind(grabs, kind) == []
    ensures DropFirst(grabs, kb, kind) == grabs
  {
    if grabs != [] {
      DropAllGone(grabs[1..], kb, kind);
    }
  }
}
