// Which sections of a table have been received: the tablectl functions of am_mw/am_epg/am_epg.c, with the
// reception rules for EIT segments of EN 300 468 section 5.2.4.

module SectionTable {
  import opened Bits
  import opened BitTests

  const NO_VERSION := 0xFF

  // ---- the bit macros ---------------------------------------------------------------------------

  type Mask = m: seq<byte> | |m| == 32 witness NoSections()

  function NoSections(): (m: seq<byte>)
    ensures |m| == 32 && forall k :: 0 <= k < 32 ==> m[k] == 0
  {
    seq(32, _ => 0)
  }

  type Section = i: nat | i < 256

  /** Section i is still missing. */
  predicate InMask(m: Mask, i: Section) {
    Bit(m[i / 8], i % 8)
  }

  function BitMask(b: Section): (v: byte) {
    ShlBelow(1, 1, b % 8);
    PowGrows(b % 8 + 1, 8);
    PowersOfTwo();
    Shl(1, b % 8)
  }

  function BitSet(m: Mask, b: Section): Mask {
    PowersOfTwo();
    OrBelow(m[b / 8], BitMask(b), 8);
    m[b / 8 := Or(m[b / 8], BitMask(b))]
  }

  function BitClear(m: Mask, b: Section): Mask {
    AndAtMost(m[b / 8], 255 - BitMask(b));
    m[b / 8 := And(m[b / 8], 255 - BitMask(b))]
  }

  predicate BitTest(m: Mask, b: Section) {
    And(m[b / 8], BitMask(b)) != 0
  }

  /** BIT_CLEAR_EX: clears the bits of b's byte above b. */
  function BitClearAbove(m: Mask, b: Section): Mask {
    AndAtMost(m[b / 8], Shr(0xFF, 7 - b % 8));
    m[b / 8 := And(m[b / 8], Shr(0xFF, 7 - b % 8))]
  }

  lemma BitSetMeans(m: Mask, b: Section, i: Section)
    ensures InMask(BitSet(m, b), i) <==> InMask(m, i) || i == b
  {
    if i / 8 == b / 8 {
      BitOr(m[b / 8], BitMask(b), i % 8);
      BitOfOne(b % 8, i % 8);
    }
  }

  lemma BitClearMeans(m: Mask, b: Section, i: Section)
    ensures InMask(BitClear(m, b), i) <==> InMask(m, i) && i != b
  {
    if i / 8 == b / 8 {
      PowersOfTwo();
      BitAnd(m[b / 8], 255 - BitMask(b), i % 8);
      BitOfHole(8, b % 8, i % 8);
    }
  }

  lemma BitTestMeans(m: Mask, b: Section)
    ensures BitTest(m, b) <==> InMask(m, b)
  {
    var x, k := m[b / 8], b % 8;
    var r := And(x, BitMask(b));
    BitAnd(x, BitMask(b), k);
    BitOfOne(k, k);
    if r != 0 && !Bit(x, k) {
      forall j | 0 <= j < 8
        ensures !Bit(r, j)
      {
        BitAnd(x, BitMask(b), j);
        BitOfOne(k, j);
      }
      AndAtMost(x, BitMask(b));
      PowersOfTwo();
      NoBitsIsZero(r, 8);
    }
    if r == 0 {
      BitOfZero(k);
    }
  }

  lemma BitClearAboveMeans(m: Mask, b: Section, i: Section)
    ensures InMask(BitClearAbove(m, b), i) <==> InMask(m, i) && !(i / 8 == b / 8 && i > b)
  {
    if i / 8 == b / 8 {
      PowersOfTwo();
      ShrOfLowMask(8, 7 - b % 8);
      BitAnd(m[b / 8], Shr(0xFF, 7 - b % 8), i % 8);
      BitOfLowMask(b % 8 + 1, i % 8);
    }
  }

  lemma EmptyMask(m: Mask)
    ensures m == NoSections() <==> forall i: Section :: !InMask(m, i)
  {
    forall i: Section
      ensures !InMask(NoSections(), i)
    {
      BitOfZero(i % 8);
    }
    if forall i: Section :: !InMask(m, i) {
      forall k | 0 <= k < 32
        ensures m[k] == 0
      {
        forall j | 0 <= j < 8
          ensures !Bit(m[k], j)
        {
          var i: Section := 8 * k + j;
          assert i / 8 == k && i % 8 == j && !InMask(m, i);
        }
        PowersOfTwo();
        NoBitsIsZero(m[k], 8);
      }
    }
  }

  // ---- what has been marked ---------------------------------------------------------------------

  /** A section header with the segment's last section; seg is -1 for other tables. Versions have five bits. */
  datatype Mark = Mark(ext: nat, version: nat, last: Section, sec: Section, seg: int)

  predicate WellFormed(m: Mark) {
    m.ext < 0x1_0000 && m.version < 32
  }

  /** The mark says that section i need not be waited for: it was received, or its segment ends before it. */
  predicate Covers(m: Mark, i: Section) {
    i == m.sec || (m.seg >= 0 && i / 8 == m.seg / 8 && i > m.seg)
  }

  ghost predicate Covered(marks: seq<Mark>, i: Section) {
    exists k :: 0 <= k < |marks| && Covers(marks[k], i)
  }

  predicate SameTable(a: Mark, b: Mark) {
    a.version == b.version && a.last == b.last
  }

  /** The marks of an extension since its version or its last section number changed. */
  function Current(h: seq<Mark>, ext: nat): seq<Mark>
    decreases |h|
  {
    if h == [] then [] else
      var m, before := h[|h| - 1], Current(h[..|h| - 1], ext);
      if m.ext != ext then before
      else if before != [] && SameTable(before[0], m) then before + [m]
      else [m]
  }

  lemma CurrentAppended(h: seq<Mark>, m: Mark, ext: nat)
    ensures var before := Current(h, ext);
            Current(h + [m], ext) == if m.ext != ext then before
                                     else if before != [] && SameTable(before[0], m) then before + [m] else [m]
  {
    assert (h + [m])[..|h|] == h;
  }

  /** Section i of the extension's current sub-table has not been accounted for. */
  ghost predicate Missing(h: seq<Mark>, ext: nat, i: Section) {
    var cur := Current(h, ext);
    cur != [] && i <= cur[0].last && !Covered(cur, i)
  }

  /** Mark e is the last one of the extension. */
  ghost predicate IsLast(h: seq<Mark>, ext: nat, e: nat) {
    e < |h| && h[e].ext == ext && forall j :: e < j < |h| ==> h[j].ext != ext
  }

  /** From mark k on, all marks of the extension have the version and the last section of mark e. */
  ghost predicate SameSince(h: seq<Mark>, ext: nat, k: nat, e: nat)
    requires e < |h|
  {
    k < |h| && h[k].ext == ext && forall j :: k <= j < |h| && h[j].ext == ext ==> SameTable(h[j], h[e])
  }

  /** Mark m is among those. */
  ghost predicate Counts(h: seq<Mark>, ext: nat, e: nat, m: Mark)
    requires e < |h|
  {
    exists k: nat :: SameSince(h, ext, k, e) && h[k] == m
  }

  /** One more mark of another extension changes nothing. */
  lemma OtherCounts(h: seq<Mark>, last: Mark, ext: nat, e: nat, m: Mark)
    requires e < |h| && last.ext != ext
    ensures Counts(h + [last], ext, e, m) <==> Counts(h, ext, e, m)
  {
    var all := h + [last];
    if k: nat :| SameSince(h, ext, k, e) && h[k] == m {
      assert SameSince(all, ext, k, e) && all[k] == m;
    }
    if k: nat :| SameSince(all, ext, k, e) && all[k] == m {
      assert forall j :: 0 <= j < |h| ==> all[j] == h[j];
      assert SameSince(h, ext, k, e) && h[k] == m;
    }
  }

  /** One more mark of the extension: the earlier ones count on if it is of the same table. */
  lemma OwnCounts(h: seq<Mark>, last: Mark, ext: nat, e: nat, m: Mark)
    requires last.ext == ext && (IsLast(h, ext, e) || (e == |h| && forall j :: 0 <= j < |h| ==> h[j].ext != ext))
    ensures Counts(h + [last], ext, |h|, m) <==>
            m == last || (e < |h| && SameTable(h[e], last) && Counts(h, ext, e, m))
  {
    var all := h + [last];
    assert forall j :: 0 <= j < |h| ==> all[j] == h[j];
    assert SameSince(all, ext, |h|, |h|) && all[|h|] == last;
    if e < |h| && SameTable(h[e], last) && Counts(h, ext, e, m) {
      var k: nat :| SameSince(h, ext, k, e) && h[k] == m;
      assert SameSince(all, ext, k, |h|) && all[k] == m;
    }
    if m != last && Counts(all, ext, |h|, m) {
      var k: nat :| SameSince(all, ext, k, |h|) && all[k] == m;
      assert k < |h| && e < |h| && k <= e && SameTable(all[e], last);
      assert SameSince(h, ext, k, e) && h[k] == m;
    }
  }

  /**
   * The current marks, told from the history alone: none without a mark of the extension, else those from which on
   * version and last section are the ones of the extension's last mark.
   */
  lemma {:induction false} CurrentIs(h: seq<Mark>, ext: nat) returns (e: nat)
    ensures if forall j :: 0 <= j < |h| ==> h[j].ext != ext
            then e == |h| && Current(h, ext) == []
            else IsLast(h, ext, e) && Current(h, ext) != [] && SameTable(Current(h, ext)[0], h[e])
                 && forall m :: m in Current(h, ext) <==> Counts(h, ext, e, m)
    decreases |h|
  {
    if h == [] {
      return 0;
    }
    var before, last := h[..|h| - 1], h[|h| - 1];
    assert h == before + [last];
    var e' := CurrentIs(before, ext);
    assert forall j :: 0 <= j < |before| ==> h[j] == before[j];
    if last.ext != ext {
      e := if e' == |before| then |h| else e';
      if e' < |before| {
        forall m {
          OtherCounts(before, last, ext, e', m);
        }
      }
    } else {
      e := |before|;
      forall m {
        OwnCounts(before, last, ext, e', m);
      }
    }
  }

  /**
   * What is missing, told from the history alone: the sections up to the last one that no mark accounts for since
   * version and last section of the extension are those of its last mark e.
   */
  lemma MissingExactly(h: seq<Mark>, ext: nat, e: nat, i: Section)
    requires IsLast(h, ext, e)
    ensures Missing(h, ext, i) <==>
            && i <= h[e].last
            && forall k: nat :: SameSince(h, ext, k, e) ==>
                 h[k].sec != i && !(h[k].seg >= 0 && h[k].seg / 8 == i / 8 && h[k].seg < i)
  {
    var e' := CurrentIs(h, ext);
    assert h[e].ext == ext && e' == e;
    var cur := Current(h, ext);
    forall k: nat | SameSince(h, ext, k, e)
      ensures h[k] in cur
    {
      assert Counts(h, ext, e, h[k]);
    }
    if k: nat :| SameSince(h, ext, k, e) && Covers(h[k], i) {
      assert h[k] in cur;
    }
    if Covered(cur, i) {
      var n :| 0 <= n < |cur| && Covers(cur[n], i);
      assert cur[n] in cur && Counts(h, ext, e, cur[n]);
    }
  }

  // ---- slots ------------------------------------------------------------------------------------

  datatype SubCtl = SubCtl(ext: nat, ver: nat, last: Section, mask: Mask)

  function FreeSlot(): SubCtl {
    SubCtl(0, NO_VERSION, 0, NoSections())
  }

  /** The slot is what the history of its extension says. */
  ghost predicate SlotIs(slot: SubCtl, h: seq<Mark>) {
    var cur := Current(h, slot.ext);
    && slot.ver != NO_VERSION
    && cur != [] && slot.ver == cur[0].version && slot.last == cur[0].last
    && forall i: Section :: InMask(slot.mask, i) <==> Missing(h, slot.ext, i)
  }

  ghost predicate HasSlot(slots: seq<SubCtl>, n: nat, ext: nat)
    requires n <= |slots|
  {
    exists i :: 0 <= i < n && slots[i].ext == ext
  }

  /** The first n slots are the sub-tables of the history, one for each extension, and the others are free. */
  ghost predicate Refines(slots: seq<SubCtl>, n: nat, h: seq<Mark>) {
    && n <= |slots|
    && (forall i :: 0 <= i < n ==> SlotIs(slots[i], h))
    && (forall i :: n <= i < |slots| ==> slots[i] == FreeSlot())
    && (forall i, j :: 0 <= i < j < n ==> slots[i].ext != slots[j].ext)
    && (forall k :: 0 <= k < |h| ==> HasSlot(slots, n, h[k].ext))
  }

  /** The slot that a mark goes to: the extension's own, else the first free one, else |slots|. */
  ghost predicate GoesTo(slots: seq<SubCtl>, n: nat, ext: nat, at: nat)
    requires n <= |slots|
  {
    if HasSlot(slots, n, ext) then at < n && slots[at].ext == ext else at == n
  }

  /** What a mark makes of its slot. */
  ghost predicate MarkedAs(slot: SubCtl, m: Mark, after: SubCtl) {
    && after.ext == m.ext && after.ver == m.version && after.last == m.last
    && forall i: Section :: InMask(after.mask, i) <==>
         !Covers(m, i) && (if slot.ext == m.ext && slot.ver == m.version && slot.last == m.last
                           then InMask(slot.mask, i) else i <= m.last)
  }

  lemma {:induction false} NoSlotNoHistory(h: seq<Mark>, ext: nat)
    requires forall k :: 0 <= k < |h| ==> h[k].ext != ext
    ensures Current(h, ext) == []
    decreases |h|
  {
    if h != [] {
      NoSlotNoHistory(h[..|h| - 1], ext);
    }
  }

  lemma CoveredAppended(marks: seq<Mark>, m: Mark, i: Section)
    ensures Covered(marks + [m], i) <==> Covered(marks, i) || Covers(m, i)
  {
    var all := marks + [m];
    if Covered(marks, i) {
      var k :| 0 <= k < |marks| && Covers(marks[k], i);
      assert all[k] == marks[k];
    }
    if Covers(m, i) {
      assert all[|marks|] == m;
    }
  }

  /** The marked slot is what the longer history says. */
  lemma MarkedSlotIs(slot: SubCtl, h: seq<Mark>, m: Mark, after: SubCtl)
    requires WellFormed(m) && MarkedAs(slot, m, after)
    requires if Current(h, m.ext) == [] then slot == FreeSlot() else slot.ext == m.ext && SlotIs(slot, h)
    ensures SlotIs(after, h + [m])
  {
    CurrentAppended(h, m, m.ext);
    var before := Current(h, m.ext);
    forall i: Section
      ensures InMask(after.mask, i) <==> Missing(h + [m], m.ext, i)
    {
      if before != [] && SameTable(before[0], m) {
        CoveredAppended(before, m, i);
        assert Missing(h, m.ext, i) <==> InMask(slot.mask, i);
      } else {
        CoveredAppended([], m, i);
        assert [] + [m] == [m];
      }
    }
  }

  lemma OtherSlotIs(slot: SubCtl, h: seq<Mark>, m: Mark)
    requires SlotIs(slot, h) && slot.ext != m.ext
    ensures SlotIs(slot, h + [m])
  {
    CurrentAppended(h, m, slot.ext);
    forall i: Section
      ensures Missing(h + [m], slot.ext, i) == Missing(h, slot.ext, i)
    {
    }
  }

  /** A mark keeps the table a refinement of its history, and touches no slot of another extension. */
  lemma MarkRefines(slots: seq<SubCtl>, n: nat, h: seq<Mark>, m: Mark, at: nat, after: SubCtl)
    requires Refines(slots, n, h) && WellFormed(m) && at < |slots| && GoesTo(slots, n, m.ext, at)
    requires MarkedAs(slots[at], m, after)
    ensures Refines(slots[at := after], if at == n then n + 1 else n, h + [m])
  {
    var later, n', h' := slots[at := after], if at == n then n + 1 else n, h + [m];
    if at == n {
      forall k | 0 <= k < |h|
        ensures h[k].ext != m.ext
      {
        assert HasSlot(slots, n, h[k].ext);
      }
      NoSlotNoHistory(h, m.ext);
    }
    MarkedSlotIs(slots[at], h, m, after);
    forall i | 0 <= i < n'
      ensures SlotIs(later[i], h')
    {
      if i != at {
        assert slots[i].ext != m.ext;
        OtherSlotIs(slots[i], h, m);
      }
    }
    forall k | 0 <= k < |h'|
      ensures HasSlot(later, n', h'[k].ext)
    {
      if k == |h| {
        assert later[at].ext == m.ext;
      } else {
        assert HasSlot(slots, n, h[k].ext);
        var i :| 0 <= i < n && slots[i].ext == h[k].ext;
        assert later[i].ext == h[k].ext;
      }
    }
  }

  /** An extension has a slot exactly when it has a current sub-table. */
  lemma SlotIffCurrent(slots: seq<SubCtl>, n: nat, h: seq<Mark>, ext: nat)
    requires Refines(slots, n, h)
    ensures HasSlot(slots, n, ext) <==> Current(h, ext) != []
  {
    if !HasSlot(slots, n, ext) {
      NoSlotNoHistory(h, ext);
    }
  }

  // ---- the table control ------------------------------------------------------------------------

  class TableCtl {
    const subctl: array<SubCtl>
    var dataArriveTime: int
    ghost var active: nat
    ghost var history: seq<Mark>     // the marks that succeeded since the table was cleared

    ghost predicate Valid()
      reads this, subctl
    {
      Refines(subctl[..], active, history) && (dataArriveTime != 0 ==> history != [])
    }

    /** am_epg_tablectl_init; a table without sub-tables has no control array. */
    constructor (subs: nat)
      requires subs < 0x1_0000
      ensures Valid() && fresh(subctl) && subctl.Length == subs && history == []
    {
      subctl := new SubCtl[subs](_ => FreeSlot());
      dataArriveTime, active, history := 0, 0, [];
    }

    /** am_epg_tablectl_clear. */
    method Clear()
      modifies this, subctl
      ensures Valid() && history == []
    {
      dataArriveTime := 0;
      for i := 0 to subctl.Length
        invariant dataArriveTime == 0 && forall k :: 0 <= k < i ==> subctl[k] == FreeSlot()
      {
        subctl[i] := FreeSlot();
      }
      active, history := 0, [];
    }

    /** What the monitor does to wait for the table again, without forgetting its sections. */
    method RestartArrival()
      requires Valid()
      modifies this`dataArriveTime
      ensures Valid() && dataArriveTime == 0
    {
      dataArriveTime := 0;
    }

    /** am_epg_tablectl_test_complete: data has arrived and nothing is missing of any sub-table seen. */
    method TestComplete() returns (complete: bool)
      requires Valid()
      ensures complete <==>
                || subctl.Length == 0
                || (dataArriveTime != 0 && forall ext: nat, i: Section :: !Missing(history, ext, i))
    {
      for i := 0 to subctl.Length
        invariant i > 0 ==> dataArriveTime != 0
        invariant forall k :: 0 <= k < i && k < active ==> forall s: Section :: !Missing(history, subctl[k].ext, s)
      {
        EmptyMask(subctl[i].mask);
        assert i < active ==> SlotIs(subctl[..][i], history);
        assert i >= active ==> subctl[..][i] == FreeSlot();
        if dataArriveTime == 0 || (subctl[i].ver != NO_VERSION && subctl[i].mask != NoSections()) {
          if dataArriveTime != 0 {
            var s: Section :| InMask(subctl[i].mask, s);
            assert Missing(history, subctl[i].ext, s);
          }
          return false;
        }
      }
      forall ext: nat, s: Section
        ensures !Missing(history, ext, s)
      {
        SlotIffCurrent(subctl[..], active, history, ext);
        if HasSlot(subctl[..], active, ext) {
          var k :| 0 <= k < active && subctl[..][k].ext == ext;
        }
      }
      return true;
    }

    /**
     * am_epg_tablectl_test_recved: yes exactly for sections of the current version and length that are not
     * missing, also for numbers behind the last section; and always without control array.
     */
    method TestRecved(h: Mark, clock: int) returns (recved: bool)
      requires Valid() && WellFormed(h) && clock != 0
      modifies this`dataArriveTime
      ensures Valid()
      ensures recved <==>
                || subctl.Length == 0
                || (var cur := Current(history, h.ext);
                    cur != [] && SameTable(cur[0], h) && !Missing(history, h.ext, h.sec))
      ensures dataArriveTime ==
              if recved && subctl.Length > 1 && old(dataArriveTime) == 0 then clock else old(dataArriveTime)
    {
      if subctl.Length == 0 {
        return true;
      }
      SlotIffCurrent(subctl[..], active, history, h.ext);
      for i := 0 to subctl.Length
        invariant dataArriveTime == old(dataArriveTime)
        invariant forall k :: 0 <= k < i && k < active && subctl[k].ext == h.ext ==>
                    subctl[k].ver != h.version || subctl[k].last != h.last || InMask(subctl[k].mask, h.sec)
      {
        BitTestMeans(subctl[i].mask, h.sec);
        assert i < active ==> SlotIs(subctl[..][i], history);
        assert i >= active ==> subctl[..][i] == FreeSlot();
        if subctl[i].ext == h.ext && subctl[i].ver == h.version && subctl[i].last == h.last
           && !BitTest(subctl[i].mask, h.sec) {
          if subctl.Length > 1 && dataArriveTime == 0 {
            dataArriveTime := clock;
          }
          return true;
        }
      }
      if HasSlot(subctl[..], active, h.ext) {
        ghost var k :| 0 <= k < active && subctl[..][k].ext == h.ext;
        assert SlotIs(subctl[..][k], history);
      }
      return false;
    }

    /** The search for the slot of an extension. */
    method FindSlot(ext: nat) returns (at: nat)
      requires Valid()
      ensures GoesTo(subctl[..], active, ext, at)
    {
      var sub, fsub := -1, -1;
      var i := 0;
      while i < subctl.Length
        invariant 0 <= i <= subctl.Length && sub == -1
        invariant forall k :: 0 <= k < i && k < active ==> subctl[k].ext != ext
        invariant fsub == if i <= active then -1 else active
        invariant i > active ==> ext != 0
        decreases subctl.Length - i
      {
        assert i < active ==> SlotIs(subctl[..][i], history);
        assert i >= active ==> subctl[..][i] == FreeSlot();
        if subctl[i].ext == ext {
          sub := i;
          break;
        }
        if subctl[i].ver == NO_VERSION && fsub == -1 {
          fsub := i;
        }
        i := i + 1;
      }
      if sub == -1 && fsub == -1 {
        return subctl.Length;
      }
      at := if sub != -1 then sub else fsub;
    }

    /** The loop that sets the bits of all sections. */
    method AllMissing(mask: Mask, last: Section) returns (m: Mask)
      requires mask == NoSections()
      ensures forall i: Section :: InMask(m, i) <==> i <= last
    {
      m := mask;
      EmptyMask(mask);
      for k := 0 to last + 1
        invariant forall i: Section :: InMask(m, i) <==> i < k
      {
        forall i: Section {
          BitSetMeans(m, k, i);
        }
        m := BitSet(m, k);
      }
    }

    /** What a mark does to its slot, from the version check on. */
    method MarkSlot(slot: SubCtl, m: Mark) returns (sub: SubCtl)
      requires WellFormed(m) && m.seg <= m.last && (slot.ver == NO_VERSION ==> slot == FreeSlot())
      ensures MarkedAs(slot, m, sub)
    {
      sub := slot;
      if sub.ver != NO_VERSION && (sub.ver != m.version || sub.ext != m.ext || sub.last != m.last) {
        sub := sub.(mask := NoSections(), ver := NO_VERSION);
      }
      if sub.ver == NO_VERSION {
        var mask := AllMissing(sub.mask, m.last);
        sub := sub.(last := m.last, ver := m.version, ext := m.ext, mask := mask);
      }
      ghost var start := sub.mask;
      sub := sub.(mask := BitClear(sub.mask, m.sec));
      ghost var cleared := sub.mask;
      if m.seg >= 0 {
        sub := sub.(mask := BitClearAbove(sub.mask, m.seg));
      }
      forall i: Section
        ensures InMask(sub.mask, i) <==> InMask(start, i) && !Covers(m, i)
      {
        BitClearMeans(start, m.sec, i);
        if m.seg >= 0 {
          BitClearAboveMeans(cleared, m.seg, i);
        }
      }
    }

    /**
     * am_epg_tablectl_mark_section_eit. It fails without control array, for a segment behind the last section,
     * and for a new extension when no slot is free; otherwise the mark joins the history.
     */
    method MarkSection(m: Mark, clock: int) returns (ok: bool)
      requires Valid() && WellFormed(m) && clock != 0
      modifies this, subctl
      ensures Valid()
      ensures ok <==> m.seg <= m.last && subctl.Length > 0
                      && (Current(old(history), m.ext) != [] || old(active) < subctl.Length)
      ensures history == if ok then old(history) + [m] else old(history)
      ensures !ok ==> subctl[..] == old(subctl[..])
      ensures dataArriveTime == if ok && old(dataArriveTime) == 0 then clock else old(dataArriveTime)
      ensures forall i :: 0 <= i < old(active) && old(subctl[i]).ext != m.ext ==> subctl[i] == old(subctl[i])
    {
      SlotIffCurrent(subctl[..], active, history, m.ext);
      if subctl.Length == 0 || m.seg > m.last {
        return false;
      }
      var at := FindSlot(m.ext);
      if at == subctl.Length {
        return false;
      }
      MarkAt(m, at);
      if dataArriveTime == 0 {
        dataArriveTime := clock;
      }
      return true;
    }

    method MarkAt(m: Mark, at: nat)
      requires Valid() && WellFormed(m) && m.seg <= m.last
      requires at < subctl.Length && GoesTo(subctl[..], active, m.ext, at)
      modifies this`active, this`history, subctl
      ensures Refines(subctl[..], active, history) && history == old(history) + [m]
      ensures forall i :: 0 <= i < subctl.Length && i != at ==> subctl[i] == old(subctl[i])
      ensures old(subctl[at].ext) == m.ext || old(active) <= at
    {
      ghost var slots := subctl[..];
      assert at < active ==> SlotIs(slots[at], history);
      assert at >= active ==> slots[at] == FreeSlot();
      var after := MarkSlot(subctl[at], m);
      MarkRefines(slots, active, history, m, at, after);
      subctl[at] := after;
      assert subctl[..] == slots[at := after];
      if at == active {
        active := active + 1;
      }
      history := history + [m];
    }
  }

  /**
   * What the mask of a slot means after any sequence of marks: bit i is set exactly when i is at most the last
   * section and, since the version or the last section number changed, section i was not received and no
   * segment of i's eight ended below it.
   */
  lemma MaskMeans(slots: seq<SubCtl>, n: nat, h: seq<Mark>, at: nat, i: Section)
    requires Refines(slots, n, h) && at < n
    ensures var cur := Current(h, slots[at].ext);
            InMask(slots[at].mask, i) <==>
              && i <= cur[0].last
              && forall k :: 0 <= k < |cur| ==>
                   cur[k].sec != i && !(cur[k].seg >= 0 && cur[k].seg / 8 == i / 8 && cur[k].seg < i)
  {
    assert SlotIs(slots[at], h);
    var cur := Current(h, slots[at].ext);
    assert forall k :: 0 <= k < |cur| ==>
      (Covers(cur[k], i) <==> cur[k].sec == i || (cur[k].seg >= 0 && cur[k].seg / 8 == i / 8 && cur[k].seg < i));
  }
}
