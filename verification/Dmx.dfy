// The demux filter table of am_adp/am_dmx/am_dmx.c: what each API function does while it holds the device
// lock. What the driver answers is a parameter.

module Dmx {
  const FILTER_COUNT := 32
  const AM_SUCCESS := 0
  const AM_FAILURE := -1
  const DMX_ERROR_BASE := 0x100_0000
  const ERR_INVALID_ID := DMX_ERROR_BASE + 2
  const ERR_NOT_ALLOCATED := DMX_ERROR_BASE + 4
  const ERR_NO_FREE_FILTER := DMX_ERROR_BASE + 8

  /** AM_DMX_Filter; a null callback is 0. */
  datatype Filter = Filter(used: bool, enable: bool, cb: nat, data: int)

  type Table = fs: seq<Filter> | |fs| == FILTER_COUNT witness EmptyTable()

  function EmptyTable(): (fs: seq<Filter>)
    ensures |fs| == FILTER_COUNT && forall f :: 0 <= f < FILTER_COUNT ==> fs[f] == Filter(false, false, 0, 0)
  {
    seq(FILTER_COUNT, _ => Filter(false, false, 0, 0))
  }

  /** An enabled filter is allocated. */
  predicate Sound(fs: Table) {
    forall f :: 0 <= f < FILTER_COUNT && fs[f].enable ==> fs[f].used
  }

  function UsedIn(fs: Table): set<nat> {
    set f: nat | f < FILTER_COUNT && fs[f].used
  }

  // ---- what the functions compute ---------------------------------------------------------------

  /** dmx_get_used_filter. */
  function LookupCode(fs: Table, id: int): int {
    if id < 0 || id >= FILTER_COUNT then ERR_INVALID_ID
    else if !fs[id].used then ERR_NOT_ALLOCATED
    else AM_SUCCESS
  }

  /** dmx_stop_filter: a driver answer of 0 or above disables the filter, whatever it means. */
  function StopCode(f: Filter, drv: int): int {
    if !f.used || !f.enable then AM_SUCCESS else drv
  }

  function Stopped(f: Filter, drv: int): Filter {
    if f.used && f.enable && drv >= 0 then f.(enable := false) else f
  }

  /** dmx_free_filter: only after a stop that answered 0 is the driver asked to free. */
  function FreeCode(f: Filter, stopDrv: int, freeDrv: int): int {
    if !f.used then AM_SUCCESS
    else if StopCode(f, stopDrv) == AM_SUCCESS then freeDrv
    else StopCode(f, stopDrv)
  }

  function Freed(f: Filter, stopDrv: int, freeDrv: int): Filter {
    var g := Stopped(f, stopDrv);
    if FreeCode(f, stopDrv, freeDrv) == AM_SUCCESS then g.(used := false) else g
  }

  /** The slot the allocator takes: the first unused one, or FILTER_COUNT. */
  function FirstFree(fs: seq<Filter>): (fid: nat)
    ensures fid <= |fs|
    ensures fid < |fs| ==> !fs[fid].used
    ensures forall f :: 0 <= f < fid ==> fs[f].used
  {
    if fs == [] || !fs[0].used then 0 else
      var rest := FirstFree(fs[1..]);
      assert forall f :: 0 <= f < 1 + rest ==> f == 0 || fs[f] == fs[1..][f - 1];
      1 + rest
  }

  function AllocCode(fs: Table, drv: int): int {
    if FirstFree(fs) == FILTER_COUNT then ERR_NO_FREE_FILTER else drv
  }

  function Allocated(fs: Table, drv: int): Table {
    if AllocCode(fs, drv) == AM_SUCCESS && FirstFree(fs) < FILTER_COUNT
    then fs[FirstFree(fs) := fs[FirstFree(fs)].(used := true)]
    else fs
  }

  function FreedIn(fs: Table, id: int, stopDrv: int, freeDrv: int): Table {
    if LookupCode(fs, id) == AM_SUCCESS then fs[id := Freed(fs[id], stopDrv, freeDrv)] else fs
  }

  function StoppedIn(fs: Table, id: int, drv: int): Table {
    if LookupCode(fs, id) == AM_SUCCESS then fs[id := Stopped(fs[id], drv)] else fs
  }

  function Started(fs: Table, id: int, drv: int): Table
    requires LookupCode(fs, id) == AM_SUCCESS
  {
    if !fs[id].enable && drv == AM_SUCCESS then fs[id := fs[id].(enable := true)] else fs
  }

  function CallbackSet(fs: Table, id: int, cb: nat, data: int): Table {
    if LookupCode(fs, id) == AM_SUCCESS then fs[id := fs[id].(cb := cb, data := data)] else fs
  }

  // ---- what that means --------------------------------------------------------------------------

  /** A successful free takes exactly this slot out of the used ones and leaves it disabled; a failed one
      keeps the slot allocated. */
  lemma FreeTakesOneSlot(fs: Table, id: int, stopDrv: int, freeDrv: int)
    requires Sound(fs) && LookupCode(fs, id) == AM_SUCCESS
    ensures var after := FreedIn(fs, id, stopDrv, freeDrv);
            && Sound(after)
            && UsedIn(after) ==
               (if FreeCode(fs[id], stopDrv, freeDrv) == AM_SUCCESS then UsedIn(fs) - {id} else UsedIn(fs))
            && (FreeCode(fs[id], stopDrv, freeDrv) == AM_SUCCESS ==> !after[id].enable)
            && forall f :: 0 <= f < FILTER_COUNT && f != id ==> after[f] == fs[f]
  {
  }

  /** A successful allocation adds the lowest unused slot, disabled; it fails only when the table is full or
      the driver refuses. */
  lemma AllocTakesLowestSlot(fs: Table, drv: int)
    requires Sound(fs)
    ensures var after, fid := Allocated(fs, drv), FirstFree(fs);
            && Sound(after)
            && (AllocCode(fs, drv) == AM_SUCCESS ==>
                 && fid < FILTER_COUNT && fid !in UsedIn(fs)
                 && UsedIn(after) == UsedIn(fs) + {fid} && !after[fid].enable
                 && forall f :: f in UsedIn(after) && f !in UsedIn(fs) ==> f == fid)
            && (AllocCode(fs, drv) != AM_SUCCESS ==> after == fs)
            && (AllocCode(fs, drv) == ERR_NO_FREE_FILTER && drv == AM_SUCCESS ==>
                 forall f :: 0 <= f < FILTER_COUNT ==> f in UsedIn(fs))
  {
    var fid := FirstFree(fs);
    if fid < FILTER_COUNT {
      assert fid !in UsedIn(fs);
    }
  }

  lemma OthersKeepUsed(fs: Table, id: int, drv: int, cb: nat, data: int)
    requires Sound(fs)
    ensures Sound(StoppedIn(fs, id, drv)) && UsedIn(StoppedIn(fs, id, drv)) == UsedIn(fs)
    ensures Sound(CallbackSet(fs, id, cb, data)) && UsedIn(CallbackSet(fs, id, cb, data)) == UsedIn(fs)
    ensures LookupCode(fs, id) == AM_SUCCESS ==>
              Sound(Started(fs, id, drv)) && UsedIn(Started(fs, id, drv)) == UsedIn(fs)
  {
  }

  // ---- the device -------------------------------------------------------------------------------

  class Device {
    const filters: array<Filter>
    ghost var pids: map<int, int>     // the pid the driver last accepted for a slot

    ghost predicate Valid()
      reads this, filters
    {
      filters.Length == FILTER_COUNT && Sound(filters[..])
    }

    ghost function Used(): set<nat>
      requires filters.Length == FILTER_COUNT
      reads this, filters
    {
      UsedIn(filters[..])
    }

    constructor ()
      ensures Valid() && fresh(filters) && Used() == {}
    {
      filters := new Filter[FILTER_COUNT](_ => Filter(false, false, 0, 0));
      pids := map[];
    }

    /** AM_DMX_AllocateFilter; `fid` is -1 when no handle was stored. */
    method AllocateFilter(drv: int) returns (ret: int, fid: int)
      requires Valid()
      modifies filters
      ensures Valid() && filters[..] == Allocated(old(filters[..]), drv) && ret == AllocCode(old(filters[..]), drv)
      ensures ret == AM_SUCCESS ==> 0 <= fid < FILTER_COUNT && fid !in old(Used()) && Used() == old(Used()) + {fid}
      ensures ret != AM_SUCCESS ==> fid == -1 && Used() == old(Used())
    {
      ghost var before := filters[..];
      var i := 0;
      while i < FILTER_COUNT && filters[i].used
        invariant 0 <= i <= FILTER_COUNT
        invariant forall f :: 0 <= f < i ==> filters[f].used
      {
        i := i + 1;
      }
      assert i == FirstFree(before);
      ret, fid := AM_SUCCESS, -1;
      if i >= FILTER_COUNT {
        ret := ERR_NO_FREE_FILTER;
      }
      if ret == AM_SUCCESS {
        ret := drv;
      }
      if ret == AM_SUCCESS {
        filters[i] := filters[i].(used := true);
        fid := i;
      }
      AllocTakesLowestSlot(before, drv);
    }

    method StopSlot(id: nat, drv: int) returns (ret: int)
      requires Valid() && id < FILTER_COUNT
      modifies filters
      ensures filters[..] == old(filters[..])[id := Stopped(old(filters[id]), drv)]
      ensures ret == StopCode(old(filters[id]), drv)
    {
      ret := AM_SUCCESS;
      if !filters[id].used || !filters[id].enable {
        return;
      }
      ret := drv;
      if ret >= 0 {
        filters[id] := filters[id].(enable := false);
      }
    }

    method FreeSlot(id: nat, stopDrv: int, freeDrv: int) returns (ret: int)
      requires Valid() && id < FILTER_COUNT
      modifies filters
      ensures filters[..] == old(filters[..])[id := Freed(old(filters[id]), stopDrv, freeDrv)]
      ensures ret == FreeCode(old(filters[id]), stopDrv, freeDrv)
    {
      ret := AM_SUCCESS;
      if !filters[id].used {
        return;
      }
      ret := StopSlot(id, stopDrv);
      if ret == AM_SUCCESS {
        ret := freeDrv;
      }
      if ret == AM_SUCCESS {
        filters[id] := filters[id].(used := false);
      }
    }

    method Lookup(id: int) returns (ret: int)
      requires Valid()
      ensures ret == LookupCode(filters[..], id)
    {
      if id < 0 || id >= FILTER_COUNT {
        return ERR_INVALID_ID;
      }
      if !filters[id].used {
        return ERR_NOT_ALLOCATED;
      }
      return AM_SUCCESS;
    }

    /** AM_DMX_FreeFilter: success takes exactly this handle out of the used ones. */
    method FreeFilter(id: int, stopDrv: int, freeDrv: int) returns (ret: int)
      requires Valid()
      modifies filters
      ensures Valid() && filters[..] == FreedIn(old(filters[..]), id, stopDrv, freeDrv)
      ensures ret == if LookupCode(old(filters[..]), id) != AM_SUCCESS then LookupCode(old(filters[..]), id)
                     else FreeCode(old(filters[..])[id], stopDrv, freeDrv)
      ensures ret == AM_SUCCESS ==> id in old(Used()) && Used() == old(Used()) - {id}
      ensures ret != AM_SUCCESS ==> Used() == old(Used())
      ensures forall f :: 0 <= f < FILTER_COUNT && f != id ==> filters[f] == old(filters[f])
    {
      ghost var before := filters[..];
      ret := Lookup(id);
      if ret == AM_SUCCESS {
        ret := FreeSlot(id, stopDrv, freeDrv);
        FreeTakesOneSlot(before, id, stopDrv, freeDrv);
      }
    }

    /** AM_DMX_SetPesFilter and AM_DMX_SetSecFilter: the filter is stopped first. */
    method SetFilter(id: int, pid: int, stopDrv: int, setDrv: int) returns (ret: int)
      requires Valid()
      modifies filters, this`pids
      ensures Valid() && filters[..] == StoppedIn(old(filters[..]), id, stopDrv) && Used() == old(Used())
      ensures ret == if LookupCode(old(filters[..]), id) != AM_SUCCESS then LookupCode(old(filters[..]), id)
                     else
                       var stop := StopCode(old(filters[..])[id], stopDrv); if stop != AM_SUCCESS then stop else setDrv
      ensures ret == AM_SUCCESS ==> id in Used() && !filters[id].enable
      ensures pids == if ret == AM_SUCCESS then old(pids)[id := pid] else old(pids)
    {
      ret := StopFilter(id, stopDrv);
      if ret == AM_SUCCESS {
        ret := setDrv;
        if ret == AM_SUCCESS {
          pids := pids[id := pid];
        }
      }
    }

    /** AM_DMX_StopFilter. */
    method StopFilter(id: int, drv: int) returns (ret: int)
      requires Valid()
      modifies filters
      ensures Valid() && filters[..] == StoppedIn(old(filters[..]), id, drv) && Used() == old(Used())
      ensures ret == if LookupCode(old(filters[..]), id) != AM_SUCCESS then LookupCode(old(filters[..]), id)
                     else StopCode(old(filters[..])[id], drv)
    {
      ghost var before := filters[..];
      ret := Lookup(id);
      if ret == AM_SUCCESS {
        ret := StopSlot(id, drv);
      }
      OthersKeepUsed(before, id, drv, 0, 0);
    }

    /** AM_DMX_StartFilter; a handle that is not allocated makes the source follow a null pointer. */
    method StartFilter(id: int, drv: int) returns (ret: int)
      requires Valid() && LookupCode(filters[..], id) == AM_SUCCESS
      modifies filters
      ensures Valid() && filters[..] == Started(old(filters[..]), id, drv) && Used() == old(Used())
      ensures ret == if old(filters[id]).enable then AM_SUCCESS else drv
    {
      ghost var before := filters[..];
      ret := AM_SUCCESS;
      if !filters[id].enable {
        ret := drv;
        if ret == AM_SUCCESS {
          filters[id] := filters[id].(enable := true);
        }
      }
      OthersKeepUsed(before, id, drv, 0, 0);
    }

    /** AM_DMX_SetCallback. */
    method SetCallback(id: int, cb: nat, data: int) returns (ret: int)
      requires Valid()
      modifies filters
      ensures Valid() && filters[..] == CallbackSet(old(filters[..]), id, cb, data) && Used() == old(Used())
      ensures ret == LookupCode(old(filters[..]), id)
    {
      ghost var before := filters[..];
      ret := Lookup(id);
      if ret == AM_SUCCESS {
        filters[id] := filters[id].(cb := cb, data := data);
      }
      OthersKeepUsed(before, id, AM_SUCCESS, cb, data);
    }
  }
}
