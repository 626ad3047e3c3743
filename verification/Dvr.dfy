// The recorder of am_adp/am_dvr/am_dvr.c: its streams hold demux filters while it records.

module Dvr {
  import opened Dmx

  const MAX_PID_COUNT := 32
  const DVR_ERROR_BASE := 0x200_0000
  const ERR_INVALID_ARG := DVR_ERROR_BASE + 1
  const ERR_INVALID_DEV_NO := DVR_ERROR_BASE + 2
  const ERR_BUSY := DVR_ERROR_BASE + 3
  const ERR_TOO_MANY_STREAMS := DVR_ERROR_BASE + 13

  /** AM_DVR_Stream_t; a stream without a filter has fid -1. */
  datatype Stream = Stream(fid: int, pid: int)

  /** What the demux driver will answer for one stream; it may refuse anything. */
  datatype Answers = Answers(alloc: int, stopFirst: int, setPes: int, start: int, stop: int, stopAgain: int, free: int)

  ghost predicate Full(fs: Table) {
    forall f :: 0 <= f < FILTER_COUNT ==> f in UsedIn(fs)
  }

  ghost function Fids(streams: seq<Stream>): set<int> {
    set i | 0 <= i < |streams| && streams[i].fid != -1 :: streams[i].fid
  }

  /** No two streams hold the same filter. */
  ghost predicate Separate(streams: seq<Stream>) {
    forall i, j :: 0 <= i < j < |streams| && streams[i].fid != -1 ==> streams[i].fid != streams[j].fid
  }

  /** The filter of a stream, if it has one. */
  function FidOf(s: Stream): set<int> {
    if s.fid == -1 then {} else {s.fid}
  }

  lemma FidsUpdated(streams: seq<Stream>, i: nat, fid: int)
    requires i < |streams| && Separate(streams)
    ensures var s := streams[i].(fid := fid);
            Fids(streams[i := s]) == Fids(streams) - FidOf(streams[i]) + FidOf(s)
  {
    var s := streams[i].(fid := fid);
    var after := streams[i := s];
    forall k | 0 <= k < |streams| && k != i
      ensures after[k] == streams[k] && (streams[k].fid != -1 ==> streams[k].fid != streams[i].fid)
    {
    }
    forall x | x in Fids(streams) - FidOf(streams[i]) + FidOf(s)
      ensures x in Fids(after)
    {
      if x in FidOf(s) {
        assert after[i].fid == x;
      } else {
        var k :| 0 <= k < |streams| && streams[k].fid != -1 && streams[k].fid == x;
        assert after[k].fid == x;
      }
    }
    forall x | x in Fids(after)
      ensures x in Fids(streams) - FidOf(streams[i]) + FidOf(s)
    {
      var k :| 0 <= k < |after| && after[k].fid != -1 && after[k].fid == x;
      if k != i {
        assert streams[k].fid == x;
      }
    }
  }

  /** Stopping and then freeing a filter succeeds: the first stop disables it, or the one inside the free does,
      and the driver agrees to free. */
  predicate Releases(enabled: bool, a: Answers) {
    a.free == AM_SUCCESS && (!enabled || a.stop >= 0 || a.stopAgain == AM_SUCCESS)
  }

  /** A stream's filter is leaked exactly when the driver does not let go of it. */
  ghost predicate GivenBack(s: Stream, a: Answers, fs: Table, leaked: set<int>) {
    0 <= s.fid < FILTER_COUNT ==> (s.fid in leaked <==> !Releases(fs[s.fid].enable, a))
  }

  /** What is leaked, once stream i has been stopped as well. */
  lemma LeakKept(streams: seq<Stream>, answers: seq<Answers>, fs: Table, leaked: set<int>, i: nat)
    requires Separate(streams) && i < |streams| <= |answers| && 0 <= streams[i].fid < FILTER_COUNT
    requires streams[i].fid !in leaked && forall k :: 0 <= k < i ==> GivenBack(streams[k], answers[k], fs, leaked)
    ensures var now := if Releases(fs[streams[i].fid].enable, answers[i]) then leaked else leaked + {streams[i].fid};
            forall k :: 0 <= k <= i ==> GivenBack(streams[k], answers[k], fs, now)
  {
    assert forall k :: 0 <= k < i ==> streams[k].fid == -1 || streams[k].fid != streams[i].fid;
  }

  class Recorder {
    const dmx: Device
    const streams: array<Stream>
    var streamCnt: int
    var record: bool
    var openCnt: int

    ghost predicate Shape()
      reads this
    {
      && streams.Length == MAX_PID_COUNT && dmx.filters.Length == FILTER_COUNT
      && 0 <= streamCnt <= MAX_PID_COUNT
      && (streams as object) != dmx.filters
    }

    /** The streams in use hold distinct, allocated filters, the others none; without a recording there is none. */
    ghost predicate Valid()
      reads this, streams, dmx, dmx.filters
    {
      && Shape() && dmx.Valid()
      && Separate(streams[..])
      && Fids(streams[..]) <= dmx.Used()
      && (forall i :: streamCnt <= i < MAX_PID_COUNT ==> streams[i].fid == -1)
      && (!record ==> streamCnt == 0)
    }

    ghost function Held(): set<int>
      requires Shape()
      reads this, streams
    {
      Fids(streams[..])
    }

    /**
     * Stream i has a filter, unless the driver refused or no filter is free. The filter is set to the stream's pid
     * and enabled if the driver agrees.
     */
    ghost predicate Served(i: nat, a: Answers)
      requires Shape() && i < MAX_PID_COUNT
      reads this, streams, dmx, dmx.filters
    {
      if streams[i].fid == -1 then a.alloc != AM_SUCCESS || Full(dmx.filters[..])
      else a.alloc == AM_SUCCESS && Runs(streams[i], a)
    }

    ghost predicate Runs(s: Stream, a: Answers)
      requires Shape()
      reads this, dmx, dmx.filters
    {
      && 0 <= s.fid < FILTER_COUNT
      && (dmx.filters[s.fid].enable <==> a.start == AM_SUCCESS)
      && (a.setPes == AM_SUCCESS ==> s.fid in dmx.pids && dmx.pids[s.fid] == s.pid)
    }

    constructor (dmx: Device)
      requires dmx.Valid()
      ensures Valid() && this.dmx == dmx && fresh(streams) && !record && Held() == {}
    {
      this.dmx := dmx;
      streams := new Stream[MAX_PID_COUNT](_ => Stream(-1, 0));
      streamCnt, record, openCnt := 0, false, 1;
    }

    /** dvr_add_stream. */
    method AddStream(pid: int) returns (ret: int)
      requires Shape()
      modifies this`streamCnt, streams
      ensures Shape()
      ensures old(streamCnt) < MAX_PID_COUNT ==>
                && ret == AM_SUCCESS && streamCnt == old(streamCnt) + 1
                && streams[..] == old(streams[..])[old(streamCnt) := Stream(-1, pid % 0x1_0000)]
      ensures old(streamCnt) >= MAX_PID_COUNT ==>
                ret == ERR_TOO_MANY_STREAMS && streamCnt == old(streamCnt) && streams[..] == old(streams[..])
    {
      if streamCnt >= MAX_PID_COUNT {
        return ERR_TOO_MANY_STREAMS;
      }
      streams[streamCnt] := Stream(-1, pid % 0x1_0000);
      streamCnt := streamCnt + 1;
      return AM_SUCCESS;
    }

    /** The body of dvr_start_all_streams: a stream that gets no filter will not record. */
    method StartStream(i: nat, a: Answers)
      requires Shape() && dmx.Valid() && i < streamCnt && streams[i].fid == -1
      requires Separate(streams[..]) && Fids(streams[..]) <= dmx.Used()
      modifies streams, dmx.filters, dmx`pids
      ensures dmx.Valid() && Separate(streams[..]) && Fids(streams[..]) <= dmx.Used()
      ensures streams[..] == old(streams[..])[i := Stream(streams[i].fid, old(streams[i].pid))]
      ensures dmx.Used() - Held() == old(dmx.Used() - Held()) && Held() >= old(Held())
      ensures dmx.Used() >= old(dmx.Used()) && streams[i].fid !in old(dmx.Used())
      ensures streams[i].fid != -1 ==> a.alloc == AM_SUCCESS && Runs(streams[i], a)
      ensures forall f :: 0 <= f < FILTER_COUNT && f != streams[i].fid ==> dmx.filters[f] == old(dmx.filters[f])
      ensures forall f :: f in old(dmx.pids) && f != streams[i].fid ==>
                f in dmx.pids && dmx.pids[f] == old(dmx.pids[f])
      ensures streams[i].fid == -1 ==> a.alloc != AM_SUCCESS || Full(dmx.filters[..])
    {
      ghost var before := streams[..];
      var ret, fid := dmx.AllocateFilter(a.alloc);
      FidsUpdated(before, i, fid);
      streams[i] := streams[i].(fid := fid);
      assert streams[..] == before[i := before[i].(fid := fid)];
      if ret == AM_SUCCESS {
        forall k | 0 <= k < |before| && k != i
          ensures before[k].fid != fid
        {
          assert before[k].fid != -1 ==> before[k].fid in Fids(before);
        }
        var _ := dmx.SetFilter(fid, streams[i].pid, a.stopFirst, a.setPes);
        var _ := dmx.StartFilter(fid, a.start);
      }
    }

    /** dvr_start_all_streams: a stream goes without a filter only if the driver refused or none is free. */
    method StartAllStreams(answers: seq<Answers>)
      requires |answers| == MAX_PID_COUNT
      requires Shape() && (forall i :: 0 <= i < streamCnt ==> streams[i].fid == -1)
      requires dmx.Valid() && Separate(streams[..]) && Fids(streams[..]) <= dmx.Used()
      modifies streams, dmx.filters, dmx`pids
      ensures dmx.Valid() && Separate(streams[..]) && Fids(streams[..]) <= dmx.Used()
      ensures dmx.Used() - Held() == old(dmx.Used() - Held())
      ensures forall i :: 0 <= i < MAX_PID_COUNT ==> streams[i].pid == old(streams[i].pid)
      ensures forall i :: streamCnt <= i < MAX_PID_COUNT ==> streams[i] == old(streams[i])
      ensures forall i :: 0 <= i < streamCnt ==> Served(i, answers[i])
      ensures forall f :: f in old(dmx.Used()) ==> dmx.filters[f] == old(dmx.filters[f])
    {
      for i := 0 to streamCnt
        invariant dmx.Valid() && Separate(streams[..]) && Fids(streams[..]) <= dmx.Used()
        invariant dmx.Used() - Held() == old(dmx.Used() - Held())
        invariant forall k :: 0 <= k < MAX_PID_COUNT ==> streams[k].pid == old(streams[k].pid)
        invariant forall k :: i <= k < MAX_PID_COUNT ==> streams[k] == old(streams[k])
        invariant forall k :: 0 <= k < i ==> Served(k, answers[k])
        invariant old(dmx.Used()) <= dmx.Used()
        invariant forall f :: f in old(dmx.Used()) ==> dmx.filters[f] == old(dmx.filters[f])
      {
        if streams[i].fid == -1 {
          ghost var full, before := Full(dmx.filters[..]), streams[..];
          ghost var used := dmx.Used();
          StartStream(i, answers[i]);
          assert full ==> forall f :: 0 <= f < FILTER_COUNT ==> f in used;
          assert forall k :: 0 <= k < i ==> streams[..][k] == before[k];
        }
      }
    }

    /** The body of dvr_stop_all_streams: the handle is forgotten whether or not the demux freed it. */
    method StopStream(i: nat, a: Answers) returns (ghost freed: bool)
      requires Shape() && dmx.Valid() && i < streamCnt && streams[i].fid != -1
      requires Separate(streams[..]) && Fids(streams[..]) <= dmx.Used()
      modifies streams, dmx.filters
      ensures dmx.Valid() && Separate(streams[..]) && Fids(streams[..]) <= dmx.Used()
      ensures streams[..] == old(streams[..])[i := Stream(-1, old(streams[i].pid))]
      ensures Held() == old(Held()) - {old(streams[i].fid)}
      ensures 0 <= old(streams[i].fid) < FILTER_COUNT
      ensures freed <==> Releases(old(dmx.filters[streams[i].fid].enable), a)
      ensures forall f :: 0 <= f < FILTER_COUNT && f != old(streams[i].fid) ==> dmx.filters[f] == old(dmx.filters[f])
      ensures dmx.Used() == if freed then old(dmx.Used()) - {old(streams[i].fid)} else old(dmx.Used())
    {
      ghost var before := streams[..];
      var fid := streams[i].fid;
      assert before[i].fid in Fids(before);
      var _ := dmx.StopFilter(fid, a.stop);
      var ret := dmx.FreeFilter(fid, a.stopAgain, a.free);
      freed := ret == AM_SUCCESS;
      FidsUpdated(before, i, -1);
      streams[i] := streams[i].(fid := -1);
      assert streams[..] == before[i := before[i].(fid := -1)];
    }

    /** dvr_stop_all_streams: every held filter is given back, except those the demux would not free. */
    method StopAllStreams(answers: seq<Answers>) returns (ghost leaked: set<int>)
      requires Valid() && |answers| == MAX_PID_COUNT
      modifies this`streamCnt, streams, dmx.filters
      ensures Shape() && dmx.Valid() && streamCnt == 0 && Held() == {} && Separate(streams[..])
      ensures forall i :: 0 <= i < MAX_PID_COUNT ==> streams[i].fid == -1
      ensures leaked <= old(Held()) && dmx.Used() == old(dmx.Used()) - old(Held()) + leaked
      ensures forall i :: 0 <= i < old(streamCnt) ==>
                GivenBack(old(streams[i]), answers[i], old(dmx.filters[..]), leaked)
    {
      leaked := {};
      ghost var fs, before := dmx.filters[..], streams[..];
      for i := 0 to streamCnt
        invariant Shape() && streamCnt == old(streamCnt) && dmx.Valid()
        invariant Separate(streams[..]) && Fids(streams[..]) <= dmx.Used()
        invariant leaked <= old(Held()) && leaked !! Held() && Held() <= old(Held())
        invariant dmx.Used() == old(dmx.Used()) - old(Held()) + Held() + leaked
        invariant forall k :: 0 <= k < i ==> streams[k].fid == -1
        invariant forall k :: i <= k < MAX_PID_COUNT ==> streams[k] == old(streams[k])
        invariant forall f :: f in Held() ==> 0 <= f < FILTER_COUNT && dmx.filters[f] == fs[f]
        invariant forall k :: 0 <= k < i ==> GivenBack(old(streams[k]), answers[k], fs, leaked)
      {
        if streams[i].fid != -1 {
          assert streams[..][i].fid in Held();
          ghost var fid := streams[i].fid;
          LeakKept(before, answers, fs, leaked, i);
          ghost var freed := StopStream(i, answers[i]);
          if !freed {
            leaked := leaked + {fid};
          }
        }
      }
      streamCnt := 0;
    }

    /**
     * AM_DVR_StartRecord. At most MAX_PID_COUNT pids become streams; the filters that were allocated are
     * exactly those the streams hold, however many allocations failed.
     */
    method StartRecord(pidCount: int, pids: seq<int>, answers: seq<Answers>) returns (ret: int)
      requires Valid() && |pids| == MAX_PID_COUNT && |answers| == MAX_PID_COUNT
      modifies this`streamCnt, this`record, streams, dmx.filters, dmx`pids
      ensures Valid()
      ensures ret == if pidCount <= 0 then ERR_INVALID_ARG
                     else if openCnt == 0 then ERR_INVALID_DEV_NO
                     else if old(record) then ERR_BUSY else AM_SUCCESS
      ensures ret != AM_SUCCESS ==>
                record == old(record) && streamCnt == old(streamCnt) && streams[..] == old(streams[..])
                && dmx.Used() == old(dmx.Used())
      ensures ret == AM_SUCCESS ==>
                && record && streamCnt == (if pidCount > MAX_PID_COUNT then MAX_PID_COUNT else pidCount)
                && (forall i :: 0 <= i < streamCnt ==> streams[i].pid == pids[i] % 0x1_0000)
                && (forall i :: 0 <= i < streamCnt ==> Served(i, answers[i]))
                && dmx.Used() == old(dmx.Used()) + Held() && Held() !! old(dmx.Used())
      ensures forall f :: f in old(dmx.Used()) ==> dmx.filters[f] == old(dmx.filters[f])
    {
      if pidCount <= 0 {
        return ERR_INVALID_ARG;
      }
      var pidCnt := pidCount;
      if pidCnt > MAX_PID_COUNT {
        pidCnt := MAX_PID_COUNT;
      }
      if openCnt == 0 {
        return ERR_INVALID_DEV_NO;
      }
      if record {
        return ERR_BUSY;
      }
      for i := 0 to pidCnt
        invariant Shape() && streamCnt == i && dmx.Valid() && dmx.filters[..] == old(dmx.filters[..])
        invariant forall k :: 0 <= k < MAX_PID_COUNT ==> streams[k].fid == -1
        invariant forall k :: 0 <= k < i ==> streams[k].pid == pids[k] % 0x1_0000
      {
        var _ := AddStream(pids[i]);
      }
      assert Held() == {} && forall f :: f in old(dmx.Used()) ==> dmx.filters[f] == old(dmx.filters[..])[f];
      StartAllStreams(answers);
      assert dmx.Used() - Held() == old(dmx.Used());
      record := true;
      return AM_SUCCESS;
    }

    /** AM_DVR_StopRecord. */
    method StopRecord(answers: seq<Answers>) returns (ret: int, ghost leaked: set<int>)
      requires Valid() && |answers| == MAX_PID_COUNT
      modifies this`streamCnt, this`record, streams, dmx.filters
      ensures Valid() && openCnt == old(openCnt)
      ensures ret == if openCnt == 0 then ERR_INVALID_DEV_NO else AM_SUCCESS
      ensures ret != AM_SUCCESS ==> record == old(record) && Held() == old(Held()) && dmx.Used() == old(dmx.Used())
      ensures ret == AM_SUCCESS ==>
                && !record && Held() == {} && leaked <= old(Held())
                && dmx.Used() == old(dmx.Used()) - old(Held()) + leaked
                && forall i :: 0 <= i < old(streamCnt) ==>
                     GivenBack(old(streams[i]), answers[i], old(dmx.filters[..]), leaked)
    {
      leaked := {};
      if openCnt == 0 {
        return ERR_INVALID_DEV_NO, leaked;
      }
      assert !record ==> Held() == {};
      if record {
        leaked := StopAllStreams(answers);
        record := false;
      }
      return AM_SUCCESS, leaked;
    }

    /** Recording and stopping gives the demux back as it was, when the driver agrees to stop and free. */
    method RecordAndStop(pidCount: int, pids: seq<int>, answers: seq<Answers>)
      requires Valid() && !record && openCnt > 0 && |pids| == MAX_PID_COUNT && |answers| == MAX_PID_COUNT
      modifies this`streamCnt, this`record, streams, dmx.filters, dmx`pids
      ensures Valid() && !record
      ensures old(dmx.Used()) <= dmx.Used()
      ensures (forall i :: 0 <= i < MAX_PID_COUNT ==>
                 Releases(true, answers[i])) ==> dmx.Used() == old(dmx.Used())
    {
      var started := StartRecord(pidCount, pids, answers);
      assert started != AM_SUCCESS ==> Held() == {};
      ghost var held, cnt, during := Held(), streamCnt, streams[..];
      var stopped;
      ghost var leaked;
      stopped, leaked := StopRecord(answers);
      assert forall x :: x in leaked ==> exists i :: 0 <= i < cnt && during[i].fid == x && during[i].fid != -1;
    }
  }
}
