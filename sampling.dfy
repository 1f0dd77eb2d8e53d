/** One sampling cycle of `ProcessSampler`: each process the operating
    system enumerates becomes one record, owner-less processes are dropped
    when system processes are hidden, a process whose readings fail is
    skipped, and the disk throughput is the change of the cumulative I/O
    counters since the previous cycle. The operating-system readings come
    in as data; the sampler's only state is the `last_io` dictionary. */
module Sampling {
  import opened Wrappers

  /** Cumulative bytes read and written, as `io_counters()` reports them. */
  datatype IoCounters = IoCounters(read: nat, write: nat)

  /** A `last_io` entry: the time of the reading and the counters seen then. */
  datatype IoMark = IoMark(time: real, read: nat, write: nat)

  /** What the operating system reports for one enumerated process. `None`
      in `cpu`, `rssBytes`, `io` or `connections` means that call raised;
      `None` in `name` or `username` means the attribute was unavailable. */
  datatype Reading = Reading(
    pid: nat,
    name: Option<string>,
    username: Option<string>,
    cpu: Option<real>,
    rssBytes: Option<nat>,
    io: Option<IoCounters>,
    connections: Option<nat>)

  /** One row of the sample: name, pid, cpu %, resident MB, disk KB/s and the
      number of inet connections. */
  datatype ProcessRecord = ProcessRecord(
    name: string, pid: nat, cpu: real, memMb: real, ioKbs: real, connections: nat)

  /** The result of a cycle: the records in enumeration order and the new
      `last_io` dictionary. */
  datatype Snapshot = Snapshot(procs: seq<ProcessRecord>, lastIo: map<nat, IoMark>)

  const UnnamedProcess: string := "<sin nombre>"

  /** A process without an owner counts as a system process. */
  predicate IsSystemOwned(rd: Reading) {
    rd.username.None? || rd.username.value == ""
  }

  /** The readings a record needs: cpu percentage and resident memory. */
  predicate Fetched(rd: Reading) {
    rd.cpu.Some? && rd.rssBytes.Some?
  }

  /** The process survives the cycle: not filtered as a system process and
      none of its required readings raised. */
  predicate Admitted(showSystem: bool, rd: Reading) {
    (showSystem || !IsSystemOwned(rd)) && Fetched(rd)
  }

  function DisplayName(rd: Reading): (r: string)
    ensures r != ""
    ensures rd.name.Some? && rd.name.value != "" ==> r == rd.name.value
    ensures rd.name.None? || rd.name.value == "" ==> r == UnnamedProcess
  {
    if rd.name.Some? && rd.name.value != "" then rd.name.value else UnnamedProcess
  }

  /** The counters of the cycle: a failed `io_counters()` counts as zero bytes. */
  function CountersOf(rd: Reading): (c: IoCounters)
    ensures rd.io.None? ==> c.read == 0 && c.write == 0
    ensures rd.io.Some? ==> c == rd.io.value
  {
    rd.io.GetOr(IoCounters(0, 0))
  }

  /** The time since the previous reading, or one second when that is not
      positive. */
  function Elapsed(now: real, before: real): (dt: real)
    ensures dt > 0.0
    ensures now > before ==> dt == now - before
    ensures now <= before ==> dt == 1.0
  {
    if now - before > 0.0 then now - before else 1.0
  }

  /** Bytes moved since the previous reading of `pid`, unclamped. */
  function ByteDelta(mark: IoMark, c: IoCounters): int {
    (c.read - mark.read) + (c.write - mark.write)
  }

  /** The disk rate in KB/s: zero on the first sighting of `pid`, otherwise
      the byte delta over 1024 over the elapsed time. */
  function IoRate(lastIo: map<nat, IoMark>, pid: nat, now: real, c: IoCounters): (r: real)
    ensures pid !in lastIo ==> r == 0.0
    ensures pid in lastIo ==> r * Elapsed(now, lastIo[pid].time) * 1024.0 == ByteDelta(lastIo[pid], c) as real
  {
    if pid in lastIo then
      var dt, d := Elapsed(now, lastIo[pid].time), ByteDelta(lastIo[pid], c) as real;
      assert d / 1024.0 / dt * dt == d / 1024.0;
      d / 1024.0 / dt
    else 0.0
  }

  /** The record produced for an admitted reading. */
  function RecordOf(lastIo: map<nat, IoMark>, now: real, rd: Reading): (r: ProcessRecord)
    requires Fetched(rd)
    ensures r.pid == rd.pid && r.cpu == rd.cpu.value
    ensures r.memMb * 1048576.0 == rd.rssBytes.value as real
    ensures rd.connections.None? ==> r.connections == 0
    ensures rd.pid !in lastIo ==> r.ioKbs == 0.0
  {
    ProcessRecord(
      DisplayName(rd), rd.pid, rd.cpu.value, rd.rssBytes.value as real / 1048576.0,
      IoRate(lastIo, rd.pid, now, CountersOf(rd)), rd.connections.GetOr(0))
  }

  /** The `last_io` entry written for a reading. */
  function MarkOf(now: real, rd: Reading): (m: IoMark)
    ensures m.time == now
    ensures rd.io.None? ==> m.read == 0 && m.write == 0
    ensures rd.io.Some? ==> m.read == rd.io.value.read && m.write == rd.io.value.write
  {
    IoMark(now, CountersOf(rd).read, CountersOf(rd).write)
  }

  /** The cycle as the loop of `sample` runs it, over the readings in order. */
  function SampleRun(lastIo: map<nat, IoMark>, showSystem: bool, now: real, rs: seq<Reading>): (r: Snapshot)
    ensures |r.procs| <= |rs|
    ensures lastIo.Keys <= r.lastIo.Keys
  {
    if rs == [] then Snapshot([], lastIo)
    else
      var s := SampleRun(lastIo, showSystem, now, rs[..|rs| - 1]);
      var rd := rs[|rs| - 1];
      if Admitted(showSystem, rd) then
        Snapshot(s.procs + [RecordOf(s.lastIo, now, rd)], s.lastIo[rd.pid := MarkOf(now, rd)])
      else s
  }

  /** The readings that survive the cycle, in enumeration order. */
  function Survivors(showSystem: bool, rs: seq<Reading>): (r: seq<Reading>)
    ensures |r| <= |rs|
    ensures forall rd :: rd in r <==> rd in rs && Admitted(showSystem, rd)
  {
    if rs == [] then []
    else
      var prev := Survivors(showSystem, rs[..|rs| - 1]);
      assert rs == rs[..|rs| - 1] + [rs[|rs| - 1]];
      if Admitted(showSystem, rs[|rs| - 1]) then prev + [rs[|rs| - 1]] else prev
  }

  predicate AllFetched(rs: seq<Reading>) {
    forall i :: 0 <= i < |rs| ==> Fetched(rs[i])
  }

  /** The delta tracker applied to every reading of `rs`, without filtering:
      one record per reading, and an entry for every pid seen. */
  function TrackAll(lastIo: map<nat, IoMark>, now: real, rs: seq<Reading>): (s: Snapshot)
    requires AllFetched(rs)
    ensures |s.procs| == |rs|
    ensures s.lastIo.Keys == lastIo.Keys + Pids(rs)
  {
    if rs == [] then Snapshot([], lastIo)
    else
      var s := TrackAll(lastIo, now, rs[..|rs| - 1]);
      var rd := rs[|rs| - 1];
      assert rs == rs[..|rs| - 1] + [rd];
      Snapshot(s.procs + [RecordOf(s.lastIo, now, rd)], s.lastIo[rd.pid := MarkOf(now, rd)])
  }

  /** The pids of the readings. */
  function Pids(rs: seq<Reading>): (ps: set<nat>)
    ensures forall i :: 0 <= i < |rs| ==> rs[i].pid in ps
  {
    if rs == [] then {} else Pids(rs[..|rs| - 1]) + {rs[|rs| - 1].pid}
  }

  /** A pid is among the pids exactly when some reading carries it. */
  lemma {:induction false} PidsOf(rs: seq<Reading>, pid: nat)
    ensures pid in Pids(rs) <==> exists i :: 0 <= i < |rs| && rs[i].pid == pid
  {
    if rs != [] {
      var init := rs[..|rs| - 1];
      PidsOf(init, pid);
      if pid in Pids(init) {
        var i :| 0 <= i < |init| && init[i].pid == pid;
        assert rs[i].pid == pid;
      }
      if exists i :: 0 <= i < |rs| && rs[i].pid == pid {
        var i :| 0 <= i < |rs| && rs[i].pid == pid;
        if i < |init| { assert init[i].pid == pid; }
      }
    }
  }

  predicate DistinctPids(rs: seq<Reading>) {
    forall i, j :: 0 <= i < j < |rs| ==> rs[i].pid != rs[j].pid
  }

  // ----- properties of a cycle -----

  /** A skipped reading, whether filtered as a system process or failed,
      leaves no trace: the cycle equals the delta tracker run over the
      survivors alone. */
  lemma {:induction false} SampleRunIsTrackOfSurvivors(
      lastIo: map<nat, IoMark>, showSystem: bool, now: real, rs: seq<Reading>)
    ensures AllFetched(Survivors(showSystem, rs))
    ensures SampleRun(lastIo, showSystem, now, rs) == TrackAll(lastIo, now, Survivors(showSystem, rs))
  {
    if rs != [] {
      var init := rs[..|rs| - 1];
      SampleRunIsTrackOfSurvivors(lastIo, showSystem, now, init);
      var sv, rd := Survivors(showSystem, rs), rs[|rs| - 1];
      if Admitted(showSystem, rd) {
        assert sv == Survivors(showSystem, init) + [rd];
        assert sv[..|sv| - 1] == Survivors(showSystem, init) && sv[|sv| - 1] == rd;
        var t := TrackAll(lastIo, now, Survivors(showSystem, init));
        assert TrackAll(lastIo, now, sv)
            == Snapshot(t.procs + [RecordOf(t.lastIo, now, rd)], t.lastIo[rd.pid := MarkOf(now, rd)]);
      } else {
        assert sv == Survivors(showSystem, init);
      }
    }
  }

  /** Survivors of a concatenation: the survivors of each part, in order. A
      reading therefore never changes whether another reading survives. */
  lemma {:induction false} SurvivorsAppend(showSystem: bool, a: seq<Reading>, b: seq<Reading>)
    ensures Survivors(showSystem, a + b) == Survivors(showSystem, a) + Survivors(showSystem, b)
    decreases |b|
  {
    if b != [] {
      var b' := b[..|b| - 1];
      assert (a + b)[..|a + b| - 1] == a + b';
      SurvivorsAppend(showSystem, a, b');
    } else {
      assert a + b == a;
    }
  }

  /** A process whose cpu or memory reading raised is dropped and the
      others are returned exactly as without it. */
  lemma FailedReadingIsIsolated(showSystem: bool, before: seq<Reading>, bad: Reading, after: seq<Reading>)
    requires !Fetched(bad)
    ensures Survivors(showSystem, before + [bad] + after) == Survivors(showSystem, before + after)
  {
    SurvivorsAppend(showSystem, before + [bad], after);
    SurvivorsAppend(showSystem, before, [bad]);
    SurvivorsAppend(showSystem, before, after);
    assert [bad][..0] == [];
  }

  /** Hiding system processes removes exactly the owner-less ones; showing
      them excludes no process for its owner. */
  lemma ShowSystemDifference(rs: seq<Reading>, rd: Reading)
    ensures rd in Survivors(false, rs) <==> rd in Survivors(true, rs) && !IsSystemOwned(rd)
    ensures rd in Survivors(true, rs) <==> rd in rs && Fetched(rd)
  {
  }

  /** The record of reading `i` is computed against the `last_io` left by
      the readings before it. */
  lemma {:induction false} TrackAllAt(lastIo: map<nat, IoMark>, now: real, rs: seq<Reading>, i: nat)
    requires AllFetched(rs) && i < |rs|
    ensures AllFetched(rs[..i])
    ensures TrackAll(lastIo, now, rs).procs[i] == RecordOf(TrackAll(lastIo, now, rs[..i]).lastIo, now, rs[i])
  {
    if i < |rs| - 1 {
      var init := rs[..|rs| - 1];
      TrackAllAt(lastIo, now, init, i);
      assert init[..i] == rs[..i];
    }
  }

  /** `p` carries the pid, display name, cpu, memory in MB and connection
      count (zero when that call raised) of reading `rd`. */
  predicate Describes(p: ProcessRecord, rd: Reading)
    requires Fetched(rd)
  {
    p.pid == rd.pid && p.name == DisplayName(rd) && p.cpu == rd.cpu.value
    && p.memMb == rd.rssBytes.value as real / 1048576.0
    && p.connections == rd.connections.GetOr(0)
  }

  /** Each survivor becomes one record, in the same position. */
  lemma TrackAllRecords(lastIo: map<nat, IoMark>, now: real, rs: seq<Reading>)
    requires AllFetched(rs)
    ensures |TrackAll(lastIo, now, rs).procs| == |rs|
    ensures forall i :: 0 <= i < |rs| ==> Describes(TrackAll(lastIo, now, rs).procs[i], rs[i])
  {
    forall i | 0 <= i < |rs| ensures Describes(TrackAll(lastIo, now, rs).procs[i], rs[i]) {
      TrackAllAt(lastIo, now, rs, i);
    }
  }

  /** `last_io` bookkeeping: an entry whose pid was not seen is untouched
      (and, by the contract of `TrackAll`, the domain only grows, by the
      pids seen). */
  lemma {:induction false} TrackAllBookkeeping(lastIo: map<nat, IoMark>, now: real, rs: seq<Reading>)
    requires AllFetched(rs)
    ensures forall pid :: pid in lastIo && pid !in Pids(rs) ==>
      TrackAll(lastIo, now, rs).lastIo[pid] == lastIo[pid]
  {
    if rs != [] {
      var init := rs[..|rs| - 1];
      TrackAllBookkeeping(lastIo, now, init);
      assert rs == init + [rs[|rs| - 1]];
    }
  }

  /** With distinct pids, each process's rate is computed against the entry
      it had before the cycle: zero on a first sighting, the counter delta
      over the elapsed time otherwise. */
  lemma TrackAllRates(lastIo: map<nat, IoMark>, now: real, rs: seq<Reading>)
    requires AllFetched(rs)
    requires DistinctPids(rs)
    ensures forall i :: 0 <= i < |rs| ==>
      TrackAll(lastIo, now, rs).procs[i].ioKbs == IoRate(lastIo, rs[i].pid, now, CountersOf(rs[i]))
  {
    forall i | 0 <= i < |rs|
      ensures TrackAll(lastIo, now, rs).procs[i].ioKbs == IoRate(lastIo, rs[i].pid, now, CountersOf(rs[i]))
    {
      TrackAllRateAt(lastIo, now, rs, i);
    }
  }

  lemma TrackAllRateAt(lastIo: map<nat, IoMark>, now: real, rs: seq<Reading>, i: nat)
    requires AllFetched(rs) && DistinctPids(rs) && i < |rs|
    ensures TrackAll(lastIo, now, rs).procs[i].ioKbs == IoRate(lastIo, rs[i].pid, now, CountersOf(rs[i]))
  {
    TrackAllAt(lastIo, now, rs, i);
    var before := rs[..i];
    var pid := rs[i].pid;
    var l := TrackAll(lastIo, now, before).lastIo;
    PidsOf(before, pid);
    assert pid !in Pids(before) by {
      forall j | 0 <= j < i ensures before[j].pid != pid {
        assert before[j] == rs[j];
      }
    }
    TrackAllBookkeeping(lastIo, now, before);
    IoRateLocal(l, lastIo, pid, now, CountersOf(rs[i]));
  }

  /** The rate of a pid depends on that pid's entry only. */
  lemma IoRateLocal(l: map<nat, IoMark>, l': map<nat, IoMark>, pid: nat, now: real, c: IoCounters)
    requires pid in l <==> pid in l'
    requires pid in l ==> l[pid] == l'[pid]
    ensures IoRate(l, pid, now, c) == IoRate(l', pid, now, c)
  {
  }

  /** With distinct pids, after the cycle each seen pid's entry holds this
      cycle's time and counters (zeros when `io_counters()` raised). */
  lemma {:induction false} TrackAllMarks(lastIo: map<nat, IoMark>, now: real, rs: seq<Reading>)
    requires AllFetched(rs)
    requires DistinctPids(rs)
    ensures Pids(rs) <= TrackAll(lastIo, now, rs).lastIo.Keys
    ensures forall i :: 0 <= i < |rs| ==>
      TrackAll(lastIo, now, rs).lastIo[rs[i].pid] == MarkOf(now, rs[i])
  {
    if rs != [] {
      var init := rs[..|rs| - 1];
      var rd := rs[|rs| - 1];
      assert DistinctPids(init) by {
        forall i, j | 0 <= i < j < |init| ensures init[i].pid != init[j].pid {
          assert init[i] == rs[i] && init[j] == rs[j];
        }
      }
      TrackAllMarks(lastIo, now, init);
      var before := TrackAll(lastIo, now, init).lastIo;
      var after := TrackAll(lastIo, now, rs).lastIo;
      assert after == before[rd.pid := MarkOf(now, rd)];
      forall i | 0 <= i < |rs| ensures after[rs[i].pid] == MarkOf(now, rs[i]) {
        if i < |init| {
          assert init[i] == rs[i] && rs[i].pid != rd.pid;
        }
      }
    }
  }

  predicate DistinctRecordPids(s: seq<ProcessRecord>) {
    forall i, j :: 0 <= i < j < |s| ==> s[i].pid != s[j].pid
  }

  /** Distinct pids on input give distinct pids on output. */
  lemma {:induction false} TrackAllDistinct(lastIo: map<nat, IoMark>, now: real, rs: seq<Reading>)
    requires AllFetched(rs)
    requires DistinctPids(rs)
    ensures DistinctRecordPids(TrackAll(lastIo, now, rs).procs)
  {
    TrackAllRecords(lastIo, now, rs);
  }

  /** Survivors of readings with distinct pids have distinct pids. */
  lemma {:induction false} SurvivorsDistinct(showSystem: bool, rs: seq<Reading>)
    requires DistinctPids(rs)
    ensures DistinctPids(Survivors(showSystem, rs))
  {
    if rs != [] {
      var init := rs[..|rs| - 1];
      SurvivorsDistinct(showSystem, init);
      var prev := Survivors(showSystem, init);
      if Admitted(showSystem, rs[|rs| - 1]) {
        forall j | 0 <= j < |prev| ensures prev[j].pid != rs[|rs| - 1].pid {
          assert prev[j] in init;
        }
      }
    }
  }

  // ----- properties of the delta tracker -----

  /** The rate times the elapsed time times 1024 gives back the bytes moved. */
  lemma RateInverse(lastIo: map<nat, IoMark>, pid: nat, now: real, c: IoCounters)
    requires pid in lastIo
    ensures IoRate(lastIo, pid, now, c) * Elapsed(now, lastIo[pid].time) * 1024.0
            == ByteDelta(lastIo[pid], c) as real
  {
    var dt := Elapsed(now, lastIo[pid].time);
    var d := ByteDelta(lastIo[pid], c) as real;
    assert d / 1024.0 / dt * dt == d / 1024.0;
  }

  /** Nothing clamps the rate: counters that went down give a negative rate,
      counters that did not go down a non-negative one. */
  lemma RateSign(lastIo: map<nat, IoMark>, pid: nat, now: real, c: IoCounters)
    requires pid in lastIo
    ensures ByteDelta(lastIo[pid], c) < 0 ==> IoRate(lastIo, pid, now, c) < 0.0
    ensures ByteDelta(lastIo[pid], c) >= 0 ==> IoRate(lastIo, pid, now, c) >= 0.0
  {
    var dt := Elapsed(now, lastIo[pid].time);
    var d := ByteDelta(lastIo[pid], c) as real;
    RateInverse(lastIo, pid, now, c);
  }

  /** Two cycles of one process: 2048 bytes read over two seconds is 1 KB/s,
      after a first sighting at rate zero. */
  lemma TwoCycleExample()
    ensures
      var rd1 := Reading(100, Some("worker"), Some("ana"), Some(0.0), Some(0), Some(IoCounters(0, 0)), Some(0));
      var rd2 := Reading(100, Some("worker"), Some("ana"), Some(0.0), Some(0), Some(IoCounters(2048, 0)), Some(0));
      var s1 := SampleRun(map[], false, 10.0, [rd1]);
      var s2 := SampleRun(s1.lastIo, false, 12.0, [rd2]);
      s1.procs[0].ioKbs == 0.0 && s2.procs[0].ioKbs == 1.0
  {
    var rd1 := Reading(100, Some("worker"), Some("ana"), Some(0.0), Some(0), Some(IoCounters(0, 0)), Some(0));
    var rd2 := Reading(100, Some("worker"), Some("ana"), Some(0.0), Some(0), Some(IoCounters(2048, 0)), Some(0));
    assert [rd1][..0] == [] && [rd2][..0] == [];
    assert Admitted(false, rd1) && Admitted(false, rd2);
    var s1 := SampleRun(map[], false, 10.0, [rd1]);
    assert SampleRun(map[], false, 10.0, []) == Snapshot([], map[]);
    assert s1.lastIo == map[100 := IoMark(10.0, 0, 0)];
    assert SampleRun(s1.lastIo, false, 12.0, []) == Snapshot([], s1.lastIo);
  }

  /** The sampler object: its only state is the `last_io` dictionary. */
  class ProcessSampler {
    var lastIo: map<nat, IoMark>

    constructor ()
      ensures lastIo == map[]
    {
      lastIo := map[];
    }

    /** The delta-tracker step for one process: the rate against the stored
        entry, then the entry overwritten with this reading. */
    method Track(pid: nat, now: real, c: IoCounters) returns (kbs: real)
      modifies this
      ensures kbs == IoRate(old(lastIo), pid, now, c)
      ensures lastIo == old(lastIo)[pid := IoMark(now, c.read, c.write)]
    {
      kbs := 0.0;
      if pid in lastIo {
        var last := lastIo[pid];
        var dt := if now - last.time > 0.0 then now - last.time else 1.0;
        kbs := ((c.read - last.read) + (c.write - last.write)) as real / 1024.0 / dt;
      }
      lastIo := lastIo[pid := IoMark(now, c.read, c.write)];
    }

    /** `sample`: walk the enumerated processes and build one record per
        survivor, updating `last_io` as it goes. */
    method Sample(showSystem: bool, now: real, readings: seq<Reading>) returns (procs: seq<ProcessRecord>)
      modifies this
      ensures Snapshot(procs, lastIo) == SampleRun(old(lastIo), showSystem, now, readings)
    {
      procs := [];
      var i := 0;
      while i < |readings|
        invariant 0 <= i <= |readings|
        invariant Snapshot(procs, lastIo) == SampleRun(old(lastIo), showSystem, now, readings[..i])
      {
        var rd := readings[i];
        assert readings[..i + 1][..i] == readings[..i];
        if (!showSystem) && (rd.username.None? || rd.username.value == "") {
          i := i + 1;
          continue;
        }
        var name := if rd.name.Some? && rd.name.value != "" then rd.name.value else UnnamedProcess;
        if rd.cpu.None? || rd.rssBytes.None? {
          // cpu_percent() or memory_info() raised: the process is skipped
          i := i + 1;
          continue;
        }
        var cpu := rd.cpu.value;
        var mem := rd.rssBytes.value as real / 1048576.0;
        var counters := if rd.io.Some? then rd.io.value else IoCounters(0, 0);
        var kbs := Track(rd.pid, now, counters);
        var conns := if rd.connections.Some? then rd.connections.value else 0;
        procs := procs + [ProcessRecord(name, rd.pid, cpu, mem, kbs, conns)];
        i := i + 1;
      }
      assert readings[..i] == readings;
    }
  }
}
