/** Servers that apply commands from Raft, take a snapshot every ten commands, and start again from
    snapshots; all watched by the tester's monitor. */
module SnapshotServers {
  import opened LogChecker

  const SNAPSHOT_INTERVAL := 10

  /** A decoded snapshot: the index of its last command and the commands up to it. */
  datatype Snap = Snap(last: int, xlog: seq<Command>)

  /** Snapshot bytes: absent, not decodable, or the encoding of a snapshot. */
  datatype Blob = NoBytes | Garbled | Encoded(snap: Snap)

  /** A server's own state. */
  datatype Server = Server(log: Log, lastApplied: int)

  datatype ApplyMsg = CommandMsg(index: int, cmd: Command) | SnapshotMsg(blob: Blob, last: int) | OtherMsg

  datatype Made = NoSnap | MadeSnap(snap: Snap)

  /** The error a message ends with, if any. */
  datatype Alarm = Quiet | CallLost | OutOfOrder | Mismatch | BadSnapshot

  /** What one message does: the monitor and the server after it, the error and the snapshot handed
      to Raft. */
  datatype Outcome = Outcome(ts: Tester, rs: Server, alarm: Alarm, made: Made)

  // ----- specification on values

  function Look(log: Log, j: int): Command {
    if j in log then log[j] else Nil
  }

  function SnapOf(log: Log, index: int): Snap {
    Snap(index, seq(if index < 0 then 0 else index + 1, j => Look(log, j)))
  }

  function LogOf(xlog: seq<Command>): Log {
    map j | 0 <= j < |xlog| :: xlog[j]
  }

  /** ingestSnap: whether it fails, and the server after it.  Index -1 means any index. */
  predicate IngestFails(blob: Blob, index: int) {
    !blob.Encoded? || (index != -1 && index != blob.snap.last)
  }

  function Ingested(rs: Server, blob: Blob, index: int): Server {
    if IngestFails(blob, index) then rs else Server(LogOf(blob.snap.xlog), blob.snap.last)
  }

  ghost function Applied(ts: Tester, me: nat, rs: Server, m: ApplyMsg, reach: Reach): (o: Outcome)
    requires me < |ts.logs|
    ensures |o.ts.logs| == |ts.logs|
  {
    match m
    case SnapshotMsg(blob, last) =>
      var rs' := Ingested(rs, blob, last);
      Outcome(if reach.RequestLost? then ts else ts.(logs := ts.logs[me := rs'.log]), rs',
              if IngestFails(blob, last) then BadSnapshot else Quiet, NoSnap)
    case CommandMsg(index, cmd) =>
      var skip := index != rs.lastApplied + 1;
      var alarm := if skip then OutOfOrder
                   else if !reach.Arrived? then CallLost
                   else if index > 1 && index - 1 !in ts.logs[me] then OutOfOrder
                   else if Conflicts(ts.logs, index, cmd) then Mismatch
                   else Quiet;
      var rs' := Server(rs.log[index := cmd], index);
      Outcome(if skip || reach.RequestLost? then ts else Record(ts, me, index, cmd), rs', alarm,
              if (index + 1) % SNAPSHOT_INTERVAL == 0 then MadeSnap(SnapOf(rs'.log, index)) else NoSnap)
    case OtherMsg => Outcome(ts, rs, Quiet, NoSnap)
  }

  // ----- the server as an object

  class RaftServer {
    var log: Log
    var lastApplied: int

    ghost function Value(): Server
      reads this
    {
      Server(log, lastApplied)
    }

    constructor ()
      ensures Value() == Server(map[], 0)
    {
      log := map[];
      lastApplied := 0;
    }

    method IngestSnap(blob: Blob, index: int) returns (err: bool)
      modifies this
      ensures err <==> IngestFails(blob, index)
      ensures Value() == Ingested(old(Value()), blob, index)
    {
      if !blob.Encoded? {
        return true;
      }
      var snap := blob.snap;
      if index != -1 && index != snap.last {
        return true;
      }
      log := map[];
      for j := 0 to |snap.xlog|
        invariant log == LogOf(snap.xlog[..j])
      {
        log := log[j := snap.xlog[j]];
      }
      assert snap.xlog[..|snap.xlog|] == snap.xlog;
      lastApplied := snap.last;
      return false;
    }

    /** The loop that collects the log for a snapshot. */
    method CollectLog(index: int) returns (snap: Snap)
      ensures snap == SnapOf(log, index)
    {
      var xlog := [];
      var j := 0;
      while j <= index
        invariant 0 <= j && (index < 0 ==> j == 0) && (index >= 0 ==> j <= index + 1)
        invariant |xlog| == j && forall k | 0 <= k < j :: xlog[k] == Look(log, k)
      {
        xlog := xlog + [Look(log, j)];
        j := j + 1;
      }
      snap := Snap(index, xlog);
    }

    /** The call that compares a command with the monitor's logs. */
    method CallCheckLogs(monitor: Monitor, me: nat, index: int, cmd: Command, reach: Reach) returns (alarm: Alarm)
      requires me < |monitor.logs|
      modifies monitor`logs, monitor`maxIndex
      ensures monitor.Value() == if reach.RequestLost? then old(monitor.Value()) else Record(old(monitor.Value()), me, index, cmd)
      ensures alarm == if !reach.Arrived? then CallLost
                       else if index > 1 && index - 1 !in old(monitor.logs[me]) then OutOfOrder
                       else if old(Conflicts(monitor.logs, index, cmd)) then Mismatch
                       else Quiet
    {
      alarm := CallLost;
      if !reach.RequestLost? {
        var conflict, prevok := monitor.CheckLogs(me, index, cmd);
        if reach.Arrived? {
          alarm := if index > 1 && !prevok then OutOfOrder else if conflict then Mismatch else Quiet;
        }
      }
    }

    /** A restarted server takes up the snapshot that was saved, if any; one it cannot read ends it. */
    method Recover(monitor: Monitor, me: nat, blob: Blob, reach: Reach) returns (fatal: bool)
      requires me < |monitor.logs| && Value() == Server(map[], 0)
      modifies this, monitor`logs
      ensures fatal <==> blob.Garbled?
      ensures Value() == if blob.Encoded? then Server(LogOf(blob.snap.xlog), blob.snap.last) else Server(map[], 0)
      ensures monitor.logs == if blob.Encoded? && !reach.RequestLost? then old(monitor.logs)[me := log] else old(monitor.logs)
    {
      fatal := false;
      if !blob.NoBytes? {
        fatal := IngestSnap(blob, -1);
        if !fatal && !reach.RequestLost? {
          monitor.IngestLog(me, log);
        }
      }
    }

    /** One round of the applier's loop.  `told` says whether the report of an error gets through. */
    method Apply(monitor: Monitor, me: nat, m: ApplyMsg, reach: Reach, told: bool) returns (alarm: Alarm, made: Made)
      requires me < |monitor.logs| == |monitor.applyErr|
      modifies this, monitor
      ensures Outcome(monitor.Value(), Value(), alarm, made) == old(Applied(monitor.Value(), me, Value(), m, reach))
      ensures |monitor.applyErr| == old(|monitor.applyErr|) && (told && !alarm.Quiet? ==> monitor.applyErr[me] != "")
      ensures !told || alarm.Quiet? ==> monitor.applyErr == old(monitor.applyErr)
      ensures m.CommandMsg? ==> log == old(log)[m.index := m.cmd] && lastApplied == m.index
      ensures m.CommandMsg? && m.index != old(lastApplied) + 1 ==> alarm.OutOfOrder? && monitor.Value() == old(monitor.Value())
      ensures m.SnapshotMsg? ==> (alarm.Quiet? <==> m.blob.Encoded? && (m.last == -1 || m.last == m.blob.snap.last))
    {
      made, alarm := NoSnap, Quiet;
      match m {
        case SnapshotMsg(blob, last) =>
          var err := IngestSnap(blob, last);
          alarm := if err then BadSnapshot else Quiet;
          if !reach.RequestLost? {
            monitor.IngestLog(me, log);
          }
        case CommandMsg(index, cmd) =>
          alarm := OutOfOrder;
          if index == lastApplied + 1 {
            alarm := CallCheckLogs(monitor, me, index, cmd, reach);
          }
          log := log[index := cmd];
          lastApplied := index;
          if (index + 1) % SNAPSHOT_INTERVAL == 0 {
            var snap := CollectLog(index);
            made := MadeSnap(snap);
          }
        case OtherMsg =>
      }
      if !alarm.Quiet? && told {
        monitor.ApplyErr(me, if alarm.CallLost? then "ErrRPC" else "apply error");
      }
    }
  }

  // ----- a cluster fed from one global log

  /** `up[i]` says whether server i runs; `made` are the snapshots handed to Raft so far; `snapAt[i]`
      is the index of the last snapshot made or ingested since server i started, or 0; `raised` are
      the errors so far. */
  datatype Cluster = Cluster(ts: Tester, srvs: seq<Server>, up: seq<bool>, made: set<Snap>,
                             snapAt: seq<int>, raised: set<Alarm>)

  datatype Saved = NoSaved | Saved(snap: Snap)

  datatype Action =
    | Deliver(i: nat, reach: Reach)
    | Install(i: nat, snap: Snap, reach: Reach)
    | Crash(i: nat)
    | Restart(i: nat, saved: Saved, reach: Reach)

  /** The message an action sends to a running server. */
  function Message(g: int -> Command, rs: Server, a: Action): ApplyMsg {
    match a
    case Deliver(_, _) => CommandMsg(rs.lastApplied + 1, g(rs.lastApplied + 1))
    case Install(_, snap, _) => SnapshotMsg(Encoded(snap), snap.last)
    case _ => OtherMsg
  }

  ghost predicate Shaped(s: Cluster) {
    |s.ts.logs| == |s.srvs| == |s.up| == |s.snapAt|
  }

  /** Raft hands each server the global log in order from where the server stands, installs only
      snapshots that were made, and a restarted server finds such a snapshot or none. */
  ghost predicate Enabled(s: Cluster, a: Action)
    requires Shaped(s)
  {
    && a.i < |s.srvs|
    && match a
       case Deliver(i, _) => s.up[i]
       case Install(i, snap, _) => s.up[i] && snap in s.made
       case Crash(i) => s.up[i]
       case Restart(i, saved, _) => !s.up[i] && (saved.Saved? ==> saved.snap in s.made)
  }

  function Raise(raised: set<Alarm>, alarm: Alarm): set<Alarm> {
    if alarm.Quiet? then raised else raised + {alarm}
  }

  ghost function Next(g: int -> Command, s: Cluster, a: Action): Cluster
    requires Shaped(s) && Enabled(s, a)
  {
    var i := a.i;
    match a
    case Deliver(_, reach) =>
      var o := Applied(s.ts, i, s.srvs[i], Message(g, s.srvs[i], a), reach);
      Cluster(o.ts, s.srvs[i := o.rs], s.up,
              if o.made.MadeSnap? then s.made + {o.made.snap} else s.made,
              if o.made.MadeSnap? then s.snapAt[i := o.rs.lastApplied] else s.snapAt, Raise(s.raised, o.alarm))
    case Install(_, _, reach) =>
      var o := Applied(s.ts, i, s.srvs[i], Message(g, s.srvs[i], a), reach);
      Cluster(o.ts, s.srvs[i := o.rs], s.up, s.made, s.snapAt[i := o.rs.lastApplied], Raise(s.raised, o.alarm))
    case Crash(_) => s.(up := s.up[i := false])
    case Restart(_, NoSaved, _) =>
      s.(srvs := s.srvs[i := Server(map[], 0)], up := s.up[i := true], snapAt := s.snapAt[i := 0])
    case Restart(_, Saved(snap), reach) =>
      var rs := Ingested(Server(map[], 0), Encoded(snap), -1);
      Cluster(if reach.RequestLost? then s.ts else s.ts.(logs := s.ts.logs[i := rs.log]),
              s.srvs[i := rs], s.up[i := true], s.made, s.snapAt[i := rs.lastApplied],
              Raise(s.raised, if IngestFails(Encoded(snap), -1) then BadSnapshot else Quiet))
  }

  ghost predicate Start(s: Cluster) {
    && Shaped(s) && s.made == {} && s.raised == {}
    && (forall i | 0 <= i < |s.srvs| :: s.ts.logs[i] == map[] && s.srvs[i] == Server(map[], 0) && s.snapAt[i] == 0)
  }

  ghost predicate Execution(g: int -> Command, tr: seq<Cluster>, acts: seq<Action>) {
    && |tr| == |acts| + 1 && Start(tr[0])
    && forall k | 0 <= k < |acts| :: Shaped(tr[k]) && Enabled(tr[k], acts[k]) && tr[k + 1] == Next(g, tr[k], acts[k])
  }

  // ----- what every step keeps, calls lost or not

  /** The log is exactly the global log up to `n`; slot 0, if present, is empty. */
  ghost predicate IsPrefix(g: int -> Command, log: Log, n: int) {
    && 0 <= n
    && (forall x | x in log :: 0 <= x <= n && log[x] == if x == 0 then Nil else g(x))
    && Covers(log, n)
  }

  /** The log has nothing that is not in the global log. */
  ghost predicate Agrees(g: int -> Command, log: Log) {
    forall x | x in log :: 0 <= x && log[x] == if x == 0 then Nil else g(x)
  }

  ghost predicate Covers(log: Log, n: int) {
    forall x | 1 <= x <= n :: x in log
  }

  ghost predicate GoodSnap(g: int -> Command, snap: Snap) {
    && snap.last >= 1 && snap.last % SNAPSHOT_INTERVAL == SNAPSHOT_INTERVAL - 1
    && |snap.xlog| == snap.last + 1
    && forall x | 0 <= x <= snap.last :: snap.xlog[x] == if x == 0 then Nil else g(x)
  }

  /** Fewer than ten commands since the last snapshot, which sits at an index 9 modulo 10. */
  ghost predicate Recent(lastApplied: int, at: int) {
    if at == 0 then 0 <= lastApplied < SNAPSHOT_INTERVAL - 1
    else 0 < at <= lastApplied < at + SNAPSHOT_INTERVAL && at % SNAPSHOT_INTERVAL == SNAPSHOT_INTERVAL - 1
  }

  ghost predicate ServerInv(g: int -> Command, s: Cluster, i: nat)
    requires Shaped(s) && i < |s.srvs|
  {
    && Agrees(g, s.ts.logs[i])
    && (s.up[i] ==> IsPrefix(g, s.srvs[i].log, s.srvs[i].lastApplied) && Recent(s.srvs[i].lastApplied, s.snapAt[i]))
  }

  ghost predicate Inv(g: int -> Command, s: Cluster) {
    && Shaped(s)
    && (forall snap | snap in s.made :: GoodSnap(g, snap))
    && (forall i | 0 <= i < |s.srvs| :: ServerInv(g, s, i))
  }

  /** Ingesting a snapshot just made restores the log it was made from, with slot 0 filled in, and
      the index. */
  lemma SnapshotRoundTrip(g: int -> Command, rs: Server, other: Server, index: int)
    requires IsPrefix(g, rs.log, rs.lastApplied)
    requires index == -1 || index == rs.lastApplied
    ensures var blob := Encoded(SnapOf(rs.log, rs.lastApplied));
            && !IngestFails(blob, index)
            && Ingested(other, blob, index) == Server(rs.log[0 := Nil], rs.lastApplied)
  {
    assert LogOf(SnapOf(rs.log, rs.lastApplied).xlog) == rs.log[0 := Nil];
  }

  lemma GoodSnapLog(g: int -> Command, snap: Snap)
    requires GoodSnap(g, snap)
    ensures IsPrefix(g, LogOf(snap.xlog), snap.last) && Agrees(g, LogOf(snap.xlog))
    ensures Recent(snap.last, snap.last)
  {
  }

  /** Applying the next command keeps a server's log a prefix, and a snapshot of it is good. */
  lemma PrefixNext(g: int -> Command, log: Log, n: int)
    requires IsPrefix(g, log, n)
    ensures var log' := log[n + 1 := g(n + 1)];
            && IsPrefix(g, log', n + 1)
            && ((n + 2) % SNAPSHOT_INTERVAL == 0 ==> GoodSnap(g, SnapOf(log', n + 1)))
  {
  }

  lemma DeliverKeepsInv(g: int -> Command, s: Cluster, i: nat, reach: Reach)
    requires Inv(g, s) && Enabled(s, Deliver(i, reach))
    ensures Inv(g, Next(g, s, Deliver(i, reach)))
  {
    var t := Next(g, s, Deliver(i, reach));
    assert ServerInv(g, s, i);
    PrefixNext(g, s.srvs[i].log, s.srvs[i].lastApplied);
    forall j | 0 <= j < |t.srvs| ensures ServerInv(g, t, j) {
      assert ServerInv(g, s, j);
    }
  }

  lemma StepKeepsInv(g: int -> Command, s: Cluster, a: Action)
    requires Inv(g, s) && Enabled(s, a)
    ensures Inv(g, Next(g, s, a))
  {
    var t := Next(g, s, a);
    match a
    case Deliver(i, reach) => DeliverKeepsInv(g, s, i, reach);
    case Install(i, snap, _) =>
      GoodSnapLog(g, snap);
      forall j | 0 <= j < |t.srvs| ensures ServerInv(g, t, j) {
        assert ServerInv(g, s, j);
      }
    case Crash(i) =>
      forall j | 0 <= j < |t.srvs| ensures ServerInv(g, t, j) {
        assert ServerInv(g, s, j);
      }
    case Restart(i, saved, _) =>
      if saved.Saved? {
        GoodSnapLog(g, saved.snap);
      }
      forall j | 0 <= j < |t.srvs| ensures ServerInv(g, t, j) {
        assert ServerInv(g, s, j);
      }
  }

  lemma {:induction false} ExecutionKeepsInv(g: int -> Command, tr: seq<Cluster>, acts: seq<Action>, k: nat)
    requires Execution(g, tr, acts) && k < |tr|
    ensures Inv(g, tr[k])
  {
    if k > 0 {
      ExecutionKeepsInv(g, tr, acts, k - 1);
      StepKeepsInv(g, tr[k - 1], acts[k - 1]);
    }
  }

  /** Across any deliveries, installs, crashes and restarts, and whatever calls to the monitor are
      lost: every running server's log is the global log up to lastApplied, and it has applied at
      most nine commands since its last snapshot. */
  lemma ServersFollow(g: int -> Command, tr: seq<Cluster>, acts: seq<Action>, k: nat, i: nat)
    requires Execution(g, tr, acts) && k < |tr| && i < |tr[k].srvs| && Shaped(tr[k]) && tr[k].up[i]
    ensures IsPrefix(g, tr[k].srvs[i].log, tr[k].srvs[i].lastApplied)
    ensures 0 <= tr[k].srvs[i].lastApplied - tr[k].snapAt[i] <= 9
  {
    ExecutionKeepsInv(g, tr, acts, k);
    assert ServerInv(g, tr[k], i);
  }

  // ----- which errors are raised

  /** The error a step ends with: a command whose call is lost, or whose predecessor the monitor has
      not been given. */
  ghost function AlarmOf(s: Cluster, a: Action): Alarm
    requires Shaped(s) && Enabled(s, a)
  {
    if !a.Deliver? then Quiet
    else if !a.reach.Arrived? then CallLost
    else if s.srvs[a.i].lastApplied >= 1 && s.srvs[a.i].lastApplied !in s.ts.logs[a.i] then OutOfOrder
    else Quiet
  }

  lemma NoMismatch(g: int -> Command, logs: seq<Log>, index: int)
    requires index > 0 && forall j | 0 <= j < |logs| :: Agrees(g, logs[j])
    ensures !Conflicts(logs, index, g(index))
  {
  }

  lemma StepAlarm(g: int -> Command, s: Cluster, a: Action)
    requires Inv(g, s) && Enabled(s, a)
    ensures Next(g, s, a).raised == Raise(s.raised, AlarmOf(s, a))
  {
    if a.Deliver? {
      assert ServerInv(g, s, a.i);
      forall j | 0 <= j < |s.ts.logs| ensures Agrees(g, s.ts.logs[j]) {
        assert ServerInv(g, s, j);
      }
      NoMismatch(g, s.ts.logs, s.srvs[a.i].lastApplied + 1);
    }
  }

  /** The errors of a run, exactly: each comes from a delivery whose call to the monitor was lost or
      whose predecessor never reached the monitor.  No run has a mismatch or a bad snapshot. */
  lemma {:induction false} AlarmsExact(g: int -> Command, tr: seq<Cluster>, acts: seq<Action>, k: nat, alarm: Alarm)
    requires Execution(g, tr, acts) && k < |tr|
    ensures alarm in tr[k].raised <==> !alarm.Quiet? && exists j :: 0 <= j < k && AlarmOf(tr[j], acts[j]) == alarm
  {
    if k > 0 {
      AlarmsExact(g, tr, acts, k - 1, alarm);
      ExecutionKeepsInv(g, tr, acts, k - 1);
      StepAlarm(g, tr[k - 1], acts[k - 1]);
    }
  }

  /** The monitor has been given all that server i has applied. */
  ghost predicate UpToDate(s: Cluster, i: nat)
    requires Shaped(s) && i < |s.srvs|
  {
    s.up[i] ==> Covers(s.ts.logs[i], s.srvs[i].lastApplied)
  }

  lemma StepUpToDate(g: int -> Command, s: Cluster, a: Action)
    requires Inv(g, s) && Enabled(s, a) && (a.Crash? || a.reach.Arrived?)
    requires forall i | 0 <= i < |s.srvs| :: UpToDate(s, i)
    ensures var t := Next(g, s, a); Shaped(t) && forall i | 0 <= i < |t.srvs| :: UpToDate(t, i)
  {
    var t := Next(g, s, a);
    forall i | 0 <= i < |t.srvs| ensures UpToDate(t, i) {
      assert UpToDate(s, i);
      if a.Install? {
        GoodSnapLog(g, a.snap);
      } else if a.Restart? && a.saved.Saved? {
        GoodSnapLog(g, a.saved.snap);
      }
    }
  }

  /** No call to the monitor is lost. */
  ghost predicate AllArrive(acts: seq<Action>) {
    forall k | 0 <= k < |acts| :: acts[k].Crash? || acts[k].reach.Arrived?
  }

  lemma {:induction false} RunUpToDate(g: int -> Command, tr: seq<Cluster>, acts: seq<Action>, k: nat)
    requires Execution(g, tr, acts) && k < |tr| && AllArrive(acts)
    ensures Shaped(tr[k]) && forall i | 0 <= i < |tr[k].srvs| :: UpToDate(tr[k], i)
  {
    if k > 0 {
      RunUpToDate(g, tr, acts, k - 1);
      ExecutionKeepsInv(g, tr, acts, k - 1);
      StepUpToDate(g, tr[k - 1], acts[k - 1]);
    }
  }

  /** No false alarms: however servers crash, restart and install snapshots, no error is raised as
      long as no call to the monitor is lost. */
  lemma NoFalseAlarms(g: int -> Command, tr: seq<Cluster>, acts: seq<Action>, k: nat)
    requires Execution(g, tr, acts) && k < |tr| && AllArrive(acts)
    ensures tr[k].raised == {}
  {
    forall j | 0 <= j < k ensures AlarmOf(tr[j], acts[j]).Quiet? {
      RunUpToDate(g, tr, acts, j);
      assert UpToDate(tr[j], acts[j].i);
    }
    forall alarm ensures alarm !in tr[k].raised {
      AlarmsExact(g, tr, acts, k, alarm);
    }
  }
}
