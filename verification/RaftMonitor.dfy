/** The tester's monitor of what Raft servers apply: every server reports each command it is given,
    and the monitor compares it with what any server was given at the same index. */
module LogChecker {
  import Choice
  import opened Wrappers

  /** A command, or nothing.  Only equality of commands matters. */
  datatype Command = Nil | Val(id: int)

  type Log = map<int, Command>

  /** The tester's copy of every server's log. */
  datatype Tester = Tester(logs: seq<Log>, maxIndex: int)

  ghost predicate Conflicts(logs: seq<Log>, index: int, cmd: Command) {
    exists j :: 0 <= j < |logs| && index in logs[j] && logs[j][index] != cmd
  }

  ghost function Record(ts: Tester, i: nat, index: int, cmd: Command): Tester
    requires i < |ts.logs|
  {
    Tester(ts.logs[i := ts.logs[i][index := cmd]], if index > ts.maxIndex then index else ts.maxIndex)
  }

  /** Copying a map entry by entry, in any order. */
  method CopyMap<K, V>(m: map<K, V>) returns (r: map<K, V>)
    ensures r == m
  {
    r := map[];
    var rest := m.Keys;
    while rest != {}
      invariant rest <= m.Keys && r.Keys == m.Keys - rest
      invariant forall k | k in r :: r[k] == m[k]
      decreases |rest|
    {
      var k := Choice.Any(rest);
      rest := rest - {k};
      r := r[k := m[k]];
    }
  }

  /** The monitor as an object.  `applyErr` holds the last error reported by each server, if any. */
  class Monitor {
    var logs: seq<Log>
    var maxIndex: int
    var applyErr: seq<string>

    ghost function Value(): Tester
      reads this
    {
      Tester(logs, maxIndex)
    }

    constructor (n: nat)
      ensures Value() == Tester(seq(n, i => map[]), 0) && applyErr == seq(n, i => "")
    {
      logs := seq(n, i => map[]);
      maxIndex := 0;
      applyErr := seq(n, i => "");
    }

    /** Compare one applied command with all logs and record it.  Returns whether some server holds
        another command at this index, and whether this server was given the one before. */
    method CheckLogs(i: nat, index: int, cmd: Command) returns (conflict: bool, prevok: bool)
      requires i < |logs|
      modifies this`logs, this`maxIndex
      ensures conflict <==> old(Conflicts(logs, index, cmd))
      ensures prevok <==> index - 1 in old(logs[i])
      ensures Value() == Record(old(Value()), i, index, cmd)
    {
      conflict := false;
      for j := 0 to |logs|
        invariant conflict <==> exists k :: 0 <= k < j && index in logs[k] && logs[k][index] != cmd
      {
        if index in logs[j] && logs[j][index] != cmd {
          conflict := true;
        }
      }
      prevok := index - 1 in logs[i];
      logs := logs[i := logs[i][index := cmd]];
      if index > maxIndex {
        maxIndex := index;
      }
    }

    method ApplyErr(i: nat, err: string)
      requires i < |applyErr|
      modifies this`applyErr
      ensures applyErr == old(applyErr)[i := err]
    {
      applyErr := applyErr[i := err];
    }

    /** One round of an applier's loop. */
    method ApplyOne(d: Delivery) returns (err: bool)
      requires d.srv < |logs| == |applyErr|
      modifies this
      ensures err <==> || !d.reach.Arrived?
                       || old(Conflicts(logs, d.index, d.cmd)) || (d.index > 1 && d.index - 1 !in old(logs[d.srv]))
      ensures Value() == Delivered(old(Value()), d)
      ensures |applyErr| == old(|applyErr|) && (err ==> applyErr[d.srv] != "")
      ensures forall i | 0 <= i < |applyErr| && (i != d.srv || !err) :: applyErr[i] == old(applyErr[i])
    {
      err := true;
      if !d.reach.RequestLost? {
        var conflict, prevok := CheckLogs(d.srv, d.index, d.cmd);
        err := !d.reach.Arrived? || conflict || (d.index > 1 && !prevok);
      }
      if err {
        ApplyErr(d.srv, "apply error");
      }
    }

    /** The appliers of all servers, reading the deliveries in the order they reach the monitor; the
        k-th answer says whether an error is reported for the k-th delivery. */
    method Applier(ds: seq<Delivery>) returns (errs: seq<bool>)
      requires InRange(|logs|, ds) && Value() == After(|logs|, []) && applyErr == seq(|logs|, i => "")
      modifies this
      ensures |logs| == old(|logs|) && Value() == After(|logs|, ds)
      ensures |errs| == |ds| && forall k | 0 <= k < |ds| :: errs[k] <==> Reports(|logs|, ds, k)
      ensures |applyErr| == |logs| && forall i | 0 <= i < |logs| :: applyErr[i] != "" <==> Blamed(ds, errs, i)
    {
      errs := [];
      for k := 0 to |ds|
        invariant |logs| == old(|logs|) == |applyErr| && InRange(|logs|, ds)
        invariant Value() == After(|logs|, ds[..k])
        invariant |errs| == k && forall j | 0 <= j < k :: errs[j] <==> Reports(|logs|, ds, j)
        invariant forall i | 0 <= i < |logs| :: applyErr[i] != "" <==> Blamed(ds, errs, i)
      {
        assert ds[..k + 1][..k] == ds[..k];
        var err := ApplyOne(ds[k]);
        BlamedNext(ds, errs, err);
        errs := errs + [err];
      }
      assert ds[..|ds|] == ds;
    }

    /** Replace one server's log by a copy of the log of a snapshot. */
    method IngestLog(i: nat, xlog: Log)
      requires i < |logs|
      modifies this`logs
      ensures logs == old(logs)[i := xlog]
    {
      var copy := CopyMap(xlog);
      logs := logs[i := copy];
    }

    /** How many servers hold a command at this index, and which; fatal if they differ or if one has
        reported an error. */
    method NCommitted(index: int) returns (count: nat, cmd: Command, fatal: bool)
      requires |applyErr| == |logs|
      ensures fatal <==> (exists i :: 0 <= i < |logs| && applyErr[i] != "") || Differ(logs, index)
      ensures !fatal ==> count == |Holders(logs, index)|
      ensures !fatal ==> forall i | 0 <= i < |logs| && index in logs[i] :: logs[i][index] == cmd
    {
      count, cmd, fatal := 0, Nil, false;
      assert Holders(logs[..0], index) == {};
      for i := 0 to |logs|
        invariant count == |Holders(logs[..i], index)|
        invariant count > 0 ==> exists k :: 0 <= k < i && index in logs[k]
        invariant forall k | 0 <= k < i :: applyErr[k] == ""
        invariant forall k | 0 <= k < i && index in logs[k] :: logs[k][index] == cmd && count > 0
      {
        if applyErr[i] != "" {
          fatal := true;
          return;
        }
        HoldersNext(logs, index, i);
        if index in logs[i] {
          if count > 0 && cmd != logs[i][index] {
            fatal := true;
            return;
          }
          count := count + 1;
          cmd := logs[i][index];
        }
      }
      assert logs[..|logs|] == logs;
    }
  }

  /** Some delivery to server i is among those with an error. */
  ghost predicate Blamed(ds: seq<Delivery>, errs: seq<bool>, i: nat)
    requires |errs| <= |ds|
  {
    exists k :: 0 <= k < |errs| && ds[k].srv == i && errs[k]
  }

  lemma BlamedNext(ds: seq<Delivery>, errs: seq<bool>, err: bool)
    requires |errs| < |ds|
    ensures forall i: nat :: Blamed(ds, errs + [err], i) <==> Blamed(ds, errs, i) || (err && ds[|errs|].srv == i)
  {
    forall i: nat ensures Blamed(ds, errs + [err], i) <==> Blamed(ds, errs, i) || (err && ds[|errs|].srv == i) {
      if err && ds[|errs|].srv == i {
        assert (errs + [err])[|errs|];
      }
      if k :| 0 <= k < |errs| && ds[k].srv == i && errs[k] {
        assert (errs + [err])[k];
      }
    }
  }

  /** Two logs have different commands at `index`. */
  ghost predicate Differ(logs: seq<Log>, index: int) {
    exists i, j :: && 0 <= i < |logs| && 0 <= j < |logs| && index in logs[i] && index in logs[j]
                   && logs[i][index] != logs[j][index]
  }

  /** The servers with an entry at `index`. */
  ghost function Holders(logs: seq<Log>, index: int): set<nat> {
    set i: nat | i < |logs| && index in logs[i]
  }

  lemma HoldersNext(logs: seq<Log>, index: int, i: nat)
    requires i < |logs|
    ensures |Holders(logs[..i + 1], index)| == |Holders(logs[..i], index)| + if index in logs[i] then 1 else 0
  {
    if index in logs[i] {
      assert Holders(logs[..i + 1], index) == Holders(logs[..i], index) + {i};
    } else {
      assert Holders(logs[..i + 1], index) == Holders(logs[..i], index);
    }
  }

  // ----- without snapshots

  /** How a call to the monitor goes: a lost call returns ErrRPC, having had its effect or not. */
  datatype Reach = Arrived | RequestLost | ReplyLost

  /** Server `srv` is given `cmd` at `index`, and reports it to the monitor. */
  datatype Delivery = Delivery(srv: nat, index: int, cmd: Command, reach: Reach)

  ghost predicate InRange(n: nat, ds: seq<Delivery>) {
    forall k | 0 <= k < |ds| :: ds[k].srv < n
  }

  ghost function Delivered(ts: Tester, d: Delivery): (ts': Tester)
    requires d.srv < |ts.logs|
    ensures |ts'.logs| == |ts.logs|
  {
    if d.reach.RequestLost? then ts else Record(ts, d.srv, d.index, d.cmd)
  }

  /** The monitor after these deliveries to `n` servers. */
  ghost function After(n: nat, ds: seq<Delivery>): (ts: Tester)
    requires InRange(n, ds)
    ensures |ts.logs| == n
  {
    if ds == [] then Tester(seq(n, i => map[]), 0)
    else
      Delivered(After(n, ds[..|ds| - 1]), ds[|ds| - 1])
  }

  /** The applier reports an error on the k-th delivery. */
  ghost predicate Reports(n: nat, ds: seq<Delivery>, k: nat)
    requires InRange(n, ds) && k < |ds|
  {
    var ts, d := After(n, ds[..k]), ds[k];
    !d.reach.Arrived? || Conflicts(ts.logs, d.index, d.cmd) || (d.index > 1 && d.index - 1 !in ts.logs[d.srv].Keys)
  }

  /** The k-th delivery contradicts an earlier one or skips its predecessor, or its report is lost. */
  ghost predicate Violates(ds: seq<Delivery>, k: nat)
    requires k < |ds|
  {
    || !ds[k].reach.Arrived?
    || (exists j :: 0 <= j < k && ds[j].index == ds[k].index && ds[j].cmd != ds[k].cmd)
    || (ds[k].index > 1 && !(exists j :: 0 <= j < k && ds[j].srv == ds[k].srv && ds[j].index == ds[k].index - 1))
  }

  /** The logs hold what was delivered, and nothing else; all of it arrived. */
  ghost predicate Holds(logs: seq<Log>, ds: seq<Delivery>) {
    && (forall k | 0 <= k < |ds| ::
          ds[k].srv < |logs| && ds[k].index in logs[ds[k].srv] && logs[ds[k].srv][ds[k].index] == ds[k].cmd)
    && (forall i, x | 0 <= i < |logs| && x in logs[i] ::
          exists k :: 0 <= k < |ds| && ds[k] == Delivery(i, x, logs[i][x], Arrived))
  }

  lemma HoldsNext(logs: seq<Log>, ds: seq<Delivery>, d: Delivery)
    requires Holds(logs, ds) && d.srv < |logs| && d.reach.Arrived? && !Conflicts(logs, d.index, d.cmd)
    ensures Holds(logs[d.srv := logs[d.srv][d.index := d.cmd]], ds + [d])
  {
    var next := logs[d.srv := logs[d.srv][d.index := d.cmd]];
    forall i, x | 0 <= i < |next| && x in next[i]
      ensures exists k :: 0 <= k < |ds| + 1 && (ds + [d])[k] == Delivery(i, x, next[i][x], Arrived)
    {
      if i == d.srv && x == d.index {
        assert (ds + [d])[|ds|] == d;
      } else {
        var k :| 0 <= k < |ds| && ds[k] == Delivery(i, x, logs[i][x], Arrived);
        assert (ds + [d])[k] == ds[k];
      }
    }
  }

  lemma HoldsReports(n: nat, ds: seq<Delivery>, k: nat)
    requires InRange(n, ds) && k < |ds| && Holds(After(n, ds[..k]).logs, ds[..k])
    ensures Reports(n, ds, k) <==> Violates(ds, k)
  {
  }

  ghost predicate Clean(n: nat, ds: seq<Delivery>, m: nat)
    requires InRange(n, ds) && m <= |ds|
  {
    forall k | 0 <= k < m :: !Reports(n, ds, k)
  }

  lemma CleanPrefix(n: nat, ds: seq<Delivery>, m: nat)
    requires InRange(n, ds) && m <= |ds| && Clean(n, ds, m)
    ensures InRange(n, ds[..m]) && Clean(n, ds[..m], m)
  {
    forall k | 0 <= k < m ensures !Reports(n, ds[..m], k) {
      assert ds[..m][..k] == ds[..k];
      assert !Reports(n, ds, k);
    }
  }

  lemma {:induction false} CleanHolds(n: nat, ds: seq<Delivery>)
    requires InRange(n, ds) && Clean(n, ds, |ds|)
    ensures Holds(After(n, ds).logs, ds)
  {
    if ds != [] {
      var m := |ds| - 1;
      CleanPrefix(n, ds, m);
      CleanHolds(n, ds[..m]);
      assert !Reports(n, ds, m);
      HoldsNext(After(n, ds[..m]).logs, ds[..m], ds[m]);
      assert ds == ds[..m] + [ds[m]];
    }
  }

  /** Until the first error, each delivery is reported exactly when it violates. */
  lemma FirstErrorExact(n: nat, ds: seq<Delivery>, k: nat)
    requires InRange(n, ds) && k < |ds| && Clean(n, ds, k)
    ensures Reports(n, ds, k) <==> Violates(ds, k)
  {
    CleanPrefix(n, ds, k);
    CleanHolds(n, ds[..k]);
    HoldsReports(n, ds, k);
  }

  /** Over any deliveries an error is reported if and only if two of them give different commands at
      one index, a server is given an index above 1 without its predecessor, or a report is lost. */
  lemma {:induction false} CheckerExact(n: nat, ds: seq<Delivery>, m: nat)
    requires InRange(n, ds) && m <= |ds|
    ensures (exists k :: 0 <= k < m && Reports(n, ds, k)) <==> (exists k :: 0 <= k < m && Violates(ds, k))
  {
    if m > 0 {
      CheckerExact(n, ds, m - 1);
      if !(exists k :: 0 <= k < m - 1 && Reports(n, ds, k)) {
        FirstErrorExact(n, ds, m - 1);
      }
    }
  }

  /** `log` agrees with `common`, and has every predecessor down to index 1. */
  ghost predicate Fits(log: Log, common: Log) {
    forall x | x in log :: x in common && common[x] == log[x] && (x > 1 ==> x - 1 in log)
  }

  ghost predicate AllFit(logs: seq<Log>, common: Log) {
    forall i | 0 <= i < |logs| :: Fits(logs[i], common)
  }

  /** With no error, all logs are parts of one common sequence of commands, without gaps below any
      entry. */
  lemma NoErrorMeansAgreement(n: nat, ds: seq<Delivery>)
    requires InRange(n, ds) && Clean(n, ds, |ds|)
    ensures exists common :: AllFit(After(n, ds).logs, common)
  {
    forall i | 0 <= i < n ensures Fits(After(n, ds).logs[i], Union(ds)) {
      CleanFits(n, ds, i);
    }
    assert AllFit(After(n, ds).logs, Union(ds));
  }

  ghost function Union(ds: seq<Delivery>): Log {
    if ds == [] then map[]
    else Union(ds[..|ds| - 1])[ds[|ds| - 1].index := ds[|ds| - 1].cmd]
  }

  lemma {:induction false} UnionHas(ds: seq<Delivery>, k: nat)
    requires k < |ds| && forall i, j | 0 <= i < j < |ds| && ds[i].index == ds[j].index :: ds[i].cmd == ds[j].cmd
    ensures ds[k].index in Union(ds) && Union(ds)[ds[k].index] == ds[k].cmd
  {
    if k < |ds| - 1 {
      UnionHas(ds[..|ds| - 1], k);
    }
  }

  lemma CleanFits(n: nat, ds: seq<Delivery>, i: nat)
    requires InRange(n, ds) && i < n && Clean(n, ds, |ds|)
    ensures Fits(After(n, ds).logs[i], Union(ds))
  {
    CleanHolds(n, ds);
    var log := After(n, ds).logs[i];
    forall k | 0 <= k < |ds| ensures !Violates(ds, k) {
      FirstErrorExact(n, ds, k);
    }
    forall j, k | 0 <= j < k < |ds| && ds[j].index == ds[k].index ensures ds[j].cmd == ds[k].cmd {
      assert !Violates(ds, k);
    }
    forall x | x in log ensures x in Union(ds) && Union(ds)[x] == log[x] && (x > 1 ==> x - 1 in log) {
      var k :| 0 <= k < |ds| && ds[k] == Delivery(i, x, log[x], Arrived);
      UnionHas(ds, k);
      assert !Violates(ds, k);
    }
  }

  // ----- every report, also after the first error

  /** The command of the last delivery that told the monitor of index x at server i. */
  function LastGiven(ds: seq<Delivery>, i: nat, x: int): Option<Command> {
    if ds == [] then None
    else
      var d := ds[|ds| - 1];
      if d.srv == i && d.index == x && !d.reach.RequestLost? then Some(d.cmd) else LastGiven(ds[..|ds| - 1], i, x)
  }

  /** What a log has at an index. */
  function Lookup(log: Log, x: int): Option<Command> {
    if x in log then Some(log[x]) else None
  }

  lemma {:induction false} LogsAreLastGiven(n: nat, ds: seq<Delivery>, i: nat, x: int)
    requires InRange(n, ds) && i < n
    ensures Lookup(After(n, ds).logs[i], x) == LastGiven(ds, i, x)
  {
    if ds != [] {
      LogsAreLastGiven(n, ds[..|ds| - 1], i, x);
    }
  }

  /** Some server was last given another command there. */
  ghost predicate GivenOther(n: nat, ds: seq<Delivery>, index: int, cmd: Command) {
    exists i: nat :: i < n && LastGiven(ds, i, index).Some? && LastGiven(ds, i, index).value != cmd
  }

  lemma ConflictsExactly(n: nat, ds: seq<Delivery>, index: int, cmd: Command)
    requires InRange(n, ds)
    ensures Conflicts(After(n, ds).logs, index, cmd) <==> GivenOther(n, ds, index, cmd)
  {
    forall i: nat | i < n ensures Lookup(After(n, ds).logs[i], index) == LastGiven(ds, i, index) {
      LogsAreLastGiven(n, ds, i, index);
    }
  }

  /** Each single delivery is reported if and only if its call is lost, some server was last given
      another command at its index, or its server was not given its predecessor. */
  lemma EveryReportExact(n: nat, ds: seq<Delivery>, k: nat)
    requires InRange(n, ds) && k < |ds|
    ensures var d := ds[k];
            Reports(n, ds, k) <==>
            || !d.reach.Arrived?
            || GivenOther(n, ds[..k], d.index, d.cmd)
            || (d.index > 1 && LastGiven(ds[..k], d.srv, d.index - 1).None?)
  {
    ConflictsExactly(n, ds[..k], ds[k].index, ds[k].cmd);
    LogsAreLastGiven(n, ds[..k], ds[k].srv, ds[k].index - 1);
  }

  /** The largest index the monitor was told of, or 0. */
  lemma {:induction false} MaxIndexExact(n: nat, ds: seq<Delivery>)
    requires InRange(n, ds)
    ensures var max := After(n, ds).maxIndex;
            && max >= 0
            && (forall k | 0 <= k < |ds| && !ds[k].reach.RequestLost? :: ds[k].index <= max)
            && (max > 0 ==> exists k :: 0 <= k < |ds| && !ds[k].reach.RequestLost? && ds[k].index == max)
  {
    if ds != [] {
      MaxIndexExact(n, ds[..|ds| - 1]);
    }
  }
}
