/** Snapshotting servers fed by anything at all: any command at any index, any snapshot bytes, restarts
    with whatever was saved.  Exactly which of it is reported, in terms of what was fed. */
module SnapshotFeeds {
  import opened Wrappers
  import opened LogChecker
  import opened SnapshotServers

  /** Server `srv` is given a message, or is started with a saved snapshot or none. */
  datatype Event = Given(srv: nat, m: ApplyMsg, reach: Reach) | Booted(srv: nat, blob: Blob, reach: Reach)

  datatype World = World(ts: Tester, srvs: seq<Server>)

  ghost predicate ForServers(n: nat, es: seq<Event>) {
    forall k | 0 <= k < |es| :: es[k].srv < n
  }

  // ----- what the servers and the monitor do

  ghost function Happens(w: World, e: Event): (w': World)
    requires e.srv < |w.ts.logs| == |w.srvs|
    ensures |w'.ts.logs| == |w'.srvs| == |w.srvs|
  {
    match e
    case Given(i, m, reach) =>
      var o := Applied(w.ts, i, w.srvs[i], m, reach);
      World(o.ts, w.srvs[i := o.rs])
    case Booted(i, blob, reach) =>
      var rs := Ingested(Server(map[], 0), blob, -1);
      World(if IngestFails(blob, -1) || reach.RequestLost? then w.ts else w.ts.(logs := w.ts.logs[i := rs.log]),
            w.srvs[i := rs])
  }

  ghost function Fed(n: nat, es: seq<Event>): (w: World)
    requires ForServers(n, es)
    ensures |w.ts.logs| == |w.srvs| == n
  {
    if es == [] then World(Tester(seq(n, i => map[]), 0), seq(n, i => Server(map[], 0)))
    else Happens(Fed(n, es[..|es| - 1]), es[|es| - 1])
  }

  /** An error is reported for the k-th event. */
  ghost predicate Reported(n: nat, es: seq<Event>, k: nat)
    requires ForServers(n, es) && k < |es|
  {
    var w := Fed(n, es[..k]);
    match es[k]
    case Given(i, m, reach) => !Applied(w.ts, i, w.srvs[i], m, reach).alarm.Quiet?
    case Booted(_, blob, _) => !blob.NoBytes? && IngestFails(blob, -1)
  }

  // ----- the same in terms of the events

  function SnapshotAt(snap: Snap, x: int): Option<Command> {
    if 0 <= x < |snap.xlog| then Some(snap.xlog[x]) else None
  }

  /** Present, readable, and of the index it comes with. */
  predicate Readable(blob: Blob, index: int) {
    blob.Encoded? && (index == -1 || index == blob.snap.last)
  }

  /** The index of the last command given to server i, or of the last snapshot it took up. */
  function Position(es: seq<Event>, i: nat): int {
    if es == [] then 0
    else
      var front, e := es[..|es| - 1], es[|es| - 1];
      if e.srv != i then Position(front, i)
      else
        match e
        case Given(_, CommandMsg(index, _), _) => index
        case Given(_, SnapshotMsg(blob, last), _) => if Readable(blob, last) then blob.snap.last else Position(front, i)
        case Given(_, OtherMsg, _) => Position(front, i)
        case Booted(_, blob, _) => if blob.Encoded? then blob.snap.last else 0
  }

  /** What server i has at index x. */
  function Own(es: seq<Event>, i: nat, x: int): Option<Command> {
    if es == [] then None
    else
      var front, e := es[..|es| - 1], es[|es| - 1];
      if e.srv != i then Own(front, i, x)
      else
        match e
        case Given(_, CommandMsg(index, cmd), _) => if index == x then Some(cmd) else Own(front, i, x)
        case Given(_, SnapshotMsg(blob, last), _) => if Readable(blob, last) then SnapshotAt(blob.snap, x) else Own(front, i, x)
        case Given(_, OtherMsg, _) => Own(front, i, x)
        case Booted(_, blob, _) => if blob.Encoded? then SnapshotAt(blob.snap, x) else None
  }

  /** What the monitor has been told that server i has at index x: commands in their turn, and all of
      the server's log with a snapshot. */
  function Told(es: seq<Event>, i: nat, x: int): Option<Command> {
    if es == [] then None
    else
      var front, e := es[..|es| - 1], es[|es| - 1];
      if e.srv != i || e.reach.RequestLost? then Told(front, i, x)
      else
        match e
        case Given(_, CommandMsg(index, cmd), _) =>
          if index == x && index == Position(front, i) + 1 then Some(cmd) else Told(front, i, x)
        case Given(_, SnapshotMsg(_, _), _) => Own(es, i, x)
        case Given(_, OtherMsg, _) => Told(front, i, x)
        case Booted(_, blob, _) => if blob.Encoded? then Own(es, i, x) else Told(front, i, x)
  }

  /** Some server is said to have another command there. */
  ghost predicate Contradicted(n: nat, es: seq<Event>, index: int, cmd: Command) {
    exists j: nat :: j < n && Told(es, j, index).Some? && Told(es, j, index).value != cmd
  }

  /** A command is wrong if it is not the next after the server's position, if its call is lost, if the
      monitor was not told of its predecessor, or if it is contradicted.  A snapshot is wrong if it is
      absent, not readable, or of another index. */
  ghost predicate Wrong(n: nat, es: seq<Event>, k: nat)
    requires k < |es|
  {
    var before := es[..k];
    match es[k]
    case Given(i, CommandMsg(index, cmd), reach) =>
      || index != Position(before, i) + 1
      || !reach.Arrived?
      || (index > 1 && Told(before, i, index - 1).None?)
      || Contradicted(n, before, index, cmd)
    case Given(_, SnapshotMsg(blob, last), _) => !Readable(blob, last)
    case Given(_, OtherMsg, _) => false
    case Booted(_, blob, _) => blob.Garbled?
  }

  // ----- they agree

  /** The world is as the events say. */
  ghost predicate AsTold(n: nat, es: seq<Event>, w: World) {
    && |w.ts.logs| == |w.srvs| == n
    && forall i: nat | i < n ::
         && w.srvs[i].lastApplied == Position(es, i)
         && (forall x :: Lookup(w.srvs[i].log, x) == Own(es, i, x))
         && (forall x :: Lookup(w.ts.logs[i], x) == Told(es, i, x))
  }

  lemma TakenUp(snap: Snap, x: int)
    ensures Lookup(LogOf(snap.xlog), x) == SnapshotAt(snap, x)
  {
  }

  lemma OneMore(n: nat, es: seq<Event>, e: Event, w: World)
    requires e.srv < n && AsTold(n, es, w)
    ensures AsTold(n, es + [e], Happens(w, e))
  {
    var all := es + [e];
    assert all[..|es|] == es && all[|es|] == e;
    var w' := Happens(w, e);
    forall i: nat | i < n
      ensures w'.srvs[i].lastApplied == Position(all, i)
      ensures forall x :: Lookup(w'.srvs[i].log, x) == Own(all, i, x)
      ensures forall x :: Lookup(w'.ts.logs[i], x) == Told(all, i, x)
    {
      forall snap: Snap, x: int ensures Lookup(LogOf(snap.xlog), x) == SnapshotAt(snap, x) {
        TakenUp(snap, x);
      }
    }
  }

  /** Servers and monitor hold exactly what the events say: positions, own logs, and what the monitor
      was told. */
  lemma {:induction false} FedExactly(n: nat, es: seq<Event>)
    requires ForServers(n, es)
    ensures AsTold(n, es, Fed(n, es))
  {
    if es != [] {
      var front := es[..|es| - 1];
      FedExactly(n, front);
      OneMore(n, front, es[|es| - 1], Fed(n, front));
      assert es == front + [es[|es| - 1]];
    }
  }

  /** Whatever is fed, in any order: an error is reported for an event if and only if it is wrong. */
  lemma FeedExact(n: nat, es: seq<Event>, k: nat)
    requires ForServers(n, es) && k < |es|
    ensures Reported(n, es, k) <==> Wrong(n, es, k)
  {
    FedExactly(n, es[..k]);
    var w := Fed(n, es[..k]);
    if es[k].Given? && es[k].m.CommandMsg? {
      ContradictedConflicts(n, es[..k], w, es[k].m.index, es[k].m.cmd);
      assert Lookup(w.ts.logs[es[k].srv], es[k].m.index - 1) == Told(es[..k], es[k].srv, es[k].m.index - 1);
    }
  }

  lemma ContradictedConflicts(n: nat, es: seq<Event>, w: World, index: int, cmd: Command)
    requires AsTold(n, es, w)
    ensures Conflicts(w.ts.logs, index, cmd) <==> Contradicted(n, es, index, cmd)
  {
    forall j: nat | j < n
      ensures Lookup(w.ts.logs[j], index) == Told(es, j, index)
      ensures index in w.ts.logs[j] <==> Told(es, j, index).Some?
    {
    }
  }

  /** A snapshot is handed to Raft after a command if and only if its index is 9 modulo 10, and it holds
      what the server has at every index up to it. */
  lemma SnapshotsExact(n: nat, es: seq<Event>, e: Event, index: int, cmd: Command)
    requires ForServers(n, es) && e.srv < n && e.Given? && e.m == CommandMsg(index, cmd)
    ensures var w := Fed(n, es);
            var made := Applied(w.ts, e.srv, w.srvs[e.srv], e.m, e.reach).made;
            && (made.MadeSnap? <==> index % 10 == 9)
            && (made.MadeSnap? ==>
                  && made.snap.last == index && |made.snap.xlog| == (if index < 0 then 0 else index + 1)
                  && forall x | 0 <= x <= index ::
                       made.snap.xlog[x] == var own := Own(es + [e], e.srv, x); if own.Some? then own.value else Nil)
  {
    FedExactly(n, es);
    OneMore(n, es, e, Fed(n, es));
    var rs := Happens(Fed(n, es), e).srvs[e.srv];
    assert forall x :: Lookup(rs.log, x) == Own(es + [e], e.srv, x);
  }

  /** A cluster fed from one global log is fed like this, step by step. */
  lemma ClusterIsFed(g: int -> Command, s: Cluster, a: Action)
    requires Shaped(s) && Enabled(s, a)
    ensures var t, w := Next(g, s, a), World(s.ts, s.srvs);
            match a
            case Deliver(i, reach) =>
              var index := s.srvs[i].lastApplied + 1;
              World(t.ts, t.srvs) == Happens(w, Given(i, CommandMsg(index, g(index)), reach))
            case Install(i, snap, reach) =>
              World(t.ts, t.srvs) == Happens(w, Given(i, SnapshotMsg(Encoded(snap), snap.last), reach))
            case Crash(_) => World(t.ts, t.srvs) == w
            case Restart(i, saved, reach) =>
              World(t.ts, t.srvs) == Happens(w, Booted(i, if saved.Saved? then Encoded(saved.snap) else NoBytes, reach))
  {
  }
}
