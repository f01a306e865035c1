/** The simulated network: clients' end-points, named servers that come and go, and requests that
    may be lost, delayed or overtaken by changes to the network. */
module Network {
  import opened Wrappers

  type Endname = nat
  type Name = nat

  /** A server object; a restarted server is a new object under the old name. */
  type Object = nat

  datatype Reply = Reply(ok: bool, data: string)

  const NO_REPLY := Reply(false, "")

  // ----- the network's tables

  datatype Net = Net(
    enabled: map<Endname, bool>, connections: map<Endname, Option<Name>>,
    servers: map<Name, Option<Object>>, reliable: bool, reordering: bool)

  /** What a request learns about its end-point when it is picked up. */
  datatype Info = Info(enabled: bool, name: Option<Name>, server: Option<Object>, reliable: bool, reordering: bool)

  predicate IsEnabled(net: Net, e: Endname) {
    e in net.enabled && net.enabled[e]
  }

  function ServerAt(net: Net, n: Name): Option<Object> {
    if n in net.servers then net.servers[n] else None
  }

  function ReadEnd(net: Net, e: Endname): Info {
    var name := if e in net.connections then net.connections[e] else None;
    Info(IsEnabled(net, e), name, if name.Some? then ServerAt(net, name.value) else None, net.reliable, net.reordering)
  }

  /** Requests on end-point `e` reach server object `o`. */
  predicate Leads(net: Net, e: Endname, o: Object) {
    && IsEnabled(net, e)
    && e in net.connections && net.connections[e].Some?
    && net.connections[e].value in net.servers && net.servers[net.connections[e].value] == Some(o)
  }

  /** The end-point led to a server. */
  predicate Reachable(info: Info) {
    info.enabled && info.name.Some? && info.server.Some?
  }

  /** The end-point was disabled, or another object or none has the server's name now. */
  predicate IsDead(net: Net, e: Endname, info: Info)
    requires info.name.Some?
  {
    !IsEnabled(net, e) || ServerAt(net, info.name.value) != info.server
  }

  /** Changes to the tables, each made under the network's lock. */
  datatype Change =
    | MakeEnd(e: Endname)
    | DeleteEnd(e: Endname)
    | Connect(e: Endname, n: Name)
    | Enable(e: Endname, on: bool)
    | AddServer(n: Name, o: Object)
    | DeleteServer(n: Name)
    | SetReliable(yes: bool)
    | SetReordering(yes: bool)

  function Apply(net: Net, ch: Change): Net {
    match ch
    case MakeEnd(e) => net.(enabled := net.enabled[e := false], connections := net.connections[e := None])
    case DeleteEnd(e) => net.(enabled := net.enabled - {e}, connections := net.connections - {e})
    case Connect(e, n) => net.(connections := net.connections[e := Some(n)])
    case Enable(e, on) => net.(enabled := net.enabled[e := on])
    case AddServer(n, o) => net.(servers := net.servers[n := Some(o)])
    case DeleteServer(n) => net.(servers := net.servers[n := None])
    case SetReliable(yes) => net.(reliable := yes)
    case SetReordering(yes) => net.(reordering := yes)
  }

  /** The change may show to requests on end-point `e`. */
  predicate Concerns(net: Net, ch: Change, e: Endname) {
    match ch
    case MakeEnd(x) => x == e
    case DeleteEnd(x) => x == e
    case Connect(x, _) => x == e
    case Enable(x, _) => x == e
    case AddServer(n, _) => e in net.connections && net.connections[e] == Some(n)
    case DeleteServer(n) => e in net.connections && net.connections[e] == Some(n)
    case SetReliable(_) => true
    case SetReordering(_) => true
  }

  /** The tables as an object, and its critical sections. */
  class Tables {
    var enabled: map<Endname, bool>
    var connections: map<Endname, Option<Name>>
    var servers: map<Name, Option<Object>>
    var reliable: bool
    var reordering: bool

    ghost function Value(): Net
      reads this
    {
      Net(enabled, connections, servers, reliable, reordering)
    }

    constructor ()
      ensures Value() == Net(map[], map[], map[], true, false)
    {
      enabled, connections, servers, reliable, reordering := map[], map[], map[], true, false;
    }

    /** What is read leads somewhere exactly if the end-point does, then to the same object, and that
        object does not count as dead. */
    method ReadEndnameInfo(e: Endname) returns (info: Info)
      ensures info == ReadEnd(Value(), e)
      ensures Reachable(info) <==> exists o :: Leads(Value(), e, o)
      ensures Reachable(info) ==> Leads(Value(), e, info.server.value) && !IsDead(Value(), e, info)
    {
      var on := e in enabled && enabled[e];
      var name := None;
      if e in connections {
        name := connections[e];
      }
      var server := None;
      if name.Some? && name.value in servers {
        server := servers[name.value];
      }
      info := Info(on, name, server, reliable, reordering);
      if Reachable(info) {
        assert Leads(Value(), e, server.value);
      }
    }

    /** A server is alive exactly if its end-point, unless rewired, still leads to the same object. */
    method IsServerDead(e: Endname, info: Info) returns (dead: bool)
      requires info.name.Some?
      ensures dead <==> IsDead(Value(), e, info)
      ensures info.server.Some? && e in connections && connections[e] == info.name ==>
                (dead <==> !Leads(Value(), e, info.server.value))
    {
      var now := None;
      if info.name.value in servers {
        now := servers[info.name.value];
      }
      if !(e in enabled && enabled[e]) || now != info.server {
        return true;
      }
      return false;
    }

    /** A change shows only to the end-points it concerns.  Disabling, making or deleting an end-point,
        deleting a server or putting another object in its place makes whatever was read before count
        as dead; connecting an end-point or adding a server makes enabled end-points lead there. */
    method Update(ch: Change)
      modifies this
      ensures Value() == Apply(old(Value()), ch)
      ensures forall e | !Concerns(old(Value()), ch, e) :: ReadEnd(Value(), e) == old(ReadEnd(Value(), e))
      ensures ch.MakeEnd? || ch.DeleteEnd? || (ch.Enable? && !ch.on) ==>
                forall info: Info | info.name.Some? :: IsDead(Value(), ch.e, info)
      ensures ch.DeleteServer? ==>
                forall e, info: Info | info.name == Some(ch.n) && info.server.Some? :: IsDead(Value(), e, info)
      ensures ch.AddServer? ==>
                forall e, info: Info | info.name == Some(ch.n) && info.server != Some(ch.o) :: IsDead(Value(), e, info)
      ensures ch.AddServer? ==> forall e | IsEnabled(old(Value()), e) && e in connections && connections[e] == Some(ch.n) ::
                                  Leads(Value(), e, ch.o)
      ensures ch.Connect? ==> forall o | IsEnabled(old(Value()), ch.e) && old(ServerAt(Value(), ch.n)) == Some(o) ::
                                Leads(Value(), ch.e, o)
      ensures ch.Enable? ==> (ch.on <==> IsEnabled(Value(), ch.e))
      ensures ch.SetReliable? ==> forall e :: ReadEnd(Value(), e) == old(ReadEnd(Value(), e)).(reliable := ch.yes)
      ensures ch.SetReordering? ==> forall e :: ReadEnd(Value(), e) == old(ReadEnd(Value(), e)).(reordering := ch.yes)
    {
      match ch
      case MakeEnd(e) => enabled, connections := enabled[e := false], connections[e := None];
      case DeleteEnd(e) => enabled, connections := enabled - {e}, connections - {e};
      case Connect(e, n) => connections := connections[e := Some(n)];
      case Enable(e, on) => enabled := enabled[e := on];
      case AddServer(n, o) => servers := servers[n := Some(o)];
      case DeleteServer(n) => servers := servers[n := None];
      case SetReliable(yes) => reliable := yes;
      case SetReordering(yes) => reordering := yes;
    }

    // The three places where processing a request looks at the tables, as steps of the system below.

    method PickUp(ghost s: System, ghost r: nat, q: Request) returns (q': Request)
      requires s.net == Value() && AtStage(s, r, Queued) && q == s.reqs[r]
      ensures q' == Next(s, ReadInfo(r)).reqs[r]
    {
      var info := ReadEndnameInfo(q.end);
      q' := q.(info := Some(info), stage := if Reachable(info) then Ready else NoServer);
    }

    method Poll(ghost s: System, ghost r: nat, q: Request) returns (q': Request)
      requires s.net == Value() && AtStage(s, r, Running) && q == s.reqs[r] && q.info.Some? && q.info.value.name.Some?
      ensures q' == if Enabled(s, PollDead(r)) then Next(s, PollDead(r)).reqs[r] else q
    {
      var dead := IsServerDead(q.end, q.info.value);
      q' := if dead then q.(stage := GaveUp) else q;
    }

    method Finish(ghost s: System, ghost r: nat, q: Request, fate: Fate) returns (q': Request)
      requires s.net == Value() && Enabled(s, FinalCheck(r, fate)) && q == s.reqs[r]
      ensures q' == Next(s, FinalCheck(r, fate)).reqs[r]
    {
      var dead := IsServerDead(q.end, q.info.value);
      if !(q.stage.GotReply? && q.handler.Finished?) || dead || fate.Drop? {
        q' := Answer(q, NO_REPLY);
      } else if fate.Delay? {
        q' := q.(stage := Delayed);
      } else {
        q' := Answer(q, q.handler.reply);
      }
    }
  }

  // ----- requests on their way

  /** Where the goroutine that processes a request stands: not picked up; about to run the handler;
      about to time out; waiting for the handler; holding its reply; having found the server dead;
      holding back a reply; or finished. */
  datatype Stage = Queued | Ready | NoServer | Running | GotReply | GaveUp | Delayed | Answered

  /** The separate goroutine that runs the handler. */
  datatype Handler = NotStarted | Executing | Finished(reply: Reply)

  /** `runs` counts how often the handler was started and `answers` collects what was sent back. */
  datatype Request = Request(
    end: Endname, info: Option<Info>, stage: Stage, handler: Handler, runs: nat, answers: seq<Reply>)

  /** `count` are the per-server counters of incoming requests. */
  datatype System = System(net: Net, reqs: seq<Request>, count: map<Object, nat>)

  /** What happens to a reply that arrived from a live server. */
  datatype Fate = Drop | Delay | Pass

  datatype Action =
    | Change(ch: Change)
    | Call(e: Endname)
    | ReadInfo(r: nat)
    | DropRequest(r: nat)
    | Dispatch(r: nat)
    | HandlerReturns(r: nat, reply: Reply)
    | TakeReply(r: nat)
    | PollDead(r: nat)
    | FinalCheck(r: nat, fate: Fate)
    | LateReply(r: nat)
    | Timeout(r: nat)

  predicate AtStage(s: System, r: nat, st: Stage) {
    r < |s.reqs| && s.reqs[r].stage == st
  }

  function Count(m: map<Object, nat>, o: Object): nat {
    if o in m then m[o] else 0
  }

  predicate Enabled(s: System, a: Action) {
    match a
    case Change(_) => true
    case Call(_) => true
    case ReadInfo(r) => AtStage(s, r, Queued)
    case DropRequest(r) => AtStage(s, r, Ready) && s.reqs[r].info.Some? && !s.reqs[r].info.value.reliable
    case Dispatch(r) => AtStage(s, r, Ready) && s.reqs[r].info.Some? && s.reqs[r].info.value.server.Some?
    case HandlerReturns(r, _) => r < |s.reqs| && s.reqs[r].handler.Executing?
    case TakeReply(r) => AtStage(s, r, Running) && s.reqs[r].handler.Finished?
    case PollDead(r) =>
      && AtStage(s, r, Running) && s.reqs[r].info.Some? && s.reqs[r].info.value.name.Some?
      && IsDead(s.net, s.reqs[r].end, s.reqs[r].info.value)
    case FinalCheck(r, fate) =>
      && (AtStage(s, r, GotReply) || AtStage(s, r, GaveUp))
      && s.reqs[r].info.Some? && s.reqs[r].info.value.name.Some?
      && (fate.Drop? ==> !s.reqs[r].info.value.reliable)
      && (fate.Delay? ==> s.reqs[r].info.value.reordering)
    case LateReply(r) => AtStage(s, r, Delayed) && s.reqs[r].handler.Finished?
    case Timeout(r) => AtStage(s, r, NoServer)
  }

  function Answer(q: Request, reply: Reply): Request {
    q.(stage := Answered, answers := q.answers + [reply])
  }

  /** The request after a step of its own. */
  function Advance(s: System, q: Request, a: Action): Request
    requires !a.Change? && !a.Call? && a.r < |s.reqs| && q == s.reqs[a.r] && Enabled(s, a)
  {
    match a
    case ReadInfo(_) =>
      var info := ReadEnd(s.net, q.end);
      q.(info := Some(info), stage := if Reachable(info) then Ready else NoServer)
    case DropRequest(_) => Answer(q, NO_REPLY)
    case Dispatch(_) => q.(stage := Running, handler := Executing, runs := q.runs + 1)
    case HandlerReturns(_, reply) => q.(handler := Finished(reply))
    case TakeReply(_) => q.(stage := GotReply)
    case PollDead(_) => q.(stage := GaveUp)
    case FinalCheck(_, fate) =>
      if q.stage.GaveUp? || !q.handler.Finished? || IsDead(s.net, q.end, q.info.value) || fate.Drop? then Answer(q, NO_REPLY)
      else if fate.Delay? then q.(stage := Delayed)
      else Answer(q, q.handler.reply)
    case LateReply(_) => Answer(q, q.handler.reply)
    case Timeout(_) => Answer(q, NO_REPLY)
  }

  function Next(s: System, a: Action): System
    requires Enabled(s, a)
  {
    match a
    case Change(ch) => s.(net := Apply(s.net, ch))
    case Call(e) => s.(reqs := s.reqs + [Request(e, None, Queued, NotStarted, 0, [])])
    case Dispatch(r) =>
      var o := s.reqs[r].info.value.server.value;
      s.(reqs := s.reqs[r := Advance(s, s.reqs[r], a)], count := s.count[o := Count(s.count, o) + 1])
    case _ => s.(reqs := s.reqs[a.r := Advance(s, s.reqs[a.r], a)])
  }

  ghost predicate Start(s: System) {
    s.reqs == [] && s.count == map[]
  }

  ghost predicate Execution(tr: seq<System>, acts: seq<Action>) {
    && |tr| == |acts| + 1 && Start(tr[0])
    && forall k | 0 <= k < |acts| :: Enabled(tr[k], acts[k]) && tr[k + 1] == Next(tr[k], acts[k])
  }

  // ----- what every request keeps

  ghost predicate RequestInv(q: Request) {
    && (q.stage.Queued? <==> q.info.None?)
    && (q.runs == 0 <==> q.handler.NotStarted?)
    && q.runs <= 1
    && (q.runs == 1 ==> q.info.Some? && Reachable(q.info.value))
    && match q.stage
       case Queued => q.runs == 0 && q.answers == []
       case Ready => q.runs == 0 && q.answers == [] && Reachable(q.info.value)
       case NoServer => q.runs == 0 && q.answers == [] && !Reachable(q.info.value)
       case Running => q.runs == 1 && q.answers == []
       case GotReply => q.runs == 1 && q.answers == [] && q.handler.Finished?
       case GaveUp => q.runs == 1 && q.answers == []
       case Delayed => q.runs == 1 && q.answers == [] && q.handler.Finished?
       case Answered => |q.answers| == 1 && (q.answers[0].ok ==> q.handler == Finished(q.answers[0]))
  }

  /** How many of the requests started a handler of server `o`. */
  function Started(reqs: seq<Request>, o: Object): nat {
    if reqs == [] then 0
    else
      var q := reqs[|reqs| - 1];
      Started(reqs[..|reqs| - 1], o) + if q.runs > 0 && q.info.Some? && q.info.value.server == Some(o) then 1 else 0
  }

  ghost predicate Inv(s: System) {
    && (forall r | 0 <= r < |s.reqs| :: RequestInv(s.reqs[r]))
    && (forall o :: Count(s.count, o) == Started(s.reqs, o))
  }

  lemma {:induction false} StartedUpdate(reqs: seq<Request>, r: nat, q: Request, o: Object)
    requires r < |reqs|
    ensures Started(reqs[r := q], o) == Started(reqs, o) - Started([reqs[r]], o) + Started([q], o)
  {
    var last := |reqs| - 1;
    if r < last {
      StartedUpdate(reqs[..last], r, q, o);
      assert reqs[r := q][..last] == reqs[..last][r := q];
    } else {
      assert reqs[r := q][..last] == reqs[..last];
      assert [q][..0] == [] && [reqs[r]][..0] == [];
    }
  }

  lemma AdvanceKeeps(s: System, a: Action)
    requires !a.Change? && !a.Call? && a.r < |s.reqs| && Enabled(s, a) && RequestInv(s.reqs[a.r])
    ensures RequestInv(Advance(s, s.reqs[a.r], a))
  {
  }

  lemma CountKeeps(s: System, a: Action, o: Object)
    requires Inv(s) && Enabled(s, a) && !a.Call? && !a.Change?
    ensures Count(Next(s, a).count, o) == Started(Next(s, a).reqs, o)
  {
    var t := Next(s, a);
    StartedUpdate(s.reqs, a.r, t.reqs[a.r], o);
    SingleStarted(s.reqs[a.r], o);
    SingleStarted(t.reqs[a.r], o);
  }

  lemma StepKeepsInv(s: System, a: Action)
    requires Inv(s) && Enabled(s, a)
    ensures Inv(Next(s, a))
  {
    var t := Next(s, a);
    if a.Call? {
      assert t.reqs[..|t.reqs| - 1] == s.reqs;
    } else if !a.Change? {
      AdvanceKeeps(s, a);
      forall o ensures Count(t.count, o) == Started(t.reqs, o) {
        CountKeeps(s, a, o);
      }
    }
  }

  lemma SingleStarted(q: Request, o: Object)
    ensures Started([q], o) == if q.runs > 0 && q.info.Some? && q.info.value.server == Some(o) then 1 else 0
  {
  }

  lemma {:induction false} ExecutionKeepsInv(tr: seq<System>, acts: seq<Action>, k: nat)
    requires Execution(tr, acts) && k < |tr|
    ensures Inv(tr[k])
  {
    if k > 0 {
      ExecutionKeepsInv(tr, acts, k - 1);
      StepKeepsInv(tr[k - 1], acts[k - 1]);
    }
  }

  /** However the tables change meanwhile: a handler runs at most once per request, never for a
      request whose end-point was disabled or led nowhere when it was picked up; a request is
      answered at most once, and such a request only with a failure; and every server's counter is
      the number of handlers started on it. */
  lemma AtMostOnce(tr: seq<System>, acts: seq<Action>, k: nat, r: nat)
    requires Execution(tr, acts) && k < |tr| && r < |tr[k].reqs|
    ensures var q := tr[k].reqs[r];
            && q.runs <= 1
            && |q.answers| <= 1
            && (|q.answers| == 1 <==> q.stage.Answered?)
            && (q.info.Some? && !Reachable(q.info.value) ==> q.runs == 0 && forall x | x in q.answers :: !x.ok)
    ensures forall o :: Count(tr[k].count, o) == Started(tr[k].reqs, o)
  {
    ExecutionKeepsInv(tr, acts, k);
    assert RequestInv(tr[k].reqs[r]);
  }

  /** An unanswered request can always take a step, except to wait for its handler; so it is
      answered exactly once unless the handler never returns. */
  lemma NeverStuck(tr: seq<System>, acts: seq<Action>, k: nat, r: nat)
    requires Execution(tr, acts) && k < |tr| && r < |tr[k].reqs|
    ensures var q := tr[k].reqs[r];
            q.stage.Answered? || q.handler.Executing? ||
            exists a :: Enabled(tr[k], a) && !a.Change? && !a.Call? && a.r == r
  {
    ExecutionKeepsInv(tr, acts, k);
    var s := tr[k];
    var q := s.reqs[r];
    assert RequestInv(q);
    match q.stage
    case Queued => assert Enabled(s, ReadInfo(r));
    case Ready => assert Enabled(s, Dispatch(r));
    case NoServer => assert Enabled(s, Timeout(r));
    case Running => if q.handler.Finished? { assert Enabled(s, TakeReply(r)); }
    case GotReply => assert Enabled(s, FinalCheck(r, Pass));
    case GaveUp => assert Enabled(s, FinalCheck(r, Pass));
    case Delayed => assert Enabled(s, LateReply(r));
    case Answered =>
  }

  /** What a request still has before it. */
  function Ahead(q: Request): nat {
    (match q.stage
     case Queued => 6
     case Ready => 5
     case Running => 4
     case GotReply => 3
     case GaveUp => 2
     case NoServer => 1
     case Delayed => 1
     case Answered => 0) + if q.handler.Finished? then 0 else 1
  }

  /** How many of the actions are steps of request r. */
  function StepsOf(acts: seq<Action>, r: nat): nat {
    if acts == [] then 0
    else
      var a := acts[|acts| - 1];
      StepsOf(acts[..|acts| - 1], r) + if !a.Change? && !a.Call? && a.r == r then 1 else 0
  }

  lemma StepAhead(s: System, a: Action, r: nat)
    requires Inv(s) && Enabled(s, a) && r < |s.reqs|
    ensures r < |Next(s, a).reqs|
    ensures Ahead(Next(s, a).reqs[r]) <= Ahead(s.reqs[r]) - if !a.Change? && !a.Call? && a.r == r then 1 else 0
  {
  }

  /** A request takes at most seven steps, so with NeverStuck every request whose handler returns
      is answered after finitely many. */
  lemma {:induction false} FewSteps(tr: seq<System>, acts: seq<Action>, r: nat)
    requires Execution(tr, acts)
    ensures var s := tr[|acts|];
            StepsOf(acts, r) + (if r < |s.reqs| then Ahead(s.reqs[r]) else 7) <= 7
  {
    if acts != [] {
      var n := |acts| - 1;
      FewSteps(tr[..n + 1], acts[..n], r);
      ExecutionKeepsInv(tr, acts, n);
      if r < |tr[n].reqs| {
        StepAhead(tr[n], acts[n], r);
      }
    }
  }

  // ----- where a positive answer comes from

  /** The moment at which a request was picked up. */
  lemma {:induction false} WhenRead(tr: seq<System>, acts: seq<Action>, k: nat, r: nat) returns (i: nat)
    requires Execution(tr, acts) && k < |tr| && r < |tr[k].reqs| && tr[k].reqs[r].info.Some?
    ensures i < k && acts[i] == ReadInfo(r) && r < |tr[i].reqs|
    ensures tr[i].reqs[r].end == tr[k].reqs[r].end
    ensures tr[k].reqs[r].info == Some(ReadEnd(tr[i].net, tr[k].reqs[r].end))
  {
    var s, a := tr[k - 1], acts[k - 1];
    if a == ReadInfo(r) {
      i := k - 1;
    } else {
      i := WhenRead(tr, acts, k - 1, r);
    }
  }

  /** The moment at which its handler returned. */
  lemma {:induction false} WhenHandled(tr: seq<System>, acts: seq<Action>, k: nat, r: nat) returns (h: nat)
    requires Execution(tr, acts) && k < |tr| && r < |tr[k].reqs| && tr[k].reqs[r].handler.Finished?
    ensures h < k && acts[h] == HandlerReturns(r, tr[k].reqs[r].handler.reply)
    ensures r < |tr[h].reqs| && tr[h].reqs[r].handler.Executing?
  {
    var a := acts[k - 1];
    if a.HandlerReturns? && a.r == r {
      h := k - 1;
    } else {
      h := WhenHandled(tr, acts, k - 1, r);
    }
  }

  /** A reply is on its way back to the client, or has got there. */
  ghost predicate Replying(q: Request) {
    q.stage.Delayed? || exists x :: x in q.answers && x.ok
  }

  lemma ReplyingStep(s: System, a: Action, r: nat)
    requires Inv(s) && Enabled(s, a) && r < |Next(s, a).reqs| && Replying(Next(s, a).reqs[r])
    ensures r < |s.reqs|
    ensures var q, q' := s.reqs[r], Next(s, a).reqs[r];
            && q.handler.Finished? && q.handler == q'.handler && q.info == q'.info && q.end == q'.end
            && (Replying(q) ||
                (a.FinalCheck? && a.r == r && !a.fate.Drop? && q.stage.GotReply? && q.info.Some? &&
                 q.info.value.name.Some? && !IsDead(s.net, q.end, q.info.value)))
  {
    if r < |s.reqs| {
      assert RequestInv(s.reqs[r]);
    }
  }

  /** A request that has no reply on its way gets none while its server counts as dead: once a server
      was deleted or replaced, its late handlers cannot answer. */
  lemma {:induction false} DeadServerNeverAnswers(tr: seq<System>, acts: seq<Action>, d: nat, k: nat, r: nat)
    requires Execution(tr, acts) && d <= k < |tr| && r < |tr[d].reqs|
    requires tr[d].reqs[r].info.Some? && tr[d].reqs[r].info.value.name.Some? && !Replying(tr[d].reqs[r])
    requires forall t | d <= t < k :: IsDead(tr[t].net, tr[d].reqs[r].end, tr[d].reqs[r].info.value)
    ensures r < |tr[k].reqs| && forall x | x in tr[k].reqs[r].answers :: !x.ok
    ensures !Replying(tr[k].reqs[r]) && tr[k].reqs[r].info == tr[d].reqs[r].info && tr[k].reqs[r].end == tr[d].reqs[r].end
  {
    if d < k {
      DeadServerNeverAnswers(tr, acts, d, k - 1, r);
      InfoStep(tr[k - 1], acts[k - 1], r);
      ExecutionKeepsInv(tr, acts, k - 1);
      if Replying(tr[k].reqs[r]) {
        ReplyingStep(tr[k - 1], acts[k - 1], r);
      }
    }
  }

  lemma InfoStep(s: System, a: Action, r: nat)
    requires Enabled(s, a) && r < |s.reqs| && s.reqs[r].info.Some?
    ensures r < |Next(s, a).reqs| && Next(s, a).reqs[r].end == s.reqs[r].end
    ensures a != ReadInfo(r) ==> Next(s, a).reqs[r].info == s.reqs[r].info
  {
  }

  /** The moment of the check after the handler. */
  lemma {:induction false} WhenChecked(tr: seq<System>, acts: seq<Action>, k: nat, r: nat) returns (j: nat)
    requires Execution(tr, acts) && k < |tr| && r < |tr[k].reqs| && Replying(tr[k].reqs[r])
    ensures j < k && acts[j].FinalCheck? && acts[j].r == r && !acts[j].fate.Drop?
    ensures r < |tr[j].reqs| && tr[j].reqs[r].stage.GotReply? && tr[j].reqs[r].end == tr[k].reqs[r].end
    ensures tr[j].reqs[r].handler.Finished? && tr[j].reqs[r].handler == tr[k].reqs[r].handler
    ensures tr[j].reqs[r].info.Some? && tr[j].reqs[r].info == tr[k].reqs[r].info
    ensures tr[j].reqs[r].info.value.name.Some? && !IsDead(tr[j].net, tr[k].reqs[r].end, tr[j].reqs[r].info.value)
  {
    ExecutionKeepsInv(tr, acts, k - 1);
    ReplyingStep(tr[k - 1], acts[k - 1], r);
    if Replying(tr[k - 1].reqs[r]) {
      j := WhenChecked(tr, acts, k - 1, r);
    } else {
      j := k - 1;
    }
  }

  /** A positive answer carries the reply of the request's own handler, and the server object that
      ran it was registered under the end-point's name, with the end-point enabled, both when the
      request was picked up and at the check after the handler. */
  lemma PositiveAnswer(tr: seq<System>, acts: seq<Action>, k: nat, r: nat) returns (i: nat, h: nat, j: nat)
    requires Execution(tr, acts) && k < |tr| && r < |tr[k].reqs|
    requires exists x :: x in tr[k].reqs[r].answers && x.ok
    ensures i < h < j < k
    ensures acts[i] == ReadInfo(r) && acts[h].HandlerReturns? && acts[h].r == r && acts[j].FinalCheck? && acts[j].r == r
    ensures tr[k].reqs[r].answers == [acts[h].reply]
    ensures var e := tr[k].reqs[r].end; var info := ReadEnd(tr[i].net, e);
            && Reachable(info)
            && IsEnabled(tr[j].net, e)
            && ServerAt(tr[j].net, info.name.value) == info.server
  {
    ExecutionKeepsInv(tr, acts, k);
    assert RequestInv(tr[k].reqs[r]);
    j := WhenChecked(tr, acts, k, r);
    h := WhenHandled(tr, acts, j, r);
    ExecutionKeepsInv(tr, acts, h);
    assert RequestInv(tr[h].reqs[r]);
    i := WhenRead(tr, acts, h, r);
    var i' := WhenRead(tr, acts, k, r);
    ReadOnce(tr, acts, i, i', r);
  }

  /** A request stays on the end-point it was made on. */
  lemma {:induction false} CallStays(tr: seq<System>, acts: seq<Action>, j: nat, k: nat)
    requires Execution(tr, acts) && j < k < |tr| && acts[j].Call?
    ensures |tr[j].reqs| < |tr[k].reqs| && tr[k].reqs[|tr[j].reqs|].end == acts[j].e
  {
    if k > j + 1 {
      CallStays(tr, acts, j, k - 1);
      EndStep(tr[k - 1], acts[k - 1], |tr[j].reqs|);
    }
  }

  lemma EndStep(s: System, a: Action, r: nat)
    requires Enabled(s, a) && r < |s.reqs|
    ensures r < |Next(s, a).reqs| && Next(s, a).reqs[r].end == s.reqs[r].end
  {
  }

  // ----- where every other answer comes from

  /** What one step does to a request that was picked up: it stays answered once it is, and if it is
      answered or given up now, that is why. */
  lemma WhyStep(s: System, a: Action, r: nat)
    requires Inv(s) && Enabled(s, a) && r < |s.reqs| && s.reqs[r].info.Some?
    ensures r < |Next(s, a).reqs|
    ensures var q, q', info := s.reqs[r], Next(s, a).reqs[r], s.reqs[r].info.value;
            && q'.info == q.info && q'.end == q.end
            && (q.handler.Finished? ==> q'.handler == q.handler)
            && (q.stage.Answered? ==> q'.stage.Answered? && q'.answers == q.answers)
            && (q'.stage.GaveUp? ==> q.stage.GaveUp? || (info.name.Some? && IsDead(s.net, q.end, info)))
            && (q'.stage.Answered? ==>
                  || q.stage.Answered? || q.stage.GaveUp? || !Reachable(info) || !info.reliable
                  || (info.name.Some? && IsDead(s.net, q.end, info))
                  || q'.handler == Finished(q'.answers[0]))
  {
    assert RequestInv(s.reqs[r]);
    AdvanceKept(s, a, r);
  }

  lemma AdvanceKept(s: System, a: Action, r: nat)
    requires Inv(s) && Enabled(s, a) && r < |s.reqs|
    ensures r < |Next(s, a).reqs| && RequestInv(Next(s, a).reqs[r])
  {
    StepKeepsInv(s, a);
  }

  /** At some moment after the i-th and before the k-th the server counted as dead. */
  ghost predicate DeadBetween(tr: seq<System>, i: nat, k: nat, e: Endname, info: Info)
    requires k <= |tr|
  {
    info.name.Some? && exists t :: i < t < k && IsDead(tr[t].net, e, info)
  }

  /** An answer is the reply of the request's own handler, unless the request found no server, or the
      network was unreliable, or the server counted as dead at some moment since. */
  lemma {:induction false} FailureWhy(tr: seq<System>, acts: seq<Action>, i: nat, k: nat, r: nat)
    requires Execution(tr, acts) && i < k < |tr| && acts[i] == ReadInfo(r)
    ensures r < |tr[i].reqs| && r < |tr[k].reqs|
    ensures var e := tr[i].reqs[r].end; var info := ReadEnd(tr[i].net, e); var q := tr[k].reqs[r];
            && q.info == Some(info) && q.end == e
            && (q.stage.GaveUp? ==> DeadBetween(tr, i, k, e, info))
            && (q.stage.Answered? ==>
                  |q.answers| == 1 &&
                  (q.handler == Finished(q.answers[0]) || !Reachable(info) || !info.reliable || DeadBetween(tr, i, k, e, info)))
  {
    ExecutionKeepsInv(tr, acts, k - 1);
    if k == i + 1 {
      assert RequestInv(tr[i].reqs[r]);
    } else {
      FailureWhy(tr, acts, i, k - 1, r);
      WhyStep(tr[k - 1], acts[k - 1], r);
      AdvanceKept(tr[k - 1], acts[k - 1], r);
    }
  }

  /** On a reliable network, if a request found a server and the server never counted as dead since,
      its answer is what its handler, run once, returned. */
  lemma ReliableAnswer(tr: seq<System>, acts: seq<Action>, i: nat, k: nat, r: nat) returns (h: nat)
    requires Execution(tr, acts) && i < k < |tr| && acts[i] == ReadInfo(r) && r < |tr[i].reqs|
    requires var info := ReadEnd(tr[i].net, tr[i].reqs[r].end);
             Reachable(info) && info.reliable && !DeadBetween(tr, i, k, tr[i].reqs[r].end, info)
    requires r < |tr[k].reqs| && tr[k].reqs[r].stage.Answered?
    ensures h < k && acts[h].HandlerReturns? && acts[h].r == r
    ensures tr[k].reqs[r].runs == 1 && tr[k].reqs[r].answers == [acts[h].reply]
  {
    FailureWhy(tr, acts, i, k, r);
    ExecutionKeepsInv(tr, acts, k);
    assert RequestInv(tr[k].reqs[r]);
    h := WhenHandled(tr, acts, k, r);
  }

  /** The reply of the request's handler passed the check after the handler. */
  ghost predicate Passes(s: System, a: Action, r: nat) {
    && a.FinalCheck? && a.r == r && !a.fate.Drop? && AtStage(s, r, GotReply)
    && s.reqs[r].handler.Finished? && s.reqs[r].info.Some? && s.reqs[r].info.value.name.Some?
    && !IsDead(s.net, s.reqs[r].end, s.reqs[r].info.value)
  }

  /** The reply `x` is on its way back, or has got there. */
  ghost predicate OnItsWay(q: Request, x: Reply) {
    q.handler == Finished(x) && (q.stage.Delayed? || (q.stage.Answered? && q.answers == [x]))
  }

  lemma OnItsWayStep(s: System, a: Action, r: nat, x: Reply)
    requires Inv(s) && Enabled(s, a) && r < |s.reqs|
    requires OnItsWay(s.reqs[r], x) || (Passes(s, a, r) && s.reqs[r].handler == Finished(x))
    ensures r < |Next(s, a).reqs| && OnItsWay(Next(s, a).reqs[r], x)
  {
    assert RequestInv(s.reqs[r]);
  }

  lemma {:induction false} PassedArrives(tr: seq<System>, acts: seq<Action>, j: nat, k: nat, r: nat, x: Reply)
    requires Execution(tr, acts) && j < k < |tr| && r < |tr[j].reqs|
    requires Passes(tr[j], acts[j], r) && tr[j].reqs[r].handler == Finished(x)
    ensures r < |tr[k].reqs| && OnItsWay(tr[k].reqs[r], x)
  {
    if k > j + 1 {
      PassedArrives(tr, acts, j, k - 1, r, x);
    }
    ExecutionKeepsInv(tr, acts, k - 1);
    OnItsWayStep(tr[k - 1], acts[k - 1], r, x);
  }

  /** A request that was answered has a positive answer if and only if its handler returned one and
      that passed the check after the handler, not dropped and from a live server. */
  lemma PositiveExactly(tr: seq<System>, acts: seq<Action>, k: nat, r: nat)
    requires Execution(tr, acts) && k < |tr| && r < |tr[k].reqs| && tr[k].reqs[r].stage.Answered?
    ensures (exists x :: x in tr[k].reqs[r].answers && x.ok) <==>
            exists j :: 0 <= j < k && Passes(tr[j], acts[j], r) && tr[j].reqs[r].handler.reply.ok
  {
    ExecutionKeepsInv(tr, acts, k);
    assert RequestInv(tr[k].reqs[r]);
    if exists x :: x in tr[k].reqs[r].answers && x.ok {
      var j := WhenChecked(tr, acts, k, r);
      assert Passes(tr[j], acts[j], r);
    }
    if j: nat :| j < k && Passes(tr[j], acts[j], r) && tr[j].reqs[r].handler.reply.ok {
      PassedArrives(tr, acts, j, k, r, tr[j].reqs[r].handler.reply);
      assert tr[k].reqs[r].answers[0] in tr[k].reqs[r].answers;
    }
  }

  /** A request is picked up only once. */
  lemma {:induction false} InfoStays(tr: seq<System>, acts: seq<Action>, j: nat, k: nat, r: nat)
    requires Execution(tr, acts) && j <= k < |tr| && r < |tr[j].reqs| && tr[j].reqs[r].info.Some?
    ensures r < |tr[k].reqs| && tr[k].reqs[r].info.Some?
  {
    if j < k {
      InfoStays(tr, acts, j, k - 1, r);
    }
  }

  lemma ReadOnce(tr: seq<System>, acts: seq<Action>, i: nat, j: nat, r: nat)
    requires Execution(tr, acts) && i < |acts| && j < |acts| && acts[i] == acts[j] == ReadInfo(r)
    ensures i == j
  {
    var a, b := if i < j then i else j, if i < j then j else i;
    ExecutionKeepsInv(tr, acts, b);
    assert RequestInv(tr[b].reqs[r]);
    assert tr[a + 1].reqs[r].info.Some?;
    if a < b {
      InfoStays(tr, acts, a + 1, b, r);
    }
  }
}
