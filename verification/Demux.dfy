/** The table of outstanding calls, by tag. */
module CallTables {
  import opened Choice

  /** `calls` maps a tag to the channel of the call that waits on it, named by a number. */
  datatype CallTable = CallTable(calls: map<nat, nat>, closed: bool)

  function Put(t: CallTable, tag: nat, ch: nat): CallTable {
    if t.closed then t else t.(calls := t.calls[tag := ch])
  }

  function Remove(t: CallTable, tag: nat): CallTable {
    t.(calls := t.calls - {tag})
  }

  function Close(t: CallTable): CallTable {
    t.(closed := true)
  }

  /** What may be done to a table. */
  datatype TableOp = PutOp(tag: nat, ch: nat) | RemoveOp(tag: nat) | CloseOp

  ghost function AfterOps(t: CallTable, ops: seq<TableOp>): CallTable
    decreases |ops|
  {
    if ops == [] then t
    else
      AfterOps(match ops[0]
               case PutOp(tag, ch) => Put(t, tag, ch)
               case RemoveOp(tag) => Remove(t, tag)
               case CloseOp => Close(t), ops[1..])
  }

  /** A closed table only ever loses calls: what is listed once it is closed is all there will be. */
  lemma {:induction false} ClosedOnlyShrinks(t: CallTable, ops: seq<TableOp>)
    requires t.closed
    ensures var u := AfterOps(t, ops);
            u.closed && forall tag | tag in u.calls :: tag in t.calls && u.calls[tag] == t.calls[tag]
    decreases |ops|
  {
    if ops != [] {
      match ops[0]
      case PutOp(tag, ch) => ClosedOnlyShrinks(t, ops[1..]);
      case RemoveOp(tag) => ClosedOnlyShrinks(Remove(t, tag), ops[1..]);
      case CloseOp => ClosedOnlyShrinks(Close(t), ops[1..]);
    }
  }

  /** `tags` lists every tag in the table once. */
  ghost predicate Lists(tags: seq<nat>, calls: map<nat, nat>) {
    && (forall i, j | 0 <= i < j < |tags| :: tags[i] != tags[j])
    && (forall t :: t in tags <==> t in calls)
  }

  class CallMap {
    var closed: bool
    var calls: map<nat, nat>

    ghost function Value(): CallTable
      reads this
    {
      CallTable(calls, closed)
    }

    constructor ()
      ensures Value() == CallTable(map[], false)
    {
      closed, calls := false, map[];
    }

    /** Outstanding calls stay, and nothing that happens later registers another. */
    method CloseMap()
      modifies this
      ensures closed && calls == old(calls)
      ensures forall ops, tag | tag in AfterOps(Value(), ops).calls ::
                tag in old(calls) && AfterOps(Value(), ops).calls[tag] == old(calls)[tag]
    {
      closed := true;
      forall ops, tag | tag in AfterOps(Value(), ops).calls
        ensures tag in calls && AfterOps(Value(), ops).calls[tag] == calls[tag]
      {
        ClosedOnlyShrinks(Value(), ops);
      }
    }

    /** Fails, without registering, once the map is closed. */
    method PutCall(tag: nat, ch: nat) returns (ok: bool)
      modifies this
      ensures ok <==> !old(closed)
      ensures Value() == Put(old(Value()), tag, ch)
    {
      if closed {
        return false;
      }
      calls := calls[tag := ch];
      return true;
    }

    method RemoveCall(tag: nat) returns (ch: nat, ok: bool)
      modifies this
      ensures ok <==> tag in old(calls)
      ensures ok ==> ch == old(calls)[tag]
      ensures Value() == Remove(old(Value()), tag)
    {
      if tag in calls {
        ch, ok := calls[tag], true;
        calls := calls - {tag};
      } else {
        ch, ok := 0, false;
        assert calls - {tag} == calls;
      }
    }

    method Outstanding() returns (tags: seq<nat>)
      ensures Lists(tags, calls)
    {
      tags := [];
      var rest := calls.Keys;
      while rest != {}
        invariant rest <= calls.Keys
        invariant forall t :: t in tags <==> t in calls && t !in rest
        invariant forall i, j | 0 <= i < j < |tags| :: tags[i] != tags[j]
        decreases |rest|
      {
        var t := Any(rest);
        rest := rest - {t};
        tags := tags + [t];
      }
    }
  }
}

/** Calls multiplexed over one connection and matched with their replies by tag: client threads, one
    client reader, a server that answers requests in any order, and a connection that may fail at
    any moment. */
module Demux {
  import opened CallTables

  const TWO_TO_THE_32 := 0x1_0000_0000

  /** Calls are named by how many tags were handed out before theirs; tags are 32 bits wide. */
  function Tag(c: nat): nat {
    c % TWO_TO_THE_32
  }

  /** What a call receives on its channel. */
  datatype Reply = Answer(data: string, ok: bool) | Failure

  /** Where the thread of a call stands: holding a tag, turned away by a closed table, registered, or
      returned with its reply. */
  datatype Phase = Tagged | Refused | Waiting | Returned

  /** `sent` says that the request was written or that writing failed; `got` are the replies
      delivered on the call's channel. */
  datatype Call = Call(req: string, phase: Phase, sent: bool, got: seq<Reply>)

  /** A message in transit.  `id` is the call it belongs to, for bookkeeping only: neither side
      looks at it. */
  datatype Msg = Msg(tag: nat, data: string, ok: bool, id: nat)

  datatype Reader = Reading | Closing | Draining(rest: seq<nat>) | Stopped

  /** The whole system.  Messages keep no order here, although the connection does: nothing below
      depends on it.  `answers` records what the server answered to each request; `crashed` is set
      by the exit on a reply without a matching request. */
  datatype System = System(
    issued: nat, calls: map<nat, Call>, table: CallTable, reader: Reader,
    toServer: set<Msg>, handlers: set<Msg>, toClient: set<Msg>,
    answers: map<nat, Reply>, crashed: bool)

  datatype Action =
    | Begin(req: string)
    | Register(c: nat)
    | Send(c: nat, written: bool)
    | ServerRead(m: Msg)
    | Serve(m: Msg, data: string, ok: bool, written: bool)
    | ClientRead(m: Msg)
    | ReadError
    | Collect(tags: seq<nat>)
    | Drain
    | CloseClient
    | Return(c: nat)

  /** The connection is set up: tag 0 went to the handshake. */
  const START := System(1, map[], CallTable(map[], false), Reading, {}, {}, {}, map[], false)

  ghost predicate Enabled(s: System, a: Action) {
    match a
    case Begin(_) => true
    case Register(c) => c in s.calls && s.calls[c].phase.Tagged?
    case Send(c, _) => c in s.calls && s.calls[c].phase.Waiting? && !s.calls[c].sent
    case ServerRead(m) => m in s.toServer
    case Serve(m, _, _, _) => m in s.handlers
    case ClientRead(m) => s.reader.Reading? && m in s.toClient
    case ReadError => s.reader.Reading?
    case Collect(tags) => s.reader.Closing? && Lists(tags, s.table.calls)
    case Drain => s.reader.Draining?
    case CloseClient => true
    case Return(c) => c in s.calls && s.calls[c].phase.Waiting? && s.calls[c].sent && s.calls[c].got != []
  }

  /** Hand a reply to the call registered under a tag and take it out of the table; with no such
      call the process exits. */
  ghost function Deliver(s: System, tag: nat, reply: Reply): System {
    if tag in s.table.calls && s.table.calls[tag] in s.calls then
      var c := s.table.calls[tag];
      s.(table := Remove(s.table, tag), calls := s.calls[c := s.calls[c].(got := s.calls[c].got + [reply])])
    else
      s.(crashed := true)
  }

  ghost function Next(s: System, a: Action): System
    requires Enabled(s, a)
  {
    match a
    case Begin(req) =>
      s.(issued := s.issued + 1, calls := s.calls[s.issued := Call(req, Tagged, false, [])])
    case Register(c) =>
      s.(table := Put(s.table, Tag(c), c),
         calls := s.calls[c := s.calls[c].(phase := if s.table.closed then Refused else Waiting)])
    case Send(c, written) =>
      s.(calls := s.calls[c := s.calls[c].(sent := true)],
         toServer := if written then s.toServer + {Msg(Tag(c), s.calls[c].req, true, c)} else s.toServer)
    case ServerRead(m) =>
      s.(toServer := s.toServer - {m}, handlers := s.handlers + {m})
    case Serve(m, data, ok, written) =>
      s.(handlers := s.handlers - {m}, answers := s.answers[m.id := Answer(data, ok)],
         toClient := if written then s.toClient + {Msg(m.tag, data, ok, m.id)} else s.toClient)
    case ClientRead(m) =>
      Deliver(s.(toClient := s.toClient - {m}), m.tag, Answer(m.data, m.ok))
    case ReadError =>
      s.(table := Close(s.table), reader := Closing)
    case Collect(tags) =>
      s.(reader := Draining(tags))
    case Drain =>
      if s.reader.rest == [] then s.(reader := Stopped)
      else Deliver(s.(reader := Draining(s.reader.rest[1..])), s.reader.rest[0], Failure)
    case CloseClient =>
      s.(table := Close(s.table))
    case Return(c) =>
      s.(calls := s.calls[c := s.calls[c].(phase := Returned)])
  }

  /** The call holds its tag, or is registered and has no reply yet. */
  ghost predicate Outstanding(s: System, c: nat) {
    c in s.calls && (s.calls[c].phase.Tagged? || (s.calls[c].phase.Waiting? && s.calls[c].got == []))
  }

  /** While the table is open, fewer than 2^32 tags were handed out since any outstanding call got
      its own. */
  ghost predicate NoWrap(s: System) {
    !s.table.closed ==> forall c | c in s.calls && Outstanding(s, c) :: s.issued - c < TWO_TO_THE_32
  }

  ghost predicate Steps(tr: seq<System>, acts: seq<Action>) {
    && |tr| == |acts| + 1
    && forall k | 0 <= k < |acts| :: Enabled(tr[k], acts[k]) && tr[k + 1] == Next(tr[k], acts[k])
  }

  /** A run in which tags never wrap around onto an outstanding call. */
  ghost predicate Execution(tr: seq<System>, acts: seq<Action>) {
    && Steps(tr, acts) && tr[0] == START
    && forall k | 0 <= k < |acts| && acts[k].Begin? :: NoWrap(tr[k])
  }

  // ----- the invariant

  ghost predicate CallInv(s: System, c: nat)
    requires c in s.calls
  {
    var call := s.calls[c];
    && c < s.issued
    && (Outstanding(s, c) && !s.table.closed ==> s.issued - c <= TWO_TO_THE_32)
    && (call.phase.Tagged? || call.phase.Refused? ==> !call.sent && call.got == [])
    && (call.phase.Waiting? && call.got == [] ==> Tag(c) in s.table.calls && s.table.calls[Tag(c)] == c)
    && (call.phase.Returned? ==> |call.got| == 1)
    && |call.got| <= 1
    && (call.got != [] ==> call.got[0] == Failure || (c in s.answers && call.got[0] == s.answers[c]))
    && (call.got == [Failure] ==> !s.reader.Reading?)
  }

  ghost predicate TableInv(s: System) {
    && (forall t | t in s.table.calls ::
          var c := s.table.calls[t];
          c in s.calls && t == Tag(c) && s.calls[c].phase.Waiting? && s.calls[c].got == [])
    && (!s.reader.Reading? ==> s.table.closed)
    && (s.reader.Draining? ==> Lists(s.reader.rest, s.table.calls))
    && (s.reader.Stopped? ==> s.table.calls == map[])
  }

  /** A request on its way or being handled, not answered yet. */
  ghost predicate RequestInv(s: System, m: Msg) {
    && m.id in s.calls && m.id !in s.answers
    && s.calls[m.id].sent
    && m == Msg(Tag(m.id), s.calls[m.id].req, true, m.id)
    && (s.reader.Reading? ==> s.calls[m.id].got == [])
  }

  /** An answer on its way. */
  ghost predicate ReplyInv(s: System, m: Msg) {
    && m.id in s.calls && s.calls[m.id].sent
    && m.id in s.answers && s.answers[m.id] == Answer(m.data, m.ok)
    && m.tag == Tag(m.id)
    && (s.reader.Reading? ==> s.calls[m.id].got == [])
  }

  ghost predicate Inv(s: System) {
    && !s.crashed
    && TableInv(s)
    && (forall c | c in s.calls :: CallInv(s, c))
    && (forall c | c in s.answers :: c in s.calls && s.calls[c].sent)
    && s.toServer !! s.handlers
    && (forall m | m in s.toServer + s.handlers :: RequestInv(s, m))
    && (forall m | m in s.toClient :: ReplyInv(s, m))
  }

  /** Calls numbered less than 2^32 apart have different tags. */
  lemma TagsDiffer(c: nat, d: nat)
    requires c < d < c + TWO_TO_THE_32
    ensures Tag(c) != Tag(d)
  {
  }

  // ----- every step keeps it

  lemma BeginKeeps(s: System, req: string)
    requires Inv(s) && NoWrap(s)
    ensures Inv(Next(s, Begin(req)))
  {
    var t := Next(s, Begin(req));
    assert s.issued !in s.calls;
    forall c | c in t.calls ensures CallInv(t, c) {
      if c != s.issued {
        assert CallInv(s, c);
      }
    }
    forall m | m in t.toServer + t.handlers ensures RequestInv(t, m) {
      assert RequestInv(s, m);
    }
    forall m | m in t.toClient ensures ReplyInv(t, m) {
      assert ReplyInv(s, m);
    }
  }

  /** A call that can still register finds its tag free. */
  lemma TagIsFree(s: System, c: nat)
    requires Inv(s) && c in s.calls && s.calls[c].phase.Tagged? && !s.table.closed
    ensures Tag(c) !in s.table.calls
  {
    if Tag(c) in s.table.calls {
      var d := s.table.calls[Tag(c)];
      assert CallInv(s, c) && CallInv(s, d);
      if c < d {
        TagsDiffer(c, d);
      } else {
        TagsDiffer(d, c);
      }
    }
  }

  lemma RegisterKeeps(s: System, c: nat)
    requires Inv(s) && Enabled(s, Register(c))
    ensures Inv(Next(s, Register(c)))
  {
    var t := Next(s, Register(c));
    if !s.table.closed {
      TagIsFree(s, c);
    }
    assert CallInv(s, c);
    forall d | d in t.calls ensures CallInv(t, d) {
      assert CallInv(s, d);
    }
    forall m | m in t.toServer + t.handlers ensures RequestInv(t, m) {
      assert RequestInv(s, m);
    }
    forall m | m in t.toClient ensures ReplyInv(t, m) {
      assert ReplyInv(s, m);
    }
  }

  /** Writing failed, or has not happened yet: only the flag changes. */
  lemma SendFlagKeeps(s: System, c: nat)
    requires Inv(s) && Enabled(s, Send(c, false))
    ensures Inv(Next(s, Send(c, false)))
    ensures c !in s.answers && (s.reader.Reading? ==> s.calls[c].got == [])
    ensures forall m | m in s.toServer + s.handlers :: m.id != c
  {
    var t := Next(s, Send(c, false));
    assert CallInv(s, c);
    forall d | d in t.calls ensures CallInv(t, d) {
      assert CallInv(s, d);
    }
    forall m | m in t.toServer + t.handlers ensures RequestInv(t, m) && m.id != c {
      assert RequestInv(s, m);
    }
    forall m | m in t.toClient ensures ReplyInv(t, m) {
      assert ReplyInv(s, m);
    }
  }

  lemma SendKeeps(s: System, c: nat, written: bool)
    requires Inv(s) && Enabled(s, Send(c, written))
    ensures Inv(Next(s, Send(c, written)))
  {
    SendFlagKeeps(s, c);
    if written {
      var u, t := Next(s, Send(c, false)), Next(s, Send(c, true));
      forall d | d in t.calls ensures CallInv(t, d) {
        assert CallInv(u, d);
      }
      forall m | m in t.toServer + t.handlers ensures RequestInv(t, m) {
        if m.id != c {
          assert RequestInv(u, m);
        }
      }
      forall m | m in t.toClient ensures ReplyInv(t, m) {
        assert ReplyInv(u, m);
      }
    }
  }

  lemma ServerReadKeeps(s: System, m: Msg)
    requires Inv(s) && Enabled(s, ServerRead(m))
    ensures Inv(Next(s, ServerRead(m)))
  {
    var t := Next(s, ServerRead(m));
    forall d | d in t.calls ensures CallInv(t, d) {
      assert CallInv(s, d);
    }
    forall n | n in t.toServer + t.handlers ensures RequestInv(t, n) {
      assert RequestInv(s, n);
    }
    forall n | n in t.toClient ensures ReplyInv(t, n) {
      assert ReplyInv(s, n);
    }
  }

  lemma ServeKeeps(s: System, m: Msg, data: string, ok: bool, written: bool)
    requires Inv(s) && Enabled(s, Serve(m, data, ok, written))
    ensures Inv(Next(s, Serve(m, data, ok, written)))
  {
    var t := Next(s, Serve(m, data, ok, written));
    assert RequestInv(s, m);
    forall d | d in t.calls ensures CallInv(t, d) {
      assert CallInv(s, d);
    }
    forall n | n in t.toServer + t.handlers ensures RequestInv(t, n) {
      assert RequestInv(s, n);
    }
    forall n | n in t.toClient ensures ReplyInv(t, n) {
      if n in s.toClient {
        assert ReplyInv(s, n);
      }
    }
  }

  /** The reader always finds the call that a reply belongs to. */
  lemma ReplyIsExpected(s: System, m: Msg)
    requires Inv(s) && Enabled(s, ClientRead(m))
    ensures m.tag in s.table.calls && s.table.calls[m.tag] == m.id
  {
    assert ReplyInv(s, m) && CallInv(s, m.id);
  }

  lemma ClientReadKeeps(s: System, m: Msg)
    requires Inv(s) && Enabled(s, ClientRead(m))
    ensures Inv(Next(s, ClientRead(m)))
  {
    var t := Next(s, ClientRead(m));
    ReplyIsExpected(s, m);
    assert ReplyInv(s, m);
    forall d | d in t.calls ensures CallInv(t, d) {
      assert CallInv(s, d);
    }
    forall n | n in t.toServer + t.handlers ensures RequestInv(t, n) {
      assert RequestInv(s, n);
    }
    forall n | n in t.toClient ensures ReplyInv(t, n) {
      assert ReplyInv(s, n);
    }
  }

  lemma DrainTable(s: System)
    requires Inv(s) && Enabled(s, Drain)
    ensures var t := Next(s, Drain); TableInv(t) && !t.crashed
  {
    if s.reader.rest != [] {
      var tag := s.reader.rest[0];
      assert tag in s.reader.rest;
      assert forall u :: u in s.reader.rest <==> u == tag || u in s.reader.rest[1..];
    } else {
      assert s.table.calls.Keys == {};
    }
  }

  lemma DrainKeeps(s: System)
    requires Inv(s) && Enabled(s, Drain)
    ensures Inv(Next(s, Drain))
  {
    var t := Next(s, Drain);
    DrainTable(s);
    forall d | d in t.calls ensures CallInv(t, d) {
      assert CallInv(s, d);
    }
    forall n | n in t.toServer + t.handlers ensures RequestInv(t, n) {
      assert RequestInv(s, n);
    }
    forall n | n in t.toClient ensures ReplyInv(t, n) {
      assert ReplyInv(s, n);
    }
  }

  /** The steps that touch only flags and positions. */
  lemma OtherKeeps(s: System, a: Action)
    requires Inv(s) && Enabled(s, a)
    requires a.ReadError? || a.Collect? || a.CloseClient? || a.Return?
    ensures Inv(Next(s, a))
  {
    var t := Next(s, a);
    forall d | d in t.calls ensures CallInv(t, d) {
      assert CallInv(s, d);
    }
    forall n | n in t.toServer + t.handlers ensures RequestInv(t, n) {
      assert RequestInv(s, n);
    }
    forall n | n in t.toClient ensures ReplyInv(t, n) {
      assert ReplyInv(s, n);
    }
  }

  lemma StepKeepsInv(s: System, a: Action)
    requires Inv(s) && Enabled(s, a) && (a.Begin? ==> NoWrap(s))
    ensures Inv(Next(s, a))
  {
    match a
    case Begin(req) => BeginKeeps(s, req);
    case Register(c) => RegisterKeeps(s, c);
    case Send(c, written) => SendKeeps(s, c, written);
    case ServerRead(m) => ServerReadKeeps(s, m);
    case Serve(m, data, ok, written) => ServeKeeps(s, m, data, ok, written);
    case ClientRead(m) => ClientReadKeeps(s, m);
    case Drain => DrainKeeps(s);
    case _ => OtherKeeps(s, a);
  }

  lemma {:induction false} ExecutionKeepsInv(tr: seq<System>, acts: seq<Action>, k: nat)
    requires Execution(tr, acts) && k < |tr|
    ensures Inv(tr[k])
  {
    if k > 0 {
      ExecutionKeepsInv(tr, acts, k - 1);
      StepKeepsInv(tr[k - 1], acts[k - 1]);
    }
  }

  // ----- what it means for callers

  /** In every interleaving: the exit on an unmatched reply is not taken; a call receives at most one
      reply, the server's answer to its own request or a failure after a read error; and when the
      reader has stopped nothing is registered and every registered call has exactly one reply. */
  lemma DemuxSafety(tr: seq<System>, acts: seq<Action>, k: nat)
    requires Execution(tr, acts) && k < |tr|
    ensures var s := tr[k];
            && !s.crashed
            && (forall c | c in s.calls :: |s.calls[c].got| <= 1)
            && (forall c | c in s.calls && s.calls[c].got != [] ::
                  if s.calls[c].got[0].Failure? then !s.reader.Reading?
                  else c in s.answers && s.calls[c].got[0] == s.answers[c])
            && (s.reader.Stopped? ==>
                  && s.table.calls == map[]
                  && forall c | c in s.calls && (s.calls[c].phase.Waiting? || s.calls[c].phase.Returned?) ::
                       |s.calls[c].got| == 1)
  {
    ExecutionKeepsInv(tr, acts, k);
    var s := tr[k];
    forall c | c in s.calls
      ensures |s.calls[c].got| <= 1
      ensures s.calls[c].got != [] ==>
                if s.calls[c].got[0].Failure? then !s.reader.Reading?
                else c in s.answers && s.calls[c].got[0] == s.answers[c]
      ensures s.reader.Stopped? && (s.calls[c].phase.Waiting? || s.calls[c].phase.Returned?) ==>
                |s.calls[c].got| == 1
    {
      assert CallInv(s, c);
    }
  }

  lemma AnswerStep(s: System, a: Action, c: nat)
    requires Inv(s) && Enabled(s, a) && c in s.answers
    ensures c in Next(s, a).answers && Next(s, a).answers[c] == s.answers[c]
  {
    if a.Serve? {
      assert RequestInv(s, a.m);
    }
  }

  /** Once answered, a request is not handled again. */
  lemma {:induction false} AnswersStay(tr: seq<System>, acts: seq<Action>, j: nat, k: nat, c: nat)
    requires Execution(tr, acts) && j <= k < |tr| && c in tr[j].answers
    ensures c in tr[k].answers && tr[k].answers[c] == tr[j].answers[c]
  {
    if j < k {
      AnswersStay(tr, acts, j, k - 1, c);
      ExecutionKeepsInv(tr, acts, k - 1);
      AnswerStep(tr[k - 1], acts[k - 1], c);
    }
  }

  /** Each request is handled at most once, by a handler that is given that request. */
  lemma HandledOnce(tr: seq<System>, acts: seq<Action>, j: nat, k: nat)
    requires Execution(tr, acts) && j < |acts| && k < |acts|
    requires acts[j].Serve? && acts[k].Serve? && acts[j].m.id == acts[k].m.id
    ensures j == k
    ensures var m := acts[j].m; m.id in tr[j].calls && m.data == tr[j].calls[m.id].req
  {
    var a, b := if j < k then j else k, if j < k then k else j;
    ExecutionKeepsInv(tr, acts, j);
    assert RequestInv(tr[j], acts[j].m);
    ExecutionKeepsInv(tr, acts, b);
    assert RequestInv(tr[b], acts[b].m);
    assert acts[a].m.id in tr[a + 1].answers;
    if a < b {
      AnswersStay(tr, acts, a + 1, b, acts[a].m.id);
    }
  }

  // ----- what reaches whom

  /** A call keeps its request, stays in the system, and keeps the reply it got. */
  lemma CallStep(s: System, a: Action, c: nat)
    requires Inv(s) && Enabled(s, a) && c in s.calls
    ensures var t := Next(s, a);
            && c in t.calls && t.calls[c].req == s.calls[c].req
            && (s.calls[c].got != [] ==> t.calls[c].got == s.calls[c].got)
  {
    assert CallInv(s, c);
    if a.ClientRead? {
      ReplyIsExpected(s, a.m);
    }
  }

  lemma {:induction false} CallStays(tr: seq<System>, acts: seq<Action>, j: nat, k: nat, c: nat)
    requires Execution(tr, acts) && j <= k < |tr| && c in tr[j].calls
    ensures c in tr[k].calls && tr[k].calls[c].req == tr[j].calls[c].req
    ensures tr[j].calls[c].got != [] ==> tr[k].calls[c].got == tr[j].calls[c].got
  {
    if j < k {
      CallStays(tr, acts, j, k - 1, c);
      ExecutionKeepsInv(tr, acts, k - 1);
      CallStep(tr[k - 1], acts[k - 1], c);
    }
  }

  /** The handler of a call is given what the caller asked. */
  lemma RequestReachesHandler(tr: seq<System>, acts: seq<Action>, b: nat, j: nat)
    requires Execution(tr, acts) && b < |acts| && j < |acts|
    requires acts[b].Begin? && acts[j].Serve? && acts[j].m.id == tr[b].issued
    ensures b < j && acts[j].m.data == acts[b].req
  {
    ExecutionKeepsInv(tr, acts, j);
    assert RequestInv(tr[j], acts[j].m) && CallInv(tr[j], acts[j].m.id);
    IssuedGrows(tr, acts, if j <= b then j else b, b);
    CallStays(tr, acts, b + 1, j, tr[b].issued);
  }

  lemma {:induction false} IssuedGrows(tr: seq<System>, acts: seq<Action>, j: nat, k: nat)
    requires Execution(tr, acts) && j <= k < |tr|
    ensures tr[j].issued <= tr[k].issued
  {
    if j < k {
      IssuedGrows(tr, acts, j, k - 1);
    }
  }

  /** The request of a call is on its way, being handled, or answered. */
  ghost predicate RequestThere(s: System, c: nat) {
    c in s.answers || (c in s.calls && Msg(Tag(c), s.calls[c].req, true, c) in s.toServer + s.handlers)
  }

  lemma RequestStep(s: System, a: Action, c: nat)
    requires Inv(s) && Enabled(s, a) && (RequestThere(s, c) || a == Send(c, true))
    ensures RequestThere(Next(s, a), c)
  {
    if c in s.calls {
      CallStep(s, a, c);
    }
  }

  /** A request written to the connection is not lost but by the connection. */
  lemma {:induction false} RequestConserved(tr: seq<System>, acts: seq<Action>, j: nat, k: nat, c: nat)
    requires Execution(tr, acts) && j < k < |tr| && acts[j] == Send(c, true)
    ensures RequestThere(tr[k], c)
  {
    if k > j + 1 {
      RequestConserved(tr, acts, j, k - 1, c);
    }
    ExecutionKeepsInv(tr, acts, k - 1);
    RequestStep(tr[k - 1], acts[k - 1], c);
  }

  /** If the reader still reads, the answer `m` is on its way or has reached its caller. */
  ghost predicate AnswerThere(s: System, m: Msg) {
    s.reader.Reading? ==> m.id in s.calls && (m in s.toClient || s.calls[m.id].got == [Answer(m.data, m.ok)])
  }

  lemma AnswerThereStep(s: System, a: Action, m: Msg)
    requires Inv(s) && Enabled(s, a) && AnswerThere(s, m)
    ensures AnswerThere(Next(s, a), m)
  {
    if s.reader.Reading? {
      CallStep(s, a, m.id);
      if a == ClientRead(m) {
        ReplyIsExpected(s, m);
        assert ReplyInv(s, m);
      }
    }
  }

  lemma AnswerStarts(s: System, m: Msg, data: string, ok: bool)
    requires Inv(s) && Enabled(s, Serve(m, data, ok, true))
    ensures AnswerThere(Next(s, Serve(m, data, ok, true)), Msg(m.tag, data, ok, m.id))
  {
    assert RequestInv(s, m);
  }

  lemma {:induction false} AnswerThereStays(tr: seq<System>, acts: seq<Action>, i: nat, k: nat, m: Msg)
    requires Execution(tr, acts) && i <= k < |tr| && AnswerThere(tr[i], m)
    ensures AnswerThere(tr[k], m)
  {
    if i < k {
      AnswerThereStays(tr, acts, i, k - 1, m);
      ExecutionKeepsInv(tr, acts, k - 1);
      AnswerThereStep(tr[k - 1], acts[k - 1], m);
    }
  }

  /** While the reader reads, an answer written to the connection is on its way or has reached its
      caller. */
  lemma AnswerConserved(tr: seq<System>, acts: seq<Action>, j: nat, k: nat, m: Msg, data: string, ok: bool)
    requires Execution(tr, acts) && j < k < |tr| && acts[j] == Serve(m, data, ok, true)
    ensures AnswerThere(tr[k], Msg(m.tag, data, ok, m.id))
  {
    ExecutionKeepsInv(tr, acts, j);
    AnswerStarts(tr[j], m, data, ok);
    AnswerThereStays(tr, acts, j + 1, k, Msg(m.tag, data, ok, m.id));
  }

  /** Once the reader has read the answer to a call, the caller has that answer, for good. */
  lemma AnswerReachesCaller(tr: seq<System>, acts: seq<Action>, j: nat, k: nat, t: nat)
    requires Execution(tr, acts) && j < k < t < |tr|
    requires acts[j].Serve? && acts[k].ClientRead? && acts[k].m.id == acts[j].m.id
    ensures var c := acts[j].m.id; c in tr[t].calls && tr[t].calls[c].got == [Answer(acts[j].data, acts[j].ok)]
  {
    var c, m := acts[j].m.id, acts[k].m;
    ExecutionKeepsInv(tr, acts, k);
    ReplyIsExpected(tr[k], m);
    assert ReplyInv(tr[k], m);
    AnswersStay(tr, acts, j + 1, k, c);
    CallStays(tr, acts, k + 1, t, c);
  }

  /** A caller returns with the one reply it got, and the call is over. */
  lemma {:induction false} ReturnedForGood(tr: seq<System>, acts: seq<Action>, k: nat, t: nat, c: nat)
    requires Execution(tr, acts) && k < t < |tr| && acts[k] == Return(c)
    ensures c in tr[k].calls && |tr[k].calls[c].got| == 1
    ensures c in tr[t].calls && tr[t].calls[c].phase.Returned? && tr[t].calls[c].got == tr[k].calls[c].got
  {
    ExecutionKeepsInv(tr, acts, k);
    assert CallInv(tr[k], c);
    if t > k + 1 {
      ReturnedForGood(tr, acts, k, t - 1, c);
      ExecutionKeepsInv(tr, acts, t - 1);
      ReturnedStep(tr[t - 1], acts[t - 1], c);
    }
  }

  lemma ReturnedStep(s: System, a: Action, c: nat)
    requires Inv(s) && Enabled(s, a) && c in s.calls && s.calls[c].phase.Returned?
    ensures var t := Next(s, a); c in t.calls && t.calls[c].phase.Returned? && t.calls[c].got == s.calls[c].got
  {
    assert CallInv(s, c);
    CallStep(s, a, c);
  }

  lemma ClosedStep(s: System, a: Action)
    requires Enabled(s, a)
    ensures Next(s, a).table.closed <==> s.table.closed || a.CloseClient? || a.ReadError?
  {
  }

  lemma {:induction false} ClosedExactly(tr: seq<System>, acts: seq<Action>, k: nat)
    requires Execution(tr, acts) && k < |tr|
    ensures tr[k].table.closed <==> exists j :: 0 <= j < k && (acts[j].CloseClient? || acts[j].ReadError?)
  {
    if k > 0 {
      ClosedExactly(tr, acts, k - 1);
      ClosedStep(tr[k - 1], acts[k - 1]);
    }
  }

  /** A call is turned away if and only if the client was closed or the connection failed before it
      came to register. */
  lemma RefusedExactly(tr: seq<System>, acts: seq<Action>, k: nat, c: nat)
    requires Execution(tr, acts) && k < |acts| && acts[k] == Register(c)
    ensures c in tr[k + 1].calls
    ensures tr[k + 1].calls[c].phase.Refused? <==> exists j :: 0 <= j < k && (acts[j].CloseClient? || acts[j].ReadError?)
    ensures tr[k + 1].calls[c].phase.Refused? || tr[k + 1].calls[c].phase.Waiting?
  {
    ClosedExactly(tr, acts, k);
  }

  // ----- why tags must not wrap

  /** A registered call that the table has forgotten. */
  ghost predicate Stranded(s: System, c: nat) {
    && c in s.calls && c < s.issued && s.calls[c].phase.Waiting? && s.calls[c].got == []
    && forall t | t in s.table.calls :: s.table.calls[t] != c
  }

  lemma StrandedStep(s: System, a: Action, c: nat)
    requires Stranded(s, c) && Enabled(s, a)
    ensures Stranded(Next(s, a), c)
  {
  }

  /** A forgotten call never returns, whatever happens next. */
  lemma {:induction false} StrandedForever(tr: seq<System>, acts: seq<Action>, c: nat, k: nat)
    requires Steps(tr, acts) && Stranded(tr[0], c) && k < |tr|
    ensures Stranded(tr[k], c)
  {
    if k > 0 {
      StrandedForever(tr, acts, c, k - 1);
      StrandedStep(tr[k - 1], acts[k - 1], c);
    }
  }

  lemma Extend(tr: seq<System>, acts: seq<Action>, a: Action)
    requires Steps(tr, acts) && Enabled(tr[|acts|], a)
    ensures Steps(tr + [Next(tr[|acts|], a)], acts + [a])
  {
  }

  /** What may come of it: the answer to a displaced call goes to the newcomer, whose own answer then
      finds no call and ends the process. */
  lemma DisplacedMisdelivers(s: System, c: nat, d: nat, m: Msg, m': Msg)
    requires Stranded(s, c) && d in s.calls && Tag(c) in s.table.calls && s.table.calls[Tag(c)] == d
    requires s.reader.Reading? && {m, m'} <= s.toClient && m.tag == m'.tag == Tag(c) && m.id == c && m'.id == d
    ensures var t := Next(s, ClientRead(m));
            && d in t.calls && t.calls[d].got == s.calls[d].got + [Answer(m.data, m.ok)]
            && Enabled(t, ClientRead(m')) && Next(t, ClientRead(m')).crashed
  {
  }

  /** How many tags these actions hand out. */
  function Begins(acts: seq<Action>): nat {
    if acts == [] then 0
    else Begins(acts[..|acts| - 1]) + if acts[|acts| - 1].Begin? then 1 else 0
  }

  /** A registered call is displaced if its tag is handed out again and the newcomer registers. */
  lemma Displace(s: System, c: nat)
    requires Outstanding(s, c) && s.calls[c].phase.Waiting? && c < s.issued
    requires forall t | t in s.table.calls && s.table.calls[t] == c :: t == Tag(c)
    requires Tag(s.issued) == Tag(c) && !s.table.closed
    ensures Stranded(Next(Next(s, Begin("")), Register(s.issued)), c)
  {
  }

  /** If the next tag is that of an outstanding call, handing it out can strand that call, be it
      registered already or not. */
  lemma WrapStrands(s: System, c: nat) returns (tr: seq<System>, acts: seq<Action>)
    requires Inv(s) && Outstanding(s, c) && !s.table.closed && Tag(s.issued) == Tag(c)
    ensures Steps(tr, acts) && tr[0] == s && Begins(acts) == 1 && Stranded(tr[|acts|], c)
  {
    tr, acts := [s], [];
    assert CallInv(s, c);
    if s.calls[c].phase.Tagged? {
      Extend(tr, acts, Register(c));
      tr, acts := [s, Next(s, Register(c))], [Register(c)];
    }
    var u := tr[|acts|];
    var b, r := Begin(""), Register(s.issued);
    Displace(u, c);
    Extend(tr, acts, b);
    Extend(tr + [Next(u, b)], acts + [b], r);
    BeginsEnd(acts, b, r);
    tr, acts := tr + [Next(u, b)] + [Next(Next(u, b), r)], acts + [b] + [r];
  }

  lemma BeginsEnd(acts: seq<Action>, b: Action, r: Action)
    requires Begins(acts) == 0 && b.Begin? && !r.Begin?
    ensures Begins(acts + [b] + [r]) == 1
  {
    assert (acts + [b] + [r])[..|acts| + 1] == acts + [b] && (acts + [b])[..|acts|] == acts;
  }

  /** Only handing out tags brings a wrap-around closer. */
  lemma NoWrapStays(s: System, a: Action)
    requires NoWrap(s) && Enabled(s, a) && !a.Begin?
    ensures NoWrap(Next(s, a))
  {
  }

  /** From a state without wrap-around, one more tag keeps every call in the table. */
  lemma {:induction false} OneTagSafe(tr: seq<System>, acts: seq<Action>)
    requires Steps(tr, acts) && Inv(tr[0]) && NoWrap(tr[0]) && Begins(acts) <= 1
    ensures Inv(tr[|acts|]) && (Begins(acts) == 0 ==> NoWrap(tr[|acts|]))
  {
    if acts != [] {
      var n := |acts| - 1;
      OneTagSafe(tr[..n + 1], acts[..n]);
      StepKeepsInv(tr[n], acts[n]);
      if !acts[n].Begin? && Begins(acts) == 0 {
        NoWrapStays(tr[n], acts[n]);
      }
    }
  }

  lemma NotStranded(s: System, c: nat)
    requires Inv(s)
    ensures !Stranded(s, c)
  {
    if c in s.calls {
      assert CallInv(s, c);
    }
  }

  /** Handing out one more tag, before or after any other steps, strands no call. */
  ghost predicate SafeToBegin(s: System) {
    forall tr, acts, c | Steps(tr, acts) && tr[0] == s && Begins(acts) <= 1 :: !Stranded(tr[|acts|], c)
  }

  /** The condition on tags is exact: it holds if and only if one more tag can strand no call. */
  lemma NoWrapExact(s: System)
    requires Inv(s)
    ensures NoWrap(s) <==> SafeToBegin(s)
  {
    if NoWrap(s) {
      forall tr, acts, c | Steps(tr, acts) && tr[0] == s && Begins(acts) <= 1 ensures !Stranded(tr[|acts|], c) {
        OneTagSafe(tr, acts);
        NotStranded(tr[|acts|], c);
      }
    } else {
      var c :| c in s.calls && Outstanding(s, c) && s.issued - c >= TWO_TO_THE_32;
      assert CallInv(s, c);
      assert s.issued == c + TWO_TO_THE_32;
      var tr, acts := WrapStrands(s, c);
    }
  }

  /** So the runs the guarantees are about are exactly the runs from the start that never hand out a
      tag when that could strand a call. */
  lemma {:induction false} ExecutionExact(tr: seq<System>, acts: seq<Action>)
    requires Steps(tr, acts) && tr[0] == START
    ensures Execution(tr, acts) <==> forall k | 0 <= k < |acts| && acts[k].Begin? :: SafeToBegin(tr[k])
  {
    if Execution(tr, acts) {
      forall k | 0 <= k < |acts| && acts[k].Begin? ensures SafeToBegin(tr[k]) {
        ExecutionKeepsInv(tr, acts, k);
        NoWrapExact(tr[k]);
      }
    }
    if forall k | 0 <= k < |acts| && acts[k].Begin? :: SafeToBegin(tr[k]) {
      SafeRun(tr, acts, |acts|);
    }
  }

  lemma {:induction false} SafeRun(tr: seq<System>, acts: seq<Action>, n: nat)
    requires Steps(tr, acts) && tr[0] == START && n <= |acts|
    requires forall k | 0 <= k < n && acts[k].Begin? :: SafeToBegin(tr[k])
    ensures Inv(tr[n]) && forall k | 0 <= k < n && acts[k].Begin? :: NoWrap(tr[k])
  {
    if n > 0 {
      SafeRun(tr, acts, n - 1);
      if acts[n - 1].Begin? {
        NoWrapExact(tr[n - 1]);
      }
      StepKeepsInv(tr[n - 1], acts[n - 1]);
    }
  }

  /** A run may go on by handing out any number of tags. */
  lemma {:induction false} HandOut(tr: seq<System>, acts: seq<Action>, n: nat)
    returns (tr': seq<System>, acts': seq<Action>)
    requires Steps(tr, acts)
    ensures Steps(tr', acts') && tr'[0] == tr[0]
    ensures var s, t := tr[|acts|], tr'[|acts'|];
            && t.issued == s.issued + n && t.table == s.table
            && forall c | c in s.calls && c < s.issued :: c in t.calls && t.calls[c] == s.calls[c]
    decreases n
  {
    if n == 0 {
      tr', acts' := tr, acts;
    } else {
      tr', acts' := HandOut(tr, acts, n - 1);
      Extend(tr', acts', Begin(""));
      tr', acts' := tr' + [Next(tr'[|acts'|], Begin(""))], acts' + [Begin("")];
    }
  }

  /** The condition can fail: some run from the start strands the very first call. */
  lemma TagsCanWrap() returns (tr: seq<System>, acts: seq<Action>)
    ensures Steps(tr, acts) && tr[0] == START && Stranded(tr[|acts|], 1)
  {
    var s0, a0 := START, Begin("");
    var s1, a1 := Next(s0, a0), Register(1);
    var s2 := Next(s1, a1);
    Extend([s0], [], a0);
    Extend([s0, s1], [a0], a1);
    assert [s0] + [s1] == [s0, s1] && [s0, s1] + [s2] == [s0, s1, s2] && [a0] + [a1] == [a0, a1];
    tr, acts := HandOut([s0, s1, s2], [a0, a1], TWO_TO_THE_32 - 1);
    var s := tr[|acts|];
    assert s.issued == TWO_TO_THE_32 + 1;
    var t := Next(s, a0);
    Displace(s, 1);
    Extend(tr, acts, a0);
    Extend(tr + [t], acts + [a0], Register(s.issued));
    tr, acts := tr + [t] + [Next(t, Register(s.issued))], acts + [a0] + [Register(s.issued)];
  }
}
