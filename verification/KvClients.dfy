/** The versioned store the test clients share: one key, whose put succeeds only on the version it
    names.  ErrMaybe may be returned whether or not the put took effect. */
module VersionedStore {
  import KvModel

  datatype Err = OK | ErrVersion | ErrMaybe

  datatype Store<V> = Store(value: V, version: nat)

  /** What a client counted: puts that returned OK and puts that returned ErrMaybe. */
  datatype ClntRes = ClntRes(nok: nat, nmaybe: nat)

  /** The answers a put may get, and the store after it. */
  predicate PutStep<V(==)>(s: Store<V>, v: V, ver: nat, err: Err, s': Store<V>) {
    if s.version == ver then !err.ErrVersion? && s' == Store(v, ver + 1)
    else !err.OK? && s' == s
  }

  function ErrName(err: Err): string {
    match err
    case OK => "OK"
    case ErrVersion => "ErrVersion"
    case ErrMaybe => "ErrMaybe"
  }

  function ModelState<V>(s: Store<V>, encode: V -> string): KvModel.State {
    KvModel.State(encode(s.value), s.version % KvModel.TWO_TO_THE_64)
  }

  /** The store answers puts just as the linearizability model steps allow, and goes where they go,
      the step from the largest 64-bit version to 0 included. */
  lemma StoreFollowsModel<V>(s: Store<V>, v: V, ver: nat, err: Err, s': Store<V>, key: string, encode: V -> string)
    requires s.version < KvModel.TWO_TO_THE_64 && ver < KvModel.TWO_TO_THE_64
    ensures PutStep(s, v, ver, err, s') ==>
              KvModel.Step(ModelState(s, encode), KvModel.Input(1, key, encode(v), ver),
                           KvModel.Output("", 0, ErrName(err))) == (true, ModelState(s', encode))
    ensures KvModel.Step(ModelState(s, encode), KvModel.Input(1, key, encode(v), ver),
                         KvModel.Output("", 0, ErrName(err))).0 ==>
              exists t :: PutStep(s, v, ver, err, t)
  {
    var t := if s.version == ver then Store(v, ver + 1) else s;
    assert |"OK"| == 2 && |"ErrVersion"| == 10 && |"ErrMaybe"| == 8;
    if KvModel.Step(ModelState(s, encode), KvModel.Input(1, key, encode(v), ver),
                    KvModel.Output("", 0, ErrName(err))).0 {
      assert PutStep(s, v, ver, err, t);
    }
  }
}

/** Clients that append numbered entries to one shared list with get and conditional put. */
module AppendClients {
  import opened Choice
  import opened VersionedStore

  /** Entry `n` of client `id`. */
  datatype Entry = Entry(id: int, n: int)

  /** A client between operations, or between its get and its put. */
  datatype Phase = Idle | Holding(es: seq<Entry>, ver: nat)

  /** A client on its `i`-th append.  `acked` records the entries whose put returned OK; no step
      looks at it. */
  datatype Client = Client(phase: Phase, i: nat, nok: nat, nmay: nat, acked: set<nat>)

  datatype System = System(store: Store<seq<Entry>>, clients: seq<Client>)

  datatype Action = Get(c: nat) | Put(c: nat, err: Err)

  ghost predicate Start(s: System) {
    && s.store == Store([], 1)
    && forall c | 0 <= c < |s.clients| :: s.clients[c] == Client(Idle, 0, 0, 0, {})
  }

  /** What a client becomes when its put returns. */
  function Returned(cl: Client, err: Err): Client {
    match err
    case OK => Client(Idle, cl.i + 1, cl.nok + 1, cl.nmay, cl.acked + {cl.i})
    case ErrMaybe => Client(Idle, cl.i + 1, cl.nok, cl.nmay + 1, cl.acked)
    case ErrVersion => cl.(phase := Idle)
  }

  ghost predicate Step(s: System, a: Action, s': System) {
    && a.c < |s.clients| == |s'.clients|
    && (forall d | 0 <= d < |s.clients| && d != a.c :: s'.clients[d] == s.clients[d])
    && var cl := s.clients[a.c];
       match a
       case Get(c) =>
         && cl.phase.Idle?
         && s'.store == s.store
         && s'.clients[c] == cl.(phase := Holding(s.store.value, s.store.version))
       case Put(c, err) =>
         && cl.phase.Holding?
         && PutStep(s.store, cl.phase.es + [Entry(c, cl.i)], cl.phase.ver, err, s'.store)
         && s'.clients[c] == Returned(cl, err)
  }

  ghost predicate Execution(tr: seq<System>, acts: seq<Action>) {
    && |tr| == |acts| + 1
    && Start(tr[0])
    && forall k | 0 <= k < |acts| :: Step(tr[k], acts[k], tr[k + 1])
  }

  // ----- the invariant

  /** Each client's entry numbers increase along the list, from 0 up. */
  ghost predicate Ordered(es: seq<Entry>) {
    && (forall k | 0 <= k < |es| :: 0 <= es[k].n)
    && forall j, k | 0 <= j < k < |es| && es[j].id == es[k].id :: es[j].n < es[k].n
  }

  ghost predicate ClientInv(store: Store<seq<Entry>>, c: nat, cl: Client) {
    && cl.i == cl.nok + cl.nmay
    && |cl.acked| == cl.nok
    && (forall n | n in cl.acked :: n < cl.i && Entry(c, n) in store.value)
    && (forall e | e in store.value && e.id == c :: e.n < cl.i)
    && (cl.phase.Holding? ==>
          && cl.phase.ver <= store.version
          && (cl.phase.ver == store.version ==> cl.phase.es == store.value))
  }

  ghost predicate Inv(s: System) {
    && s.store.version == |s.store.value| + 1
    && Ordered(s.store.value)
    && (forall e | e in s.store.value :: 0 <= e.id < |s.clients|)
    && forall c | 0 <= c < |s.clients| :: ClientInv(s.store, c, s.clients[c])
  }

  /** A put either leaves the store alone or appends its client's entry. */
  lemma PutAppends(s: System, c: nat, err: Err, s': System)
    requires Inv(s) && Step(s, Put(c, err), s')
    ensures s'.store == s.store ||
            s'.store == Store(s.store.value + [Entry(c, s.clients[c].i)], s.store.version + 1)
    ensures err.OK? ==> s'.store != s.store
    ensures err.ErrVersion? ==> s'.store == s.store
  {
  }

  lemma AppendOrdered(es: seq<Entry>, e: Entry)
    requires Ordered(es) && 0 <= e.n && forall x | x in es && x.id == e.id :: x.n < e.n
    ensures Ordered(es + [e])
  {
  }

  lemma StepKeepsInv(s: System, a: Action, s': System)
    requires Inv(s) && Step(s, a, s')
    ensures Inv(s')
    ensures s.store.value <= s'.store.value
  {
    var cl := s.clients[a.c];
    assert ClientInv(s.store, a.c, cl);
    if a.Put? {
      PutAppends(s, a.c, a.err, s');
      AppendOrdered(s.store.value, Entry(a.c, cl.i));
    }
    forall c | 0 <= c < |s'.clients| ensures ClientInv(s'.store, c, s'.clients[c]) {
      assert ClientInv(s.store, c, s.clients[c]);
      assert forall e | e in s'.store.value :: e in s.store.value || e == Entry(a.c, cl.i);
    }
  }

  lemma {:induction false} ExecutionKeepsInv(tr: seq<System>, acts: seq<Action>, k: nat)
    requires Execution(tr, acts) && k < |tr|
    ensures Inv(tr[k])
  {
    if k > 0 {
      ExecutionKeepsInv(tr, acts, k - 1);
      StepKeepsInv(tr[k - 1], acts[k - 1], tr[k]);
    }
  }

  /** The puts among the first k actions by which client c got this answer. */
  ghost function PutsOf(acts: seq<Action>, k: nat, c: nat, err: Err): set<nat>
    requires k <= |acts|
  {
    set j: nat | j < k && acts[j] == Put(c, err)
  }

  lemma PutsOfNext(acts: seq<Action>, k: nat, c: nat, err: Err)
    requires k < |acts|
    ensures |PutsOf(acts, k + 1, c, err)| == |PutsOf(acts, k, c, err)| + if acts[k] == Put(c, err) then 1 else 0
  {
    assert PutsOf(acts, k + 1, c, err) == PutsOf(acts, k, c, err) + if acts[k] == Put(c, err) then {k} else {};
  }

  /** A client's counts are how often its puts returned OK and ErrMaybe. */
  lemma {:induction false} CountsExact(tr: seq<System>, acts: seq<Action>, k: nat, c: nat)
    requires Execution(tr, acts) && k < |tr| && c < |tr[k].clients|
    ensures tr[k].clients[c].nok == |PutsOf(acts, k, c, OK)| && tr[k].clients[c].nmay == |PutsOf(acts, k, c, ErrMaybe)|
  {
    if k == 0 {
      assert PutsOf(acts, 0, c, OK) == {} && PutsOf(acts, 0, c, ErrMaybe) == {};
    } else {
      CountsExact(tr, acts, k - 1, c);
      PutsOfNext(acts, k - 1, c, OK);
      PutsOfNext(acts, k - 1, c, ErrMaybe);
    }
  }

  /** No lost updates: in every interleaving, an acknowledged append is in the list at that moment
      and at every later one. */
  lemma {:induction false} NoLostUpdates(tr: seq<System>, acts: seq<Action>, j: nat, k: nat, c: nat, n: nat)
    requires Execution(tr, acts) && j <= k < |tr|
    requires c < |tr[j].clients| && n in tr[j].clients[c].acked
    ensures Entry(c, n) in tr[k].store.value
  {
    ExecutionKeepsInv(tr, acts, j);
    assert ClientInv(tr[j].store, c, tr[j].clients[c]);
    ListOnlyGrows(tr, acts, j, k);
  }

  lemma {:induction false} ListOnlyGrows(tr: seq<System>, acts: seq<Action>, j: nat, k: nat)
    requires Execution(tr, acts) && j <= k < |tr|
    ensures tr[j].store.value <= tr[k].store.value
  {
    if j < k {
      ListOnlyGrows(tr, acts, j, k - 1);
      ExecutionKeepsInv(tr, acts, k - 1);
      StepKeepsInv(tr[k - 1], acts[k - 1], tr[k]);
    }
  }

  // ----- the checker

  /** The number one past the last entry of client `c`, or 0. */
  function Expected(es: seq<Entry>, c: int): int {
    if es == [] then 0
    else if es[|es| - 1].id == c then es[|es| - 1].n + 1
    else Expected(es[..|es| - 1], c)
  }

  function Count(es: seq<Entry>, c: int): nat {
    if es == [] then 0
    else Count(es[..|es| - 1], c) + if es[|es| - 1].id == c then 1 else 0
  }

  /** What CheckAppends demands of the final list, its version and the clients' counts. */
  ghost predicate Passes(es: seq<Entry>, rs: seq<ClntRes>, ver: nat) {
    && Ordered(es)
    && (forall e | e in es :: 0 <= e.id < |rs|)
    && |es| + 1 == ver
    && forall c | 0 <= c < |rs| ::
         && Expected(es, c) - Count(es, c) <= rs[c].nmaybe
         && Expected(es, c) <= rs[c].nok + rs[c].nmaybe
  }

  lemma {:induction false} ExpectedBounds(es: seq<Entry>, c: int, n: int)
    requires Ordered(es)
    ensures Expected(es, c) <= n <==> 0 <= n && forall e | e in es && e.id == c :: e.n < n
  {
    if es != [] {
      var last := |es| - 1;
      assert Ordered(es[..last]);
      ExpectedBounds(es[..last], c, n);
      assert es[last] in es;
      assert forall e | e in es[..last] :: e in es;
      if es[last].id == c && es[last].n < n {
        forall e | e in es && e.id == c ensures e.n < n {
          var k :| 0 <= k < |es| && es[k] == e;
        }
      }
      if es[last].id != c {
        assert forall e | e in es && e.id == c :: e in es[..last];
      }
    }
  }

  /** The numbers below m that client c has in the list, and those it has not. */
  ghost function Has(es: seq<Entry>, c: int, m: int): set<nat> {
    set n: nat | n < m && Entry(c, n) in es
  }

  ghost function Lacks(es: seq<Entry>, c: int, m: int): set<nat> {
    set n: nat | n < m && Entry(c, n) !in es
  }

  lemma HasMore(es: seq<Entry>, c: int, m: nat)
    ensures |Has(es, c, m + 1)| == |Has(es, c, m)| + if Entry(c, m) in es then 1 else 0
  {
    if Entry(c, m) in es {
      assert Has(es, c, m + 1) == Has(es, c, m) + {m};
    } else {
      assert Has(es, c, m + 1) == Has(es, c, m);
    }
  }

  lemma LacksMore(es: seq<Entry>, c: int, m: nat)
    ensures |Lacks(es, c, m + 1)| == |Lacks(es, c, m)| + if Entry(c, m) in es then 0 else 1
  {
    if Entry(c, m) in es {
      assert Lacks(es, c, m + 1) == Lacks(es, c, m);
    } else {
      assert Lacks(es, c, m + 1) == Lacks(es, c, m) + {m};
    }
  }

  lemma {:induction false} HasAndLacks(es: seq<Entry>, c: int, m: nat)
    ensures |Has(es, c, m)| + |Lacks(es, c, m)| == m
  {
    if m > 0 {
      HasAndLacks(es, c, m - 1);
      HasMore(es, c, m - 1);
      LacksMore(es, c, m - 1);
    }
  }

  lemma HasNext(front: seq<Entry>, last: Entry, c: int, m: int)
    requires forall e | e in front && e.id == c :: e.n < m
    requires last.id == c ==> last.n >= m && last.n >= 0
    ensures |Has(front + [last], c, if last.id == c then last.n + 1 else m)| ==
            |Has(front, c, m)| + if last.id == c then 1 else 0
  {
    if last.id == c {
      assert Has(front + [last], c, last.n + 1) == Has(front, c, m) + {last.n};
    } else {
      assert Has(front + [last], c, m) == Has(front, c, m);
    }
  }

  lemma CountIsHasNext(front: seq<Entry>, last: Entry, c: int)
    requires Ordered(front + [last]) && Ordered(front) && Count(front, c) == |Has(front, c, Expected(front, c))|
    ensures Count(front + [last], c) == |Has(front + [last], c, Expected(front + [last], c))|
  {
    var es := front + [last];
    assert es[|front|] == last && forall k | 0 <= k < |front| :: es[k] == front[k];
    assert forall e | e in front && e.id == last.id :: e.n < last.n;
    ExpectedBounds(front, c, Expected(front, c));
    ExpectedBounds(front, c, last.n);
    LastEntry(front, last, c);
    HasNext(front, last, c, Expected(front, c));
  }

  lemma {:induction false} CountIsHas(es: seq<Entry>, c: int)
    requires Ordered(es)
    ensures Count(es, c) == |Has(es, c, Expected(es, c))|
  {
    if es != [] {
      var front, last := es[..|es| - 1], es[|es| - 1];
      assert es == front + [last];
      CountIsHas(front, c);
      CountIsHasNext(front, last, c);
    }
  }

  /** In an ordered list, the difference that CheckAppends calls skipped is the number of entries below
      the client's last that are missing, and the count is the number of those present. */
  lemma SkippedExact(es: seq<Entry>, c: int)
    requires Ordered(es)
    ensures Count(es, c) == |Has(es, c, Expected(es, c))|
    ensures Expected(es, c) - Count(es, c) == |Lacks(es, c, Expected(es, c))|
  {
    CountIsHas(es, c);
    ExpectedBounds(es, c, Expected(es, c));
    HasAndLacks(es, c, Expected(es, c));
  }

  /** What passing the check says about the list: each client's numbers increase from 0 up and stay
      below the puts it has finished, at most as many are missing below its last as it has unknown
      puts, nobody else has entries, and the version counts the entries. */
  lemma PassesMeans(es: seq<Entry>, rs: seq<ClntRes>, ver: nat)
    ensures Passes(es, rs, ver) <==>
            && Ordered(es) && |es| + 1 == ver
            && (forall e | e in es :: 0 <= e.id < |rs| && e.n < rs[e.id].nok + rs[e.id].nmaybe)
            && (forall c | 0 <= c < |rs| :: |Lacks(es, c, Expected(es, c))| <= rs[c].nmaybe)
  {
    if Ordered(es) {
      forall c | 0 <= c < |rs|
        ensures Expected(es, c) - Count(es, c) == |Lacks(es, c, Expected(es, c))|
        ensures Expected(es, c) <= rs[c].nok + rs[c].nmaybe <==>
                forall e | e in es && e.id == c :: e.n < rs[c].nok + rs[c].nmaybe
      {
        SkippedExact(es, c);
        ExpectedBounds(es, c, rs[c].nok + rs[c].nmaybe);
      }
    }
  }

  lemma {:induction false} CountCovers(es: seq<Entry>, c: int, ns: set<nat>)
    requires forall n | n in ns :: Entry(c, n) in es
    ensures |ns| <= Count(es, c)
  {
    if es == [] {
      if ns != {} {
        var n := Pick(ns);
      }
    } else {
      var last := es[|es| - 1];
      var rest := es[..|es| - 1];
      var ms := if last.id == c && last.n >= 0 then ns - {last.n} else ns;
      forall n | n in ms ensures Entry(c, n) in rest {
        assert Entry(c, n) in es && Entry(c, n) != last;
      }
      CountCovers(rest, c, ms);
      assert |ns| <= |ms| + if last.id == c then 1 else 0;
    }
  }

  /** The counts the clients of a system would report. */
  function Results(s: System): seq<ClntRes> {
    seq(|s.clients|, c requires 0 <= c < |s.clients| => ClntRes(s.clients[c].nok, s.clients[c].nmay))
  }

  /** CheckAppends never fails: its demands hold after every step of every interleaving. */
  lemma AppendsPass(tr: seq<System>, acts: seq<Action>, k: nat)
    requires Execution(tr, acts) && k < |tr|
    ensures Passes(tr[k].store.value, Results(tr[k]), tr[k].store.version)
  {
    ExecutionKeepsInv(tr, acts, k);
    var s := tr[k];
    forall c | 0 <= c < |s.clients|
      ensures Expected(s.store.value, c) - Count(s.store.value, c) <= s.clients[c].nmay
      ensures Expected(s.store.value, c) <= s.clients[c].nok + s.clients[c].nmay
    {
      var cl := s.clients[c];
      assert ClientInv(s.store, c, cl);
      ExpectedBounds(s.store.value, c, cl.i);
      CountCovers(s.store.value, c, cl.acked);
    }
  }

  /** The maps have the next number of client c and how many it skipped. */
  ghost predicate TalliedFor(es: seq<Entry>, c: int, next: map<int, int>, skipped: map<int, int>) {
    c in next && next[c] == Expected(es, c) && c in skipped && skipped[c] == Expected(es, c) - Count(es, c)
  }

  /** What CheckAppends knows after the entries `es`. */
  ghost predicate Tallied(es: seq<Entry>, n: nat, next: map<int, int>, skipped: map<int, int>) {
    && Ordered(es)
    && (forall e | e in es :: 0 <= e.id < n)
    && forall c | 0 <= c < n :: TalliedFor(es, c, next, skipped)
  }

  /** One more entry, whose number is not below the next: both maps change for its client only. */
  lemma TalliedNext(es: seq<Entry>, n: nat, next: map<int, int>, skipped: map<int, int>, e: Entry)
    requires Tallied(es, n, next, skipped) && 0 <= e.id < n && TalliedFor(es, e.id, next, skipped) && next[e.id] <= e.n
    ensures Tallied(es + [e], n, next[e.id := e.n + 1], skipped[e.id := skipped[e.id] + e.n - next[e.id]])
  {
    ExpectedBounds(es, e.id, e.n);
    AppendOrdered(es, e);
    var all, next', skipped' := es + [e], next[e.id := e.n + 1], skipped[e.id := skipped[e.id] + e.n - next[e.id]];
    forall c | 0 <= c < n ensures TalliedFor(all, c, next', skipped') {
      assert TalliedFor(es, c, next, skipped);
      LastEntry(es, e, c);
    }
  }

  lemma LastEntry(es: seq<Entry>, e: Entry, c: int)
    ensures Expected(es + [e], c) == if e.id == c then e.n + 1 else Expected(es, c)
    ensures Count(es + [e], c) == Count(es, c) + if e.id == c then 1 else 0
  {
    assert (es + [e])[..|es|] == es;
  }

  lemma OldEntry(es: seq<Entry>, k: nat, next: map<int, int>, skipped: map<int, int>)
    requires k < |es| && Ordered(es[..k]) && TalliedFor(es[..k], es[k].id, next, skipped) && next[es[k].id] > es[k].n
    ensures !Ordered(es)
  {
    ExpectedBounds(es[..k], es[k].id, es[k].n);
    NotOrdered(es, k);
  }

  /** The loop over the entries: false at the first that is out of order or of no known client. */
  method TallyAppends(es: seq<Entry>, nclnt: nat) returns (ok: bool, next: map<int, int>, skipped: map<int, int>)
    ensures ok ==> Tallied(es, nclnt, next, skipped)
    ensures !ok ==> !Ordered(es) || exists e :: e in es && !(0 <= e.id < nclnt)
  {
    next, skipped := map[], map[];
    for i := 0 to nclnt
      invariant forall c | 0 <= c < i :: c in next && next[c] == 0 && c in skipped && skipped[c] == 0
    {
      next, skipped := next[i := 0], skipped[i := 0];
    }
    for k := 0 to |es|
      invariant Tallied(es[..k], nclnt, next, skipped)
    {
      var e := es[k];
      assert es[..k + 1] == es[..k] + [e];
      if !(0 <= e.id < nclnt) {
        // the results of such a client do not exist
        assert e in es;
        return false, next, skipped;
      }
      assert TalliedFor(es[..k], e.id, next, skipped);
      if next[e.id] > e.n {
        OldEntry(es, k, next, skipped);
        return false, next, skipped;
      }
      TalliedNext(es[..k], nclnt, next, skipped, e);
      if next[e.id] == e.n {
        next := next[e.id := next[e.id] + 1];
        skipped := skipped[e.id := skipped[e.id] + 0];
      } else {
        var s := e.n - next[e.id];
        next := next[e.id := e.n + 1];
        skipped := skipped[e.id := skipped[e.id] + s];
      }
    }
    assert es[..|es|] == es;
    ok := true;
  }

  method CheckAppends(es: seq<Entry>, nclnt: nat, rs: seq<ClntRes>, ver: nat) returns (ok: bool)
    requires |rs| == nclnt
    ensures ok <==> Passes(es, rs, ver)
  {
    var tallied, next, skipped := TallyAppends(es, nclnt);
    if !tallied || |es| + 1 != ver {
      return false;
    }
    for c := 0 to nclnt
      invariant forall d | 0 <= d < c ::
        Expected(es, d) - Count(es, d) <= rs[d].nmaybe && Expected(es, d) <= rs[d].nok + rs[d].nmaybe
    {
      assert TalliedFor(es, c, next, skipped);
      if skipped[c] > rs[c].nmaybe {
        return false;
      }
      if next[c] > rs[c].nok + rs[c].nmaybe {
        return false;
      }
    }
    return true;
  }

  lemma NotOrdered(es: seq<Entry>, k: nat)
    requires k < |es| && (es[k].n < 0 || exists e :: e in es[..k] && e.id == es[k].id && es[k].n <= e.n)
    ensures !Ordered(es)
  {
  }
}

/** Clients that overwrite shared keys and count their puts. */
module PutClients {
  import opened VersionedStore

  /** The value client `id` writes on version `v`. */
  datatype EntryV = EntryV(id: int, v: nat)

  datatype Value = Absent | Present(e: EntryV)

  /** A client about to put, or with its put on a key answered and its get still to come. */
  datatype Phase = Ready | Answered(key: nat, err: Err)

  /** `vers` are the versions the client last saw, key by key. */
  datatype Client = Client(phase: Phase, vers: seq<nat>, nok: nat, nmay: nat)

  /** Keys are numbered.  `applied` counts the puts that took effect although ErrMaybe was returned; no
      step looks at it.  `failed` is set when one of the client's own checks stops the test. */
  datatype System = System(stores: seq<Store<Value>>, clients: seq<Client>, applied: nat, failed: bool)

  datatype Action = Put(c: nat, key: nat, err: Err) | Get(c: nat)

  ghost predicate StoreInv(st: Store<Value>) {
    st.version == 0 <==> st.value.Absent?
  }

  /** Fresh clients on any stores, for instance those that an earlier round has left. */
  ghost predicate Start(s: System) {
    && s.applied == 0 && !s.failed
    && (forall k | 0 <= k < |s.stores| :: StoreInv(s.stores[k]))
    && forall c | 0 <= c < |s.clients| :: s.clients[c] == Client(Ready, seq(|s.stores|, k => 0), 0, 0)
  }

  /** The checks after the get: the key must exist, and if the put returned OK and nothing was put
      since, a value that is neither this client's nor of this version is wrong. */
  predicate WrongRead(c: nat, ver: nat, err: Err, store: Store<Value>) {
    store.value.Absent? ||
    (err.OK? && store.version == ver + 1 && store.value.e.id != c && store.value.e.v != ver)
  }

  /** The check lets a foreign value pass if it agrees with the client's put in one of its two parts. */
  lemma WrongReadMisses(c: nat, ver: nat, e: EntryV)
    ensures WrongRead(c, ver, OK, Store(Present(e), ver + 1)) <==> e.id != c && e.v != ver
    ensures forall err: Err, st: Store<Value> :: !err.OK? || st.version != ver + 1 ==>
              (WrongRead(c, ver, err, st) <==> st.value.Absent?)
  {
  }

  /** The client after its get: it adopts the version read, and counts the put unless it retries. */
  function AfterGet(cl: Client, vers: seq<nat>, err: Err): Client {
    match err
    case OK => Client(Ready, vers, cl.nok + 1, cl.nmay)
    case ErrMaybe => Client(Ready, vers, cl.nok, cl.nmay + 1)
    case ErrVersion => Client(Ready, vers, cl.nok, cl.nmay)
  }

  ghost predicate Shaped(s: System) {
    forall c | 0 <= c < |s.clients| ::
      |s.clients[c].vers| == |s.stores| && (s.clients[c].phase.Answered? ==> s.clients[c].phase.key < |s.stores|)
  }

  ghost predicate Step(s: System, a: Action, s': System) {
    && Shaped(s) && a.c < |s.clients|
    && var cl := s.clients[a.c];
       match a
       case Put(c, key, err) =>
         && key < |s.stores| == |s'.stores|
         && cl.phase.Ready?
         && PutStep(s.stores[key], Present(EntryV(c, cl.vers[key])), cl.vers[key], err, s'.stores[key])
         && s'.stores == s.stores[key := s'.stores[key]]
         && s'.clients == s.clients[c := cl.(phase := Answered(key, err))]
         && s'.applied == s.applied + (if err.ErrMaybe? && s.stores[key].version == cl.vers[key] then 1 else 0)
         && s'.failed == s.failed
       case Get(c) =>
         && cl.phase.Answered?
         && var key, err := cl.phase.key, cl.phase.err;
            && s'.stores == s.stores && s'.applied == s.applied
            && s'.clients == s.clients[c := AfterGet(cl, cl.vers[key := s.stores[key].version], err)]
            && s'.failed == (s.failed || WrongRead(c, cl.vers[key], err, s.stores[key]))
  }

  ghost predicate Execution(tr: seq<System>, acts: seq<Action>) {
    && |tr| == |acts| + 1
    && Start(tr[0])
    && forall k | 0 <= k < |acts| :: Step(tr[k], acts[k], tr[k + 1])
  }

  // ----- accounting

  /** Puts that returned OK, counted or about to be. */
  function Oks(cl: Client): nat {
    cl.nok + if cl.phase.Answered? && cl.phase.err.OK? then 1 else 0
  }

  function Mays(cl: Client): nat {
    cl.nmay + if cl.phase.Answered? && cl.phase.err.ErrMaybe? then 1 else 0
  }

  function SumOks(cs: seq<Client>): nat {
    if cs == [] then 0 else SumOks(cs[..|cs| - 1]) + Oks(cs[|cs| - 1])
  }

  function SumMays(cs: seq<Client>): nat {
    if cs == [] then 0 else SumMays(cs[..|cs| - 1]) + Mays(cs[|cs| - 1])
  }

  /** All versions together: how many puts took effect since the keys were absent. */
  function SumVersions(stores: seq<Store<Value>>): nat {
    if stores == [] then 0 else SumVersions(stores[..|stores| - 1]) + stores[|stores| - 1].version
  }

  lemma {:induction false} SumsUpdate(cs: seq<Client>, c: nat, cl: Client)
    requires c < |cs|
    ensures SumOks(cs[c := cl]) == SumOks(cs) - Oks(cs[c]) + Oks(cl)
    ensures SumMays(cs[c := cl]) == SumMays(cs) - Mays(cs[c]) + Mays(cl)
  {
    var last := |cs| - 1;
    if c < last {
      SumsUpdate(cs[..last], c, cl);
      assert cs[c := cl][..last] == cs[..last][c := cl];
    } else {
      assert cs[c := cl][..last] == cs[..last];
    }
  }

  lemma {:induction false} VersionsUpdate(stores: seq<Store<Value>>, k: nat, st: Store<Value>)
    requires k < |stores|
    ensures SumVersions(stores[k := st]) == SumVersions(stores) - stores[k].version + st.version
    ensures stores[k].version <= SumVersions(stores)
  {
    var last := |stores| - 1;
    if k < last {
      VersionsUpdate(stores[..last], k, st);
      assert stores[k := st][..last] == stores[..last][k := st];
    } else {
      assert stores[k := st][..last] == stores[..last];
    }
  }

  lemma {:induction false} SumsZero(cs: seq<Client>)
    requires forall c | 0 <= c < |cs| :: Oks(cs[c]) == Mays(cs[c]) == 0
    ensures SumOks(cs) == SumMays(cs) == 0
  {
    if cs != [] {
      SumsZero(cs[..|cs| - 1]);
    }
  }

  /** What a client knows about a key. */
  ghost predicate KeyInv(store: Store<Value>, c: nat, cl: Client, key: nat)
    requires key < |cl.vers|
  {
    && cl.vers[key] <= store.version
    && (cl.phase.Answered? && cl.phase.key == key ==>
          && cl.vers[key] < store.version
          && (cl.phase.err.OK? && store.version == cl.vers[key] + 1 ==>
                store.value == Present(EntryV(c, cl.vers[key]))))
  }

  /** `base` is what the versions summed to at the start. */
  ghost predicate Inv(s: System, base: nat) {
    && Shaped(s) && !s.failed
    && (forall k | 0 <= k < |s.stores| :: StoreInv(s.stores[k]))
    && SumVersions(s.stores) == base + SumOks(s.clients) + s.applied
    && s.applied <= SumMays(s.clients)
    && (SumOks(s.clients) + SumMays(s.clients) > 0 ==> SumVersions(s.stores) > 0)
    && forall c, k | 0 <= c < |s.clients| && 0 <= k < |s.stores| :: KeyInv(s.stores[k], c, s.clients[c], k)
  }

  lemma PutKeepsInv(s: System, base: nat, c: nat, key: nat, err: Err, s': System)
    requires Inv(s, base) && Step(s, Put(c, key, err), s')
    ensures Inv(s', base)
  {
    assert KeyInv(s.stores[key], c, s.clients[c], key) && StoreInv(s.stores[key]);
    SumsUpdate(s.clients, c, s'.clients[c]);
    VersionsUpdate(s.stores, key, s'.stores[key]);
    forall d, k | 0 <= d < |s'.clients| && 0 <= k < |s'.stores| ensures KeyInv(s'.stores[k], d, s'.clients[d], k) {
      assert KeyInv(s.stores[k], d, s.clients[d], k);
    }
  }

  lemma GetKeepsInv(s: System, base: nat, c: nat, s': System)
    requires Inv(s, base) && Step(s, Get(c), s')
    ensures Inv(s', base)
  {
    var key := s.clients[c].phase.key;
    assert KeyInv(s.stores[key], c, s.clients[c], key) && StoreInv(s.stores[key]);
    SumsUpdate(s.clients, c, s'.clients[c]);
    forall d, k | 0 <= d < |s'.clients| && 0 <= k < |s'.stores| ensures KeyInv(s'.stores[k], d, s'.clients[d], k) {
      assert KeyInv(s.stores[k], d, s.clients[d], k);
    }
  }

  lemma StepKeepsInv(s: System, base: nat, a: Action, s': System)
    requires Inv(s, base) && Step(s, a, s')
    ensures Inv(s', base)
  {
    match a
    case Put(c, key, err) => PutKeepsInv(s, base, c, key, err, s');
    case Get(c) => GetKeepsInv(s, base, c, s');
  }

  lemma {:induction false} ExecutionKeepsInv(tr: seq<System>, acts: seq<Action>, k: nat)
    requires Execution(tr, acts) && k < |tr|
    ensures Inv(tr[k], SumVersions(tr[0].stores)) && |tr[k].stores| == |tr[0].stores|
  {
    if k == 0 {
      SumsZero(tr[0].clients);
    } else {
      ExecutionKeepsInv(tr, acts, k - 1);
      StepKeepsInv(tr[k - 1], SumVersions(tr[0].stores), acts[k - 1], tr[k]);
    }
  }

  /** A client whose put returned OK and was not overwritten reads back just what it wrote, so the
      check would not fire even if either difference were enough. */
  lemma OwnPutReadBack(tr: seq<System>, acts: seq<Action>, k: nat, c: nat, key: nat)
    requires Execution(tr, acts) && k < |tr| && c < |tr[k].clients| && Shaped(tr[k])
    requires tr[k].clients[c].phase == Answered(key, OK) && tr[k].stores[key].version == tr[k].clients[c].vers[key] + 1
    ensures tr[k].stores[key].value == Present(EntryV(c, tr[k].clients[c].vers[key]))
  {
    ExecutionKeepsInv(tr, acts, k);
    assert KeyInv(tr[k].stores[key], c, tr[k].clients[c], key);
  }

  predicate Answers(a: Action, c: nat, err: Err) {
    a.Put? && a.c == c && a.err == err
  }

  /** The puts among the first k actions by which client c got this answer. */
  ghost function PutsOf(acts: seq<Action>, k: nat, c: nat, err: Err): set<nat>
    requires k <= |acts|
  {
    set j: nat | j < k && Answers(acts[j], c, err)
  }

  lemma PutsOfNext(acts: seq<Action>, k: nat, c: nat, err: Err)
    requires k < |acts|
    ensures |PutsOf(acts, k + 1, c, err)| == |PutsOf(acts, k, c, err)| + if Answers(acts[k], c, err) then 1 else 0
  {
    if Answers(acts[k], c, err) {
      assert PutsOf(acts, k + 1, c, err) == PutsOf(acts, k, c, err) + {k};
    } else {
      assert PutsOf(acts, k + 1, c, err) == PutsOf(acts, k, c, err);
    }
  }

  /** A client between operations has counted how often its puts returned OK and ErrMaybe. */
  lemma {:induction false} CountsExact(tr: seq<System>, acts: seq<Action>, k: nat, c: nat)
    requires Execution(tr, acts) && k < |tr| && c < |tr[k].clients|
    ensures Oks(tr[k].clients[c]) == |PutsOf(acts, k, c, OK)| && Mays(tr[k].clients[c]) == |PutsOf(acts, k, c, ErrMaybe)|
    ensures tr[k].clients[c].phase.Ready? ==>
              tr[k].clients[c].nok == |PutsOf(acts, k, c, OK)| && tr[k].clients[c].nmay == |PutsOf(acts, k, c, ErrMaybe)|
  {
    if k == 0 {
      assert PutsOf(acts, 0, c, OK) == {} && PutsOf(acts, 0, c, ErrMaybe) == {};
    } else {
      CountsExact(tr, acts, k - 1, c);
      PutsOfNext(acts, k - 1, c, OK);
      PutsOfNext(acts, k - 1, c, ErrMaybe);
    }
  }

  ghost predicate Quiet(s: System) {
    forall c | 0 <= c < |s.clients| :: s.clients[c].phase.Ready?
  }

  // ----- the totals

  function Results(cs: seq<Client>): seq<ClntRes> {
    seq(|cs|, c requires 0 <= c < |cs| => ClntRes(cs[c].nok, cs[c].nmay))
  }

  /** The totals carried so far plus the counts of this round's clients. */
  function Total(res: ClntRes, rs: seq<ClntRes>): ClntRes {
    if rs == [] then res
    else
      var t := Total(res, rs[..|rs| - 1]);
      ClntRes(t.nok + rs[|rs| - 1].nok, t.nmaybe + rs[|rs| - 1].nmaybe)
  }

  lemma {:induction false} TotalsAreSums(res: ClntRes, cs: seq<Client>)
    requires forall c | 0 <= c < |cs| :: cs[c].phase.Ready?
    ensures Total(res, Results(cs)) == ClntRes(res.nok + SumOks(cs), res.nmaybe + SumMays(cs))
  {
    if cs != [] {
      TotalsAreSums(res, cs[..|cs| - 1]);
      assert Results(cs)[..|cs| - 1] == Results(cs[..|cs| - 1]);
    }
  }

  /** Put accounting on any number of keys: once all clients are between operations, the number of
      puts that took effect is the number acknowledged plus some of the unknown ones, exactly those
      that were applied; no client's own check ever fails. */
  lemma PutAccounting(tr: seq<System>, acts: seq<Action>, k: nat)
    requires Execution(tr, acts) && k < |tr| && Quiet(tr[k])
    ensures var s := tr[k]; var t := Total(ClntRes(0, 0), Results(s.clients));
            && !s.failed
            && SumVersions(s.stores) == SumVersions(tr[0].stores) + t.nok + s.applied
            && s.applied <= t.nmaybe
  {
    ExecutionKeepsInv(tr, acts, k);
    TotalsAreSums(ClntRes(0, 0), tr[k].clients);
  }

  // ----- rounds of clients on one store, and the check after each

  /** A round: where a run of fresh clients starts and where it ends. */
  datatype Round = Round(first: System, last: System)

  /** Some run of the clients leads from one to the other, and ends with all between operations. */
  ghost predicate Completes(r: Round) {
    Quiet(r.last) && exists tr, acts :: Execution(tr, acts) && tr[0] == r.first && tr[|acts|] == r.last
  }

  function Fresh(n: nat): seq<Store<Value>> {
    seq(n, k => Store(Absent, 0))
  }

  /** What some rounds leave on n keys that were absent at first. */
  function Left(rounds: seq<Round>, n: nat): seq<Store<Value>> {
    if rounds == [] then Fresh(n) else rounds[|rounds| - 1].last.stores
  }

  /** Rounds that follow each other, on n keys that were absent at first. */
  ghost predicate Rounds(rounds: seq<Round>, n: nat) {
    rounds == [] ||
    (var before, r := rounds[..|rounds| - 1], rounds[|rounds| - 1];
     Rounds(before, n) && Completes(r) && r.first.stores == Left(before, n))
  }

  /** The totals after all rounds. */
  ghost function Carried(rounds: seq<Round>): ClntRes {
    if rounds == [] then ClntRes(0, 0)
    else Total(Carried(rounds[..|rounds| - 1]), Results(rounds[|rounds| - 1].last.clients))
  }

  /** How many unknown puts were applied in all rounds. */
  ghost function Applied(rounds: seq<Round>): nat {
    if rounds == [] then 0 else Applied(rounds[..|rounds| - 1]) + rounds[|rounds| - 1].last.applied
  }

  lemma {:induction false} FreshVersions(n: nat)
    ensures SumVersions(Fresh(n)) == 0
  {
    if n > 0 {
      FreshVersions(n - 1);
      assert Fresh(n)[..n - 1] == Fresh(n - 1);
    }
  }

  /** All puts that took effect are accounted for by the totals and the unknown puts applied. */
  ghost predicate Accounted(stores: seq<Store<Value>>, t: ClntRes, applied: nat) {
    && (forall k | 0 <= k < |stores| :: StoreInv(stores[k]))
    && SumVersions(stores) == t.nok + applied
    && applied <= t.nmaybe
    && (t.nok + t.nmaybe > 0 ==> SumVersions(stores) > 0)
  }

  lemma RoundAccounted(r: Round, t: ClntRes, applied: nat)
    requires Completes(r) && Accounted(r.first.stores, t, applied)
    ensures Accounted(r.last.stores, Total(t, Results(r.last.clients)), applied + r.last.applied)
    ensures !r.last.failed && |r.last.stores| == |r.first.stores|
  {
    var tr, acts :| Execution(tr, acts) && tr[0] == r.first && tr[|acts|] == r.last;
    ExecutionKeepsInv(tr, acts, |acts|);
    TotalsAreSums(t, r.last.clients);
  }

  /** Over any rounds everything stays accounted for, and no client's own check fails. */
  lemma {:induction false} RoundsAccounting(rounds: seq<Round>, n: nat)
    requires Rounds(rounds, n)
    ensures Accounted(Left(rounds, n), Carried(rounds), Applied(rounds)) && |Left(rounds, n)| == n
    ensures rounds != [] ==> !rounds[|rounds| - 1].last.failed
  {
    if rounds == [] {
      FreshVersions(n);
    } else {
      var before := rounds[..|rounds| - 1];
      RoundsAccounting(before, n);
      RoundAccounted(rounds[|rounds| - 1], Carried(before), Applied(before));
    }
  }

  /** The demand on the final value and version, given the totals. */
  predicate Passes(store: Store<Value>, t: ClntRes, reliable: bool) {
    && store.value.Present?
    && if reliable then store.version == t.nok else store.version <= t.nok + t.nmaybe
  }

  /** With one key, the check after any round passes if and only if some client has finished a put
      and, in reliable mode, none was applied that its client does not know of. */
  lemma PutsPass(rounds: seq<Round>, reliable: bool)
    requires Rounds(rounds, 1)
    ensures |Left(rounds, 1)| == 1
    ensures var t := Carried(rounds);
            Passes(Left(rounds, 1)[0], t, reliable) <==> t.nok + t.nmaybe > 0 && (reliable ==> Applied(rounds) == 0)
  {
    RoundsAccounting(rounds, 1);
    var stores := Left(rounds, 1);
    assert stores[..0] == [] && SumVersions(stores) == stores[0].version && StoreInv(stores[0]);
  }

  /** What the check catches: a store on one key with any other version v passes, in reliable mode, if
      and only if v is short of the right one by the unknown puts applied, and otherwise if and only if
      v exceeds it by no more than the unknown puts not applied. */
  lemma OffVersionsCaught(rounds: seq<Round>, v: nat, value: Value, reliable: bool)
    requires Rounds(rounds, 1)
    ensures |Left(rounds, 1)| == 1
    ensures var t, right := Carried(rounds), Left(rounds, 1)[0].version;
            Passes(Store(value, v), t, reliable) <==>
            && value.Present?
            && if reliable then right - v == Applied(rounds) else v - right <= t.nmaybe - Applied(rounds)
  {
    RoundsAccounting(rounds, 1);
    var stores := Left(rounds, 1);
    assert stores[..0] == [] && SumVersions(stores) == stores[0].version;
  }

  /** The check, which adds this round's counts to the totals it is given. */
  method CheckPutConcurrent(store: Store<Value>, rs: seq<ClntRes>, res: ClntRes, reliable: bool)
    returns (ok: bool, res': ClntRes)
    ensures ok <==> Passes(store, Total(res, rs), reliable)
    ensures res' == if store.value.Present? then Total(res, rs) else res
  {
    res' := res;
    if store.value.Absent? {
      return false, res';
    }
    for i := 0 to |rs|
      invariant res' == Total(res, rs[..i])
    {
      assert rs[..i + 1][..i] == rs[..i];
      res' := ClntRes(res'.nok + rs[i].nok, res'.nmaybe + rs[i].nmaybe);
    }
    assert rs[..|rs|] == rs;
    ok := if reliable then store.version == res'.nok else !(store.version > res'.nok + res'.nmaybe);
  }
}
