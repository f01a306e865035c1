/** The sequential model of the key/value store against which test histories are checked, and why
    it may be checked one key at a time. */
module KvModel {
  import opened Choice
  import Sorting

  const TWO_TO_THE_64 := 0x1_0000_0000_0000_0000

  type Uint64 = v: int | 0 <= v < TWO_TO_THE_64

  datatype Input = Input(op: nat, key: string, value: string, version: Uint64)
  datatype Output = Output(value: string, version: Uint64, err: string)
  datatype State = State(value: string, version: Uint64)

  /** A recorded operation: what was asked and answered, and when it was called and returned. */
  datatype Operation = Operation(input: Input, output: Output, call: int, ret: int)

  function Init(): State {
    State("", 0)
  }

  /** One key's step: whether the output is allowed, and the next state. */
  function Step(st: State, inp: Input, out: Output): (bool, State) {
    if inp.op == 0 then
      (out.value == st.value, st)
    else if inp.op == 1 then
      if st.version == inp.version then
        (out.err == "OK" || out.err == "ErrMaybe", State(inp.value, (st.version + 1) % TWO_TO_THE_64))
      else
        (out.err == "ErrVersion" || out.err == "ErrMaybe", st)
    else
      (false, st)
  }

  // ----- what the steps mean, without states

  /** A put takes effect if its version is the number of puts that took effect before, in 64 bits. */
  predicate TakesEffect(before: seq<string>, inp: Input) {
    inp.op == 1 && inp.version == |before| % TWO_TO_THE_64
  }

  /** The values written by the puts that took effect. */
  function Effects(ops: seq<Operation>): seq<string> {
    if ops == [] then []
    else
      var before, last := Effects(ops[..|ops| - 1]), ops[|ops| - 1].input;
      if TakesEffect(before, last) then before + [last.value] else before
  }

  /** The answer fits the puts that took effect before: a get returns the last value, or "" if there
      is none; a put that takes effect answers OK or ErrMaybe and any other ErrVersion or ErrMaybe. */
  predicate Fitting(before: seq<string>, op: Operation) {
    if op.input.op == 0 then
      op.output.value == if before == [] then "" else before[|before| - 1]
    else
      && op.input.op == 1
      && op.output.err in (if TakesEffect(before, op.input) then {"OK", "ErrMaybe"} else {"ErrVersion", "ErrMaybe"})
  }

  ghost predicate AllFitting(ops: seq<Operation>) {
    forall i | 0 <= i < |ops| :: Fitting(Effects(ops[..i]), ops[i])
  }

  /** The state after these operations. */
  ghost function Final(st: State, ops: seq<Operation>): State {
    if ops == [] then st
    else
      var last := ops[|ops| - 1];
      Step(Final(st, ops[..|ops| - 1]), last.input, last.output).1
  }

  lemma {:induction false} AcceptsLast(st: State, ops: seq<Operation>, op: Operation)
    ensures Accepts(st, ops + [op]) <==> Accepts(st, ops) && Step(Final(st, ops), op.input, op.output).0
    decreases |ops|
  {
    if ops == [] {
      assert ([op])[1..] == [];
    } else {
      var next := Step(st, ops[0].input, ops[0].output).1;
      assert (ops + [op])[1..] == ops[1..] + [op];
      AcceptsLast(next, ops[1..], op);
      FinalFront(st, ops);
    }
  }

  lemma {:induction false} FinalFront(st: State, ops: seq<Operation>)
    requires ops != []
    ensures Final(st, ops) == Final(Step(st, ops[0].input, ops[0].output).1, ops[1..])
    decreases |ops|
  {
    var n := |ops| - 1;
    if n > 0 {
      FinalFront(st, ops[..n]);
      assert ops[..n][1..] == ops[1..][..n - 1];
    }
  }

  /** The state that puts with these values leave: the last value and how many there are. */
  ghost function StateOf(effects: seq<string>): State {
    State(if effects == [] then "" else effects[|effects| - 1], |effects| % TWO_TO_THE_64)
  }

  lemma NextVersion(n: nat)
    ensures (n % TWO_TO_THE_64 + 1) % TWO_TO_THE_64 == (n + 1) % TWO_TO_THE_64
  {
  }

  /** A step allows just the answers that fit, and leads to the state of the effects with this one. */
  lemma StepFits(before: seq<string>, op: Operation)
    ensures var (ok, next) := Step(StateOf(before), op.input, op.output);
            && (ok <==> Fitting(before, op))
            && next == StateOf(if TakesEffect(before, op.input) then before + [op.input.value] else before)
  {
    NextVersion(|before|);
  }

  lemma {:induction false} FinalEffects(ops: seq<Operation>)
    ensures Final(Init(), ops) == StateOf(Effects(ops))
  {
    if ops != [] {
      var n := |ops| - 1;
      FinalEffects(ops[..n]);
      StepFits(Effects(ops[..n]), ops[n]);
    }
  }

  lemma AllFittingLast(ops: seq<Operation>, op: Operation)
    ensures AllFitting(ops + [op]) <==> AllFitting(ops) && Fitting(Effects(ops), op)
  {
    var all := ops + [op];
    assert all[..|ops|] == ops && all[|ops|] == op;
    assert forall i | 0 <= i < |ops| :: all[..i] == ops[..i] && all[i] == ops[i];
  }

  /** The steps from Init accept a sequence of operations if and only if every answer fits. */
  lemma {:induction false} AcceptsExactly(ops: seq<Operation>)
    ensures Accepts(Init(), ops) <==> AllFitting(ops)
  {
    if ops != [] {
      var front, last := ops[..|ops| - 1], ops[|ops| - 1];
      assert ops == front + [last];
      AcceptsExactly(front);
      AcceptsLast(Init(), front, last);
      FinalEffects(front);
      StepFits(Effects(front), last);
      AllFittingLast(front, last);
    }
  }

  // ----- linearizability, of one key and of the whole store

  /** The steps allow these operations in this order. */
  ghost predicate Accepts(st: State, ops: seq<Operation>)
    decreases |ops|
  {
    ops == [] ||
    (var (ok, next) := Step(st, ops[0].input, ops[0].output);
     ok && Accepts(next, ops[1..]))
  }

  ghost function At(store: map<string, State>, key: string): State {
    if key in store then store[key] else Init()
  }

  /** The same for a store of many keys, each starting from Init. */
  ghost predicate AcceptsAll(store: map<string, State>, ops: seq<Operation>)
    decreases |ops|
  {
    ops == [] ||
    (var key := ops[0].input.key;
     var (ok, next) := Step(At(store, key), ops[0].input, ops[0].output);
     ok && AcceptsAll(store[key := next], ops[1..]))
  }

  /** No operation is placed after one that was called only once it had returned. */
  ghost predicate RealTime(ops: seq<Operation>) {
    forall i, j | 0 <= i < j < |ops| :: ops[i].call <= ops[j].ret
  }

  ghost predicate IsOrder(order: seq<Operation>, history: seq<Operation>) {
    multiset(order) == multiset(history) && RealTime(order)
  }

  ghost predicate KeyLinearizable(history: seq<Operation>) {
    exists order :: IsOrder(order, history) && Accepts(Init(), order)
  }

  ghost predicate Linearizable(history: seq<Operation>) {
    exists order :: IsOrder(order, history) && AcceptsAll(map[], order)
  }

  ghost predicate WellTimed(history: seq<Operation>) {
    forall op | op in history :: op.call <= op.ret
  }

  // ----- the operations on some keys

  function Only(ops: seq<Operation>, keys: set<string>): seq<Operation> {
    if ops == [] then []
    else (if ops[0].input.key in keys then [ops[0]] else []) + Only(ops[1..], keys)
  }

  function KeysOf(ops: seq<Operation>): set<string> {
    set op | op in ops :: op.input.key
  }

  lemma {:induction false} OnlyCount(ops: seq<Operation>, keys: set<string>, op: Operation)
    ensures multiset(Only(ops, keys))[op] == if op.input.key in keys then multiset(ops)[op] else 0
  {
    if ops != [] {
      OnlyCount(ops[1..], keys, op);
      assert ops == [ops[0]] + ops[1..];
    }
  }

  lemma {:induction false} OnlyAll(ops: seq<Operation>, keys: set<string>)
    requires forall op | op in ops :: op.input.key in keys
    ensures Only(ops, keys) == ops
  {
    if ops != [] {
      OnlyAll(ops[1..], keys);
    }
  }

  lemma {:induction false} OnlyNone(ops: seq<Operation>, keys: set<string>)
    requires forall op | op in ops :: op.input.key !in keys
    ensures Only(ops, keys) == []
  {
    if ops != [] {
      OnlyNone(ops[1..], keys);
    }
  }

  lemma Associative<T>(xs: seq<T>, ys: seq<T>, zs: seq<T>)
    ensures xs + (ys + zs) == xs + ys + zs
  {
  }

  lemma {:induction false} OnlyConcat(xs: seq<Operation>, ys: seq<Operation>, keys: set<string>)
    ensures Only(xs + ys, keys) == Only(xs, keys) + Only(ys, keys)
  {
    if xs == [] {
      assert xs + ys == ys;
    } else {
      assert (xs + ys)[1..] == xs[1..] + ys;
      OnlyConcat(xs[1..], ys, keys);
      Associative(if xs[0].input.key in keys then [xs[0]] else [], Only(xs[1..], keys), Only(ys, keys));
    }
  }

  lemma SameOnly(xs: seq<Operation>, ys: seq<Operation>, keys: set<string>)
    requires multiset(xs) == multiset(ys)
    ensures multiset(Only(xs, keys)) == multiset(Only(ys, keys))
  {
    forall op ensures multiset(Only(xs, keys))[op] == multiset(Only(ys, keys))[op] {
      OnlyCount(xs, keys, op);
      OnlyCount(ys, keys, op);
    }
  }

  lemma RealTimeCons(x: Operation, ops: seq<Operation>)
    ensures RealTime([x] + ops) <==> RealTime(ops) && forall op | op in ops :: x.call <= op.ret
  {
    var all := [x] + ops;
    assert forall i | 0 <= i < |ops| :: all[i + 1] == ops[i];
    if RealTime(all) {
      forall i, j | 0 <= i < j < |ops| ensures ops[i].call <= ops[j].ret {
        assert all[i + 1].call <= all[j + 1].ret;
      }
      forall op | op in ops ensures x.call <= op.ret {
        var i :| 0 <= i < |ops| && ops[i] == op;
        assert all[0].call <= all[i + 1].ret;
      }
    }
  }

  lemma {:induction false} OnlyRealTime(ops: seq<Operation>, keys: set<string>)
    requires RealTime(ops)
    ensures RealTime(Only(ops, keys))
  {
    if ops != [] {
      var rest := Only(ops[1..], keys);
      OnlyRealTime(ops[1..], keys);
      RealTimeCons(ops[0], rest);
      assert ops == [ops[0]] + ops[1..];
      RealTimeCons(ops[0], ops[1..]);
      forall op | op in rest ensures op in ops[1..] {
        OnlyCount(ops[1..], keys, op);
      }
    }
  }

  /** The store's steps are the steps of its keys, side by side. */
  lemma {:induction false} StepsSplit(store: map<string, State>, ops: seq<Operation>)
    ensures AcceptsAll(store, ops) <==> forall k :: Accepts(At(store, k), Only(ops, {k}))
    decreases |ops|
  {
    if ops != [] {
      var key := ops[0].input.key;
      var (ok, next) := Step(At(store, key), ops[0].input, ops[0].output);
      StepsSplit(store[key := next], ops[1..]);
      forall k
        ensures Accepts(At(store, k), Only(ops, {k})) <==>
                (k == key ==> ok) && Accepts(At(store[key := next], k), Only(ops[1..], {k}))
      {
        if k == key {
          assert Only(ops, {k})[1..] == Only(ops[1..], {k});
        } else {
          assert Only(ops, {k}) == Only(ops[1..], {k});
        }
      }
    }
  }

  // ----- linearization points

  /** An operation placed at a point in time. */
  datatype Placed = Placed(op: Operation, at: int)

  ghost function Ops(ps: seq<Placed>): seq<Operation> {
    seq(|ps|, i requires 0 <= i < |ps| => ps[i].op)
  }

  /** Points in order, each between its operation's call and return. */
  ghost predicate Timeline(ps: seq<Placed>) {
    && (forall i, j | 0 <= i < j < |ps| :: ps[i].at <= ps[j].at)
    && (forall i | 0 <= i < |ps| :: ps[i].op.call <= ps[i].at <= ps[i].op.ret)
  }

  lemma TimelineRealTime(ps: seq<Placed>)
    requires Timeline(ps)
    ensures RealTime(Ops(ps))
  {
  }

  lemma TimelineSnoc(ps: seq<Placed>, p: Placed)
    requires Timeline(ps) && p.op.call <= p.at <= p.op.ret
    requires ps != [] ==> ps[|ps| - 1].at <= p.at
    ensures Timeline(ps + [p]) && Ops(ps + [p]) == Ops(ps) + [p.op]
  {
  }

  /** The last of these points is the call of some operation. */
  ghost predicate EndsAtCall(ps: seq<Placed>, ops: seq<Operation>) {
    ps != [] ==> exists k :: 0 <= k < |ops| && ps[|ps| - 1].at == ops[k].call
  }

  /** Placing every operation at the largest call so far gives a timeline. */
  lemma {:induction false} FindTimeline(ops: seq<Operation>) returns (ps: seq<Placed>)
    requires RealTime(ops) && WellTimed(ops)
    ensures Timeline(ps) && Ops(ps) == ops && EndsAtCall(ps, ops)
  {
    if ops == [] {
      ps := [];
    } else {
      var n := |ops| - 1;
      var rest := FindTimeline(ops[..n]);
      var k := LargestCall(ops, rest);
      var p := Placed(ops[n], ops[k].call);
      TimelineSnoc(rest, p);
      ps := rest + [p];
    }
  }

  /** An operation whose call is not before any earlier point nor after the last return. */
  lemma LargestCall(ops: seq<Operation>, rest: seq<Placed>) returns (k: nat)
    requires ops != [] && RealTime(ops) && WellTimed(ops) && EndsAtCall(rest, ops[..|ops| - 1])
    ensures k < |ops| && ops[|ops| - 1].call <= ops[k].call <= ops[|ops| - 1].ret
    ensures rest != [] ==> rest[|rest| - 1].at <= ops[k].call
  {
    var n := |ops| - 1;
    assert ops[n] in ops;
    k := n;
    if rest != [] && rest[|rest| - 1].at > ops[n].call {
      k :| 0 <= k < n && rest[|rest| - 1].at == ops[..n][k].call;
    }
  }

  function Merge(xs: seq<Placed>, ys: seq<Placed>): seq<Placed> {
    if xs == [] then ys
    else if ys == [] then xs
    else if xs[0].at <= ys[0].at then [xs[0]] + Merge(xs[1..], ys)
    else [ys[0]] + Merge(xs, ys[1..])
  }

  lemma {:induction false} MergeSame(xs: seq<Placed>, ys: seq<Placed>)
    ensures multiset(Merge(xs, ys)) == multiset(xs) + multiset(ys)
  {
    if xs != [] && ys != [] {
      if xs[0].at <= ys[0].at {
        MergeSame(xs[1..], ys);
        assert xs == [xs[0]] + xs[1..];
      } else {
        MergeSame(xs, ys[1..]);
        assert ys == [ys[0]] + ys[1..];
      }
    }
  }

  lemma TimelineCons(p: Placed, ps: seq<Placed>)
    requires Timeline(ps) && p.op.call <= p.at <= p.op.ret
    requires forall q | q in ps :: p.at <= q.at
    ensures Timeline([p] + ps)
  {
  }

  lemma {:induction false} MergeTimeline(xs: seq<Placed>, ys: seq<Placed>)
    requires Timeline(xs) && Timeline(ys)
    ensures Timeline(Merge(xs, ys))
  {
    if xs != [] && ys != [] {
      if xs[0].at <= ys[0].at {
        MergeTimeline(xs[1..], ys);
        MergeSame(xs[1..], ys);
        forall q | q in Merge(xs[1..], ys) ensures xs[0].at <= q.at {
          assert q in multiset(xs[1..]) + multiset(ys);
        }
        TimelineCons(xs[0], Merge(xs[1..], ys));
      } else {
        MergeTimeline(xs, ys[1..]);
        MergeSame(xs, ys[1..]);
        forall q | q in Merge(xs, ys[1..]) ensures ys[0].at <= q.at {
          assert q in multiset(xs) + multiset(ys[1..]);
        }
        TimelineCons(ys[0], Merge(xs, ys[1..]));
      }
    }
  }

  ghost predicate Avoids(ps: seq<Placed>, keys: set<string>) {
    forall p | p in ps :: p.op.input.key !in keys
  }

  lemma OpsCons(p: Placed, ps: seq<Placed>)
    ensures Ops([p] + ps) == [p.op] + Ops(ps)
  {
  }

  lemma OnlyCons(p: Placed, ps: seq<Placed>, keys: set<string>)
    ensures Only(Ops([p] + ps), keys) == (if p.op.input.key in keys then [p.op] else []) + Only(Ops(ps), keys)
  {
    OpsCons(p, ps);
  }

  lemma {:induction false} OnlyAvoids(ps: seq<Placed>, keys: set<string>)
    requires Avoids(ps, keys)
    ensures Only(Ops(ps), keys) == []
  {
    forall op | op in Ops(ps) ensures op.input.key !in keys {
      var i :| 0 <= i < |ps| && Ops(ps)[i] == op;
      assert ps[i] in ps;
    }
    OnlyNone(Ops(ps), keys);
  }

  /** Merging in operations on other keys does not change what one key sees. */
  lemma {:induction false} MergeOnly(xs: seq<Placed>, ys: seq<Placed>, keys: set<string>)
    ensures Avoids(ys, keys) ==> Only(Ops(Merge(xs, ys)), keys) == Only(Ops(xs), keys)
    ensures Avoids(xs, keys) ==> Only(Ops(Merge(xs, ys)), keys) == Only(Ops(ys), keys)
  {
    if xs == [] || ys == [] {
      if Avoids(xs, keys) {
        OnlyAvoids(xs, keys);
      }
      if Avoids(ys, keys) {
        OnlyAvoids(ys, keys);
      }
    } else if xs[0].at <= ys[0].at {
      MergeOnly(xs[1..], ys, keys);
      OnlyCons(xs[0], Merge(xs[1..], ys), keys);
      OnlyCons(xs[0], xs[1..], keys);
      assert xs == [xs[0]] + xs[1..];
    } else {
      MergeOnly(xs, ys[1..], keys);
      OnlyCons(ys[0], Merge(xs, ys[1..]), keys);
      OnlyCons(ys[0], ys[1..], keys);
      assert ys == [ys[0]] + ys[1..];
    }
  }

  /** How often an operation is placed. */
  ghost function Times(ps: seq<Placed>, op: Operation): nat {
    multiset(Ops(ps))[op]
  }

  lemma TimesCons(ps: seq<Placed>, op: Operation)
    requires ps != []
    ensures Times(ps, op) == Times(ps[1..], op) + if ps[0].op == op then 1 else 0
  {
    OpsCons(ps[0], ps[1..]);
    assert [ps[0]] + ps[1..] == ps;
  }

  lemma {:induction false} MergeTimes(xs: seq<Placed>, ys: seq<Placed>, op: Operation)
    ensures Times(Merge(xs, ys), op) == Times(xs, op) + Times(ys, op)
  {
    if xs == [] || ys == [] {
      assert Times([], op) == 0;
    } else {
      TimesCons(Merge(xs, ys), op);
      if xs[0].at <= ys[0].at {
        MergeTimes(xs[1..], ys, op);
        TimesCons(xs, op);
        assert Merge(xs, ys)[1..] == Merge(xs[1..], ys);
      } else {
        MergeTimes(xs, ys[1..], op);
        TimesCons(ys, op);
        assert Merge(xs, ys)[1..] == Merge(xs, ys[1..]);
      }
    }
  }

  lemma MergeOps(xs: seq<Placed>, ys: seq<Placed>)
    ensures multiset(Ops(Merge(xs, ys))) == multiset(Ops(xs)) + multiset(Ops(ys))
  {
    forall op ensures Times(Merge(xs, ys), op) == Times(xs, op) + Times(ys, op) {
      MergeTimes(xs, ys, op);
    }
    assert forall op :: multiset(Ops(Merge(xs, ys)))[op] == Times(Merge(xs, ys), op);
  }

  // ----- locality

  /** `ps` is a timeline of the operations on `keys` that every one of these keys accepts. */
  ghost predicate Schedules(ps: seq<Placed>, history: seq<Operation>, keys: set<string>) {
    && Timeline(ps)
    && multiset(Ops(ps)) == multiset(Only(history, keys))
    && forall k | k in keys :: Accepts(Init(), Only(Ops(ps), {k}))
  }

  /** A schedule for one more key can be merged in. */
  lemma MergeKey(history: seq<Operation>, keys: set<string>, j: string, xs: seq<Placed>, ys: seq<Placed>)
    requires j in keys && Schedules(xs, history, keys - {j}) && Schedules(ys, history, {j})
    ensures Schedules(Merge(xs, ys), history, keys)
  {
    var ps := Merge(xs, ys);
    MergeTimeline(xs, ys);
    MergeOps(xs, ys);
    OnlySplit(history, keys, j);
    OnlyKeys(history, {j}, Ops(ys));
    OnlyKeys(history, keys - {j}, Ops(xs));
    forall k | k in keys ensures Accepts(Init(), Only(Ops(ps), {k})) {
      MergeOnly(xs, ys, {k});
      if k == j {
        AvoidsFrom(xs, {k});
      } else {
        AvoidsFrom(ys, {k});
      }
    }
  }

  /** From an order for each key, a timeline of all their operations. */
  lemma {:induction false} Combine(history: seq<Operation>, keys: set<string>) returns (ps: seq<Placed>)
    requires WellTimed(history)
    requires forall k | k in keys :: KeyLinearizable(Only(history, {k}))
    ensures Schedules(ps, history, keys)
    decreases keys
  {
    if keys == {} {
      ps := [];
      OnlyNone(history, keys);
    } else {
      var j := Pick(keys);
      var xs := Combine(history, keys - {j});
      var ys := ScheduleOne(history, j);
      MergeKey(history, keys, j, xs, ys);
      ps := Merge(xs, ys);
    }
  }

  lemma ScheduleOne(history: seq<Operation>, j: string) returns (ps: seq<Placed>)
    requires WellTimed(history) && KeyLinearizable(Only(history, {j}))
    ensures Schedules(ps, history, {j})
  {
    var order :| IsOrder(order, Only(history, {j})) && Accepts(Init(), order);
    OnlyKeys(history, {j}, order);
    ps := FindTimeline(order);
    OnlyAll(order, {j});
  }

  lemma AvoidsFrom(ps: seq<Placed>, keys: set<string>)
    requires forall op | op in Ops(ps) :: op.input.key !in keys
    ensures Avoids(ps, keys)
  {
    forall p | p in ps ensures p.op.input.key !in keys {
      var i :| 0 <= i < |ps| && ps[i] == p;
      assert Ops(ps)[i] == p.op;
    }
  }

  /** A reordering of the operations on some keys is about those keys, and well timed. */
  lemma OnlyKeys(history: seq<Operation>, keys: set<string>, order: seq<Operation>)
    requires multiset(order) == multiset(Only(history, keys))
    ensures forall op | op in order :: op.input.key in keys && op in history
  {
    forall op | op in order ensures op.input.key in keys && op in history {
      assert op in multiset(order);
      OnlyCount(history, keys, op);
    }
  }

  lemma OnlySplit(history: seq<Operation>, keys: set<string>, j: string)
    requires j in keys
    ensures multiset(Only(history, keys)) ==
            multiset(Only(history, keys - {j})) + multiset(Only(history, {j}))
  {
  }

  /** Whole-store linearizability is linearizability of every key. */
  lemma KeyByKey(history: seq<Operation>)
    requires WellTimed(history)
    ensures Linearizable(history) <==>
            forall k | k in KeysOf(history) :: KeyLinearizable(Only(history, {k}))
  {
    var keys := KeysOf(history);
    if Linearizable(history) {
      var order :| IsOrder(order, history) && AcceptsAll(map[], order);
      StepsSplit(map[], order);
      forall k | k in keys ensures KeyLinearizable(Only(history, {k})) {
        SameOnly(order, history, {k});
        OnlyRealTime(order, {k});
        assert Accepts(At(map[], k), Only(order, {k}));
        assert IsOrder(Only(order, {k}), Only(history, {k}));
      }
    }
    if forall k | k in keys :: KeyLinearizable(Only(history, {k})) {
      var ps := Combine(history, keys);
      var order := Ops(ps);
      OnlyAll(history, keys);
      TimelineRealTime(ps);
      forall k ensures Accepts(At(map[], k), Only(order, {k})) {
        if k !in keys {
          OnlyKeys(history, keys, order);
          OnlyNone(order, {k});
        }
      }
      StepsSplit(map[], order);
      assert IsOrder(order, history);
    }
  }

  // ----- Partition

  /** Alphabetical order. */
  predicate Before(a: string, b: string) {
    b != [] && (a == [] || a[0] < b[0] || (a[0] == b[0] && Before(a[1..], b[1..])))
  }

  lemma {:induction false} BeforeTransitive(a: string, b: string, c: string)
    requires Before(a, b) && Before(b, c)
    ensures Before(a, c)
  {
    if a != [] && a[0] == b[0] == c[0] {
      BeforeTransitive(a[1..], b[1..], c[1..]);
    }
  }

  lemma {:induction false} BeforeTotal(a: string, b: string)
    ensures a == b || Before(a, b) || Before(b, a)
  {
    if a != [] && b != [] && a[0] == b[0] {
      BeforeTotal(a[1..], b[1..]);
      assert a == [a[0]] + a[1..] && b == [b[0]] + b[1..];
    }
  }

  /** The strings agree up to i, where the first ends or has the smaller character. */
  predicate DiffersAt(a: string, b: string, i: nat) {
    i <= |a| && i < |b| && a[..i] == b[..i] && (i == |a| || a[i] < b[i])
  }

  lemma {:induction false} BeforeExactly(a: string, b: string)
    ensures Before(a, b) <==> exists i: nat :: DiffersAt(a, b, i)
  {
    if Before(a, b) {
      if a == [] || a[0] < b[0] {
        assert DiffersAt(a, b, 0);
      } else {
        BeforeExactly(a[1..], b[1..]);
        var i: nat :| DiffersAt(a[1..], b[1..], i);
        assert a[..i + 1] == [a[0]] + a[1..][..i] && b[..i + 1] == [b[0]] + b[1..][..i];
        assert DiffersAt(a, b, i + 1);
      }
    }
    if i: nat :| DiffersAt(a, b, i) {
      if i > 0 {
        assert a[..i][0] == b[..i][0];
        assert a[1..][..i - 1] == a[..i][1..] && b[1..][..i - 1] == b[..i][1..];
        assert DiffersAt(a[1..], b[1..], i - 1);
        BeforeExactly(a[1..], b[1..]);
      }
    }
  }

  lemma BeforeOrders()
    ensures Sorting.StrictOrder(Before)
  {
    forall a, b, c | Before(a, b) && Before(b, c) ensures Before(a, c) {
      BeforeTransitive(a, b, c);
    }
    forall a, b ensures a == b || Before(a, b) || Before(b, a) {
      BeforeTotal(a, b);
    }
  }

  ghost predicate Alphabetical(keys: seq<string>) {
    forall i, j | 0 <= i < j < |keys| :: Before(keys[i], keys[j])
  }

  /** The keys of a map, visited in any order and sorted. */
  method SortedKeys(all: set<string>) returns (keys: seq<string>)
    ensures Alphabetical(keys) && forall k :: k in keys <==> k in all
  {
    BeforeOrders();
    keys := Sorting.SortedElements(all, Before);
  }

  /** `parts` are the operations on each key in turn, in the order recorded, keys in order. */
  ghost predicate IsPartition(history: seq<Operation>, keys: seq<string>, parts: seq<seq<Operation>>) {
    && Alphabetical(keys)
    && (forall k :: k in keys <==> k in KeysOf(history))
    && |parts| == |keys|
    && forall i | 0 <= i < |keys| :: parts[i] == Only(history, {keys[i]})
  }

  ghost predicate Grouped(m: map<string, seq<Operation>>, ops: seq<Operation>) {
    m.Keys == KeysOf(ops) && forall k | k in m :: m[k] == Only(ops, {k})
  }

  lemma OnlySnoc(ops: seq<Operation>, v: Operation, k: string)
    ensures Only(ops + [v], {k}) == if k == v.input.key then Only(ops, {k}) + [v] else Only(ops, {k})
  {
    OnlyConcat(ops, [v], {k});
    assert Only([v], {k}) == if k == v.input.key then [v] else [];
  }

  lemma GroupedNext(m: map<string, seq<Operation>>, ops: seq<Operation>, v: Operation)
    requires Grouped(m, ops)
    ensures var key := v.input.key; Grouped(m[key := (if key in m then m[key] else []) + [v]], ops + [v])
  {
    var key := v.input.key;
    var m' := m[key := (if key in m then m[key] else []) + [v]];
    assert KeysOf(ops + [v]) == KeysOf(ops) + {key};
    forall k | k in m' ensures m'[k] == Only(ops + [v], {k}) {
      OnlySnoc(ops, v, k);
      if k !in m {
        OnlyNone(ops, {k});
      }
    }
  }

  /** The loop that collects the operations on each key. */
  method GroupByKey(history: seq<Operation>) returns (m: map<string, seq<Operation>>)
    ensures m.Keys == KeysOf(history)
    ensures forall k | k in m :: m[k] == Only(history, {k})
  {
    m := map[];
    for i := 0 to |history|
      invariant Grouped(m, history[..i])
    {
      var v := history[i];
      var key := v.input.key;
      GroupedNext(m, history[..i], v);
      assert history[..i + 1] == history[..i] + [v];
      m := m[key := (if key in m then m[key] else []) + [v]];
    }
    assert history[..|history|] == history;
  }

  method Partition(history: seq<Operation>) returns (parts: seq<seq<Operation>>)
    ensures exists keys :: IsPartition(history, keys, parts)
  {
    var m := GroupByKey(history);
    var keys := SortedKeys(m.Keys);
    parts := [];
    for i := 0 to |keys|
      invariant |parts| == i
      invariant forall j | 0 <= j < i :: parts[j] == Only(history, {keys[j]})
    {
      parts := parts + [m[keys[i]]];
    }
    assert IsPartition(history, keys, parts);
  }

  ghost predicate KeyFits(history: seq<Operation>) {
    exists order :: IsOrder(order, history) && AllFitting(order)
  }

  lemma KeyMeans(history: seq<Operation>)
    ensures KeyLinearizable(history) <==> KeyFits(history)
  {
    forall order ensures Accepts(Init(), order) <==> AllFitting(order) {
      AcceptsExactly(order);
    }
  }

  /** A history is linearizable exactly if some order in real time makes every answer fit the puts on
      its own key before it. */
  lemma LinearizableMeans(history: seq<Operation>)
    ensures Linearizable(history) <==>
            exists order :: IsOrder(order, history) && forall k :: AllFitting(Only(order, {k}))
  {
    forall order ensures AcceptsAll(map[], order) <==> forall k :: AllFitting(Only(order, {k})) {
      StepsSplit(map[], order);
      forall k ensures Accepts(At(map[], k), Only(order, {k})) <==> AllFitting(Only(order, {k})) {
        AcceptsExactly(Only(order, {k}));
      }
    }
  }

  /** Locality: a history of operations on many keys is linearizable exactly when every sublist that
      Partition returns is linearizable on its own from Init, that is, has an order in real time in
      which every answer fits. */
  lemma Locality(history: seq<Operation>, parts: seq<seq<Operation>>)
    requires WellTimed(history) && exists keys :: IsPartition(history, keys, parts)
    ensures Linearizable(history) <==> forall i | 0 <= i < |parts| :: KeyLinearizable(parts[i])
    ensures Linearizable(history) <==> forall i | 0 <= i < |parts| :: KeyFits(parts[i])
  {
    forall i | 0 <= i < |parts| ensures KeyLinearizable(parts[i]) <==> KeyFits(parts[i]) {
      KeyMeans(parts[i]);
    }
    var keys :| IsPartition(history, keys, parts);
    KeyByKey(history);
    forall k | k in KeysOf(history) ensures exists i :: 0 <= i < |keys| && keys[i] == k {
      assert k in keys;
    }
    forall i | 0 <= i < |keys| ensures keys[i] in KeysOf(history) {
      assert keys[i] in keys;
    }
  }
}
