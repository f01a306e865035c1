/** Which servers of a group can talk to which: the connected flags of the servers and the enabled
    flags of the end-points between them. */
module Connectivity {
  /** `up[i]` is server i's connected flag; (i, j) is in `on` if the end-point from i to j is enabled. */
  datatype Links = Links(up: seq<bool>, on: set<(nat, nat)>)

  // ----- connecting and disconnecting on values

  ghost predicate Servers(n: nat, s: seq<nat>) {
    forall k | 0 <= k < |s| :: s[k] < n
  }

  /** Server i comes up and its end-points to and from the connected servers of `to` are enabled. */
  ghost predicate Connects(c: Links, i: nat, to: seq<nat>, d: Links)
    requires i < |c.up| && Servers(|c.up|, to)
  {
    && d.up == c.up[i := true]
    && forall x: nat, y: nat :: (x, y) in d.on <==>
         (x, y) in c.on || (x == i && y in to && d.up[y]) || (y == i && x in to && d.up[x])
  }

  /** Server i goes down and its end-points to and from the servers of `from` are disabled. */
  ghost predicate Disconnects(c: Links, i: nat, from: seq<nat>, d: Links)
    requires i < |c.up| && Servers(|c.up|, from)
  {
    && d.up == c.up[i := false]
    && forall x: nat, y: nat :: (x, y) in d.on <==> (x, y) in c.on && !(x == i && y in from) && !(y == i && x in from)
  }

  /** The ids of all servers. */
  function All(n: nat): seq<nat> {
    seq(n, k => k)
  }

  // ----- runs of connecting and disconnecting whole servers

  /** Starting a server gives it fresh, disabled end-points. */
  datatype Action = ConnectOne(i: nat) | DisconnectAll(i: nat) | StartServer(i: nat)

  ghost predicate Step(c: Links, a: Action, d: Links) {
    && a.i < |c.up|
    && match a
       case ConnectOne(i) => Connects(c, i, All(|c.up|), d)
       case DisconnectAll(i) => Disconnects(c, i, All(|c.up|), d)
       case StartServer(i) => !c.up[i] && d.up == c.up && forall x: nat, y: nat :: (x, y) in d.on <==> (x, y) in c.on && x != i
  }

  ghost predicate Execution(tr: seq<Links>, acts: seq<Action>) {
    && |tr| == |acts| + 1
    && tr[0].on == {} && (forall i | 0 <= i < |tr[0].up| :: !tr[0].up[i])
    && forall k | 0 <= k < |acts| :: Step(tr[k], acts[k], tr[k + 1])
  }

  /** An end-point is enabled exactly when both its servers are connected. */
  ghost predicate Meshed(c: Links) {
    forall x: nat, y: nat :: (x, y) in c.on <==> x < |c.up| && y < |c.up| && c.up[x] && c.up[y]
  }

  lemma StepKeepsMesh(c: Links, a: Action, d: Links)
    requires Meshed(c) && Step(c, a, d)
    ensures Meshed(d) && |d.up| == |c.up|
  {
    AllMember(|c.up|);
  }

  lemma AllMember(n: nat)
    ensures forall x: nat :: x in All(n) <==> x < n
  {
    forall x: nat | x < n ensures x in All(n) {
      assert All(n)[x] == x;
    }
  }

  lemma {:induction false} RunsAreMeshed(tr: seq<Links>, acts: seq<Action>, k: nat)
    requires Execution(tr, acts) && k < |tr|
    ensures Meshed(tr[k])
  {
    if k > 0 {
      RunsAreMeshed(tr, acts, k - 1);
      StepKeepsMesh(tr[k - 1], acts[k - 1], tr[k]);
    }
  }

  // ----- partitions

  ghost predicate DisjointCover(n: nat, p1: seq<nat>, p2: seq<nat>) {
    && Servers(n, p1) && Servers(n, p2)
    && (forall x | x in p1 :: x !in p2)
    && (forall x: nat | x < n :: x in p1 || x in p2)
  }

  predicate SameBlock(x: nat, y: nat, p1: seq<nat>, p2: seq<nat>) {
    (x in p1 && y in p1) || (x in p2 && y in p2)
  }

  predicate Listed(x: nat, p1: seq<nat>, p2: seq<nat>) {
    x in p1 || x in p2
  }

  /** End-points other than those between listed servers are as they were in `c`, and of the servers
      just those of `done` came up. */
  ghost predicate OnlyListed(c: Links, d: Links, p1: seq<nat>, p2: seq<nat>, done: seq<nat>) {
    && |d.up| == |c.up|
    && (forall i | 0 <= i < |c.up| :: d.up[i] == (c.up[i] || i in done))
    && (forall x: nat, y: nat | !(Listed(x, p1, p2) && Listed(y, p1, p2)) :: (x, y) in d.on <==> (x, y) in c.on)
  }

  /** Those servers of `done` that the other list does not name reach each other. */
  ghost predicate Together(d: Links, done: seq<nat>, other: seq<nat>) {
    forall x, y | x in done && y in done && x !in other && y !in other :: (x, y) in d.on
  }

  /** The servers of `done` do not reach those that only the first list names. */
  ghost predicate Apart(d: Links, p1: seq<nat>, p2: seq<nat>, done: seq<nat>) {
    forall x, y | x in done && y in p1 && y !in p2 :: (x, y) !in d.on && (y, x) !in d.on
  }

  /** A round of the first loop. */
  lemma FirstRound(b: Links, c: Links, d: Links, e: Links, p1: seq<nat>, p2: seq<nat>, done: seq<nat>, i: nat)
    requires Servers(|c.up|, p1) && Servers(|c.up|, p2) && i in p1 && i < |c.up| && (forall x | x in done :: x in p1)
    requires OnlyListed(b, c, p1, p2, done) && Together(c, done, p2)
    requires Disconnects(c, i, p2, d) && Connects(d, i, p1, e)
    ensures OnlyListed(b, e, p1, p2, done + [i]) && Together(e, done + [i], p2)
  {
    forall x, y | x in done + [i] && y in done + [i] && x !in p2 && y !in p2 ensures (x, y) in e.on {
      assert (x in done || x == i) && (y in done || y == i);
    }
  }

  /** A round of the second loop. */
  lemma SecondRound(b: Links, c: Links, d: Links, e: Links, p1: seq<nat>, p2: seq<nat>, done: seq<nat>, i: nat)
    requires Servers(|c.up|, p1) && Servers(|c.up|, p2) && i in p2 && i < |c.up| && (forall x | x in done :: x in p2)
    requires OnlyListed(b, c, p1, p2, p1 + done) && Together(c, p1, p2) && Together(c, done, []) && Apart(c, p1, p2, done)
    requires Disconnects(c, i, p1, d) && Connects(d, i, p2, e)
    ensures OnlyListed(b, e, p1, p2, p1 + (done + [i])) && Together(e, p1, p2)
    ensures Together(e, done + [i], []) && Apart(e, p1, p2, done + [i])
  {
    forall x, y | x in done + [i] && y in done + [i] ensures (x, y) in e.on {
      assert (x in done || x == i) && (y in done || y == i);
    }
    forall x, y | x in done + [i] && y in p1 && y !in p2 ensures (x, y) !in e.on && (y, x) !in e.on {
      assert x in done || x == i;
    }
    assert forall x | 0 <= x < |b.up| :: x in p1 + (done + [i]) <==> x in p1 + done || x == i;
  }

  /** Where the two loops end. */
  lemma BothRounds(b: Links, e: Links, p1: seq<nat>, p2: seq<nat>)
    requires OnlyListed(b, e, p1, p2, p1 + p2) && Together(e, p1, p2) && Together(e, p2, []) && Apart(e, p1, p2, p2)
    ensures forall i | 0 <= i < |e.up| :: e.up[i] <==> b.up[i] || Listed(i, p1, p2)
    ensures forall x: nat, y: nat | Listed(x, p1, p2) && Listed(y, p1, p2) :: (x, y) in e.on <==> (x in p2 <==> y in p2)
  {
  }

  class ServerGrp {
    const connected: array<bool>
    var on: set<(nat, nat)>

    ghost function Value(): Links
      reads this, connected
    {
      Links(connected[..], on)
    }

    constructor (n: nat)
      ensures connected.Length == n && fresh(connected) && Value() == Links(seq(n, i => false), {})
    {
      connected := new bool[n](i => false);
      on := {};
    }

    method Connect(i: nat, to: seq<nat>)
      requires i < connected.Length && Servers(connected.Length, to)
      modifies this, connected
      ensures Connects(old(Value()), i, to, Value())
    {
      connected[i] := true;
      // outgoing end-points
      for j := 0 to |to|
        invariant connected[..] == old(connected[..])[i := true]
        invariant forall x: nat, y: nat :: (x, y) in on <==> (x, y) in old(on) || (x == i && y in to[..j] && connected[y])
      {
        assert to[..j + 1] == to[..j] + [to[j]];
        if connected[to[j]] {
          on := on + {(i, to[j])};
        }
      }
      assert to[..|to|] == to;
      // incoming end-points
      ghost var half := on;
      for j := 0 to |to|
        invariant connected[..] == old(connected[..])[i := true]
        invariant forall x: nat, y: nat :: (x, y) in on <==> (x, y) in half || (y == i && x in to[..j] && connected[x])
      {
        assert to[..j + 1] == to[..j] + [to[j]];
        if connected[to[j]] {
          on := on + {(to[j], i)};
        }
      }
    }

    method Disconnect(i: nat, from: seq<nat>)
      requires i < connected.Length && Servers(connected.Length, from)
      modifies this, connected
      ensures Disconnects(old(Value()), i, from, Value())
    {
      connected[i] := false;
      // outgoing end-points
      for j := 0 to |from|
        invariant connected[..] == old(connected[..])[i := false]
        invariant forall x: nat, y: nat :: (x, y) in on <==> (x, y) in old(on) && !(x == i && y in from[..j])
      {
        assert from[..j + 1] == from[..j] + [from[j]];
        on := on - {(i, from[j])};
      }
      assert from[..|from|] == from;
      // incoming end-points
      ghost var half := on;
      for j := 0 to |from|
        invariant connected[..] == old(connected[..])[i := false]
        invariant forall x: nat, y: nat :: (x, y) in on <==> (x, y) in half && !(y == i && x in from[..j])
      {
        assert from[..j + 1] == from[..j] + [from[j]];
        on := on - {(from[j], i)};
      }
    }

    /** From any state, connects every server with every other. */
    method ConnectAll()
      modifies this, connected
      ensures forall i | 0 <= i < connected.Length :: connected[i]
      ensures forall x: nat, y: nat | x < connected.Length && y < connected.Length :: (x, y) in on
    {
      var n := connected.Length;
      AllMember(n);
      for i := 0 to n
        invariant forall k | 0 <= k < i :: Value().up[k]
        invariant forall x: nat, y: nat | x < i && y < i :: (x, y) in on
      {
        Connect(i, All(n));
      }
      assert forall k | 0 <= k < n :: connected[k] == Value().up[k];
    }

    /** Whatever the state before and whatever the lists: two listed servers can talk afterwards, in
        both directions, exactly if the second list names both or neither; nothing else changes.  For
        a disjoint cover that is: exactly if they are in one block. */
    method Partition(p1: seq<nat>, p2: seq<nat>)
      requires Servers(connected.Length, p1) && Servers(connected.Length, p2)
      modifies this, connected
      ensures forall i | 0 <= i < connected.Length :: connected[i] <==> old(connected[i]) || Listed(i, p1, p2)
      ensures forall x: nat, y: nat | Listed(x, p1, p2) && Listed(y, p1, p2) :: (x, y) in on <==> (x in p2 <==> y in p2)
      ensures forall x: nat, y: nat | !(Listed(x, p1, p2) && Listed(y, p1, p2)) :: (x, y) in on <==> (x, y) in old(on)
      ensures DisjointCover(connected.Length, p1, p2) ==>
                forall x: nat, y: nat | x < connected.Length && y < connected.Length ::
                  (x, y) in on <==> SameBlock(x, y, p1, p2)
    {
      ghost var b := Value();
      FirstLoop(p1, p2);
      SecondLoop(b, p1, p2);
      BothRounds(b, Value(), p1, p2);
      assert forall k | 0 <= k < connected.Length :: connected[k] == Value().up[k];
    }

    method FirstLoop(p1: seq<nat>, p2: seq<nat>)
      requires Servers(connected.Length, p1) && Servers(connected.Length, p2)
      modifies this, connected
      ensures OnlyListed(old(Value()), Value(), p1, p2, p1) && Together(Value(), p1, p2)
    {
      ghost var b := Value();
      for i := 0 to |p1|
        invariant OnlyListed(b, Value(), p1, p2, p1[..i]) && Together(Value(), p1[..i], p2)
      {
        ghost var c := Value();
        Disconnect(p1[i], p2);
        ghost var d := Value();
        Connect(p1[i], p1);
        FirstRound(b, c, d, Value(), p1, p2, p1[..i], p1[i]);
        assert p1[..i + 1] == p1[..i] + [p1[i]];
      }
      assert p1[..|p1|] == p1;
    }

    method SecondLoop(ghost b: Links, p1: seq<nat>, p2: seq<nat>)
      requires Servers(connected.Length, p1) && Servers(connected.Length, p2)
      requires OnlyListed(b, Value(), p1, p2, p1) && Together(Value(), p1, p2)
      modifies this, connected
      ensures OnlyListed(b, Value(), p1, p2, p1 + p2) && Together(Value(), p1, p2)
      ensures Together(Value(), p2, []) && Apart(Value(), p1, p2, p2)
    {
      assert p1 + p2[..0] == p1;
      for i := 0 to |p2|
        invariant OnlyListed(b, Value(), p1, p2, p1 + p2[..i]) && Together(Value(), p1, p2)
        invariant Together(Value(), p2[..i], []) && Apart(Value(), p1, p2, p2[..i])
      {
        ghost var c := Value();
        Disconnect(p2[i], p1);
        ghost var d := Value();
        Connect(p2[i], p2);
        SecondRound(b, c, d, Value(), p1, p2, p2[..i], p2[i]);
        assert p2[..i + 1] == p2[..i] + [p2[i]];
      }
      assert p2[..|p2|] == p2;
    }
  }

  // ----- a partition that leaves the leader in the minority

  /** The k-th server other than `l`. */
  function Other(l: nat, k: nat): nat {
    if k < l then k else k + 1
  }

  /** Two blocks of sizes n/2 + 1 and n/2 with `l` last in the second. */
  method MakePartition(n: nat, l: nat) returns (p1: seq<nat>, p2: seq<nat>)
    requires l < n && n >= 2
    ensures |p1| == n / 2 + 1 && |p2| == n / 2
    ensures DisjointCover(n, p1, p2) <==> n % 2 == 1 || (n >= 4 && l == 0) || (n == 2 && l == 1)
    ensures n % 2 == 1 ==> 2 * |p1| > n && l in p2 && forall i, j | 0 <= i < j < |p1| :: p1[i] != p1[j]
  {
    p1, p2 := seq(n / 2 + 1, _ => 0), seq(n / 2, _ => 0);
    var j := 0;
    for i := 0 to n
      invariant j == if i <= l then i else i - 1
      invariant |p1| == n / 2 + 1 && |p2| == n / 2
      invariant forall k | 0 <= k < |p1| :: p1[k] == if k < j then Other(l, k) else 0
      invariant forall k | 0 <= k < |p2| :: p2[k] == if k + |p1| < j then Other(l, k + |p1|) else 0
    {
      if i != l {
        if j < |p1| {
          p1 := p1[j := i];
        } else {
          p2 := p2[j - |p1| := i];
        }
        j := j + 1;
      }
    }
    p2 := p2[|p2| - 1 := l];
    BlocksCover(n, l, p1, p2);
  }

  /** The blocks MakePartition fills in are a partition exactly for these sizes and leaders. */
  lemma BlocksCover(n: nat, l: nat, p1: seq<nat>, p2: seq<nat>)
    requires l < n && n >= 2 && |p1| == n / 2 + 1 && |p2| == n / 2
    requires forall k | 0 <= k < |p1| :: p1[k] == if k < n - 1 then Other(l, k) else 0
    requires forall k | 0 <= k < |p2| - 1 :: p2[k] == if k + |p1| < n - 1 then Other(l, k + |p1|) else 0
    requires p2[|p2| - 1] == l
    ensures DisjointCover(n, p1, p2) <==> n % 2 == 1 || (n >= 4 && l == 0) || (n == 2 && l == 1)
  {
    assert l in p2;
    if n == 2 {
      assert p1 == [Other(l, 0), 0] && p2 == [l];
    } else if n % 2 == 1 || l == 0 {
      forall x: nat | x < n && x != l ensures x in p1 || x in p2 {
        var k := if x < l then x else x - 1;
        if k < |p1| {
          assert p1[k] == x;
        } else {
          assert p2[k - |p1|] == x;
        }
      }
    } else {
      assert p1[0] == 0 == p2[|p2| - 2];
      assert 0 in p1 && 0 in p2;
    }
  }
}
