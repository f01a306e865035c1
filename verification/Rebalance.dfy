/** What Rebalance computes from a shard array and a set of group ids, and what is special about
    the result: it is balanced, it moves as few shards as any balanced assignment, and it moves no
    shard twice. */
module Rebalancing {
  import opened Choice
  import opened ShardMoves

  ghost predicate Assigned(s: seq<Gid>, G: set<Gid>) {
    forall i | 0 <= i < |s| :: s[i] in G
  }

  /** No group holds two shards more than another. */
  ghost predicate Balanced(s: seq<Gid>, G: set<Gid>) {
    forall g, h | g in G && h in G :: Load(s, g) <= Load(s, h) + 1
  }

  /** `g` has the fewest shards; among equals it is the lowest id. */
  ghost predicate IsLeast(s: seq<Gid>, G: set<Gid>, g: Gid) {
    && g in G
    && forall h | h in G :: Load(s, g) < Load(s, h) || (Load(s, g) == Load(s, h) && g <= h)
  }

  /** `g` has the most shards; among equals it is the lowest id. */
  ghost predicate IsMost(s: seq<Gid>, G: set<Gid>, g: Gid) {
    && g in G
    && forall h | h in G :: Load(s, h) < Load(s, g) || (Load(s, h) == Load(s, g) && g <= h)
  }

  ghost function Least(s: seq<Gid>, G: set<Gid>): (g: Gid)
    requires G != {}
    ensures IsLeast(s, G, g)
    decreases G
  {
    var x := Pick(G);
    if G == {x} then x
    else
      var y := Least(s, G - {x});
      if Load(s, x) < Load(s, y) || (Load(s, x) == Load(s, y) && x <= y) then x else y
  }

  ghost function Most(s: seq<Gid>, G: set<Gid>): (g: Gid)
    requires G != {}
    ensures IsMost(s, G, g)
    decreases G
  {
    var x := Pick(G);
    if G == {x} then x
    else
      var y := Most(s, G - {x});
      if Load(s, y) < Load(s, x) || (Load(s, y) == Load(s, x) && x <= y) then x else y
  }

  /** The tie-breaking makes both choices unique, whatever order the groups are visited in. */
  lemma ChoicesUnique(s: seq<Gid>, G: set<Gid>, g: Gid)
    ensures IsLeast(s, G, g) ==> g == Least(s, G)
    ensures IsMost(s, G, g) ==> g == Most(s, G)
  {
  }

  /** The index of the first shard held by `g`. */
  function First(s: seq<Gid>, g: Gid): (p: nat)
    requires g in s
    ensures p < |s| && s[p] == g && g !in s[..p]
  {
    if s[0] == g then 0 else 1 + First(s[1..], g)
  }

  /** One write to the shard array. */
  datatype Write = Write(shard: nat, to: Gid)

  ghost predicate InBounds(s: seq<Gid>, ws: seq<Write>) {
    forall w | w in ws :: w.shard < |s|
  }

  ghost function Replay(s: seq<Gid>, ws: seq<Write>): (r: seq<Gid>)
    requires InBounds(s, ws)
    ensures |r| == |s|
    decreases |ws|
  {
    if ws == [] then s
    else Replay(s[ws[0].shard := ws[0].to], ws[1..])
  }

  // ----- the two loops

  /** Giving every shard from index `i` on that has no group to the least loaded group. */
  ghost function AssignFrom(s: seq<Gid>, G: set<Gid>, i: nat): (r: seq<Gid>)
    requires G != {} && i <= |s|
    ensures |r| == |s|
    decreases |s| - i
  {
    if i == |s| then s
    else if s[i] in G then AssignFrom(s, G, i + 1)
    else AssignFrom(s[i := Least(s, G)], G, i + 1)
  }

  ghost predicate Even(s: seq<Gid>, G: set<Gid>)
    requires G != {}
  {
    Load(s, Most(s, G)) < Load(s, Least(s, G)) + 2
  }

  /** One pass of the move loop: a shard goes from the most to the least loaded group. */
  ghost function MoveOne(s: seq<Gid>, G: set<Gid>): (r: seq<Gid>)
    requires G != {} && !Even(s, G)
    ensures |r| == |s|
  {
    s[First(s, Most(s, G)) := Least(s, G)]
  }

  /** Each pass lowers the sum of the squared loads by at least two. */
  lemma MoveLowersSquares(s: seq<Gid>, G: set<Gid>)
    requires G != {} && !Even(s, G)
    ensures SquareSum(multiset(MoveOne(s, G)), G) + 2 <= SquareSum(multiset(s), G)
  {
    var x, y := Most(s, G), Least(s, G);
    SquareSumMove(multiset(s), multiset(MoveOne(s, G)), G, x, y);
  }

  /** Moving shards until the loads are even. */
  ghost function Spread(s: seq<Gid>, G: set<Gid>): (r: seq<Gid>)
    requires G != {}
    ensures |r| == |s|
    decreases SquareSum(multiset(s), G)
  {
    if Even(s, G) then s
    else
      MoveLowersSquares(s, G);
      Spread(MoveOne(s, G), G)
  }

  ghost function Rebalanced(s: seq<Gid>, G: set<Gid>): (r: seq<Gid>)
    ensures |r| == |s|
  {
    if G == {} then seq(|s|, i => 0)
    else Spread(AssignFrom(s, G, 0), G)
  }

  // ----- the writes the loops make, in order

  ghost function AssignWrites(s: seq<Gid>, G: set<Gid>, i: nat): (ws: seq<Write>)
    requires G != {} && i <= |s|
    ensures InBounds(s, ws)
    decreases |s| - i
  {
    if i == |s| then []
    else if s[i] in G then AssignWrites(s, G, i + 1)
    else [Write(i, Least(s, G))] + AssignWrites(s[i := Least(s, G)], G, i + 1)
  }

  ghost function SpreadWrites(s: seq<Gid>, G: set<Gid>): (ws: seq<Write>)
    requires G != {}
    ensures InBounds(s, ws)
    decreases SquareSum(multiset(s), G)
  {
    if Even(s, G) then []
    else
      MoveLowersSquares(s, G);
      [Write(First(s, Most(s, G)), Least(s, G))] + SpreadWrites(MoveOne(s, G), G)
  }

  ghost function Writes(s: seq<Gid>, G: set<Gid>): seq<Write>
    requires G != {}
  {
    AssignWrites(s, G, 0) + SpreadWrites(AssignFrom(s, G, 0), G)
  }

  // ----- the invariant of both loops

  /** The invariant of both loops: how the array `s` they have reached may differ from the array `a`
      they started from.  No group both gained and lost a shard; gainers are among the least loaded
      and losers among the most loaded, up to one shard; and no gainer is above a loser. */
  ghost predicate Frugal(a: seq<Gid>, s: seq<Gid>, G: set<Gid>)
    requires |a| == |s|
  {
    Fair(Gainers(a, s), Gainers(s, a), multiset(s), G)
  }

  ghost predicate Fair(gain: set<Gid>, loss: set<Gid>, load: multiset<Gid>, G: set<Gid>) {
    && gain <= G
    && gain !! loss
    && (forall x, h | x in gain && h in G :: load[x] <= load[h] + 1)
    && (forall y, h | y in loss * G && h in G :: load[h] <= load[y] + 1)
    && (forall x, y | x in gain && y in loss * G :: load[x] <= load[y])
  }

  lemma FrugalStart(a: seq<Gid>, G: set<Gid>)
    ensures Frugal(a, a, G)
    ensures Gainers(a, a) == {}
  {
  }

  ghost predicate LeastIn(load: multiset<Gid>, G: set<Gid>, l: Gid) {
    l in G && forall h | h in G :: load[l] <= load[h]
  }

  ghost predicate MostIn(load: multiset<Gid>, G: set<Gid>, m: Gid) {
    m in G && forall h | h in G :: load[h] <= load[m]
  }

  lemma FairAssign(gain: set<Gid>, loss: set<Gid>, load: multiset<Gid>, G: set<Gid>, l: Gid, o: Gid)
    requires Fair(gain, loss, load, G) && LeastIn(load, G, l) && o !in G && loss !! G
    ensures Fair(gain + {l}, loss + {o}, load - multiset{o} + multiset{l}, G)
  {
  }

  lemma FairMove(gain: set<Gid>, loss: set<Gid>, load: multiset<Gid>, G: set<Gid>, l: Gid, m: Gid)
    requires Fair(gain, loss, load, G) && LeastIn(load, G, l) && MostIn(load, G, m)
    requires load[m] >= load[l] + 2
    ensures Fair(gain + {l}, loss + {m}, load - multiset{m} + multiset{l}, G)
  {
    var load' := load - multiset{m} + multiset{l};
    assert forall h | h in G :: load[l] <= load'[h] <= load[m];
    assert forall x | x in gain + {l} :: load'[x] <= load[l] + 1;
    assert forall y | y in (loss + {m}) * G :: load[m] <= load'[y] + 1;
  }

  /** The state of the first loop before it visits shard `i`. */
  ghost predicate Assigning(a: seq<Gid>, s: seq<Gid>, G: set<Gid>, i: nat)
    requires |a| == |s|
  {
    && Frugal(a, s, G)
    && Gainers(s, a) !! G
    && (forall k | 0 <= k < |s| && k < i :: s[k] in G)
    && (forall k | i <= k < |s| :: s[k] == a[k])
  }

  /** Giving an unassigned shard to the least loaded group keeps the invariant. */
  lemma AssignStep(a: seq<Gid>, s: seq<Gid>, G: set<Gid>, i: nat, x: Gid)
    requires |a| == |s| && i < |s| && Assigning(a, s, G, i) && s[i] !in G && IsLeast(s, G, x)
    ensures Assigning(a, s[i := x], G, i + 1)
  {
    GainersMove(a, s, i, x);
    FairAssign(Gainers(a, s), Gainers(s, a), multiset(s), G, x, s[i]);
    assert multiset(s[i := x]) == multiset(s) - multiset{s[i]} + multiset{x};
  }

  /** A pass of the move loop keeps the invariant, and the shard it moves has not moved before. */
  lemma FrugalMove(a: seq<Gid>, s: seq<Gid>, G: set<Gid>)
    requires |a| == |s| && G != {} && !Even(s, G)
    requires Frugal(a, s, G)
    ensures var p := First(s, Most(s, G)); s[p] == a[p] && a[p] != Least(s, G)
    ensures Frugal(a, MoveOne(s, G), G)
  {
    var m, l := Most(s, G), Least(s, G);
    var p := First(s, m);
    assert m !in Gainers(a, s) && m != l;
    assert s[p] == a[p];
    GainersMove(a, s, p, l);
    FairMove(Gainers(a, s), Gainers(s, a), multiset(s), G, l, m);
    assert multiset(s[p := l]) == multiset(s) - multiset{m} + multiset{l};
  }

  // ----- the loops end in a balanced, frugal array

  lemma {:induction false} AssignFromFrugal(a: seq<Gid>, s: seq<Gid>, G: set<Gid>, i: nat)
    requires |a| == |s| && i <= |s| && G != {} && Assigning(a, s, G, i)
    ensures Assigning(a, AssignFrom(s, G, i), G, |s|)
    decreases |s| - i
  {
    if i < |s| {
      if s[i] in G {
        AssignFromFrugal(a, s, G, i + 1);
      } else {
        AssignStep(a, s, G, i, Least(s, G));
        AssignFromFrugal(a, s[i := Least(s, G)], G, i + 1);
      }
    }
  }

  lemma {:induction false} SpreadFrugal(a: seq<Gid>, s: seq<Gid>, G: set<Gid>)
    requires |a| == |s| && G != {}
    requires Frugal(a, s, G) && Assigned(s, G)
    ensures var r := Spread(s, G); Assigned(r, G) && Balanced(r, G) && Frugal(a, r, G)
    decreases SquareSum(multiset(s), G)
  {
    if !Even(s, G) {
      MoveLowersSquares(s, G);
      FrugalMove(a, s, G);
      SpreadFrugal(a, MoveOne(s, G), G);
    }
  }

  /** Rebalance ends with every shard in an existing group and loads at most one apart. */
  lemma RebalancedIsBalanced(a: seq<Gid>, G: set<Gid>)
    requires G != {}
    ensures var r := Rebalanced(a, G); Assigned(r, G) && Balanced(r, G) && Frugal(a, r, G)
  {
    FrugalStart(a, G);
    AssignFromFrugal(a, a, G, 0);
    SpreadFrugal(a, AssignFrom(a, G, 0), G);
  }

  /** A balanced array is left alone. */
  lemma RebalancedFixpoint(a: seq<Gid>, G: set<Gid>)
    requires G != {} && Assigned(a, G) && Balanced(a, G)
    ensures Rebalanced(a, G) == a
  {
    AssignNothing(a, G, 0);
  }

  lemma {:induction false} AssignNothing(a: seq<Gid>, G: set<Gid>, i: nat)
    requires G != {} && i <= |a| && forall k | i <= k < |a| :: a[k] in G
    ensures AssignFrom(a, G, i) == a
    decreases |a| - i
  {
    if i < |a| {
      AssignNothing(a, G, i + 1);
    }
  }

  // ----- no shard is written twice

  ghost predicate Distinct(ws: seq<Write>) {
    forall i, j | 0 <= i < j < |ws| :: ws[i].shard != ws[j].shard
  }

  /** Every write of `ws`, made in order starting from `s`, moves a shard that is still where it was
      in `a`, and moves it elsewhere. */
  ghost predicate Fresh(a: seq<Gid>, s: seq<Gid>, ws: seq<Write>)
    requires |a| == |s| && InBounds(s, ws)
    decreases |ws|
  {
    ws == [] ||
    (var w := ws[0];
     s[w.shard] == a[w.shard] != w.to && Fresh(a, s[w.shard := w.to], ws[1..]))
  }

  lemma {:induction false} FreshDistinct(a: seq<Gid>, s: seq<Gid>, ws: seq<Write>)
    requires |a| == |s| && InBounds(s, ws) && Fresh(a, s, ws)
    ensures Distinct(ws)
    ensures forall w | w in ws :: s[w.shard] == a[w.shard]
    ensures |Changed(a, Replay(s, ws))| == |Changed(a, s)| + |ws|
    decreases |ws|
  {
    if ws != [] {
      var w := ws[0];
      var t := s[w.shard := w.to];
      FreshDistinct(a, t, ws[1..]);
      assert Changed(a, t) == Changed(a, s) + {w.shard};
      forall v | v in ws[1..] ensures v.shard != w.shard && s[v.shard] == a[v.shard] {
        assert t[v.shard] == a[v.shard];
      }
      forall i, j | 0 <= i < j < |ws| ensures ws[i].shard != ws[j].shard {
        if i == 0 {
          assert ws[j] in ws[1..];
        } else {
          assert ws[1..][i - 1].shard != ws[1..][j - 1].shard;
        }
      }
    }
  }

  lemma {:induction false} ReplayConcat(s: seq<Gid>, ws: seq<Write>, vs: seq<Write>)
    requires InBounds(s, ws) && InBounds(s, vs)
    ensures InBounds(s, ws + vs) && Replay(s, ws + vs) == Replay(Replay(s, ws), vs)
    decreases |ws|
  {
    if ws == [] {
      assert ws + vs == vs;
    } else {
      assert (ws + vs)[1..] == ws[1..] + vs;
      ReplayConcat(s[ws[0].shard := ws[0].to], ws[1..], vs);
    }
  }

  lemma {:induction false} FreshConcat(a: seq<Gid>, s: seq<Gid>, ws: seq<Write>, vs: seq<Write>)
    requires |a| == |s| && InBounds(s, ws) && InBounds(s, vs)
    requires Fresh(a, s, ws) && Fresh(a, Replay(s, ws), vs)
    ensures Fresh(a, s, ws + vs)
    decreases |ws|
  {
    if ws == [] {
      assert ws + vs == vs;
    } else {
      assert (ws + vs)[1..] == ws[1..] + vs;
      FreshConcat(a, s[ws[0].shard := ws[0].to], ws[1..], vs);
    }
  }

  lemma {:induction false} AssignWritesFresh(a: seq<Gid>, s: seq<Gid>, G: set<Gid>, i: nat)
    requires |a| == |s| && i <= |s| && G != {}
    requires forall k | i <= k < |s| :: s[k] == a[k]
    ensures Fresh(a, s, AssignWrites(s, G, i))
    ensures Replay(s, AssignWrites(s, G, i)) == AssignFrom(s, G, i)
    decreases |s| - i
  {
    if i < |s| {
      if s[i] in G {
        AssignWritesFresh(a, s, G, i + 1);
      } else {
        var t := s[i := Least(s, G)];
        AssignWritesFresh(a, t, G, i + 1);
        assert AssignWrites(s, G, i)[1..] == AssignWrites(t, G, i + 1);
      }
    }
  }

  lemma {:induction false} SpreadWritesFresh(a: seq<Gid>, s: seq<Gid>, G: set<Gid>)
    requires |a| == |s| && G != {} && Frugal(a, s, G)
    ensures Fresh(a, s, SpreadWrites(s, G))
    ensures Replay(s, SpreadWrites(s, G)) == Spread(s, G)
    decreases SquareSum(multiset(s), G)
  {
    if !Even(s, G) {
      MoveLowersSquares(s, G);
      FrugalMove(a, s, G);
      SpreadWritesFresh(a, MoveOne(s, G), G);
      assert SpreadWrites(s, G)[1..] == SpreadWrites(MoveOne(s, G), G);
    }
  }

  /** Across both loops no shard is written twice: the writes replay to the result, each at its own
      shard, one for every shard that changed; and a group that receives a shard in either loop
      never gives one. */
  lemma NoShardWrittenTwice(a: seq<Gid>, G: set<Gid>)
    requires G != {}
    ensures var ws := Writes(a, G);
            && InBounds(a, ws)
            && Replay(a, ws) == Rebalanced(a, G)
            && Distinct(ws)
            && |ws| == |Changed(a, Rebalanced(a, G))|
            && (forall v, w | v in ws && w in ws :: v.to != a[w.shard])
  {
    WritesFresh(a, G);
    FreshDistinct(a, a, Writes(a, G));
    assert Changed(a, a) == {};
    RebalancedIsBalanced(a, G);
    OneWay(a, Writes(a, G), G);
  }

  lemma WritesFresh(a: seq<Gid>, G: set<Gid>)
    requires G != {}
    ensures var ws := Writes(a, G);
            InBounds(a, ws) && Fresh(a, a, ws) && Replay(a, ws) == Rebalanced(a, G)
  {
    var ws, vs := AssignWrites(a, G, 0), SpreadWrites(AssignFrom(a, G, 0), G);
    FrugalStart(a, G);
    AssignFromFrugal(a, a, G, 0);
    AssignWritesFresh(a, a, G, 0);
    SpreadWritesFresh(a, AssignFrom(a, G, 0), G);
    ReplayConcat(a, ws, vs);
    FreshConcat(a, a, ws, vs);
  }

  lemma OneWay(a: seq<Gid>, ws: seq<Write>, G: set<Gid>)
    requires InBounds(a, ws) && Fresh(a, a, ws) && Frugal(a, Replay(a, ws), G)
    ensures forall v, w | v in ws && w in ws :: v.to != a[w.shard]
  {
    var r := Replay(a, ws);
    forall v, w | v in ws && w in ws ensures v.to != a[w.shard] {
      WriteShows(a, a, ws, v);
      WriteShows(a, a, ws, w);
      assert r[v.shard] in Gainers(a, r) && a[w.shard] in Gainers(r, a);
    }
  }

  /** A fresh write is still visible at the end. */
  lemma {:induction false} WriteShows(a: seq<Gid>, s: seq<Gid>, ws: seq<Write>, w: Write)
    requires |a| == |s| && InBounds(s, ws) && Fresh(a, s, ws) && w in ws
    ensures Replay(s, ws)[w.shard] == w.to != a[w.shard]
    decreases |ws|
  {
    var t := s[ws[0].shard := ws[0].to];
    FreshDistinct(a, s, ws);
    if w in ws[1..] {
      WriteShows(a, t, ws[1..], w);
    } else {
      Untouched(t, ws[1..], w.shard);
    }
  }

  lemma {:induction false} Untouched(s: seq<Gid>, ws: seq<Write>, p: nat)
    requires InBounds(s, ws) && p < |s| && forall w | w in ws :: w.shard != p
    ensures Replay(s, ws)[p] == s[p]
    decreases |ws|
  {
    if ws != [] {
      Untouched(s[ws[0].shard := ws[0].to], ws[1..], p);
    }
  }

  // ----- which shards move, and where orphans go

  /** Whatever shards a group of `G` has lost, they are its lowest-numbered ones. */
  ghost predicate LowestFirst(a: seq<Gid>, s: seq<Gid>, G: set<Gid>)
    requires |a| == |s|
  {
    forall i, j | 0 <= i < j < |a| && a[i] == a[j] && a[i] in G && s[j] != a[j] :: s[i] != a[i]
  }

  lemma {:induction false} SpreadLowestFirst(a: seq<Gid>, s: seq<Gid>, G: set<Gid>)
    requires |a| == |s| && G != {} && Frugal(a, s, G) && LowestFirst(a, s, G)
    ensures LowestFirst(a, Spread(s, G), G)
    decreases SquareSum(multiset(s), G)
  {
    if !Even(s, G) {
      MoveLowersSquares(s, G);
      FrugalMove(a, s, G);
      MoveLowestFirst(a, s, G);
      SpreadLowestFirst(a, MoveOne(s, G), G);
    }
  }

  lemma MoveLowestFirst(a: seq<Gid>, s: seq<Gid>, G: set<Gid>)
    requires |a| == |s| && G != {} && !Even(s, G) && Frugal(a, s, G) && LowestFirst(a, s, G)
    ensures LowestFirst(a, MoveOne(s, G), G)
  {
    FrugalMove(a, s, G);
    var m := Most(s, G);
    var p := First(s, m);
    forall i, j | 0 <= i < j < |a| && a[i] == a[j] && a[i] in G && MoveOne(s, G)[j] != a[j] ensures MoveOne(s, G)[i] != a[i] {
      if j == p {
        assert s[i] in s[..p];
      }
    }
  }

  /** A shard with a group keeps it; an orphan goes to the group that is least loaded once the orphans
      before it have been placed. */
  ghost predicate DealtAt(a: seq<Gid>, r: seq<Gid>, G: set<Gid>, i: nat)
    requires i < |a| == |r|
  {
    if a[i] in G then r[i] == a[i] else IsLeast(r[..i] + a[i..], G, r[i])
  }

  ghost predicate DealtInOrder(a: seq<Gid>, r: seq<Gid>, G: set<Gid>, from: nat)
    requires |a| == |r|
  {
    forall i: nat | from <= i < |a| :: DealtAt(a, r, G, i)
  }

  lemma {:induction false} AssignInOrder(a: seq<Gid>, s: seq<Gid>, G: set<Gid>, i: nat)
    requires |a| == |s| && G != {} && i <= |s| && forall k | i <= k < |s| :: s[k] == a[k]
    ensures forall k | 0 <= k < i :: AssignFrom(s, G, i)[k] == s[k]
    ensures DealtInOrder(a, AssignFrom(s, G, i), G, i)
    decreases |s| - i
  {
    if i < |s| {
      var t := if s[i] in G then s else s[i := Least(s, G)];
      AssignInOrder(a, t, G, i + 1);
      DealtHere(a, s, G, i, AssignFrom(s, G, i));
    }
  }

  lemma DealtHere(a: seq<Gid>, s: seq<Gid>, G: set<Gid>, i: nat, r: seq<Gid>)
    requires i < |a| == |s| == |r| && G != {}
    requires forall k | 0 <= k < i :: r[k] == s[k]
    requires forall k | i <= k < |a| :: s[k] == a[k]
    requires r[i] == if s[i] in G then s[i] else Least(s, G)
    ensures DealtAt(a, r, G, i)
  {
    assert r[..i] + a[i..] == s;
  }

  /** An orphan stays where the first loop put it. */
  lemma {:induction false} SpreadLeavesOrphans(a: seq<Gid>, s: seq<Gid>, G: set<Gid>, i: nat)
    requires |a| == |s| && G != {} && Frugal(a, s, G) && i < |a| && a[i] !in G && s[i] != a[i]
    ensures Spread(s, G)[i] == s[i]
    decreases SquareSum(multiset(s), G)
  {
    if !Even(s, G) {
      MoveLowersSquares(s, G);
      FrugalMove(a, s, G);
      SpreadLeavesOrphans(a, MoveOne(s, G), G, i);
    }
  }

  /** The array with its orphans placed and nothing else moved. */
  ghost function Placed(a: seq<Gid>, r: seq<Gid>, G: set<Gid>): (p: seq<Gid>)
    requires |a| == |r|
    ensures |p| == |a|
  {
    seq(|a|, i requires 0 <= i < |a| => if a[i] in G then a[i] else r[i])
  }

  /** Rebalance takes from a group its lowest-numbered shards first, and deals orphans out in the
      order of their numbers, each to the group that is then least loaded. */
  lemma RebalanceOrder(a: seq<Gid>, G: set<Gid>)
    requires G != {}
    ensures var r := Rebalanced(a, G);
            && LowestFirst(a, r, G)
            && DealtInOrder(a, Placed(a, r, G), G, 0)
  {
    var s, r := AssignFrom(a, G, 0), Rebalanced(a, G);
    FrugalStart(a, G);
    AssignFromFrugal(a, a, G, 0);
    AssignInOrder(a, a, G, 0);
    SpreadLowestFirst(a, s, G);
    forall i | 0 <= i < |a| ensures Placed(a, r, G)[i] == s[i] {
      if a[i] !in G {
        assert s[i] in G;
        SpreadLeavesOrphans(a, s, G, i);
      }
    }
    assert Placed(a, r, G) == s;
  }

  // ----- the simple form: one greedy step at a time

  ghost predicate LowestIn(s: seq<Gid>, i: nat, wanted: Gid -> bool) {
    i < |s| && wanted(s[i]) && forall k | 0 <= k < i :: !wanted(s[k])
  }

  /** The lowest-numbered shard without a group goes to the least loaded group.  If all have one, and
      the most loaded group has two more than the least, its lowest-numbered shard does. */
  ghost predicate GreedyStep(s: seq<Gid>, G: set<Gid>, i: nat, m: Gid, x: Gid) {
    && IsLeast(s, G, x)
    && if Assigned(s, G) then IsMost(s, G, m) && Load(s, m) >= Load(s, x) + 2 && LowestIn(s, i, g => g == m)
       else LowestIn(s, i, g => g !in G)
  }

  lemma {:induction false} AssignSkip(s: seq<Gid>, G: set<Gid>, i: nat)
    requires G != {} && i <= |s| && forall k | 0 <= k < i :: s[k] in G
    ensures AssignFrom(s, G, 0) == AssignFrom(s, G, i)
  {
    if i > 0 {
      AssignSkip(s, G, i - 1);
    }
  }

  lemma AssignUnfold(s: seq<Gid>, G: set<Gid>, i: nat, x: Gid)
    requires G != {} && i < |s| && s[i] !in G && IsLeast(s, G, x)
    ensures AssignFrom(s, G, i) == AssignFrom(s[i := x], G, i + 1)
  {
    ChoicesUnique(s, G, x);
  }

  lemma FirstIs(s: seq<Gid>, g: Gid, i: nat)
    requires i < |s| && s[i] == g && g !in s[..i]
    ensures g in s && First(s, g) == i
  {
  }

  lemma GreedyKeeps(s: seq<Gid>, G: set<Gid>, i: nat, m: Gid, x: Gid)
    requires GreedyStep(s, G, i, m, x)
    ensures i < |s| && Rebalanced(s[i := x], G) == Rebalanced(s, G)
  {
    var t := s[i := x];
    ChoicesUnique(s, G, x);
    if Assigned(s, G) {
      ChoicesUnique(s, G, m);
      AssignNothing(s, G, 0);
      AssignNothing(t, G, 0);
      FirstIs(s, m, i);
    } else {
      AssignSkip(s, G, i);
      AssignUnfold(s, G, i, x);
      AssignSkip(t, G, i + 1);
    }
  }

  ghost predicate Greedy(s: seq<Gid>, G: set<Gid>, t: seq<Gid>) {
    exists i: nat, m, x :: GreedyStep(s, G, i, m, x) && i < |s| && t == s[i := x]
  }

  /** A run of greedy steps that goes on until every shard has a group and the loads are even. */
  ghost predicate GreedyRun(tr: seq<seq<Gid>>, G: set<Gid>) {
    && tr != [] && Assigned(tr[|tr| - 1], G) && Balanced(tr[|tr| - 1], G)
    && forall j | 0 <= j < |tr| - 1 :: Greedy(tr[j], G, tr[j + 1])
  }

  /** Repeating the greedy step ends just where Rebalance does. */
  lemma {:induction false} GreedyIsRebalance(tr: seq<seq<Gid>>, G: set<Gid>, k: nat)
    requires k < |tr| && G != {} && GreedyRun(tr, G)
    ensures Rebalanced(tr[k], G) == tr[|tr| - 1]
    decreases |tr| - k
  {
    if k == |tr| - 1 {
      RebalancedFixpoint(tr[k], G);
    } else {
      assert Greedy(tr[k], G, tr[k + 1]);
      var i: nat, m, x :| GreedyStep(tr[k], G, i, m, x) && i < |tr[k]| && tr[k + 1] == tr[k][i := x];
      GreedyKeeps(tr[k], G, i, m, x);
      GreedyIsRebalance(tr, G, k + 1);
    }
  }

  /** The first of all shards from k on that has no group. */
  lemma {:induction false} FirstOrphan(s: seq<Gid>, G: set<Gid>, k: nat) returns (i: nat)
    requires k <= |s| && !Assigned(s, G) && forall j | 0 <= j < k :: s[j] in G
    ensures LowestIn(s, i, g => g !in G)
    decreases |s| - k
  {
    if s[k] in G {
      i := FirstOrphan(s, G, k + 1);
    } else {
      i := k;
    }
  }

  /** Such a run exists from every array. */
  lemma {:induction false} GreedyExists(s: seq<Gid>, G: set<Gid>) returns (tr: seq<seq<Gid>>)
    requires G != {}
    ensures GreedyRun(tr, G) && tr[0] == s
    decreases |s| - |HeldIn(s, G)|, SquareSum(multiset(s), G)
  {
    if Assigned(s, G) && Balanced(s, G) {
      tr := [s];
    } else {
      var m, x := Most(s, G), Least(s, G);
      var i: nat;
      if Assigned(s, G) {
        i := First(s, m);
        assert forall k | 0 <= k < i :: s[k] in s[..i];
        assert GreedyStep(s, G, i, m, x);
        MoveLowersSquares(s, G);
        HeldByAll(s, G);
        HeldByAll(s[i := x], G);
      } else {
        i := FirstOrphan(s, G, 0);
        assert GreedyStep(s, G, i, m, x);
        FewerOrphans(s, G, i, x);
      }
      var t := s[i := x];
      assert Greedy(s, G, t);
      var rest := GreedyExists(t, G);
      tr := [s] + rest;
      assert forall j | 0 < j < |tr| - 1 :: tr[j] == rest[j - 1] && tr[j + 1] == rest[j];
    }
  }

  lemma FewerOrphans(s: seq<Gid>, G: set<Gid>, i: nat, x: Gid)
    requires i < |s| && s[i] !in G && x in G
    ensures |HeldIn(s, G)| < |HeldIn(s[i := x], G)| <= |s|
  {
    var t := s[i := x];
    assert HeldIn(t, G) == HeldIn(s, G) + {i};
    HeldAtMost(t, G);
  }

  // ----- minimal movement

  /** Two balanced assignments of one length over the same groups have loads in the same two-value
      range. */
  lemma SameRange(r: seq<Gid>, b: seq<Gid>, G: set<Gid>, x: Gid, h: Gid)
    requires |r| == |b|
    requires Assigned(r, G) && Balanced(r, G) && Assigned(b, G) && Balanced(b, G)
    requires IsLeast(r, G, x) && h in G
    ensures Load(r, x) <= Load(b, h) <= Load(r, x) + 1
  {
    if Load(b, h) < Load(r, x) {
      SmallerSize(multiset(b), multiset(r), h);
    } else if Load(b, h) > Load(r, x) + 1 {
      SmallerSize(multiset(r), multiset(b), h);
    }
  }

  lemma SmallerSize(m: multiset<Gid>, n: multiset<Gid>, h: Gid)
    requires m[h] < n[h] && forall g | g in m :: m[g] <= n[g]
    ensures |m| < |n|
  {
    assert forall g :: m[g] <= n[g];
    assert n == m + (n - m);
    assert (n - m)[h] > 0;
  }

  /** Rebalance changes no more shards than any balanced assignment to the same groups does. */
  lemma MinimalMovement(a: seq<Gid>, G: set<Gid>, b: seq<Gid>)
    requires G != {} && |a| == |b|
    requires Assigned(b, G) && Balanced(b, G)
    ensures |Changed(a, Rebalanced(a, G))| <= |Changed(a, b)|
  {
    var r := Rebalanced(a, G);
    RebalancedIsBalanced(a, G);
    var low := Least(r, G);
    if forall x | x in Gainers(a, r) :: Load(r, x) == Load(r, low) {
      forall g ensures |Arrivals(a, r, g)| <= |Arrivals(a, b, g)| {
        ArrivalBound(a, r, b, G, low, g);
      }
      FewerArrivals(a, r, a, b);
    } else {
      NoLowGiver(a, r, G, low);
      forall g ensures |Arrivals(r, a, g)| <= |Arrivals(b, a, g)| {
        DepartureBound(a, r, b, G, low, g);
      }
      FewerArrivals(r, a, b, a);
      assert Changed(r, a) == Changed(a, r) && Changed(b, a) == Changed(a, b);
    }
  }

  /** If some gainer ends above the smallest load, no loser ends at it. */
  lemma NoLowGiver(a: seq<Gid>, r: seq<Gid>, G: set<Gid>, low: Gid)
    requires |a| == |r| && Balanced(r, G) && Frugal(a, r, G) && IsLeast(r, G, low)
    requires exists x :: x in Gainers(a, r) && Load(r, x) != Load(r, low)
    ensures forall y | y in Gainers(r, a) * G :: Load(r, y) == Load(r, low) + 1
  {
  }

  lemma ArrivalBound(a: seq<Gid>, r: seq<Gid>, b: seq<Gid>, G: set<Gid>, low: Gid, g: Gid)
    requires |a| == |r| == |b|
    requires Assigned(r, G) && Balanced(r, G) && Frugal(a, r, G) && Assigned(b, G) && Balanced(b, G)
    requires IsLeast(r, G, low)
    requires forall x | x in Gainers(a, r) :: Load(r, x) == Load(r, low)
    ensures |Arrivals(a, r, g)| <= |Arrivals(a, b, g)|
  {
    GainersArrivals(a, r, g);
    if g in Gainers(a, r) {
      GainersArrivals(r, a, g);
      SameRange(r, b, G, low, g);
      LoadChange(a, r, g);
      LoadChange(a, b, g);
    }
  }

  lemma DepartureBound(a: seq<Gid>, r: seq<Gid>, b: seq<Gid>, G: set<Gid>, low: Gid, g: Gid)
    requires |a| == |r| == |b|
    requires Assigned(r, G) && Balanced(r, G) && Frugal(a, r, G) && Assigned(b, G) && Balanced(b, G)
    requires IsLeast(r, G, low)
    requires forall y | y in Gainers(r, a) * G :: Load(r, y) == Load(r, low) + 1
    ensures |Arrivals(r, a, g)| <= |Arrivals(b, a, g)|
  {
    GainersArrivals(r, a, g);
    if g in Gainers(r, a) {
      GainersArrivals(a, r, g);
      LoadChange(a, r, g);
      LoadChange(a, b, g);
      if g in G {
        SameRange(r, b, G, low, g);
      } else {
        assert Load(b, g) == 0;
      }
    }
  }

  // ----- how much a membership change disrupts

  /** How many of n shards move when m groups join k others: each newcomer gets n / (k + m), and
      what remains goes to the old groups first. */
  function JoinCost(n: nat, k: nat, m: nat): nat
    requires k > 0
  {
    var left := n % (k + m);
    n / (k + m) * m + if left > k then left - k else 0
  }

  /** From a balanced assignment, rebalancing after any groups joined moves exactly JoinCost shards,
      every one of them to a newcomer; no old group grows. */
  lemma JoinMovesShare(a: seq<Gid>, G: set<Gid>, H: set<Gid>)
    requires G != {} && G !! H && Assigned(a, G) && Balanced(a, G)
    ensures var r := Rebalanced(a, G + H);
            && |Changed(a, r)| == JoinCost(|a|, |G|, |H|)
            && (forall i | 0 <= i < |a| && r[i] != a[i] :: r[i] in H)
            && (forall g | g in G :: Load(r, g) <= Load(a, g))
  {
    var r := Rebalanced(a, G + H);
    RebalancedIsBalanced(a, G + H);
    OnlyNewcomersGain(a, G, H, r);
    var low := Least(r, G + H);
    OldOrNew(a, G, H, r, low);
    JoinDeals(r, G, H, low);
    DealtCost(|a|, |G|, |H|, Load(r, low), |HeldIn(r, G)|, |HeldIn(r, H)|);
  }

  /** What a run of both loops from `a`, after the groups `H` joined `G`, may have ended with. */
  ghost predicate Joined(a: seq<Gid>, G: set<Gid>, H: set<Gid>, r: seq<Gid>) {
    && |a| == |r| && G != {} && G !! H && Assigned(a, G) && Balanced(a, G)
    && Assigned(r, G + H) && Balanced(r, G + H) && Frugal(a, r, G + H)
  }

  lemma OnlyNewcomersGain(a: seq<Gid>, G: set<Gid>, H: set<Gid>, r: seq<Gid>)
    requires Joined(a, G, H, r)
    ensures forall i | 0 <= i < |a| && r[i] != a[i] :: r[i] in H
    ensures forall g | g in G :: Load(r, g) <= Load(a, g)
    ensures Changed(a, r) == HeldIn(r, H)
  {
    forall i | 0 <= i < |a| && r[i] != a[i] ensures r[i] in H {
      var x, y := r[i], a[i];
      GainerLoad(a, r, G + H, x);
      LoserLoad(a, r, G + H, y, i);
      assert x in Gainers(a, r) && y in Gainers(r, a);
    }
    forall g | g in G ensures Load(r, g) <= Load(a, g) {
      LoadChange(a, r, g);
      assert Arrivals(a, r, g) == {};
    }
  }

  /** A gainer's load grew. */
  lemma GainerLoad(a: seq<Gid>, r: seq<Gid>, H: set<Gid>, x: Gid)
    requires |a| == |r| && Frugal(a, r, H)
    ensures x in Gainers(a, r) ==> Load(r, x) > Load(a, x)
  {
    LoadChange(a, r, x);
    GainersArrivals(a, r, x);
    GainersArrivals(r, a, x);
  }

  /** A loser's load shrank. */
  lemma LoserLoad(a: seq<Gid>, r: seq<Gid>, H: set<Gid>, y: Gid, i: nat)
    requires |a| == |r| && Frugal(a, r, H) && i < |a| && a[i] == y != r[i]
    ensures y in Gainers(r, a) && Load(r, y) < Load(a, y)
  {
    LoadChange(a, r, y);
    assert a[i] in Gainers(r, a);
    GainersArrivals(a, r, y);
    GainersArrivals(r, a, y);
  }

  /** A newcomer above the smallest load leaves every old group above it. */
  lemma BigNewcomer(a: seq<Gid>, G: set<Gid>, H: set<Gid>, r: seq<Gid>, low: Gid, h: Gid, g: Gid)
    requires Joined(a, G, H, r) && IsLeast(r, G + H, low)
    requires h in H && Load(r, h) > Load(r, low) && g in G
    ensures Load(r, g) == Load(r, low) + 1
  {
    var i :| 0 <= i < |r| && r[i] == h;
    LoserLoad(a, r, G + H, a[i], i);
    assert h in Gainers(a, r);
    if g !in Gainers(r, a) {
      LoadChange(a, r, g);
      GainersArrivals(r, a, g);
    }
  }

  /** Of n shards, k old groups hold `inOld` and m new ones `inNew`, each group q or q + 1; the new
      ones have no more than q, or the old ones no less than q + 1. */
  ghost predicate Dealt(n: nat, k: nat, m: nat, q: nat, inOld: nat, inNew: nat) {
    && n == inOld + inNew && Times(q, k + m) <= n < Times(q, k + m) + k + m
    && Times(q, m) <= inNew && inOld <= Times(q + 1, k)
    && (inNew == Times(q, m) || inOld == Times(q + 1, k))
  }

  lemma OldOrNew(a: seq<Gid>, G: set<Gid>, H: set<Gid>, r: seq<Gid>, low: Gid)
    requires Joined(a, G, H, r) && IsLeast(r, G + H, low)
    ensures (forall h | h in H :: Load(r, h) == Load(r, low)) || (forall g | g in G :: Load(r, g) == Load(r, low) + 1)
  {
    if h :| h in H && Load(r, h) != Load(r, low) {
      forall g | g in G ensures Load(r, g) == Load(r, low) + 1 {
        BigNewcomer(a, G, H, r, low, h, g);
      }
    }
  }

  lemma JoinDeals(r: seq<Gid>, G: set<Gid>, H: set<Gid>, low: Gid)
    requires G !! H && Assigned(r, G + H) && Balanced(r, G + H) && IsLeast(r, G + H, low)
    requires (forall h | h in H :: Load(r, h) == Load(r, low)) || (forall g | g in G :: Load(r, g) == Load(r, low) + 1)
    ensures Dealt(|r|, |G|, |H|, Load(r, low), |HeldIn(r, G)|, |HeldIn(r, H)|)
  {
    var q := Load(r, low);
    LeastIsQuotient(r, G + H, low);
    UnionSize(G, H);
    HeldByTwo(r, G, H);
    HeldInBounds(r, G, q, q + 1);
    HeldInBounds(r, H, q, q + 1);
    if forall h | h in H :: Load(r, h) == q {
      HeldInBounds(r, H, q, q);
    } else {
      HeldInBounds(r, G, q + 1, q + 1);
    }
  }

  lemma DealtCost(n: nat, k: nat, m: nat, q: nat, inOld: nat, inNew: nat)
    requires k > 0 && Dealt(n, k, m, q, inOld, inNew)
    ensures inNew == JoinCost(n, k, m)
  {
    TimesSum(q, k, m);
    TimesQuotient(n, k + m, q);
    TimesIsProduct(q, m);
  }

  lemma OneJoinCost(n: nat, k: nat)
    requires k > 0
    ensures JoinCost(n, k, 1) == n / (k + 1)
  {
  }

  /** In a balanced assignment the smallest load is the number of shards divided by groups. */
  lemma LeastIsQuotient(r: seq<Gid>, H: set<Gid>, g: Gid)
    requires g in H && Assigned(r, H) && Balanced(r, H)
    requires forall h | h in H :: Load(r, g) <= Load(r, h)
    ensures Times(Load(r, g), |H|) <= |r| < Times(Load(r, g), |H|) + |H|
  {
    var q := Load(r, g);
    HeldByAll(r, H);
    HeldInBounds(r, H, q, q + 1);
    FewerThanNext(r, H, g);
  }

  lemma FewerThanNext(r: seq<Gid>, H: set<Gid>, g: Gid)
    requires g in H && forall h | h in H :: Load(r, h) <= Load(r, g) + 1
    ensures |HeldIn(r, H)| < Times(Load(r, g), |H|) + |H|
  {
    var q, m := Load(r, g), |H - {g}|;
    assert |H| == m + 1;
    HeldInSplit(r, H, g);
    HeldInBounds(r, H - {g}, 0, q + 1);
    TimesSum(q, m, 1);
  }

  /** From a balanced assignment, rebalancing after some but not all groups left reassigns exactly
      the shards of the groups that left. */
  lemma LeaveMovesOnlyOrphans(a: seq<Gid>, G: set<Gid>, H: set<Gid>)
    requires Assigned(a, G) && Balanced(a, G) && {} < H <= G
    ensures var r := Rebalanced(a, H);
            forall i | 0 <= i < |a| :: r[i] != a[i] <==> a[i] !in H
  {
    var r := Rebalanced(a, H);
    RebalancedIsBalanced(a, H);
    forall i | 0 <= i < |a| ensures r[i] != a[i] <==> a[i] !in H {
      if r[i] != a[i] && a[i] in H {
        GainerLoad(a, r, H, r[i]);
        LoserLoad(a, r, H, a[i], i);
      }
    }
  }
}
