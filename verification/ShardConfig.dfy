/** The shard configuration: an assignment of shards to replica groups that changes as groups join
    and leave. */
module ShardConfiguration {
  import opened Choice
  import opened ShardMoves
  import opened Rebalancing
  import opened Wrappers
  import Sorting

  /** A configuration as a value. */
  datatype Config = Config(num: int, shards: seq<Gid>, groups: map<Gid, seq<string>>)

  predicate NoShared(xs: seq<string>, ys: seq<string>) {
    forall x | x in xs :: x !in ys
  }

  /** No server belongs to two groups. */
  ghost predicate ServersDisjoint(groups: map<Gid, seq<string>>) {
    forall g, h | g in groups && h in groups && g != h :: NoShared(groups[g], groups[h])
  }

  // ----- membership changes on values

  datatype Request = JoinReq(servers: map<Gid, seq<string>>) | LeaveReq(gids: seq<Gid>)

  /** Every group in `servers` is new and shares no server with any other group. */
  ghost predicate Joinable(groups: map<Gid, seq<string>>, servers: map<Gid, seq<string>>) {
    && servers.Keys !! groups.Keys
    && forall g, h | g in servers && (h in servers || h in groups) && g != h ::
         NoShared((groups + servers)[h], servers[g])
  }

  /** The ids are distinct current groups. */
  ghost predicate Leavable(groups: map<Gid, seq<string>>, gids: seq<Gid>) {
    && (forall i | 0 <= i < |gids| :: gids[i] in groups)
    && (forall i, j | 0 <= i < j < |gids| :: gids[i] != gids[j])
  }

  ghost predicate Accepted(c: Config, req: Request) {
    match req
    case JoinReq(servers) => servers != map[] && Joinable(c.groups, servers)
    case LeaveReq(gids) => gids != [] && Leavable(c.groups, gids)
  }

  function Ids(gids: seq<Gid>): set<Gid> {
    set g | g in gids
  }

  ghost function NewGroups(groups: map<Gid, seq<string>>, req: Request): map<Gid, seq<string>> {
    match req
    case JoinReq(servers) => groups + servers
    case LeaveReq(gids) => groups - Ids(gids)
  }

  /** The configuration after a successful JoinBalance or LeaveBalance. */
  ghost function After(c: Config, req: Request): Config {
    var groups := NewGroups(c.groups, req);
    Config(c.num + 1, Rebalanced(c.shards, groups.Keys), groups)
  }

  ghost function Initial(n: nat): Config {
    Config(0, seq(n, i => 0), map[])
  }

  /** The configuration reached by a sequence of successful calls, if all of them succeed. */
  ghost function Run(n: nat, reqs: seq<Request>): Option<Config> {
    if reqs == [] then Some(Initial(n))
    else
      match Run(n, reqs[..|reqs| - 1])
      case None => None
      case Some(c) => if Accepted(c, reqs[|reqs| - 1]) then Some(After(c, reqs[|reqs| - 1])) else None
  }

  // ----- what every run keeps

  ghost predicate Healthy(c: Config) {
    && (c.groups == map[] ==> forall i | 0 <= i < |c.shards| :: c.shards[i] == 0)
    && (c.groups != map[] ==> Assigned(c.shards, c.groups.Keys) && Balanced(c.shards, c.groups.Keys))
    && ServersDisjoint(c.groups)
  }

  /** What CheckConfig tests for the groups `wanted`. */
  ghost predicate CheckPasses(c: Config, wanted: seq<Gid>) {
    && |c.groups| == |wanted|
    && (forall i | 0 <= i < |wanted| :: wanted[i] in c.groups)
    && (wanted != [] ==> Assigned(c.shards, c.groups.Keys))
    && Balanced(c.shards, c.groups.Keys)
  }

  /** What passing the check says, for wanted groups without repetition: they are the groups, every
      shard is assigned to one of them, and each of k groups holds n / k shards or one more. */
  lemma CheckPassesMeans(c: Config, wanted: seq<Gid>)
    requires |Ids(wanted)| == |wanted| && wanted != []
    ensures CheckPasses(c, wanted) <==>
            && c.groups.Keys == Ids(wanted)
            && Assigned(c.shards, c.groups.Keys)
            && forall g | g in c.groups :: |c.shards| / |wanted| <= Load(c.shards, g) <= |c.shards| / |wanted| + 1
  {
    SameIds(c.groups.Keys, wanted);
    assert |c.groups| == |c.groups.Keys|;
    if CheckPasses(c, wanted) {
      assert wanted[0] in c.groups.Keys;
      EvenShares(c.shards, c.groups.Keys);
    }
  }

  lemma SameIds(G: set<Gid>, wanted: seq<Gid>)
    requires |Ids(wanted)| == |wanted|
    ensures G == Ids(wanted) <==> |G| == |wanted| && forall i | 0 <= i < |wanted| :: wanted[i] in G
  {
    if |G| == |wanted| && forall i | 0 <= i < |wanted| :: wanted[i] in G {
      assert Ids(wanted) <= G;
      assert |G - Ids(wanted)| == |G| - |Ids(wanted)|;
    }
  }

  lemma EvenShares(s: seq<Gid>, G: set<Gid>)
    requires G != {} && Assigned(s, G) && Balanced(s, G)
    ensures forall g | g in G :: |s| / |G| <= Load(s, g) <= |s| / |G| + 1
  {
    var low := Least(s, G);
    LeastIsQuotient(s, G, low);
    TimesQuotient(|s|, |G|, Load(s, low));
  }

  lemma AfterHealthy(c: Config, req: Request)
    requires Healthy(c) && Accepted(c, req)
    ensures Healthy(After(c, req))
  {
    var d := After(c, req);
    if d.groups != map[] {
      assert d.groups.Keys != {};
      RebalancedIsBalanced(c.shards, d.groups.Keys);
    }
    forall g, h | g in d.groups && h in d.groups && g != h ensures NoShared(d.groups[g], d.groups[h]) {
      match req
      case JoinReq(servers) =>
        if g in servers {
          assert NoShared(d.groups[h], servers[g]);
        }
      case LeaveReq(_) =>
    }
  }

  lemma {:induction false} RunHealthy(n: nat, reqs: seq<Request>)
    requires Run(n, reqs).Some?
    ensures var c := Run(n, reqs).value; Healthy(c) && |c.shards| == n && c.num == |reqs|
  {
    if reqs != [] {
      var last := |reqs| - 1;
      RunHealthy(n, reqs[..last]);
      AfterHealthy(Run(n, reqs[..last]).value, reqs[last]);
    }
  }

  /** After any sequence of successful calls: Num counts them, every test of CheckConfig passes for
      the current groups, no server is in two groups, and every shard has servers as soon as there
      is a group. */
  lemma RunsPassCheckConfig(n: nat, reqs: seq<Request>, wanted: seq<Gid>)
    requires Run(n, reqs).Some?
    requires Ids(wanted) == Run(n, reqs).value.groups.Keys
    requires |wanted| == |Run(n, reqs).value.groups|
    ensures var c := Run(n, reqs).value;
            && c.num == |reqs|
            && CheckPasses(c, wanted)
            && ServersDisjoint(c.groups)
            && (c.groups != map[] ==> forall i | 0 <= i < |c.shards| :: c.shards[i] in c.groups)
  {
    RunHealthy(n, reqs);
    var c := Run(n, reqs).value;
    if wanted != [] {
      assert wanted[0] in c.groups;
    }
  }

  /** Being some shard's group is the same as being a group exactly when there are between one and
      N groups. */
  lemma MembershipExact(n: nat, reqs: seq<Request>)
    requires n > 0 && Run(n, reqs).Some?
    ensures var c := Run(n, reqs).value;
            (forall g :: g in c.shards <==> g in c.groups) <==> 1 <= |c.groups| <= n
  {
    RunHealthy(n, reqs);
    HealthyMembers(Run(n, reqs).value);
  }

  lemma HealthyMembers(c: Config)
    requires Healthy(c) && c.shards != []
    ensures (forall g :: g in c.shards <==> g in c.groups) <==> 1 <= |c.groups| <= |c.shards|
  {
    var G := c.groups.Keys;
    assert G == Ids(c.shards) <==> forall g :: g in c.shards <==> g in c.groups;
    if c.groups == map[] {
      assert c.shards[0] == 0 && 0 in c.shards;
    } else {
      assert G != {};
      if |G| <= |c.shards| {
        forall g | g in G ensures g in c.shards {
          EveryGroupHolds(c.shards, G, g);
        }
      } else {
        ElementsFit(c.shards);
        assert |Ids(c.shards)| < |G|;
      }
    }
  }

  /** With no more groups than shards, a balanced assignment leaves no group empty. */
  lemma EveryGroupHolds(s: seq<Gid>, G: set<Gid>, g: Gid)
    requires g in G && |G| <= |s| && Assigned(s, G) && Balanced(s, G)
    ensures g in s
  {
    if Load(s, g) == 0 {
      HeldByAll(s, G);
      HeldInSplit(s, G, g);
      HeldInBounds(s, G - {g}, 0, 1);
      TimesIsProduct(1, |G - {g}|);
    }
  }

  lemma {:induction false} ElementsFit(s: seq<Gid>)
    ensures |Ids(s)| <= |s|
  {
    if s != [] {
      var n := |s| - 1;
      ElementsFit(s[..n]);
      assert Ids(s) == Ids(s[..n]) + {s[n]};
    }
  }

  /** In any run, groups joining others move exactly JoinCost shards, all to newcomers, and no old
      group grows. */
  lemma JoinDisruption(n: nat, reqs: seq<Request>, servers: map<Gid, seq<string>>)
    requires Run(n, reqs).Some? && Run(n, reqs).value.groups != map[]
    requires Accepted(Run(n, reqs).value, JoinReq(servers))
    ensures var c := Run(n, reqs).value;
            var d := After(c, JoinReq(servers));
            && |Changed(c.shards, d.shards)| == JoinCost(n, |c.groups|, |servers|)
            && (forall i | 0 <= i < |c.shards| && d.shards[i] != c.shards[i] :: d.shards[i] in servers)
            && (forall g | g in c.groups :: Load(d.shards, g) <= Load(c.shards, g))
  {
    RunHealthy(n, reqs);
    HealthyJoin(Run(n, reqs).value, servers);
  }

  lemma HealthyJoin(c: Config, servers: map<Gid, seq<string>>)
    requires Healthy(c) && c.groups != map[] && servers.Keys !! c.groups.Keys
    ensures var d := After(c, JoinReq(servers));
            && |Changed(c.shards, d.shards)| == JoinCost(|c.shards|, |c.groups|, |servers|)
            && (forall i | 0 <= i < |c.shards| && d.shards[i] != c.shards[i] :: d.shards[i] in servers)
            && (forall g | g in c.groups :: Load(d.shards, g) <= Load(c.shards, g))
  {
    assert (c.groups + servers).Keys == c.groups.Keys + servers.Keys;
    assert c.groups.Keys != {};
    JoinMovesShare(c.shards, c.groups.Keys, servers.Keys);
    assert |c.groups| == |c.groups.Keys| && |servers| == |servers.Keys|;
  }

  /** In any run, every further change takes from each remaining group its lowest-numbered shards
      first, and deals the shards of groups that left out in order. */
  lemma RunOrder(n: nat, reqs: seq<Request>, req: Request)
    requires Run(n, reqs).Some? && Accepted(Run(n, reqs).value, req)
    requires NewGroups(Run(n, reqs).value.groups, req) != map[]
    ensures var c := Run(n, reqs).value;
            var d := After(c, req);
            && LowestFirst(c.shards, d.shards, d.groups.Keys)
            && DealtInOrder(c.shards, Placed(c.shards, d.shards, d.groups.Keys), d.groups.Keys, 0)
  {
    RunHealthy(n, reqs);
    var c := Run(n, reqs).value;
    var d := After(c, req);
    assert d.groups.Keys != {};
    RebalanceOrder(c.shards, d.groups.Keys);
  }

  predicate Joins(req: Request, g: Gid) {
    req.JoinReq? && g in req.servers
  }

  predicate Leaves(req: Request, g: Gid) {
    req.LeaveReq? && g in req.gids
  }

  /** `g` joined with `servers` in the k-th request and has not left since. */
  ghost predicate JoinedAt(reqs: seq<Request>, g: Gid, servers: seq<string>, k: nat) {
    && k < |reqs| && Joins(reqs[k], g) && reqs[k].servers[g] == servers
    && forall j | k < j < |reqs| :: !Leaves(reqs[j], g)
  }

  ghost predicate MemberSince(reqs: seq<Request>, g: Gid, servers: seq<string>) {
    exists k: nat :: JoinedAt(reqs, g, servers, k)
  }

  lemma MemberNext(reqs: seq<Request>, req: Request, g: Gid, servers: seq<string>)
    ensures MemberSince(reqs + [req], g, servers) <==>
            (Joins(req, g) && req.servers[g] == servers) || (MemberSince(reqs, g, servers) && !Leaves(req, g))
  {
    var all := reqs + [req];
    if Joins(req, g) && req.servers[g] == servers {
      assert JoinedAt(all, g, servers, |reqs|);
    }
    if MemberSince(reqs, g, servers) && !Leaves(req, g) {
      var k: nat :| JoinedAt(reqs, g, servers, k);
      assert JoinedAt(all, g, servers, k);
    }
    if MemberSince(all, g, servers) {
      var k: nat :| JoinedAt(all, g, servers, k);
      if k < |reqs| {
        assert !Leaves(all[|reqs|], g);
        forall j | k < j < |reqs| ensures !Leaves(reqs[j], g) {
          assert !Leaves(all[j], g);
        }
        assert JoinedAt(reqs, g, servers, k);
      }
    }
  }

  lemma NewMember(c: Config, req: Request, g: Gid, servers: seq<string>)
    requires Accepted(c, req)
    ensures var groups := NewGroups(c.groups, req);
            g in groups && groups[g] == servers <==>
            (Joins(req, g) && req.servers[g] == servers) || (g in c.groups && c.groups[g] == servers && !Leaves(req, g))
  {
    assert Joins(req, g) ==> g !in c.groups.Keys * req.servers.Keys;
  }

  /** In any run, the groups are those that joined and have not left since, with the servers they
      joined with. */
  lemma {:induction false} RunMembers(n: nat, reqs: seq<Request>, g: Gid, servers: seq<string>)
    requires Run(n, reqs).Some?
    ensures var c := Run(n, reqs).value;
            g in c.groups && c.groups[g] == servers <==> MemberSince(reqs, g, servers)
  {
    if reqs != [] {
      var last := |reqs| - 1;
      RunMembers(n, reqs[..last], g, servers);
      assert reqs == reqs[..last] + [reqs[last]];
      MemberNext(reqs[..last], reqs[last], g, servers);
      NewMember(Run(n, reqs[..last]).value, reqs[last], g, servers);
    }
  }

  /** In any run, groups leaving others behind move exactly their own shards. */
  lemma LeaveDisruption(n: nat, reqs: seq<Request>, gids: seq<Gid>)
    requires Run(n, reqs).Some? && Accepted(Run(n, reqs).value, LeaveReq(gids))
    requires NewGroups(Run(n, reqs).value.groups, LeaveReq(gids)) != map[]
    ensures var c := Run(n, reqs).value;
            var d := After(c, LeaveReq(gids));
            forall i | 0 <= i < |c.shards| :: d.shards[i] != c.shards[i] <==> c.shards[i] in gids
  {
    RunHealthy(n, reqs);
    var c := Run(n, reqs).value;
    var d := After(c, LeaveReq(gids));
    assert d.groups.Keys != {};
    LeaveMovesOnlyOrphans(c.shards, c.groups.Keys, d.groups.Keys);
  }

  // ----- the object

  /** What a membership change answers: done, refused (false), or the process is ended. */
  datatype Answer = Done | Refused | Fatal

  /** Go's reading of a map that yields zero for an absent key. */
  function CountOf(counts: map<Gid, nat>, g: Gid): nat {
    if g in counts then counts[g] else 0
  }

  /** The loop that tallies how many shards each group holds. */
  method Tally(shards: seq<Gid>) returns (counts: map<Gid, nat>)
    ensures forall g :: CountOf(counts, g) == Load(shards, g)
  {
    counts := map[];
    for i := 0 to |shards|
      invariant forall g :: CountOf(counts, g) == Load(shards[..i], g)
    {
      var next := counts[shards[i] := CountOf(counts, shards[i]) + 1];
      forall g ensures CountOf(next, g) == Load(shards[..i + 1], g) {
        LoadNext(shards, i, g);
      }
      counts := next;
    }
    assert shards[..|shards|] == shards;
  }

  predicate Below(a: Gid, b: Gid) {
    a < b
  }

  /** The ids of a set, visited in any order and sorted. */
  method SortedIds(G: set<Gid>) returns (ids: seq<Gid>)
    ensures forall i, j | 0 <= i < j < |ids| :: ids[i] < ids[j]
    ensures forall g :: g in ids <==> g in G
  {
    ids := Sorting.SortedElements(G, Below);
    assert forall i, j | 0 <= i < j < |ids| :: Below(ids[i], ids[j]);
  }

  /** What Analyze knows after visiting the groups `seen`. */
  ghost predicate Scanned(s: seq<Gid>, seen: set<Gid>, mg: Gid, mn: int, lg: Gid, ln: int) {
    && (seen == {} ==> mg == -1 && mn == -1)
    && (seen != {} ==> IsMost(s, seen, mg) && mn == Load(s, mg))
    && ln <= 257
    && (ln == 257 ==> lg == -1 && forall g | g in seen :: Load(s, g) >= 257)
    && (ln < 257 ==> IsLeast(s, seen, lg) && ln == Load(s, lg))
  }

  lemma ScanNext(s: seq<Gid>, seen: set<Gid>, g: Gid, mg: Gid, mn: int, lg: Gid, ln: int)
    requires Scanned(s, seen, mg, mn, lg, ln) && forall h | h in seen :: h < g
    ensures var c := Load(s, g);
            Scanned(s, seen + {g}, if c > mn then g else mg, if c > mn then c else mn,
                    if c < ln then g else lg, if c < ln then c else ln)
  {
  }

  /** `now` is `before` with the groups `done` of `servers` added. */
  ghost predicate Extends(before: map<Gid, seq<string>>, servers: map<Gid, seq<string>>, done: set<Gid>,
                          now: map<Gid, seq<string>>)
  {
    && done <= servers.Keys && done !! before.Keys
    && now.Keys == before.Keys + done
    && (forall g | g in before :: now[g] == before[g])
    && (forall g | g in done :: now[g] == servers[g])
  }

  ghost predicate PartlyAdded(before: map<Gid, seq<string>>, servers: map<Gid, seq<string>>,
                              now: map<Gid, seq<string>>)
  {
    exists done :: Extends(before, servers, done, now)
  }

  /** Some new group has a server in common with another group. */
  ghost predicate SharesServer(groups: map<Gid, seq<string>>, servers: map<Gid, seq<string>>) {
    exists g, h :: && g in servers && h != g
                   && ((h in groups && !NoShared(groups[h], servers[g])) ||
                       (h in servers && !NoShared(servers[h], servers[g])))
  }

  /** So far Join has added the groups `done`, and found no server in two groups. */
  ghost predicate Joining(before: map<Gid, seq<string>>, servers: map<Gid, seq<string>>, done: set<Gid>,
                          now: map<Gid, seq<string>>)
  {
    && Extends(before, servers, done, now)
    && forall g, h | g in done && h in now && g != h :: NoShared(now[h], servers[g])
  }

  lemma AddOne(before: map<Gid, seq<string>>, servers: map<Gid, seq<string>>, done: set<Gid>,
               now: map<Gid, seq<string>>, gid: Gid)
    requires Joining(before, servers, done, now)
    requires gid in servers && gid !in now
    requires forall h | h in now :: NoShared(now[h], servers[gid])
    ensures Joining(before, servers, done + {gid}, now[gid := servers[gid]])
  {
  }

  lemma RejoinBlocks(before: map<Gid, seq<string>>, servers: map<Gid, seq<string>>, done: set<Gid>,
                     now: map<Gid, seq<string>>, gid: Gid)
    requires Joining(before, servers, done, now) && gid in servers && gid !in done && gid in now
    ensures gid in before && !Joinable(before, servers)
  {
  }

  lemma ClashBlocks(before: map<Gid, seq<string>>, servers: map<Gid, seq<string>>, done: set<Gid>,
                    now: map<Gid, seq<string>>, gid: Gid)
    requires Joining(before, servers, done, now) && gid in servers && gid !in now
    requires exists h :: h in now && !NoShared(now[h], servers[gid])
    ensures !Joinable(before, servers) && SharesServer(before, servers)
  {
  }

  /** Join has still to add the groups `rest`. */
  ghost predicate Underway(before: map<Gid, seq<string>>, servers: map<Gid, seq<string>>, rest: set<Gid>,
                           now: map<Gid, seq<string>>)
  {
    rest <= servers.Keys && Joining(before, servers, servers.Keys - rest, now)
  }

  /** What the loop of Join answers for the groups `now` that it leaves. */
  ghost predicate Outcome(before: map<Gid, seq<string>>, servers: map<Gid, seq<string>>,
                          now: map<Gid, seq<string>>, r: Answer)
  {
    && PartlyAdded(before, servers, now)
    && (r.Done? <==> Joinable(before, servers))
    && (r.Done? ==> now == before + servers)
    && (r.Refused? ==> exists g :: g in servers && g in before)
    && (r.Fatal? ==> SharesServer(before, servers))
  }

  lemma AllAdded(before: map<Gid, seq<string>>, servers: map<Gid, seq<string>>, now: map<Gid, seq<string>>)
    requires Underway(before, servers, {}, now)
    ensures Outcome(before, servers, now, Done)
  {
  }

  /** Whether some existing group has one of the servers. */
  method Clashes(groups: map<Gid, seq<string>>, servers: seq<string>) returns (clash: bool)
    ensures clash <==> exists h :: h in groups && !NoShared(groups[h], servers)
  {
    var rest := groups.Keys;
    while rest != {}
      invariant rest <= groups.Keys
      invariant forall h | h in groups && h !in rest :: NoShared(groups[h], servers)
      decreases |rest|
    {
      var h := Any(rest);
      rest := rest - {h};
      for i := 0 to |groups[h]|
        invariant forall k | 0 <= k < i :: groups[h][k] !in servers
      {
        for j := 0 to |servers|
          invariant groups[h][i] !in servers[..j]
        {
          if groups[h][i] == servers[j] {
            assert groups[h][i] in groups[h] && groups[h][i] in servers;
            return true;
          }
        }
        assert servers[..|servers|] == servers;
      }
    }
    return false;
  }

  /** What Join finds out about one group before adding it. */
  method CheckNew(ghost before: map<Gid, seq<string>>, servers: map<Gid, seq<string>>, ghost rest: set<Gid>,
                  now: map<Gid, seq<string>>, gid: Gid)
    returns (r: Answer)
    requires gid in servers && gid in rest && Underway(before, servers, rest, now)
    ensures r.Done? ==> Underway(before, servers, rest - {gid}, now[gid := servers[gid]])
    ensures !r.Done? ==> Outcome(before, servers, now, r)
  {
    ghost var done := servers.Keys - rest;
    assert Extends(before, servers, done, now);
    if gid in now {
      RejoinBlocks(before, servers, done, now, gid);
      return Refused;
    }
    var clash := Clashes(now, servers[gid]);
    if clash {
      ClashBlocks(before, servers, done, now, gid);
      return Fatal;
    }
    AddOne(before, servers, done, now, gid);
    assert servers.Keys - (rest - {gid}) == done + {gid};
    return Done;
  }

  /** The loop of Join, on the map it fills in. */
  method AddGroups(before: map<Gid, seq<string>>, servers: map<Gid, seq<string>>)
    returns (now: map<Gid, seq<string>>, r: Answer)
    ensures Outcome(before, servers, now, r)
  {
    now := before;
    var rest := servers.Keys;
    while rest != {}
      invariant rest <= servers.Keys
      invariant Underway(before, servers, rest, now)
      decreases |rest|
    {
      var gid := Any(rest);
      r := CheckNew(before, servers, rest, now, gid);
      if r != Done {
        return;
      }
      now := now[gid := servers[gid]];
      rest := rest - {gid};
    }
    AllAdded(before, servers, now);
    r := Done;
  }

  class ShardConfig {
    var num: int
    const shards: array<Gid>
    var groups: map<Gid, seq<string>>

    /** 256 shards are the most that the sentinels 257 and -1 of Analyze allow. */
    ghost predicate Valid() {
      1 <= shards.Length <= 256
    }

    ghost function Value(): Config
      reads this, shards
    {
      Config(num, shards[..], groups)
    }

    /** MakeShardConfig, with the number of shards as a parameter. */
    constructor (n: nat)
      requires 1 <= n <= 256
      ensures Valid() && Value() == Initial(n) && fresh(shards)
    {
      num := 0;
      groups := map[];
      shards := new Gid[n](i => 0);
    }

    /** The most and least loaded groups and their loads.  The least loaded group is found only if
        its load is below 257; the sentinels are returned when there is none. */
    method Analyze() returns (mg: Gid, mn: int, lg: Gid, ln: int)
      ensures groups == map[] ==> mg == -1 && mn == -1
      ensures groups != map[] ==> IsMost(shards[..], groups.Keys, mg) && mn == Load(shards[..], mg)
      ensures (forall g | g in groups :: Load(shards[..], g) >= 257) ==> lg == -1 && ln == 257
      ensures (exists g :: g in groups && Load(shards[..], g) < 257) ==>
                IsLeast(shards[..], groups.Keys, lg) && ln == Load(shards[..], lg)
    {
      var counts := Tally(shards[..]);
      mn, mg, ln, lg := -1, -1, 257, -1;
      var ids := SortedIds(groups.Keys);
      ghost var s := shards[..];
      ghost var seen: set<Gid> := {};
      for i := 0 to |ids|
        invariant seen <= groups.Keys
        invariant forall k | 0 <= k < |ids| :: if k < i then ids[k] in seen else forall g | g in seen :: g < ids[k]
        invariant Scanned(s, seen, mg, mn, lg, ln)
      {
        ScanNext(s, seen, ids[i], mg, mn, lg, ln);
        var c := CountOf(counts, ids[i]);
        if c < ln {
          ln, lg := c, ids[i];
        }
        if c > mn {
          mn, mg := c, ids[i];
        }
        seen := seen + {ids[i]};
      }
      assert seen == groups.Keys by {
        assert forall g | g in groups :: g in ids;
      }
    }

    /** Balance the assignment of shards to groups.  The result is fixed by the shard array and the
        set of group ids. */
    method Rebalance()
      requires Valid()
      modifies shards
      ensures shards[..] == Rebalanced(old(shards[..]), groups.Keys)
    {
      if |groups| < 1 {
        for i := 0 to shards.Length
          invariant forall k | 0 <= k < i :: shards[k] == 0
        {
          shards[i] := 0;
        }
        assert groups.Keys == {};
        return;
      }
      assert groups.Keys != {};
      AssignLoop();
      MoveLoop();
    }

    /** The first loop: shards without a group go to the least loaded one. */
    method AssignLoop()
      requires Valid() && groups.Keys != {}
      modifies shards
      ensures shards[..] == AssignFrom(old(shards[..]), groups.Keys, 0)
    {
      var before := shards[..];
      for i := 0 to shards.Length
        invariant forall k | i <= k < shards.Length :: shards[k] == before[k]
        invariant AssignFrom(shards[..], groups.Keys, i) == AssignFrom(before, groups.Keys, 0)
      {
        if before[i] !in groups {
          var lg := FindLeast();
          AssignUnfold(shards[..], groups.Keys, i, lg);
          ghost var s := shards[..];
          shards[i] := lg;
          assert shards[..] == s[i := lg];
        }
      }
    }

    /** The second loop: shards move from the most to the least loaded group. */
    method MoveLoop()
      requires Valid() && groups.Keys != {}
      modifies shards
      ensures shards[..] == Spread(old(shards[..]), groups.Keys)
    {
      while true
        invariant Spread(shards[..], groups.Keys) == Spread(old(shards[..]), groups.Keys)
        decreases SquareSum(multiset(shards[..]), groups.Keys)
      {
        SomeSmall();
        var mg, mn, lg, ln := Analyze();
        ChoicesUnique(shards[..], groups.Keys, mg);
        ChoicesUnique(shards[..], groups.Keys, lg);
        if mn < ln + 2 {
          break;
        }
        MoveLowersSquares(shards[..], groups.Keys);
        MoveFirst(mg, lg);
      }
    }

    lemma SomeSmall()
      requires Valid() && groups.Keys != {}
      ensures exists g :: g in groups && Load(shards[..], g) < 257
    {
    }

    method FindLeast() returns (lg: Gid)
      requires Valid() && groups.Keys != {}
      ensures IsLeast(shards[..], groups.Keys, lg)
    {
      SomeSmall();
      var _, _, l, _ := Analyze();
      lg := l;
    }

    /** The inner loop of the second phase: the first shard of `mg` goes to `lg`. */
    method MoveFirst(mg: Gid, lg: Gid)
      requires mg in shards[..]
      modifies shards
      ensures shards[..] == old(shards[..])[First(old(shards[..]), mg) := lg]
    {
      ghost var s := shards[..];
      var i := 0;
      while shards[i] != mg
        invariant i < shards.Length && mg !in s[..i] && mg in s[i..]
        decreases shards.Length - i
      {
        i := i + 1;
      }
      FirstIs(s, mg, i);
      shards[i] := lg;
      assert shards[..] == s[i := lg];
    }

    /** Add groups.  The groups are visited in any order; a group that already exists stops the
        call with false, a server shared with another group or an empty request ends the process.
        Groups added before a stop stay. */
    method Join(servers: map<Gid, seq<string>>) returns (r: Answer)
      modifies this
      ensures r.Done? <==> servers != map[] && Joinable(old(groups), servers)
      ensures r.Done? ==> groups == old(groups) + servers && num == old(num) + 1
      ensures !r.Done? ==> num == old(num)
      ensures r.Refused? ==> exists g :: g in servers && g in old(groups)
      ensures r.Refused? ==> PartlyAdded(old(groups), servers, groups)
      ensures r.Fatal? ==> servers == map[] || SharesServer(old(groups), servers)
    {
      var now, stop := AddGroups(groups, servers);
      groups := now;
      if stop != Done {
        return stop;
      }
      if servers.Keys == {} {
        return Fatal;
      }
      num := num + 1;
      return Done;
    }

    /** Remove groups.  An id that is not a current group stops the call with false, leaving out
        the ids before it. */
    method Leave(gids: seq<Gid>) returns (r: Answer)
      modifies this
      ensures r.Done? <==> gids != [] && Leavable(old(groups), gids)
      ensures r.Fatal? <==> gids == []
      ensures r.Done? ==> groups == NewGroups(old(groups), LeaveReq(gids)) && num == old(num) + 1
      ensures !r.Done? ==> num == old(num)
      ensures r.Refused? ==>
                exists i ::
                  && 0 <= i < |gids|
                  && Leavable(old(groups), gids[..i])
                  && (gids[i] !in old(groups) || gids[i] in gids[..i])
                  && groups == NewGroups(old(groups), LeaveReq(gids[..i]))
    {
      for i := 0 to |gids|
        invariant Leavable(old(groups), gids[..i])
        invariant groups == NewGroups(old(groups), LeaveReq(gids[..i]))
        invariant num == old(num)
      {
        if gids[i] !in groups {
          assert gids[i] !in old(groups) || gids[i] in gids[..i];
          return Refused;
        }
        groups := groups - {gids[i]};
        assert gids[..i + 1] == gids[..i] + [gids[i]];
        assert Ids(gids[..i + 1]) == Ids(gids[..i]) + {gids[i]};
      }
      assert gids[..|gids|] == gids;
      if |gids| == 0 {
        return Fatal;
      }
      num := num + 1;
      return Done;
    }

    method JoinBalance(servers: map<Gid, seq<string>>) returns (r: Answer)
      requires Valid()
      modifies this, shards
      ensures r.Done? <==> old(Accepted(Value(), JoinReq(servers)))
      ensures r.Done? ==> Value() == old(After(Value(), JoinReq(servers)))
      ensures !r.Done? ==> shards[..] == old(shards[..]) && num == old(num)
    {
      r := Join(servers);
      if r.Done? {
        Rebalance();
      }
    }

    method LeaveBalance(gids: seq<Gid>) returns (r: Answer)
      requires Valid()
      modifies this, shards
      ensures r.Done? <==> old(Accepted(Value(), LeaveReq(gids)))
      ensures r.Done? ==> Value() == old(After(Value(), LeaveReq(gids)))
      ensures !r.Done? ==> shards[..] == old(shards[..]) && num == old(num)
    {
      r := Leave(gids);
      if r.Done? {
        Rebalance();
      }
    }

    /** The group of a shard and its servers, if the group exists.  In a healthy configuration it
        does as soon as there is any group, and no other group has one of its servers. */
    method GidServers(sh: nat) returns (gid: Gid, servers: seq<string>, ok: bool)
      requires sh < shards.Length
      ensures gid == shards[sh] && (ok <==> gid in groups)
      ensures servers == if ok then groups[gid] else []
      ensures Healthy(Value()) ==> (ok <==> groups != map[])
      ensures Healthy(Value()) ==> forall h | h in groups && h != gid :: NoShared(servers, groups[h])
    {
      gid := shards[sh];
      assert gid == shards[..][sh];
      ok := gid in groups;
      servers := if ok then groups[gid] else [];
    }

    method IsMember(gid: Gid) returns (b: bool)
      ensures b <==> gid in shards[..]
    {
      for i := 0 to shards.Length
        invariant gid !in shards[..i]
      {
        if shards[i] == gid {
          return true;
        }
      }
      assert shards[..shards.Length] == shards[..];
      return false;
    }

    /** Whether all tests pass for the groups `wanted`. */
    method CheckConfig(wanted: seq<Gid>) returns (ok: bool)
      requires Valid()
      ensures ok <==> CheckPasses(Value(), wanted)
    {
      if |groups| != |wanted| {
        return false;
      }
      for i := 0 to |wanted|
        invariant forall k | 0 <= k < i :: wanted[k] in groups
      {
        if wanted[i] !in groups {
          return false;
        }
      }
      if |wanted| > 0 {
        for i := 0 to shards.Length
          invariant forall k | 0 <= k < i :: shards[k] in groups
        {
          if shards[i] !in groups {
            assert shards[..][i] !in groups.Keys;
            return false;
          }
        }
      }
      var counts := Tally(shards[..]);
      var min, max := 257, 0;
      var rest := groups.Keys;
      ghost var s := shards[..];
      ghost var low, high := 0, 0;
      while rest != {}
        invariant rest <= groups.Keys
        invariant forall g | g in groups && g !in rest :: min <= Load(s, g) <= max
        invariant min == 257 || (low in groups && min == Load(s, low))
        invariant max == 0 || (high in groups && max == Load(s, high))
        decreases |rest|
      {
        var g := Any(rest);
        rest := rest - {g};
        LoadBound(s, g);
        if CountOf(counts, g) > max {
          max, high := CountOf(counts, g), g;
        }
        if CountOf(counts, g) < min {
          min, low := CountOf(counts, g), g;
        }
      }
      ok := max <= min + 1;
    }
  }

  lemma LoadBound(s: seq<Gid>, g: Gid)
    ensures Load(s, g) <= |s|
  {
  }
}
