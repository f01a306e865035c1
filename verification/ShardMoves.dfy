/** Counting moved shards.

    A shard array is a sequence of group ids.  Two arrays of one length are compared through the
    shards that arrive at each group; loads and the number of changed shards follow from them.
 */
module ShardMoves {
  import opened Choice

  /** Group ids: Go ints. */
  type Gid = x: int | -0x8000_0000_0000_0000 <= x < 0x8000_0000_0000_0000

  /** How many shards of `s` group `g` holds. */
  function Load(s: seq<Gid>, g: Gid): nat {
    multiset(s)[g]
  }

  /** The shards that arrive at `g` going from `a` to `b`.  Read the other way round,
      Arrivals(b, a, g) are the shards that leave it. */
  ghost function Arrivals(a: seq<Gid>, b: seq<Gid>, g: Gid): set<nat>
    requires |a| == |b|
  {
    set i: nat | i < |a| && a[i] != b[i] && b[i] == g
  }

  /** The groups at which a shard arrives. */
  ghost function Gainers(a: seq<Gid>, b: seq<Gid>): set<Gid>
    requires |a| == |b|
  {
    set i: nat | i < |a| && a[i] != b[i] :: b[i]
  }

  /** The shards whose group differs. */
  ghost function Changed(a: seq<Gid>, b: seq<Gid>): set<nat>
    requires |a| == |b|
  {
    set i: nat | i < |a| && a[i] != b[i]
  }

  /** The shards among the first `n` that `g` holds. */
  ghost function Held(s: seq<Gid>, n: nat, g: Gid): set<nat>
    requires n <= |s|
  {
    set i: nat | i < n && s[i] == g
  }

  lemma LoadNext(s: seq<Gid>, n: nat, g: Gid)
    requires n < |s|
    ensures Load(s[..n + 1], g) == Load(s[..n], g) + if s[n] == g then 1 else 0
  {
    assert s[..n + 1] == s[..n] + [s[n]];
  }

  lemma {:induction false} LoadIsHeld(s: seq<Gid>, n: nat, g: Gid)
    requires n <= |s|
    ensures Load(s[..n], g) == |Held(s, n, g)|
  {
    if n > 0 {
      LoadIsHeld(s, n - 1, g);
      LoadNext(s, n - 1, g);
      if s[n - 1] == g {
        assert Held(s, n, g) == Held(s, n - 1, g) + {n - 1};
      } else {
        assert Held(s, n, g) == Held(s, n - 1, g);
      }
    }
  }

  /** A group's new load is its old load plus the shards that arrived minus those that left. */
  lemma LoadChange(a: seq<Gid>, b: seq<Gid>, g: Gid)
    requires |a| == |b|
    ensures Load(b, g) + |Arrivals(b, a, g)| == Load(a, g) + |Arrivals(a, b, g)|
  {
    var n := |a|;
    LoadIsHeld(a, n, g);
    LoadIsHeld(b, n, g);
    assert a[..n] == a && b[..n] == b;
    var stay := set i: nat | i < n && a[i] == g && b[i] == g;
    assert Held(a, n, g) == stay + Arrivals(b, a, g);
    assert Held(b, n, g) == stay + Arrivals(a, b, g);
  }

  lemma GainersArrivals(a: seq<Gid>, b: seq<Gid>, g: Gid)
    requires |a| == |b|
    ensures g in Gainers(a, b) <==> |Arrivals(a, b, g)| > 0
  {
    if g in Gainers(a, b) {
      var i: nat :| i < |a| && a[i] != b[i] && b[i] == g;
      assert i in Arrivals(a, b, g);
    }
    if |Arrivals(a, b, g)| > 0 {
      var i := Pick(Arrivals(a, b, g));
      assert b[i] in Gainers(a, b);
    }
  }

  /** Moving a shard that still sits where it started adds one gainer and one loser. */
  lemma GainersMove(a: seq<Gid>, s: seq<Gid>, p: nat, x: Gid)
    requires |a| == |s| && p < |s| && s[p] == a[p] != x
    ensures Gainers(a, s[p := x]) == Gainers(a, s) + {x}
    ensures Gainers(s[p := x], a) == Gainers(s, a) + {a[p]}
  {
  }

  /** If no group takes in more shards, no more shards change. */
  lemma FewerArrivals(a: seq<Gid>, b: seq<Gid>, c: seq<Gid>, d: seq<Gid>)
    requires |a| == |b| && |c| == |d|
    requires forall g :: |Arrivals(a, b, g)| <= |Arrivals(c, d, g)|
    ensures |Changed(a, b)| <= |Changed(c, d)|
  {
    var G := Gainers(a, b) + Gainers(c, d);
    FewerArrivalsIn(a, b, c, d, G);
    assert ArrivalsIn(a, b, G) == Changed(a, b);
    assert ArrivalsIn(c, d, G) == Changed(c, d);
  }

  ghost function ArrivalsIn(a: seq<Gid>, b: seq<Gid>, G: set<Gid>): set<nat>
    requires |a| == |b|
  {
    set i: nat | i < |a| && a[i] != b[i] && b[i] in G
  }

  lemma {:induction false} FewerArrivalsIn(a: seq<Gid>, b: seq<Gid>, c: seq<Gid>, d: seq<Gid>, G: set<Gid>)
    requires |a| == |b| && |c| == |d|
    requires forall g :: |Arrivals(a, b, g)| <= |Arrivals(c, d, g)|
    ensures |ArrivalsIn(a, b, G)| <= |ArrivalsIn(c, d, G)|
    decreases G
  {
    if G != {} {
      var g := Pick(G);
      FewerArrivalsIn(a, b, c, d, G - {g});
      assert ArrivalsIn(a, b, G) == ArrivalsIn(a, b, G - {g}) + Arrivals(a, b, g);
      assert ArrivalsIn(c, d, G) == ArrivalsIn(c, d, G - {g}) + Arrivals(c, d, g);
    } else {
      assert ArrivalsIn(a, b, G) == {};
    }
  }

  // ----- sums over a set of groups

  function Square(k: nat): nat {
    k * k
  }

  lemma SquareNext(k: nat)
    ensures Square(k + 1) == Square(k) + 2 * k + 1
  {
  }

  /** The sum of the squared loads of the groups in `G`. */
  ghost function SquareSum(m: multiset<Gid>, G: set<Gid>): nat
  {
    if G == {} then 0 else var g := Pick(G); Square(m[g]) + SquareSum(m, G - {g})
  }

  lemma {:induction false} SquareSumSplit(m: multiset<Gid>, G: set<Gid>, g: Gid)
    requires g in G
    ensures SquareSum(m, G) == Square(m[g]) + SquareSum(m, G - {g})
    decreases G
  {
    var h := Pick(G);
    if h != g {
      SquareSumSplit(m, G - {h}, g);
      SquareSumSplit(m, G - {g}, h);
      assert G - {h} - {g} == G - {g} - {h};
    }
  }

  lemma {:induction false} SquareSumFrame(m: multiset<Gid>, n: multiset<Gid>, G: set<Gid>)
    requires forall g | g in G :: m[g] == n[g]
    ensures SquareSum(m, G) == SquareSum(n, G)
    decreases G
  {
    if G != {} {
      var g := Pick(G);
      SquareSumSplit(m, G, g);
      SquareSumSplit(n, G, g);
      SquareSumFrame(m, n, G - {g});
    }
  }

  /** Taking a shard from `x` for `y` changes the sum of squares as these two loads say. */
  lemma SquareSumMove(m: multiset<Gid>, n: multiset<Gid>, G: set<Gid>, x: Gid, y: Gid)
    requires x in G && y in G && x != y
    requires m[x] > 0 && n[x] == m[x] - 1 && n[y] == m[y] + 1
    requires forall g | g in G && g != x && g != y :: m[g] == n[g]
    ensures SquareSum(n, G) == SquareSum(m, G) - 2 * m[x] + 2 * m[y] + 2
  {
    SquareSumSplit(m, G, x);
    SquareSumSplit(n, G, x);
    SquareSumSplit(m, G - {x}, y);
    SquareSumSplit(n, G - {x}, y);
    SquareSumFrame(m, n, G - {x} - {y});
    SquareNext(n[x]);
    SquareNext(m[y]);
  }

  // ----- how many shards a set of groups holds

  ghost function HeldIn(s: seq<Gid>, G: set<Gid>): set<nat> {
    set i: nat | i < |s| && s[i] in G
  }

  lemma HeldInSplit(s: seq<Gid>, G: set<Gid>, g: Gid)
    requires g in G
    ensures |HeldIn(s, G)| == |HeldIn(s, G - {g})| + Load(s, g)
  {
    LoadIsHeld(s, |s|, g);
    assert s[..|s|] == s;
    assert HeldIn(s, G) == HeldIn(s, G - {g}) + Held(s, |s|, g);
  }

  /** y times x, by repeated addition. */
  function Times(x: nat, y: nat): nat {
    if y == 0 then 0 else Times(x, y - 1) + x
  }

  lemma {:induction false} TimesIsProduct(x: nat, y: nat)
    ensures Times(x, y) == x * y
  {
    if y > 0 {
      TimesIsProduct(x, y - 1);
    }
  }

  lemma {:induction false} TimesSum(x: nat, y: nat, z: nat)
    ensures Times(x, y + z) == Times(x, y) + Times(x, z)
    ensures Times(x + 1, y) == Times(x, y) + y
  {
    if z > 0 {
      TimesSum(x, y, z - 1);
    } else if y > 0 {
      TimesSum(x, y - 1, 0);
    }
  }

  lemma TimesDivide(n: nat, d: nat)
    requires d > 0
    ensures n == Times(n / d, d) + n % d
  {
    TimesIsProduct(n / d, d);
  }

  lemma TimesUnique(d: nat, p: nat, x: nat, q: nat, y: nat)
    requires Times(p, d) + x == Times(q, d) + y && x < d && y < d
    ensures p == q && x == y
  {
    if q < p {
      TimesMore(q, p, d);
    } else if p < q {
      TimesMore(p, q, d);
    }
  }

  /** What lies between q * d and the next multiple has quotient q. */
  lemma TimesQuotient(n: nat, d: nat, q: nat)
    requires Times(q, d) <= n < Times(q, d) + d
    ensures n / d == q && n % d == n - Times(q, d)
  {
    TimesDivide(n, d);
    TimesUnique(d, n / d, n % d, q, n - Times(q, d));
  }

  lemma {:induction false} TimesMore(p: nat, q: nat, d: nat)
    requires p < q
    ensures Times(p, d) + d <= Times(q, d)
  {
    if d > 0 {
      TimesMore(p, q, d - 1);
    }
  }

  /** Bounds on the loads of some groups bound what they hold together. */
  lemma {:induction false} HeldInBounds(s: seq<Gid>, G: set<Gid>, low: nat, high: nat)
    requires forall g | g in G :: low <= Load(s, g) <= high
    ensures Times(low, |G|) <= |HeldIn(s, G)| <= Times(high, |G|)
    decreases G
  {
    if G == {} {
      assert HeldIn(s, G) == {};
    } else {
      var g := Pick(G);
      HeldInSplit(s, G, g);
      HeldInBounds(s, G - {g}, low, high);
    }
  }

  lemma {:induction false} HeldByAll(s: seq<Gid>, G: set<Gid>)
    requires forall i | 0 <= i < |s| :: s[i] in G
    ensures |HeldIn(s, G)| == |s|
  {
    if s != [] {
      var n := |s| - 1;
      HeldByAll(s[..n], G);
      assert HeldIn(s, G) == HeldIn(s[..n], G) + {n};
    }
  }

  lemma {:induction false} HeldAtMost(s: seq<Gid>, G: set<Gid>)
    ensures |HeldIn(s, G)| <= |s|
  {
    if s == [] {
      assert HeldIn(s, G) == {};
    } else {
      var n := |s| - 1;
      HeldAtMost(s[..n], G);
      assert HeldIn(s, G) == HeldIn(s[..n], G) + if s[n] in G then {n} else {};
    }
  }

  lemma UnionSize(G: set<Gid>, H: set<Gid>)
    requires G !! H
    ensures |G + H| == |G| + |H|
  {
  }

  /** Two disjoint sets of groups that share all shards between them. */
  lemma HeldByTwo(s: seq<Gid>, G: set<Gid>, H: set<Gid>)
    requires G !! H && forall i | 0 <= i < |s| :: s[i] in G + H
    ensures |HeldIn(s, G)| + |HeldIn(s, H)| == |s|
  {
    HeldByAll(s, G + H);
    assert HeldIn(s, G + H) == HeldIn(s, G) + HeldIn(s, H);
  }
}
