/** The encoder's warning about lower-case field names: a memoised walk over Go types, which may
    refer to each other in cycles. */
module TypeGraph {
  import opened Choice

  type Type = nat

  /** A struct field: whether its name starts with an upper-case letter, and its type. */
  datatype Field = Field(upper: bool, typ: Type)

  datatype Kind =
    | Struct(fields: seq<Field>)
    | ElemOf(elem: Type)              // slice, array or Ptr
    | MapOf(elem: Type, key: Type)
    | Basic

  /** Finitely many types, closed under what they refer to. */
  type Graph = g: map<Type, Kind> | Closed(g, g.Keys) witness map[]

  function Succs(k: Kind): set<Type> {
    match k
    case Struct(fields) => set f | f in fields :: f.typ
    case ElemOf(elem) => {elem}
    case MapOf(elem, key) => {elem, key}
    case Basic => {}
  }

  /** A type refers to its fields' types, its element type and its key type. */
  lemma SuccsAre(k: Kind, u: Type)
    ensures u in Succs(k) <==>
            || (k.Struct? && exists f :: f in k.fields && f.typ == u)
            || (k.ElemOf? && u == k.elem)
            || (k.MapOf? && (u == k.elem || u == k.key))
  {
  }

  /** Every type in `s` refers only to types in `s`. */
  ghost predicate Closed(g: map<Type, Kind>, s: set<Type>) {
    forall t | t in s && t in g :: Succs(g[t]) <= s
  }

  /** A chain of references from `t` to `u`. */
  ghost predicate Path(g: map<Type, Kind>, p: seq<Type>, t: Type, u: Type) {
    && p != [] && p[0] == t && p[|p| - 1] == u
    && forall i | 0 <= i < |p| - 1 :: p[i] in g && p[i + 1] in Succs(g[p[i]])
  }

  ghost predicate Reaches(g: map<Type, Kind>, t: Type, u: Type) {
    exists p :: Path(g, p, t, u)
  }

  function Lower(k: Kind): nat {
    if k.Struct? then LowerIn(k.fields) else 0
  }

  /** How many field names start with a lower-case letter. */
  function LowerIn(fields: seq<Field>): nat {
    if fields == [] then 0
    else LowerIn(fields[..|fields| - 1]) + if fields[|fields| - 1].upper then 0 else 1
  }

  ghost function LowerFields(fields: seq<Field>): set<nat> {
    set i: nat | i < |fields| && !fields[i].upper
  }

  lemma {:induction false} LowerInCounts(fields: seq<Field>)
    ensures LowerIn(fields) == |LowerFields(fields)|
  {
    if fields != [] {
      var n := |fields| - 1;
      LowerInCounts(fields[..n]);
      if fields[n].upper {
        assert LowerFields(fields) == LowerFields(fields[..n]);
      } else {
        assert LowerFields(fields) == LowerFields(fields[..n]) + {n};
      }
    }
  }

  /** The lower-case fields of all types in `s`. */
  ghost function LowerSum(g: map<Type, Kind>, s: set<Type>): nat
    requires s <= g.Keys
  {
    if s == {} then 0 else var t := Pick(s); Lower(g[t]) + LowerSum(g, s - {t})
  }

  lemma {:induction false} LowerSumRemove(g: map<Type, Kind>, s: set<Type>, t: Type)
    requires s <= g.Keys && t in s
    ensures LowerSum(g, s) == Lower(g[t]) + LowerSum(g, s - {t})
    decreases s
  {
    var u := Pick(s);
    if u != t {
      LowerSumRemove(g, s - {u}, t);
      LowerSumRemove(g, s - {t}, u);
      assert s - {u} - {t} == s - {t} - {u};
    }
  }

  lemma {:induction false} LowerSumUnion(g: map<Type, Kind>, s: set<Type>, r: set<Type>)
    requires s <= g.Keys && r <= g.Keys && s !! r
    ensures LowerSum(g, s + r) == LowerSum(g, s) + LowerSum(g, r)
    decreases s
  {
    if s == {} {
      assert s + r == r;
    } else {
      var t := Pick(s);
      LowerSumRemove(g, s + r, t);
      assert (s + r) - {t} == (s - {t}) + r;
      LowerSumUnion(g, s - {t}, r);
    }
  }

  lemma ReachesSelf(g: map<Type, Kind>, t: Type)
    ensures Reaches(g, t, t)
  {
    assert Path(g, [t], t, t);
  }

  lemma ReachesStep(g: map<Type, Kind>, t: Type, v: Type, u: Type)
    requires t in g && v in Succs(g[t]) && Reaches(g, v, u)
    ensures Reaches(g, t, u)
  {
    var p :| Path(g, p, v, u);
    assert Path(g, [t] + p, t, u);
  }

  /** A closed set holds everything reachable from its members. */
  lemma {:induction false} ClosedReaches(g: map<Type, Kind>, s: set<Type>, p: seq<Type>, t: Type, u: Type)
    requires Closed(g, s) && t in s && Path(g, p, t, u)
    ensures u in s
  {
    if |p| > 1 {
      assert Path(g, p[1..], p[1], u);
      ClosedReaches(g, s, p[1..], p[1], u);
    }
  }

  /** `now` grew from `before` by visiting what `t` reaches: every type added had all its successors
      visited, and no type was added that `t` does not reach. */
  ghost predicate Walked(g: map<Type, Kind>, before: set<Type>, now: set<Type>, t: Type) {
    && before <= now <= g.Keys
    && (forall u | u in now - before :: Succs(g[u]) <= now && Reaches(g, t, u))
  }

  /** How a walk from `t` began: the types visited, the errors counted and the scans made by then. */
  datatype Walk = Walk(t: Type, before: set<Type>, errors: nat, scans: multiset<Type>)

  /** The walker's global state. */
  class Checker {
    const graph: Graph
    var checked: set<Type>
    var errorCount: nat
    ghost var scans: multiset<Type>   // the types whose kind was examined, each time it was

    constructor (g: Graph)
      ensures graph == g && checked == {} && errorCount == 0 && scans == multiset{}
    {
      graph, checked, errorCount, scans := g, {}, 0, multiset{};
    }

    /** One call promises this whatever walk it is part of. */
    method CheckType(t: Type)
      requires t in graph && checked <= graph.Keys
      modifies this
      ensures t in checked
      ensures Walked(graph, old(checked), checked, t)
      ensures errorCount == old(errorCount) + LowerSum(graph, checked - old(checked))
      ensures scans == old(scans) + multiset(checked - old(checked))
      decreases graph.Keys - checked, 1
    {
      if t in checked {
        assert checked - old(checked) == {};
        return;
      }
      checked := checked + {t};
      scans := scans + multiset{t};
      WalkStarts(graph, old(checked), t);
      ghost var start := Walk(t, old(checked), old(errorCount), old(scans));
      match graph[t] {
        case Struct(fields) =>
          CheckFields(start, fields);
        case ElemOf(elem) =>
          CheckRef(start, elem);
        case MapOf(elem, key) =>
          CheckRef(start, elem);
          CheckRef(start, key);
        case Basic =>
      }
      WalkEnds(graph, old(checked), checked, t);
    }

    /** A walk is under way that has met `own` lower-case fields of its first type so far. */
    ghost predicate Tracks(w: Walk, own: nat)
      reads this
    {
      && Walking(graph, w.before, checked, w.t)
      && errorCount == w.errors + own + WalkSum(graph, w.before, checked, w.t)
      && scans == w.scans + multiset(checked - w.before)
    }

    /** Following one reference of the first type. */
    method CheckRef(ghost w: Walk, v: Type)
      requires Tracks(w, 0) && v in Succs(graph[w.t])
      modifies this
      ensures Tracks(w, 0) && old(checked) <= checked && v in checked
      decreases graph.Keys - checked, 2
    {
      CheckType(v);
      Extend(graph, w.before, old(checked), checked, w.t, v);
    }

    /** The loop over the fields of a struct. */
    method CheckFields(ghost w: Walk, fields: seq<Field>)
      requires Tracks(w, 0) && graph[w.t] == Struct(fields)
      modifies this
      ensures Tracks(w, LowerIn(fields)) && old(checked) <= checked && Succs(graph[w.t]) <= checked
      decreases graph.Keys - checked, 3
    {
      for i := 0 to |fields|
        invariant Tracks(w, LowerIn(fields[..i])) && old(checked) <= checked
        invariant forall k | 0 <= k < i :: fields[k].typ in checked
      {
        CheckField(w, fields, i);
      }
      assert fields[..|fields|] == fields;
    }

    /** One round of that loop. */
    method CheckField(ghost w: Walk, fields: seq<Field>, i: nat)
      requires i < |fields| && Tracks(w, LowerIn(fields[..i])) && graph[w.t] == Struct(fields)
      modifies this
      ensures Tracks(w, LowerIn(fields[..i + 1])) && old(checked) <= checked && fields[i].typ in checked
      decreases graph.Keys - checked, 2
    {
      var f := fields[i];
      assert fields[..i + 1][..i] == fields[..i];
      if !f.upper {
        errorCount := errorCount + 1;
      }
      CheckType(f.typ);
      Extend(graph, w.before, old(checked), checked, w.t, f.typ);
    }

    /** The top-level call: from a memo closed under references it ends with a closed memo that holds
        exactly the old types and everything reachable from `t`, having scanned each new type once
        and counted each of its lower-case fields once. */
    method Check(t: Type)
      requires t in graph && checked <= graph.Keys && Closed(graph, checked)
      modifies this
      ensures Closed(graph, checked) && checked <= graph.Keys
      ensures forall u | u in graph :: u in checked <==> u in old(checked) || Reaches(graph, t, u)
      ensures errorCount == old(errorCount) + LowerSum(graph, checked - old(checked))
      ensures scans == old(scans) + multiset(checked - old(checked))
    {
      ghost var before := checked;
      CheckType(t);
      forall u | u in graph && Reaches(graph, t, u) ensures u in checked {
        var p :| Path(graph, p, t, u);
        ClosedReaches(graph, checked, p, t, u);
      }
    }
  }

  /** A walk that began at `t` with `before` visited is under way: all types visited since, except
      `t` itself, have their successors visited too. */
  ghost predicate Walking(g: map<Type, Kind>, before: set<Type>, now: set<Type>, t: Type) {
    && t in g && t !in before && before + {t} <= now <= g.Keys
    && (forall u | u in now - before && u != t :: Succs(g[u]) <= now && Reaches(g, t, u))
  }

  /** The lower-case fields met so far, without those of `t`. */
  ghost function WalkSum(g: map<Type, Kind>, before: set<Type>, now: set<Type>, t: Type): nat
    requires Walking(g, before, now, t)
  {
    LowerSum(g, now - before - {t})
  }

  lemma WalkStarts(g: map<Type, Kind>, before: set<Type>, t: Type)
    requires t in g && t !in before && before <= g.Keys
    ensures Walking(g, before, before + {t}, t)
    ensures before + {t} - before == {t} && WalkSum(g, before, before + {t}, t) == 0
  {
  }

  lemma WalkEnds(g: map<Type, Kind>, before: set<Type>, now: set<Type>, t: Type)
    requires Walking(g, before, now, t) && Succs(g[t]) <= now
    ensures Walked(g, before, now, t)
    ensures LowerSum(g, now - before) == Lower(g[t]) + WalkSum(g, before, now, t)
  {
    ReachesSelf(g, t);
    LowerSumRemove(g, now - before, t);
  }

  /** Gluing the walk of a successor onto the walk so far. */
  lemma Extend(g: map<Type, Kind>, before: set<Type>, mid: set<Type>, now: set<Type>, t: Type, v: Type)
    requires Walking(g, before, mid, t) && v in Succs(g[t]) && Walked(g, mid, now, v)
    ensures Walking(g, before, now, t)
    ensures WalkSum(g, before, now, t) == WalkSum(g, before, mid, t) + LowerSum(g, now - mid)
    ensures multiset(now - before) == multiset(mid - before) + multiset(now - mid)
  {
    forall u | u in now - mid ensures Reaches(g, t, u) {
      ReachesStep(g, t, v, u);
    }
    assert now - before - {t} == (mid - before - {t}) + (now - mid);
    LowerSumUnion(g, mid - before - {t}, now - mid);
    assert now - before == (mid - before) + (now - mid);
  }
}
