/** The recomputation walk `recomputeDependents(cellId, visited)` as pure
    functions over the cell map and the dependents map.

    The engine signals a cycle by throwing `#CIRC!` on entry to a cell that
    is already on the current path; the caller catches it and stores the
    error in that dependent.  Here `Recompute` returns the flag instead of
    throwing, and `Visit` stores the error. */
module Propagation {
  import opened Values
  import opened Graph
  import opened Formula

  /** The dependents of `id` in walk order (an empty set when none). */
  function DependentsOf(g: Rdeps, id: string): seq<string>
  {
    if id in g then g[id] else []
  }

  /** Every cell keeps its raw input, and no cell appears or disappears. */
  predicate SameRaws(before: map<string, Cell>, after: map<string, Cell>)
  {
    after.Keys == before.Keys && forall k :: k in before ==> after[k].raw == before[k].raw
  }

  /** A cell that does not hold a formula is left exactly as it was. */
  predicate PlainKept(before: map<string, Cell>, after: map<string, Cell>)
    requires after.Keys == before.Keys
  {
    forall k :: k in before && !IsFormula(before[k].raw) ==> after[k] == before[k]
  }

  /** `recomputeDependents(id, visited)`: the cells after the walk, and
      whether the call threw `#CIRC!` (id already on the path, nothing
      changed). */
  function Recompute(cs: map<string, Cell>, g: Rdeps, id: string, visited: set<string>): (r: (map<string, Cell>, bool))
    ensures SameRaws(cs, r.0) && PlainKept(cs, r.0)
    ensures r.1 <==> id in visited
    ensures r.1 ==> r.0 == cs
    decreases |cs.Keys - (visited + {id})|, if id in visited then 0 else 3
  {
    if id in visited then (cs, true)
    else (WalkList(cs, g, DependentsOf(g, id), visited + {id}), false)
  }

  /** The `forEach` over a dependents list, on the path `path`. */
  function WalkList(cs: map<string, Cell>, g: Rdeps, ds: seq<string>, path: set<string>): (r: map<string, Cell>)
    ensures SameRaws(cs, r) && PlainKept(cs, r)
    decreases |cs.Keys - path|, 2, |ds|
  {
    if ds == [] then cs
    else
      var cs' := WalkList(cs, g, ds[..|ds| - 1], path);
      Visit(cs', g, ds[|ds| - 1], path)
  }

  /** One dependent: a formula cell is re-evaluated against the current
      values, then its own dependents are walked; a cycle report stores
      `#CIRC!` in it.  Any other cell is skipped. */
  function Visit(cs: map<string, Cell>, g: Rdeps, d: string, path: set<string>): (r: map<string, Cell>)
    ensures SameRaws(cs, r) && PlainKept(cs, r)
    decreases |cs.Keys - path|, 1
  {
    if d in cs && IsFormula(cs[d].raw) then
      var raw := cs[d].raw;
      var cs1 := cs[d := Cell(raw, Resolve(cs, raw[1..]))];
      assert cs1.Keys == cs.Keys;
      PathGrows(cs.Keys, path, d);
      var (cs2, circular) := Recompute(cs1, g, d, path);
      if circular then cs2[d := Cell(raw, Err(CircMsg))] else cs2
    else cs
  }

  /** One more dependent walked is one more visit. */
  lemma WalkSnoc(cs: map<string, Cell>, g: Rdeps, ds: seq<string>, i: nat, path: set<string>)
    requires i < |ds|
    ensures WalkList(cs, g, ds[..i + 1], path) == Visit(WalkList(cs, g, ds[..i], path), g, ds[i], path)
  {
    assert ds[..i + 1][..i] == ds[..i];
  }

  /** Adding a cell to the path never leaves more unvisited cells, and
      adding a new one leaves fewer: why the walk ends. */
  lemma PathGrows(keys: set<string>, path: set<string>, d: string)
    requires d in keys
    ensures |keys - (path + {d})| <= |keys - path|
    ensures d !in path ==> |keys - (path + {d})| < |keys - path|
  {
    if d in path {
      assert keys - (path + {d}) == keys - path;
    } else {
      assert keys - path == (keys - (path + {d})) + {d};
    }
  }

  // ---------------------------------------------------------------------------
  // Cycles
  // ---------------------------------------------------------------------------

  /** A call from the top (empty visited set) never reports a cycle. */
  lemma TopLevelNotCircular(cs: map<string, Cell>, g: Rdeps, id: string)
    ensures !Recompute(cs, g, id, {}).1
  {
  }

  /** A formula cell met again on the current path ends as `#CIRC!`. */
  lemma RevisitIsCircular(cs: map<string, Cell>, g: Rdeps, d: string, path: set<string>)
    requires d in cs && IsFormula(cs[d].raw) && d in path
    ensures Visit(cs, g, d, path)[d] == Cell(cs[d].raw, Err(CircMsg))
  {
  }

  /** A cell on the path keeps its value or ends as `#CIRC!`: the walk
      touches it only through a Visit, and every Visit of a cell on the
      path ends in the cycle report. */
  predicate PathKept(before: map<string, Cell>, after: map<string, Cell>, path: set<string>)
    requires after.Keys == before.Keys
  {
    forall k :: k in path && k in before ==>
      after[k] == before[k] || after[k] == Cell(before[k].raw, Err(CircMsg))
  }

  lemma {:induction false} RecomputePath(cs: map<string, Cell>, g: Rdeps, id: string, visited: set<string>)
    ensures PathKept(cs, Recompute(cs, g, id, visited).0, visited + {id})
    decreases |cs.Keys - (visited + {id})|, if id in visited then 0 else 3
  {
    if id !in visited {
      WalkPath(cs, g, DependentsOf(g, id), visited + {id});
    }
  }

  lemma {:induction false} WalkPath(cs: map<string, Cell>, g: Rdeps, ds: seq<string>, path: set<string>)
    ensures PathKept(cs, WalkList(cs, g, ds, path), path)
    decreases |cs.Keys - path|, 2, |ds|
  {
    if ds != [] {
      var cs' := WalkList(cs, g, ds[..|ds| - 1], path);
      WalkPath(cs, g, ds[..|ds| - 1], path);
      VisitPath(cs', g, ds[|ds| - 1], path);
    }
  }

  lemma {:induction false} VisitPath(cs: map<string, Cell>, g: Rdeps, d: string, path: set<string>)
    ensures PathKept(cs, Visit(cs, g, d, path), path)
    decreases |cs.Keys - path|, 1
  {
    if d in cs && IsFormula(cs[d].raw) {
      var raw := cs[d].raw;
      var cs1 := cs[d := Cell(raw, Resolve(cs, raw[1..]))];
      assert cs1.Keys == cs.Keys;
      PathGrows(cs.Keys, path, d);
      RecomputePath(cs1, g, d, path);
    }
  }

  // ---------------------------------------------------------------------------
  // Acyclic graphs: a diamond is not a cycle
  // ---------------------------------------------------------------------------

  /** `rank` orders the graph: every edge from a cell to a dependent goes
      up in rank.  A graph has such a ranking exactly when it has no cycle. */
  predicate Ranked(g: Rdeps, rank: map<string, nat>)
  {
    forall t, x :: t in g && x in g[t] ==> t in rank && x in rank && rank[t] < rank[x]
  }

  /** Every cell on the path is ranked below `id`. */
  predicate Below(rank: map<string, nat>, path: set<string>, id: string)
  {
    id in rank && forall v :: v in path ==> v in rank && rank[v] < rank[id]
  }

  /** No cell the walk changes is given `#CIRC!`. */
  predicate NoNewCycle(before: map<string, Cell>, after: map<string, Cell>)
    requires after.Keys == before.Keys
  {
    forall k :: k in before && after[k] != before[k] ==> after[k].value != Err(CircMsg)
  }

  /** On a ranked graph the walk reports no cycle and flags no cell, even
      when a cell is reached along several routes (a diamond). */
  lemma {:induction false} RankedNotCircular(cs: map<string, Cell>, g: Rdeps, rank: map<string, nat>, id: string, visited: set<string>)
    requires Ranked(g, rank) && Below(rank, visited, id)
    ensures !Recompute(cs, g, id, visited).1
    ensures NoNewCycle(cs, Recompute(cs, g, id, visited).0)
    decreases |cs.Keys - (visited + {id})|, if id in visited then 0 else 3
  {
    if id !in visited {
      var ds := DependentsOf(g, id);
      assert forall k :: 0 <= k < |ds| ==> ds[k] in g[id];
      RankedWalk(cs, g, rank, DependentsOf(g, id), visited + {id}, id);
    }
  }

  lemma {:induction false} RankedWalk(cs: map<string, Cell>, g: Rdeps, rank: map<string, nat>, ds: seq<string>, path: set<string>, id: string)
    requires Ranked(g, rank) && id in path && id in rank
    requires forall v :: v in path ==> v in rank && rank[v] <= rank[id]
    requires forall k :: 0 <= k < |ds| ==> ds[k] in rank && rank[id] < rank[ds[k]]
    ensures NoNewCycle(cs, WalkList(cs, g, ds, path))
    decreases |cs.Keys - path|, 2, |ds|
  {
    if ds != [] {
      var cs' := WalkList(cs, g, ds[..|ds| - 1], path);
      RankedWalk(cs, g, rank, ds[..|ds| - 1], path, id);
      RankedVisit(cs', g, rank, ds[|ds| - 1], path);
    }
  }

  lemma {:induction false} RankedVisit(cs: map<string, Cell>, g: Rdeps, rank: map<string, nat>, d: string, path: set<string>)
    requires Ranked(g, rank) && Below(rank, path, d)
    ensures NoNewCycle(cs, Visit(cs, g, d, path))
    decreases |cs.Keys - path|, 1
  {
    if d in cs && IsFormula(cs[d].raw) {
      var raw := cs[d].raw;
      var cs1 := cs[d := Cell(raw, Resolve(cs, raw[1..]))];
      assert cs1.Keys == cs.Keys;
      PathGrows(cs.Keys, path, d);
      RankedNotCircular(cs1, g, rank, d, path);
    }
  }

  /** A cell the walk from `id` may change is ranked above `id`. */
  predicate KeptUpTo(before: map<string, Cell>, after: map<string, Cell>, rank: map<string, nat>, level: int)
    requires after.Keys == before.Keys
  {
    forall k :: k in before && !(k in rank && rank[k] > level) ==> after[k] == before[k]
  }

  /** On a ranked graph the walk from `id` changes only cells ranked above
      it. */
  lemma {:induction false} RankedChangesAbove(cs: map<string, Cell>, g: Rdeps, rank: map<string, nat>, id: string, visited: set<string>)
    requires Ranked(g, rank) && Below(rank, visited, id)
    ensures KeptUpTo(cs, Recompute(cs, g, id, visited).0, rank, rank[id])
    decreases |cs.Keys - (visited + {id})|, if id in visited then 0 else 3
  {
    if id !in visited {
      var ds := DependentsOf(g, id);
      assert forall k :: 0 <= k < |ds| ==> ds[k] in g[id];
      RankedWalkAbove(cs, g, rank, ds, visited + {id}, id);
    }
  }

  lemma {:induction false} RankedWalkAbove(cs: map<string, Cell>, g: Rdeps, rank: map<string, nat>, ds: seq<string>, path: set<string>, id: string)
    requires Ranked(g, rank) && id in path && id in rank
    requires forall v :: v in path ==> v in rank && rank[v] <= rank[id]
    requires forall k :: 0 <= k < |ds| ==> ds[k] in rank && rank[id] < rank[ds[k]]
    ensures KeptUpTo(cs, WalkList(cs, g, ds, path), rank, rank[id])
    decreases |cs.Keys - path|, 2, |ds|
  {
    if ds != [] {
      var cs' := WalkList(cs, g, ds[..|ds| - 1], path);
      RankedWalkAbove(cs, g, rank, ds[..|ds| - 1], path, id);
      FreshValue(cs', g, rank, ds[|ds| - 1], path);
    }
  }

  /** On a ranked graph a visited formula cell ends with its value
      re-evaluated against the cells as they were when it was reached, and
      nothing ranked below it changes. */
  lemma {:induction false} FreshValue(cs: map<string, Cell>, g: Rdeps, rank: map<string, nat>, d: string, path: set<string>)
    requires Ranked(g, rank) && Below(rank, path, d)
    ensures KeptUpTo(cs, Visit(cs, g, d, path), rank, rank[d] as int - 1)
    ensures d in cs && IsFormula(cs[d].raw) ==>
              Visit(cs, g, d, path)[d] == Cell(cs[d].raw, Resolve(cs, cs[d].raw[1..]))
    decreases |cs.Keys - path|, 1
  {
    if d in cs && IsFormula(cs[d].raw) {
      var raw := cs[d].raw;
      var cs1 := cs[d := Cell(raw, Resolve(cs, raw[1..]))];
      assert cs1.Keys == cs.Keys;
      PathGrows(cs.Keys, path, d);
      RankedNotCircular(cs1, g, rank, d, path);
      RankedChangesAbove(cs1, g, rank, d, path);
    }
  }

  /** A diamond: `b` and `c` both name `a`, and `d` names both `b` and `c`.
      The walk from `a` reaches `d` twice, along two routes, and still
      reports no cycle and stores `#CIRC!` nowhere. */
  lemma Diamond(cs: map<string, Cell>, a: string, b: string, c: string, d: string)
    requires a != b && a != c && a != d && b != c && b != d && c != d
    ensures var g: Rdeps := map[a := [b, c], b := [d], c := [d]];
            !Recompute(cs, g, a, {}).1 && NoNewCycle(cs, Recompute(cs, g, a, {}).0)
  {
    var g: Rdeps := map[a := [b, c], b := [d], c := [d]];
    var rank := map[a := 0, b := 1, c := 1, d := 2];
    assert Ranked(g, rank);
    RankedNotCircular(cs, g, rank, a, {});
  }

  // ---------------------------------------------------------------------------
  // Reachability: the walk re-evaluates every formula downstream of the cell
  // ---------------------------------------------------------------------------

  /** A route along the dependents map: each cell is followed by one of its
      dependents. */
  predicate IsRoute(g: Rdeps, p: seq<string>)
  {
    |p| > 0 && forall i :: 0 <= i < |p| - 1 ==> p[i + 1] in DependentsOf(g, p[i])
  }

  /** `c` is `a` itself or lies downstream of it. */
  ghost predicate Reaches(g: Rdeps, a: string, c: string)
  {
    exists p :: IsRoute(g, p) && p[0] == a && p[|p| - 1] == c
  }

  /** `c` lies at or downstream of one of the cells in `ds`. */
  ghost predicate ReachesAny(g: Rdeps, ds: seq<string>, c: string)
  {
    exists j :: 0 <= j < |ds| && Reaches(g, ds[j], c)
  }

  lemma ReachSelf(g: Rdeps, a: string)
    ensures Reaches(g, a, a)
  {
    assert IsRoute(g, [a]);
  }

  /** A route from a dependent `b` of `a` extends back to `a`. */
  lemma ReachBack(g: Rdeps, a: string, b: string, c: string)
    requires b in DependentsOf(g, a) && Reaches(g, b, c)
    ensures Reaches(g, a, c)
  {
    var p :| IsRoute(g, p) && p[0] == b && p[|p| - 1] == c;
    var q := [a] + p;
    forall i | 0 <= i < |q| - 1
      ensures q[i + 1] in DependentsOf(g, q[i])
    {
      if i > 0 {
        assert q[i] == p[i - 1] && q[i + 1] == p[i];
      }
    }
    assert IsRoute(g, q) && q[0] == a && q[|q| - 1] == c;
  }

  /** A route to `b` extends to any dependent `c` of `b`. */
  lemma ReachOn(g: Rdeps, a: string, b: string, c: string)
    requires Reaches(g, a, b) && c in DependentsOf(g, b)
    ensures Reaches(g, a, c)
  {
    var p :| IsRoute(g, p) && p[0] == a && p[|p| - 1] == b;
    var q := p + [c];
    forall i | 0 <= i < |q| - 1
      ensures q[i + 1] in DependentsOf(g, q[i])
    {
      if i < |p| - 1 {
        assert q[i] == p[i] && q[i + 1] == p[i + 1];
      }
    }
    assert IsRoute(g, q) && q[0] == a && q[|q| - 1] == c;
  }

  /** A cell downstream of `a` other than `a` is downstream of one of `a`'s
      dependents. */
  lemma ReachSplit(g: Rdeps, a: string, c: string)
    requires Reaches(g, a, c) && c != a
    ensures ReachesAny(g, DependentsOf(g, a), c)
  {
    var p :| IsRoute(g, p) && p[0] == a && p[|p| - 1] == c;
    var ds := DependentsOf(g, a);
    var q := p[1..];
    assert IsRoute(g, q) by {
      forall i | 0 <= i < |q| - 1
        ensures q[i + 1] in DependentsOf(g, q[i])
      {
        assert q[i] == p[i + 1] && q[i + 1] == p[i + 2];
      }
    }
    assert q[0] in ds;
    var j :| 0 <= j < |ds| && ds[j] == q[0];
    assert Reaches(g, ds[j], c) by {
      assert q[|q| - 1] == c;
    }
  }

  /** Every cell whose entry differs lies at or downstream of `d`. */
  ghost predicate ChangedBelow(before: map<string, Cell>, after: map<string, Cell>, g: Rdeps, d: string)
    requires after.Keys == before.Keys
  {
    forall k :: k in before && after[k] != before[k] ==> Reaches(g, d, k)
  }

  /** Every cell whose entry differs lies at or downstream of a cell of `ds`. */
  ghost predicate ChangedBelowAny(before: map<string, Cell>, after: map<string, Cell>, g: Rdeps, ds: seq<string>)
    requires after.Keys == before.Keys
  {
    forall k :: k in before && after[k] != before[k] ==> ReachesAny(g, ds, k)
  }

  /** The walk from `id` changes only cells downstream of its dependents. */
  lemma {:induction false} RecomputeReach(cs: map<string, Cell>, g: Rdeps, id: string, visited: set<string>)
    ensures ChangedBelowAny(cs, Recompute(cs, g, id, visited).0, g, DependentsOf(g, id))
    decreases |cs.Keys - (visited + {id})|, if id in visited then 0 else 3
  {
    if id !in visited {
      WalkReach(cs, g, DependentsOf(g, id), visited + {id});
    }
  }

  lemma {:induction false} WalkReach(cs: map<string, Cell>, g: Rdeps, ds: seq<string>, path: set<string>)
    ensures ChangedBelowAny(cs, WalkList(cs, g, ds, path), g, ds)
    decreases |cs.Keys - path|, 2, |ds|
  {
    if ds != [] {
      var init, d := ds[..|ds| - 1], ds[|ds| - 1];
      var cs1 := WalkList(cs, g, init, path);
      var cs2 := WalkList(cs, g, ds, path);
      WalkReach(cs, g, init, path);
      VisitReach(cs1, g, d, path);
      forall k | k in cs && cs2[k] != cs[k]
        ensures ReachesAny(g, ds, k)
      {
        if cs1[k] != cs[k] {
          var j :| 0 <= j < |init| && Reaches(g, init[j], k);
          assert init[j] == ds[j];
        } else {
          assert Reaches(g, ds[|ds| - 1], k);
        }
      }
    }
  }

  lemma {:induction false} VisitReach(cs: map<string, Cell>, g: Rdeps, d: string, path: set<string>)
    ensures ChangedBelow(cs, Visit(cs, g, d, path), g, d)
    decreases |cs.Keys - path|, 1
  {
    if d in cs && IsFormula(cs[d].raw) {
      var raw := cs[d].raw;
      var cs1 := cs[d := Cell(raw, Resolve(cs, raw[1..]))];
      assert cs1.Keys == cs.Keys;
      PathGrows(cs.Keys, path, d);
      RecomputeReach(cs1, g, d, path);
      var ds := DependentsOf(g, d);
      forall k | k in cs && Visit(cs, g, d, path)[k] != cs[k]
        ensures Reaches(g, d, k)
      {
        if k == d {
          ReachSelf(g, d);
        } else {
          var j :| 0 <= j < |ds| && Reaches(g, ds[j], k);
          ReachBack(g, d, ds[j], k);
        }
      }
    }
  }

  /** The references of a formula's body, in order. */
  function BodyRefs(raw: string): seq<string>
    requires IsFormula(raw)
  {
    ScanRefs(raw[1..], 0)
  }

  /** A formula cell whose formula does not name the cell itself. */
  predicate SelfFree(cs: map<string, Cell>, c: string)
  {
    c in cs && IsFormula(cs[c].raw) &&
    forall k :: 0 <= k < |BodyRefs(cs[c].raw)| ==> Upper(BodyRefs(cs[c].raw)[k]) != c
  }

  /** A formula cell holds its formula evaluated against the cells. */
  predicate Settled(cs: map<string, Cell>, c: string)
    requires c in cs && IsFormula(cs[c].raw)
  {
    cs[c].value == Resolve(cs, cs[c].raw[1..])
  }

  /** The dependents map covers the formulas: a formula cell is listed
      among the dependents of every other cell its formula names, and only
      formula cells are listed. */
  predicate Covers(cs: map<string, Cell>, g: Rdeps)
  {
    (forall t, x :: t in g && x in g[t] ==> x in cs && IsFormula(cs[x].raw)) &&
    (forall c, k ::
       (c in cs && IsFormula(cs[c].raw) && 0 <= k < |BodyRefs(cs[c].raw)| && Upper(BodyRefs(cs[c].raw)[k]) != c)
       ==> c in DependentsOf(g, Upper(BodyRefs(cs[c].raw)[k])))
  }

  /** Covers and SelfFree speak only of raw inputs. */
  lemma CoversKept(cs: map<string, Cell>, cs': map<string, Cell>, g: Rdeps)
    requires SameRaws(cs, cs') && Covers(cs, g)
    ensures Covers(cs', g)
    ensures forall c :: SelfFree(cs, c) <==> SelfFree(cs', c)
  {
    forall c | c in cs'
      ensures cs'[c].raw == cs[c].raw
    {
    }
  }

  /** A cell not downstream of `d`, whose formula names no cell downstream
      of `d`, keeps its value and the values it reads. */
  lemma StaysSettled(before: map<string, Cell>, after: map<string, Cell>, g: Rdeps, d: string, c: string)
    requires after.Keys == before.Keys && ChangedBelow(before, after, g, d)
    requires Covers(before, g) && SelfFree(before, c) && Settled(before, c)
    requires !Reaches(g, d, c)
    ensures after[c] == before[c] && Settled(after, c)
  {
    var refs := BodyRefs(before[c].raw);
    forall k | 0 <= k < |refs|
      ensures Read(before, refs[k]) == Read(after, refs[k])
    {
      var t := Upper(refs[k]);
      assert c in DependentsOf(g, t);
      if Reaches(g, d, t) {
        ReachOn(g, d, t, c);
      }
    }
    ResolveLocal(before, after, before[c].raw[1..]);
  }

  /** The cell a visit starts from ends up to date: its references are
      ranked below it, so the rest of the walk leaves them alone. */
  lemma SelfSettled(cs: map<string, Cell>, cs2: map<string, Cell>, g: Rdeps, rank: map<string, nat>, d: string)
    requires Ranked(g, rank) && Covers(cs, g) && SelfFree(cs, d) && d in rank
    requires cs2.Keys == cs.Keys
    requires var raw := cs[d].raw;
             KeptUpTo(cs[d := Cell(raw, Resolve(cs, raw[1..]))], cs2, rank, rank[d])
    ensures cs2[d] == Cell(cs[d].raw, Resolve(cs, cs[d].raw[1..])) && Settled(cs2, d)
  {
    var raw := cs[d].raw;
    var refs := BodyRefs(raw);
    forall k | 0 <= k < |refs|
      ensures Read(cs, refs[k]) == Read(cs2, refs[k])
    {
      var t := Upper(refs[k]);
      assert d in DependentsOf(g, t);
    }
    ResolveLocal(cs, cs2, raw[1..]);
  }

  /** On a ranked graph that covers the formulas, the walk over `ds` leaves
      every formula cell downstream of `ds` that does not name itself
      holding its formula evaluated against the final cells. */
  lemma {:induction false} SettledWalk(cs: map<string, Cell>, g: Rdeps, rank: map<string, nat>, ds: seq<string>, path: set<string>, id: string)
    requires Ranked(g, rank) && Covers(cs, g) && id in path && id in rank
    requires forall v :: v in path ==> v in rank && rank[v] <= rank[id]
    requires forall k :: 0 <= k < |ds| ==> ds[k] in DependentsOf(g, id)
    ensures forall c :: ReachesAny(g, ds, c) && SelfFree(cs, c) ==> Settled(WalkList(cs, g, ds, path), c)
    decreases |cs.Keys - path|, 2, |ds|
  {
    if ds != [] {
      var init, d := ds[..|ds| - 1], ds[|ds| - 1];
      var cs1 := WalkList(cs, g, init, path);
      var cs2 := WalkList(cs, g, ds, path);
      assert forall k :: 0 <= k < |init| ==> init[k] == ds[k];
      SettledWalk(cs, g, rank, init, path, id);
      CoversKept(cs, cs1, g);
      NextDependent(cs1, g, rank, path, id, d);
      SettledVisit(cs1, g, rank, d, path);
      VisitReach(cs1, g, d, path);
      assert cs2 == Visit(cs1, g, d, path);
      SettledJoin(cs, cs1, cs2, g, ds);
    }
  }

  /** A dependent of `id` is a formula cell ranked above the whole path. */
  lemma NextDependent(cs: map<string, Cell>, g: Rdeps, rank: map<string, nat>, path: set<string>, id: string, d: string)
    requires Ranked(g, rank) && Covers(cs, g) && id in rank
    requires forall v :: v in path ==> v in rank && rank[v] <= rank[id]
    requires d in DependentsOf(g, id)
    ensures Below(rank, path, d) && d in cs && IsFormula(cs[d].raw)
  {
    assert rank[id] < rank[d];
  }

  /** SettledWalk's step over all cells at once. */
  lemma SettledJoin(cs: map<string, Cell>, cs1: map<string, Cell>, cs2: map<string, Cell>, g: Rdeps, ds: seq<string>)
    requires ds != [] && SameRaws(cs, cs1) && SameRaws(cs1, cs2) && Covers(cs1, g)
    requires forall c :: ReachesAny(g, ds[..|ds| - 1], c) && SelfFree(cs, c) ==> Settled(cs1, c)
    requires forall c :: Reaches(g, ds[|ds| - 1], c) && SelfFree(cs1, c) ==> Settled(cs2, c)
    requires ChangedBelow(cs1, cs2, g, ds[|ds| - 1])
    ensures forall c :: ReachesAny(g, ds, c) && SelfFree(cs, c) ==> Settled(cs2, c)
  {
    forall c | ReachesAny(g, ds, c) && SelfFree(cs, c)
      ensures Settled(cs2, c)
    {
      assert SelfFree(cs1, c);
      SettledLast(cs1, cs2, g, ds, c);
    }
  }

  /** The step of SettledWalk for one cell: downstream of the last dependent
      the visit settles it, and otherwise it was settled before and the
      visit leaves it so. */
  lemma SettledLast(cs1: map<string, Cell>, cs2: map<string, Cell>, g: Rdeps, ds: seq<string>, c: string)
    requires ds != [] && SameRaws(cs1, cs2) && Covers(cs1, g) && SelfFree(cs1, c)
    requires ReachesAny(g, ds, c)
    requires ChangedBelow(cs1, cs2, g, ds[|ds| - 1])
    requires Reaches(g, ds[|ds| - 1], c) ==> Settled(cs2, c)
    requires ReachesAny(g, ds[..|ds| - 1], c) ==> Settled(cs1, c)
    ensures Settled(cs2, c)
  {
    var init, d := ds[..|ds| - 1], ds[|ds| - 1];
    if !Reaches(g, d, c) {
      var j :| 0 <= j < |ds| && Reaches(g, ds[j], c);
      assert ReachesAny(g, init, c) by {
        assert init[j] == ds[j];
      }
      StaysSettled(cs1, cs2, g, d, c);
    }
  }

  lemma {:induction false} SettledVisit(cs: map<string, Cell>, g: Rdeps, rank: map<string, nat>, d: string, path: set<string>)
    requires Ranked(g, rank) && Covers(cs, g) && Below(rank, path, d)
    requires d in cs && IsFormula(cs[d].raw)
    ensures forall c :: Reaches(g, d, c) && SelfFree(cs, c) ==> Settled(Visit(cs, g, d, path), c)
    decreases |cs.Keys - path|, 1
  {
    var raw := cs[d].raw;
    var cs1 := cs[d := Cell(raw, Resolve(cs, raw[1..]))];
    assert cs1.Keys == cs.Keys;
    PathGrows(cs.Keys, path, d);
    RankedNotCircular(cs1, g, rank, d, path);
    RankedChangesAbove(cs1, g, rank, d, path);
    var ds := DependentsOf(g, d);
    var cs2 := WalkList(cs1, g, ds, path + {d});
    assert Visit(cs, g, d, path) == cs2;
    CoversKept(cs, cs1, g);
    SettledWalk(cs1, g, rank, ds, path + {d}, d);
    forall c | Reaches(g, d, c) && SelfFree(cs, c)
      ensures Settled(cs2, c)
    {
      if c == d {
        SelfSettled(cs, cs2, g, rank, d);
      } else {
        ReachSplit(g, d, c);
      }
    }
  }

  /** `recomputeDependents(id)` from the top, on a ranked graph that covers
      the formulas: every formula cell downstream of `id` that does not name
      itself ends holding its formula evaluated against the final cells. */
  lemma RecomputeSettles(cs: map<string, Cell>, g: Rdeps, rank: map<string, nat>, id: string)
    requires Ranked(g, rank) && Covers(cs, g) && id in rank
    ensures forall c :: ReachesAny(g, DependentsOf(g, id), c) && SelfFree(cs, c) ==>
              Settled(Recompute(cs, g, id, {}).0, c)
  {
    SettledWalk(cs, g, rank, DependentsOf(g, id), {id}, id);
    assert Recompute(cs, g, id, {}).0 == WalkList(cs, g, DependentsOf(g, id), {} + {id});
    assert {} + {id} == {id};
  }
}
