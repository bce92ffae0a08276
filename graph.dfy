/** The dependency graph the engine keeps in two maps: `dependencies` from a
    formula cell to the set of cells its formula names, and `dependents`
    from a cell to the cells whose formulas name it.  A JavaScript Set keeps
    insertion order and the walk over `dependents` follows it, so each
    dependents set is a sequence without repetitions here. */
module Graph {
  import opened Values

  type Deps = map<string, set<string>>
  type Rdeps = map<string, seq<string>>

  predicate NoDuplicates(xs: seq<string>)
  {
    forall i, j :: 0 <= i < j < |xs| ==> xs[i] != xs[j]
  }

  /** The two maps describe the same edges, and no dependents list is empty
      or holds a cell twice. */
  predicate GraphOk(deps: Deps, rdeps: Rdeps)
  {
    (forall x, t :: x in deps && t in deps[x] ==> t in rdeps && x in rdeps[t]) &&
    (forall t, x :: t in rdeps && x in rdeps[t] ==> x in deps && t in deps[x]) &&
    (forall t :: t in rdeps ==> rdeps[t] != [] && NoDuplicates(rdeps[t]))
  }

  /** `Set.delete`: xs without x, the others in their order. */
  function Remove(xs: seq<string>, x: string): (r: seq<string>)
    ensures forall y :: y in r <==> y in xs && y != x
    ensures NoDuplicates(xs) ==> NoDuplicates(r)
    ensures |r| <= |xs|
  {
    if xs == [] then []
    else if xs[0] == x then Remove(xs[1..], x)
    else
      var rest := Remove(xs[1..], x);
      assert NoDuplicates(xs) ==> xs[0] !in xs[1..];
      [xs[0]] + rest
  }

  /** `Set.add`: x appended unless it is already there. */
  function AddIfAbsent(xs: seq<string>, x: string): (r: seq<string>)
    ensures forall y :: y in r <==> y in xs || y == x
    ensures NoDuplicates(xs) ==> NoDuplicates(r)
    ensures |xs| <= |r| <= |xs| + 1 && r[..|xs|] == xs
  {
    if x in xs then xs else xs + [x]
  }

  /** The dependents map after `removeDependencies(id)` has walked the
      targets: id is taken out of each target's list, and a list left empty
      is dropped. */
  function Detach(g: Rdeps, id: string, targets: set<string>): (r: Rdeps)
    ensures forall t, x :: t in r && x in r[t] <==> t in g && x in g[t] && !(x == id && t in targets)
    ensures forall t :: t in g && t !in targets ==> t in r && r[t] == g[t]
  {
    map t | t in g && (t !in targets || Remove(g[t], id) != []) ::
      if t in targets then Remove(g[t], id) else g[t]
  }

  /** One step of `updateDependents`: record that `id` depends on `r`,
      creating the list when `r` has none yet. */
  function Link(g: Rdeps, r: string, id: string): Rdeps
  {
    g[r := AddIfAbsent(if r in g then g[r] else [], id)]
  }

  /** The dependents map after `updateDependents(id)` has gone through the
      matches `refs` in order: each is upper-cased, and one naming `id`
      itself is skipped. */
  function Attach(g: Rdeps, id: string, refs: seq<string>): (r: Rdeps)
    ensures r.Keys == g.Keys + RefSet(id, refs)
  {
    if refs == [] then g
    else
      var g' := Attach(g, id, refs[..|refs| - 1]);
      var r := Upper(refs[|refs| - 1]);
      if r == id then g' else Link(g', r, id)
  }

  /** The set `updateDependents` stores as `dependencies[id]`, built as its
      loop builds it: each match upper-cased, one naming `id` skipped. */
  function RefSet(id: string, refs: seq<string>): (r: set<string>)
    ensures id !in r
  {
    if refs == [] then {}
    else
      var r := Upper(refs[|refs| - 1]);
      RefSet(id, refs[..|refs| - 1]) + (if r == id then {} else {r})
  }

  /** The set holds exactly the upper-cased matches other than `id`. */
  lemma {:induction false} RefSetMembers(id: string, refs: seq<string>)
    ensures forall k :: 0 <= k < |refs| && Upper(refs[k]) != id ==> Upper(refs[k]) in RefSet(id, refs)
    ensures forall x :: x in RefSet(id, refs) ==>
              x != id && exists k :: 0 <= k < |refs| && Upper(refs[k]) == x
  {
    if refs != [] {
      var init := refs[..|refs| - 1];
      RefSetMembers(id, init);
      assert forall k :: 0 <= k < |init| ==> init[k] == refs[k];
    }
  }

  // ---------------------------------------------------------------------------
  // What Detach and Attach do to the edges
  // ---------------------------------------------------------------------------

  /** Detaching from no target changes nothing. */
  lemma DetachNothing(g: Rdeps, id: string)
    ensures Detach(g, id, {}) == g
  {
  }

  /** Detaching from one more target is the step `removeDependencies`
      takes inside its loop. */
  lemma DetachStep(g: Rdeps, id: string, done: set<string>, t: string)
    requires t !in done
    ensures var h := Detach(g, id, done);
            var ds := Remove(if t in h then h[t] else [], id);
            Detach(g, id, done + {t}) == if ds == [] then h - {t} else h[t := ds]
  {
  }

  /** What Attach leaves: the old edges plus one from `id` to each
      referenced cell other than itself. */
  lemma {:induction false} AttachEdges(g: Rdeps, id: string, refs: seq<string>)
    ensures forall t :: t in Attach(g, id, refs) <==> t in g || t in RefSet(id, refs)
    ensures forall t, x :: t in Attach(g, id, refs) && x in Attach(g, id, refs)[t]
              <==> (t in g && x in g[t]) || (x == id && t in RefSet(id, refs))
    ensures forall t :: t in g && t !in RefSet(id, refs) ==> Attach(g, id, refs)[t] == g[t]
  {
    if refs != [] {
      var init := refs[..|refs| - 1];
      AttachEdges(g, id, init);
    }
  }

  /** Attach keeps every list free of repetitions and non-empty. */
  lemma {:induction false} AttachLists(g: Rdeps, id: string, refs: seq<string>)
    requires forall t :: t in g ==> g[t] != [] && NoDuplicates(g[t])
    ensures forall t :: t in Attach(g, id, refs) ==>
              Attach(g, id, refs)[t] != [] && NoDuplicates(Attach(g, id, refs)[t])
  {
    if refs != [] {
      AttachLists(g, id, refs[..|refs| - 1]);
    }
  }

  /** Every list Detach leaves is still free of repetitions and non-empty. */
  lemma DetachLists(g: Rdeps, id: string, targets: set<string>)
    requires forall t :: t in g ==> g[t] != [] && NoDuplicates(g[t])
    ensures forall t :: t in Detach(g, id, targets) ==>
              Detach(g, id, targets)[t] != [] && NoDuplicates(Detach(g, id, targets)[t])
  {
  }

  // ---------------------------------------------------------------------------
  // The invariant is kept
  // ---------------------------------------------------------------------------

  /** removeDependencies(id) keeps the two maps in step, and afterwards no
      list holds `id`. */
  lemma DetachKeepsGraph(deps: Deps, rdeps: Rdeps, id: string)
    requires GraphOk(deps, rdeps)
    ensures var targets := if id in deps then deps[id] else {};
            var g := Detach(rdeps, id, targets);
            GraphOk(deps - {id}, g) && forall t :: t in g ==> id !in g[t]
  {
    var targets := if id in deps then deps[id] else {};
    var g := Detach(rdeps, id, targets);
    DetachLists(rdeps, id, targets);
    SameEdges(deps, rdeps, id, targets, g);
  }

  /** The edge facts behind DetachKeepsGraph, stated over any map `g` that
      has exactly the edges Detach leaves. */
  lemma SameEdges(deps: Deps, rdeps: Rdeps, id: string, targets: set<string>, g: Rdeps)
    requires GraphOk(deps, rdeps)
    requires targets == if id in deps then deps[id] else {}
    requires forall t, x :: t in g && x in g[t] <==> t in rdeps && x in rdeps[t] && !(x == id && t in targets)
    requires forall t :: t in g ==> g[t] != [] && NoDuplicates(g[t])
    ensures GraphOk(deps - {id}, g) && forall t :: t in g ==> id !in g[t]
  {
    var d := deps - {id};
    forall x, t | x in d && t in d[x]
      ensures t in g && x in g[t]
    {
      assert t in rdeps && x in rdeps[t];
    }
    forall t, x | t in g && x in g[t]
      ensures x in d && t in d[x]
    {
      assert t in rdeps && x in rdeps[t];
    }
  }

  /** updateDependents(id) for a formula, on a graph that no longer mentions
      `id`, keeps the two maps in step. */
  lemma AttachKeepsGraph(deps: Deps, rdeps: Rdeps, id: string, refs: seq<string>)
    requires GraphOk(deps, rdeps)
    requires id !in deps
    requires forall t :: t in rdeps ==> id !in rdeps[t]
    ensures GraphOk(deps[id := RefSet(id, refs)], Attach(rdeps, id, refs))
  {
    var d := deps[id := RefSet(id, refs)];
    var g := Attach(rdeps, id, refs);
    AttachEdges(rdeps, id, refs);
    AttachLists(rdeps, id, refs);
    forall x, t | x in d && t in d[x]
      ensures t in g && x in g[t]
    {
      if x != id {
        assert t in rdeps && x in rdeps[t];
      }
    }
    forall t, x | t in g && x in g[t]
      ensures x in d && t in d[x]
    {
      if x != id {
        assert t in rdeps && x in rdeps[t];
      }
    }
  }
}
