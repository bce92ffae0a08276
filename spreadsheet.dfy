/** The `Spreadsheet` engine: a map from cell identifiers to cells, the
    dependency graph in two maps, and the operations `set` and `get`.

    `Write` is the meaning of `set` as a pure function of the whole state;
    the class's methods are proved to compute it step by step, and the
    properties of a write are proved about `Write`. */
module Spreadsheet {
  import opened Values
  import opened Graph
  import opened Formula
  import opened Propagation
  import Evaluator

  /** The engine's whole state. */
  datatype Sheet = Sheet(cells: map<string, Cell>, dependencies: Deps, dependents: Rdeps)

  /** A new engine: no cells, no edges. */
  function Empty(): Sheet
  {
    Sheet(map[], map[], map[])
  }

  /** The cells `dependencies[id]` names, or none. */
  function TargetsOf(deps: Deps, id: string): set<string>
  {
    if id in deps then deps[id] else {}
  }

  /** `removeDependencies(id)`: id's outgoing edges are dropped from both
      maps. */
  function Unlink(s: Sheet, id: string): (r: Sheet)
    ensures r.cells == s.cells && id !in r.dependencies
    ensures GraphOk(s.dependencies, s.dependents) ==>
              GraphOk(r.dependencies, r.dependents) && forall t :: t in r.dependents ==> id !in r.dependents[t]
  {
    var r := s.(dependencies := s.dependencies - {id},
                dependents := Detach(s.dependents, id, TargetsOf(s.dependencies, id)));
    if GraphOk(s.dependencies, s.dependents) then
      DetachKeepsGraph(s.dependencies, s.dependents, id);
      r
    else r
  }

  /** The value `set` computes for a raw input before storing it: a formula
      is resolved against the current cells, anything else is kept as
      text. */
  function Evaluated(cells: map<string, Cell>, raw: string): (v: CellValue)
    ensures v.Text? <==> !IsFormula(raw)
    ensures !IsFormula(raw) ==> v == Text(raw)
    ensures IsFormula(raw) ==> v.Num? || v == Err(ErrorMsg)
  {
    if IsFormula(raw) then Resolve(cells, raw[1..]) else Text(raw)
  }

  /** The edges `updateDependents(id)` adds for a stored cell: for a
      formula, an edge to every cell its raw input names other than itself;
      none otherwise. */
  function Linked(s: Sheet, id: string): (r: Sheet)
    requires id in s.cells
    ensures r.cells == s.cells
    ensures id !in s.dependencies ==> (id in r.dependencies <==> IsFormula(s.cells[id].raw))
    ensures GraphOk(s.dependencies, s.dependents) && id !in s.dependencies &&
            (forall t :: t in s.dependents ==> id !in s.dependents[t]) ==>
              GraphOk(r.dependencies, r.dependents)
  {
    var raw := s.cells[id].raw;
    if IsFormula(raw) then
      var r := s.(dependencies := s.dependencies[id := RefSet(id, ScanRefs(raw, 0))],
                  dependents := Attach(s.dependents, id, ScanRefs(raw, 0)));
      if GraphOk(s.dependencies, s.dependents) && id !in s.dependencies &&
         (forall t :: t in s.dependents ==> id !in s.dependents[t]) then
        AttachKeepsGraph(s.dependencies, s.dependents, id, ScanRefs(raw, 0));
        r
      else r
    else s
  }

  /** `updateDependents(id)`: the edges of a stored cell, then the walk from
      it.  Nothing happens for an id with no cell. */
  function Relink(s: Sheet, id: string): (r: Sheet)
    ensures SameRaws(s.cells, r.cells) && PlainKept(s.cells, r.cells)
  {
    if id !in s.cells then s
    else
      var s1 := Linked(s, id);
      s1.(cells := Recompute(s1.cells, s1.dependents, id, {}).0)
  }

  /** `set(cellId, rawValue)`. */
  function Write(s: Sheet, cellId: string, raw: string): Sheet
  {
    var id := Upper(cellId);
    var s1 := Unlink(s, id);
    Relink(s1.(cells := s1.cells[id := Cell(raw, Evaluated(s1.cells, raw))]), id)
  }

  /** One more match in `updateDependents`'s loop that names another cell:
      it is upper-cased and added to both the reference set and the
      dependents map. */
  lemma AttachOne(g: Rdeps, id: string, tokens: seq<string>, i: nat, r: string, h: Rdeps, ds: seq<string>)
    requires i < |tokens| && r == Upper(tokens[i]) && r != id
    requires h == Attach(g, id, tokens[..i]) && ds == (if r in h then h[r] else [])
    ensures Attach(g, id, tokens[..i + 1]) == h[r := AddIfAbsent(ds, id)]
    ensures RefSet(id, tokens[..i + 1]) == RefSet(id, tokens[..i]) + {r}
  {
    assert tokens[..i + 1][..i] == tokens[..i];
  }

  /** A match that names the cell itself changes nothing. */
  lemma SkipSelf(g: Rdeps, id: string, tokens: seq<string>, i: nat)
    requires i < |tokens| && Upper(tokens[i]) == id
    ensures Attach(g, id, tokens[..i + 1]) == Attach(g, id, tokens[..i])
    ensures RefSet(id, tokens[..i + 1]) == RefSet(id, tokens[..i])
  {
    assert tokens[..i + 1][..i] == tokens[..i];
  }

  class Spreadsheet {
    var cells: map<string, Cell>
    var dependencies: Deps
    var dependents: Rdeps

    ghost predicate Valid()
      reads this
    {
      Coherent(State())
    }

    function State(): Sheet
      reads this
    {
      Sheet(cells, dependencies, dependents)
    }

    constructor()
      ensures Valid()
      ensures State() == Empty()
    {
      cells := map[];
      dependencies := map[];
      dependents := map[];
    }

    /** `get`: the stored value under the upper-cased identifier, or empty
        text for a cell never set. */
    function Get(cellId: string): (v: CellValue)
      reads this
      ensures Upper(cellId) in cells ==> v == cells[Upper(cellId)].value
      ensures Upper(cellId) !in cells ==> v == Text("")
    {
      Read(cells, cellId)
    }

    method Set(cellId: string, rawValue: string)
      requires Valid()
      modifies this
      ensures Valid()
      ensures State() == Write(old(State()), cellId, rawValue)
    {
      WriteCoherent(State(), cellId, rawValue);
      var id := Upper(cellId);
      RemoveDependencies(id);
      var value := if IsFormula(rawValue) then Resolve(cells, rawValue[1..]) else Text(rawValue);
      cells := cells[id := Cell(rawValue, value)];
      UpdateDependents(id);
    }

    method RemoveDependencies(cellId: string)
      modifies this
      ensures State() == Unlink(old(State()), cellId)
    {
      var current := TargetsOf(dependencies, cellId);
      var remaining := current;
      ghost var done: set<string> := {};
      DetachNothing(dependents, cellId);
      while remaining != {}
        invariant cells == old(cells) && dependencies == old(dependencies)
        invariant remaining <= current && done == current - remaining
        invariant dependents == Detach(old(dependents), cellId, done)
        decreases |remaining|
      {
        var dep :| dep in remaining;
        DetachStep(old(dependents), cellId, done, dep);
        var ds := Remove(if dep in dependents then dependents[dep] else [], cellId);
        if |ds| == 0 {
          dependents := dependents - {dep};
        } else {
          dependents := dependents[dep := ds];
        }
        done := done + {dep};
        remaining := remaining - {dep};
      }
      dependencies := dependencies - {cellId};
    }

    method UpdateDependents(cellId: string)
      modifies this
      ensures State() == Relink(old(State()), cellId)
    {
      if cellId !in cells {
        return;
      }
      var raw := cells[cellId].raw;
      if IsFormula(raw) {
        var references := AddReferences(cellId, ScanRefs(raw, 0));
        dependencies := dependencies[cellId := references];
      }
      assert State() == Linked(old(State()), cellId);
      var _ := RecomputeDependents(cellId, {});
    }

    /** The `forEach` over the matches in `updateDependents`: each match is
        upper-cased and, unless it names the cell itself, collected into
        the returned set and given the cell as a dependent. */
    method AddReferences(cellId: string, tokens: seq<string>) returns (references: set<string>)
      modifies this
      ensures references == RefSet(cellId, tokens)
      ensures dependents == Attach(old(dependents), cellId, tokens)
      ensures cells == old(cells) && dependencies == old(dependencies)
    {
      references := {};
      var i := 0;
      assert tokens[..0] == [];
      while i < |tokens|
        invariant 0 <= i <= |tokens|
        invariant cells == old(cells) && dependencies == old(dependencies)
        invariant dependents == Attach(old(dependents), cellId, tokens[..i])
        invariant references == RefSet(cellId, tokens[..i])
      {
        var r := Upper(tokens[i]);
        if r != cellId {
          references := references + {r};
          var ds := if r in dependents then dependents[r] else [];
          AttachOne(old(dependents), cellId, tokens, i, r, dependents, ds);
          dependents := dependents[r := AddIfAbsent(ds, cellId)];
        } else {
          SkipSelf(old(dependents), cellId, tokens, i);
        }
        ghost var done := tokens[..i + 1];
        i := i + 1;
        assert done == tokens[..i];
      }
      assert tokens[..i] == tokens;
    }

    /** `recomputeDependents(cellId, visited)`; `circular` is true where the
        engine throws `#CIRC!`. */
    method RecomputeDependents(cellId: string, visited: set<string>) returns (circular: bool)
      modifies this
      ensures (cells, circular) == Recompute(old(cells), dependents, cellId, visited)
      ensures dependents == old(dependents) && dependencies == old(dependencies)
      decreases |cells.Keys - (visited + {cellId})|, if cellId in visited then 0 else 3
    {
      if cellId in visited {
        return true;
      }
      var path := visited + {cellId};
      var ds := DependentsOf(dependents, cellId);
      var i := 0;
      while i < |ds|
        invariant 0 <= i <= |ds|
        invariant dependents == old(dependents) && dependencies == old(dependencies)
        invariant cells.Keys == old(cells).Keys
        invariant cells == WalkList(old(cells), dependents, ds[..i], path)
      {
        WalkSnoc(old(cells), dependents, ds, i, path);
        VisitDependent(ds[i], path);
        i := i + 1;
      }
      assert ds[..i] == ds;
      return false;
    }

    /** The body of the `forEach` in `recomputeDependents`: a formula cell
        is re-evaluated, then its own dependents are walked, and `#CIRC!`
        is stored when that walk reports a cycle. */
    method VisitDependent(d: string, path: set<string>)
      modifies this
      ensures cells == Visit(old(cells), dependents, d, path)
      ensures dependents == old(dependents) && dependencies == old(dependencies)
      decreases |cells.Keys - path|, 1
    {
      if d in cells && IsFormula(cells[d].raw) {
        var raw := cells[d].raw;
        cells := cells[d := Cell(raw, Resolve(cells, raw[1..]))];
        assert cells.Keys == old(cells).Keys;
        PathGrows(cells.Keys, path, d);
        var inner := RecomputeDependents(d, path);
        if inner {
          cells := cells[d := Cell(raw, Err(CircMsg))];
        }
      }
    }
  }

  // ---------------------------------------------------------------------------
  // Properties of a write
  // ---------------------------------------------------------------------------

  /** The dependency maps describe the formulas: the two maps are in step,
      only formula cells have dependencies, and a formula cell's
      dependencies are the cells its raw input names other than itself. */
  predicate Coherent(s: Sheet)
  {
    GraphOk(s.dependencies, s.dependents) &&
    (forall c :: c in s.dependencies ==> c in s.cells && IsFormula(s.cells[c].raw)) &&
    (forall c :: c in s.cells && IsFormula(s.cells[c].raw) ==>
       c in s.dependencies && s.dependencies[c] == RefSet(c, ScanRefs(s.cells[c].raw, 0)))
  }

  /** A write keeps the dependency maps describing the formulas. */
  lemma WriteCoherent(s: Sheet, cellId: string, raw: string)
    requires Coherent(s)
    ensures Coherent(Write(s, cellId, raw))
  {
    WriteKeepsGraph(s, cellId, raw);
    WriteEdges(s, cellId, raw);
    WriteKeepsOthers(s, cellId, raw);
  }

  /** On a coherent sheet every formula cell is listed among the dependents
      of each other cell its formula names. */
  lemma CoherentCovers(s: Sheet)
    requires Coherent(s)
    ensures Covers(s.cells, s.dependents)
  {
    forall c, k | c in s.cells && IsFormula(s.cells[c].raw) && 0 <= k < |BodyRefs(s.cells[c].raw)| &&
                  Upper(BodyRefs(s.cells[c].raw)[k]) != c
      ensures c in DependentsOf(s.dependents, Upper(BodyRefs(s.cells[c].raw)[k]))
    {
      CoveredBy(s.dependencies, s.dependents, c, s.cells[c].raw, k);
    }
  }

  /** CoherentCovers for one formula and one of its references. */
  lemma CoveredBy(deps: Deps, g: Rdeps, c: string, raw: string, k: nat)
    requires GraphOk(deps, g) && IsFormula(raw)
    requires c in deps && deps[c] == RefSet(c, ScanRefs(raw, 0))
    requires k < |BodyRefs(raw)| && Upper(BodyRefs(raw)[k]) != c
    ensures c in DependentsOf(g, Upper(BodyRefs(raw)[k]))
  {
    var refs := ScanRefs(raw, 0);
    assert BodyRefs(raw) == refs by {
      FormulaRefs(raw);
    }
    var t := Upper(refs[k]);
    assert t in deps[c] by {
      RefSetMembers(c, refs);
    }
    assert t in g && c in g[t];
  }

  /** A write on a coherent sheet whose new graph has no cycle leaves every
      formula cell at or downstream of the written cell, other than one that
      names itself, holding its formula evaluated against the final cells:
      no dependent is left stale. */
  lemma WriteSettles(s: Sheet, cellId: string, raw: string, rank: map<string, nat>)
    requires Coherent(s)
    requires Ranked(Write(s, cellId, raw).dependents, rank) && Upper(cellId) in rank
    ensures var r := Write(s, cellId, raw);
            forall c :: Reaches(r.dependents, Upper(cellId), c) && SelfFree(r.cells, c) ==> Settled(r.cells, c)
  {
    var id := Upper(cellId);
    var r := Write(s, cellId, raw);
    WriteCoherent(s, cellId, raw);
    CoherentCovers(r);
    var s1 := Unlink(s, id);
    var s2 := s1.(cells := s1.cells[id := Cell(raw, Evaluated(s1.cells, raw))]);
    var s3 := Linked(s2, id);
    assert r.cells == Recompute(s3.cells, s3.dependents, id, {}).0;
    assert r.dependents == s3.dependents;
    assert SameRaws(r.cells, s3.cells);
    CoversKept(r.cells, s3.cells, r.dependents);
    RecomputeSettles(s3.cells, r.dependents, rank, id);
    forall c | Reaches(r.dependents, id, c) && SelfFree(r.cells, c)
      ensures Settled(r.cells, c)
    {
      if c == id {
        WrittenSettled(s, cellId, raw, rank);
      } else {
        ReachSplit(r.dependents, id, c);
      }
    }
  }

  /** The written formula itself, when it does not name its own cell, holds
      its value against the final cells: the cells it names are ranked
      below it, so neither the write nor the walk changed them. */
  lemma WrittenSettled(s: Sheet, cellId: string, raw: string, rank: map<string, nat>)
    requires Coherent(s)
    requires Ranked(Write(s, cellId, raw).dependents, rank) && Upper(cellId) in rank
    requires SelfFree(Write(s, cellId, raw).cells, Upper(cellId))
    ensures Settled(Write(s, cellId, raw).cells, Upper(cellId))
  {
    var id := Upper(cellId);
    var r := Write(s, cellId, raw);
    WriteCoherent(s, cellId, raw);
    CoherentCovers(r);
    WriteKeepsOthers(s, cellId, raw);
    AcyclicFormulaReadsBack(s, cellId, raw, rank);
    UpperIdempotent(cellId);
    var s1 := Unlink(s, id);
    var s2 := s1.(cells := s1.cells[id := Cell(raw, Evaluated(s1.cells, raw))]);
    var s3 := Linked(s2, id);
    RankedChangesAbove(s3.cells, r.dependents, rank, id, {});
    var refs := BodyRefs(raw);
    forall k | 0 <= k < |refs|
      ensures Read(s.cells, refs[k]) == Read(r.cells, refs[k])
    {
      var t := Upper(refs[k]);
      assert id in DependentsOf(r.dependents, t);
    }
    ResolveLocal(s.cells, r.cells, raw[1..]);
  }

  /** A write keeps the two graph maps in step. */
  lemma WriteKeepsGraph(s: Sheet, cellId: string, raw: string)
    requires GraphOk(s.dependencies, s.dependents)
    ensures GraphOk(Write(s, cellId, raw).dependencies, Write(s, cellId, raw).dependents)
  {
    var id := Upper(cellId);
    DetachKeepsGraph(s.dependencies, s.dependents, id);
    if IsFormula(raw) {
      var s1 := Unlink(s, id);
      AttachKeepsGraph(s1.dependencies, s1.dependents, id, ScanRefs(raw, 0));
    }
  }

  /** Edges are rebuilt from scratch on each write: the written cell
      depends on the upper-cased references in its formula other than
      itself, and on nothing when the input is not a formula; every other
      cell keeps its dependencies. */
  lemma WriteEdges(s: Sheet, cellId: string, raw: string)
    ensures var id := Upper(cellId);
            var r := Write(s, cellId, raw);
            (id in r.dependencies <==> IsFormula(raw)) &&
            (IsFormula(raw) ==> r.dependencies[id] == RefSet(id, ScanRefs(raw, 0))) &&
            (forall k :: k != id ==> (k in r.dependencies <==> k in s.dependencies)) &&
            (forall k :: k != id && k in s.dependencies ==> r.dependencies[k] == s.dependencies[k])
  {
  }

  /** A cell never depends on itself. */
  lemma NoSelfEdge(s: Sheet, cellId: string, raw: string)
    ensures var id := Upper(cellId);
            var r := Write(s, cellId, raw);
            id in r.dependencies ==> id !in r.dependencies[id]
  {
    WriteEdges(s, cellId, raw);
    if IsFormula(raw) {
      RefSetMembers(Upper(cellId), ScanRefs(raw, 0));
    }
  }

  /** Writing the same input twice leaves the same edges as writing it
      once: nothing of the old formula survives. */
  lemma EdgesRebuilt(s: Sheet, cellId: string, raw: string)
    ensures Write(Write(s, cellId, raw), cellId, raw).dependencies == Write(s, cellId, raw).dependencies
  {
    var r1 := Write(s, cellId, raw);
    var r2 := Write(r1, cellId, raw);
    WriteEdges(s, cellId, raw);
    WriteEdges(r1, cellId, raw);
    SameEdgesAgain(s.dependencies, r1.dependencies, r2.dependencies, Upper(cellId),
                   IsFormula(raw), RefSet(Upper(cellId), ScanRefs(raw, 0)));
  }

  /** Two maps that each replace the entry of `id` in the one before by the
      same entry agree. */
  lemma SameEdgesAgain(d0: Deps, d1: Deps, d2: Deps, id: string, present: bool, refs: set<string>)
    requires (id in d1 <==> present) && (present ==> d1[id] == refs)
    requires (id in d2 <==> present) && (present ==> d2[id] == refs)
    requires forall k :: k != id ==> (k in d1 <==> k in d0)
    requires forall k :: k != id && k in d0 ==> d1[k] == d0[k]
    requires forall k :: k != id ==> (k in d2 <==> k in d1)
    requires forall k :: k != id && k in d1 ==> d2[k] == d1[k]
    ensures d2 == d1
  {
    assert d2.Keys == d1.Keys;
  }

  /** Identifiers are case-insensitive: writing under `a1` is writing
      under `A1`. */
  lemma WriteIgnoresCase(s: Sheet, cellId: string, raw: string)
    ensures Write(s, cellId, raw) == Write(s, Upper(cellId), raw)
  {
    UpperIdempotent(cellId);
  }

  /** A write stores the raw input under the upper-cased identifier and
      keeps every other cell's raw input; a cell holding no formula keeps
      its value too. */
  lemma WriteKeepsOthers(s: Sheet, cellId: string, raw: string)
    ensures var id := Upper(cellId);
            var r := Write(s, cellId, raw);
            r.cells.Keys == s.cells.Keys + {id} && r.cells[id].raw == raw &&
            (forall k :: k in s.cells && k != id ==> r.cells[k].raw == s.cells[k].raw) &&
            (forall k :: k in s.cells && k != id && !IsFormula(s.cells[k].raw) ==> r.cells[k] == s.cells[k])
  {
  }

  /** A raw input that is not a formula reads back as that text, with no
      conversion to a number. */
  lemma PlainReadsBack(s: Sheet, cellId: string, raw: string)
    requires !IsFormula(raw)
    ensures Read(Write(s, cellId, raw).cells, cellId) == Text(raw)
  {
  }

  /** A formula reads back as its value computed against the cells as they
      were before the write (its own previous value included), unless the
      walk came back to it, which leaves `#CIRC!`. */
  lemma FormulaReadsBack(s: Sheet, cellId: string, raw: string)
    requires IsFormula(raw)
    ensures Read(Write(s, cellId, raw).cells, cellId) in {Resolve(s.cells, raw[1..]), Err(CircMsg)}
  {
    var id := Upper(cellId);
    var s1 := Unlink(s, id);
    var s2 := s1.(cells := s1.cells[id := Cell(raw, Evaluated(s1.cells, raw))]);
    var g := Attach(s2.dependents, id, ScanRefs(raw, 0));
    RecomputePath(s2.cells, g, id, {});
  }

  /** When the graph after the write has no cycle, the formula reads back as
      exactly that value. */
  lemma AcyclicFormulaReadsBack(s: Sheet, cellId: string, raw: string, rank: map<string, nat>)
    requires IsFormula(raw)
    requires Ranked(Write(s, cellId, raw).dependents, rank) && Upper(cellId) in rank
    ensures Read(Write(s, cellId, raw).cells, cellId) == Resolve(s.cells, raw[1..])
  {
    var id := Upper(cellId);
    var s1 := Unlink(s, id);
    var s2 := s1.(cells := s1.cells[id := Cell(raw, Evaluated(s1.cells, raw))]);
    var g := Attach(s2.dependents, id, ScanRefs(raw, 0));
    RankedChangesAbove(s2.cells, g, rank, id, {});
  }

  /** When the graph after the write has no cycle, no cell is left holding
      a new `#CIRC!`. */
  lemma AcyclicNoCircular(s: Sheet, cellId: string, raw: string, rank: map<string, nat>)
    requires Ranked(Write(s, cellId, raw).dependents, rank) && Upper(cellId) in rank
    ensures var id := Upper(cellId);
            var r := Write(s, cellId, raw);
            forall k :: k in r.cells && k != id && k in s.cells && r.cells[k] != s.cells[k] ==>
              r.cells[k].value != Err(CircMsg)
  {
    var id := Upper(cellId);
    var s1 := Unlink(s, id);
    var s2 := s1.(cells := s1.cells[id := Cell(raw, Evaluated(s1.cells, raw))]);
    var g := if IsFormula(raw) then Attach(s2.dependents, id, ScanRefs(raw, 0)) else s2.dependents;
    RankedNotCircular(s2.cells, g, rank, id, {});
  }

  /** A plain value written to a cell with one formula dependent `d`, itself
      without dependents: `d` is re-evaluated against the cells with the new
      value in place. */
  lemma DependentRecomputed(s: Sheet, id: string, raw: string, d: string)
    requires Upper(id) == id && id !in s.dependencies && !IsFormula(raw)
    requires DependentsOf(s.dependents, id) == [d] && DependentsOf(s.dependents, d) == []
    requires d != id && d in s.cells && IsFormula(s.cells[d].raw)
    ensures var cs := s.cells[id := Cell(raw, Text(raw))];
            Write(s, id, raw).cells == cs[d := Cell(s.cells[d].raw, Resolve(cs, s.cells[d].raw[1..]))]
  {
    var cs := s.cells[id := Cell(raw, Text(raw))];
    WriteUnlinked(s, id, raw);
    var s2 := s.(cells := cs);
    assert Evaluated(s.cells, raw) == Text(raw);
    assert Linked(s2, id) == s2;
    assert Write(s, id, raw).cells == Recompute(cs, s.dependents, id, {}).0;
    var none: set<string> := {};
    assert none + {id} == {id};
    SingleDependent(cs, s.dependents, id, none, d);
    assert Visit(cs, s.dependents, d, {id}) == cs[d := Cell(s.cells[d].raw, Resolve(cs, s.cells[d].raw[1..]))] by {
      LeafVisit(cs, s.dependents, d, {id});
    }
  }

  /** Visiting a formula cell that is not on the path and has no dependents
      re-evaluates it and changes nothing else. */
  lemma LeafVisit(cs: map<string, Cell>, g: Rdeps, d: string, path: set<string>)
    requires d in cs && IsFormula(cs[d].raw) && d !in path && DependentsOf(g, d) == []
    ensures Visit(cs, g, d, path) == cs[d := Cell(cs[d].raw, Resolve(cs, cs[d].raw[1..]))]
  {
    var cs1 := cs[d := Cell(cs[d].raw, Resolve(cs, cs[d].raw[1..]))];
    assert WalkList(cs1, g, [], path + {d}) == cs1;
    assert Recompute(cs1, g, d, path) == (cs1, false);
  }

  /** A walk from a cell with a single dependent is a visit of it. */
  lemma SingleDependent(cs: map<string, Cell>, g: Rdeps, id: string, visited: set<string>, d: string)
    requires id !in visited && DependentsOf(g, id) == [d]
    ensures Recompute(cs, g, id, visited).0 == Visit(cs, g, d, visited + {id})
  {
    assert [d][..0] == [];
    assert WalkList(cs, g, [], visited + {id}) == cs;
    assert WalkList(cs, g, [d], visited + {id}) == Visit(cs, g, d, visited + {id});
  }

  /** Two cells naming each other: `a` is set to `=b` while `b` is unset,
      then `b` is set to `=a`.  The walk from `b` re-evaluates `a` (an
      error, since `b` holds one), comes back to `b` and stores `#CIRC!`
      there; `a` keeps `#ERROR!`. */
  lemma MutualReference(a: string, b: string)
    requires IsRefName(a) && IsRefName(b) && a != b
    requires Upper(a) == a && Upper(b) == b
    requires ScanRefs("=" + a, 0) == [a] && ScanRefs("=" + b, 0) == [b]
    ensures var r := Write(Write(Empty(), a, "=" + b), b, "=" + a);
            Read(r.cells, a) == Err(ErrorMsg) && Read(r.cells, b) == Err(CircMsg)
  {
    var e := Err(ErrorMsg);
    var s1 := Write(Empty(), a, "=" + b);
    FirstWrite(a, b);
    var c2 := s1.cells[b := Cell("=" + a, e)];
    var g2 := s1.dependents[a := [b]];
    SecondWrite(s1, a, b);
    WalkBack(c2, g2, a, b);
  }

  /** The first write of the scenario: `a` holds `#ERROR!` and `b` has `a`
      as its one dependent. */
  lemma FirstWrite(a: string, b: string)
    requires IsRefName(b) && a != b
    requires Upper(a) == a && Upper(b) == b
    requires ScanRefs("=" + b, 0) == [b]
    ensures Write(Empty(), a, "=" + b).cells == map[a := Cell("=" + b, Err(ErrorMsg))]
    ensures Write(Empty(), a, "=" + b).dependents == map[b := [a]]
    ensures b !in Write(Empty(), a, "=" + b).dependencies
  {
    var raw := "=" + b;
    var c1 := map[a := Cell(raw, Err(ErrorMsg))];
    var g1: Rdeps := map[b := [a]];
    assert Evaluated(map[], raw) == Err(ErrorMsg) by {
      assert raw[1..] == b;
      ReferenceToUnset(map[], b);
    }
    WriteUnlinked(Empty(), a, raw);
    var s2 := Sheet(c1, map[], map[]);
    OneLink(s2, a, b);
    assert Recompute(c1, g1, a, {}).0 == c1 by {
      assert DependentsOf(g1, a) == [];
    }
    WriteEdges(Empty(), a, raw);
  }

  /** The second write of the scenario stores `#ERROR!` in `b`, links `b`
      as the dependent of `a`, and walks from `b`. */
  lemma SecondWrite(s1: Sheet, a: string, b: string)
    requires IsRefName(a) && a != b && Upper(a) == a && Upper(b) == b
    requires ScanRefs("=" + a, 0) == [a]
    requires s1.cells == map[a := Cell("=" + b, Err(ErrorMsg))]
    requires s1.dependents == map[b := [a]] && b !in s1.dependencies
    ensures var c2 := s1.cells[b := Cell("=" + a, Err(ErrorMsg))];
            var g2 := s1.dependents[a := [b]];
            Write(s1, b, "=" + a).cells == Recompute(c2, g2, b, {}).0
  {
    var raw := "=" + a;
    var c2 := s1.cells[b := Cell(raw, Err(ErrorMsg))];
    assert Evaluated(s1.cells, raw) == Err(ErrorMsg) by {
      assert raw[1..] == a;
      ReferenceToError(s1.cells, a);
    }
    WriteUnlinked(s1, b, raw);
    OneLink(s1.(cells := c2), b, a);
  }

  /** Writing to a cell that names no other cell: nothing to unlink. */
  lemma WriteUnlinked(s: Sheet, id: string, raw: string)
    requires Upper(id) == id && id !in s.dependencies
    ensures Write(s, id, raw) == Relink(s.(cells := s.cells[id := Cell(raw, Evaluated(s.cells, raw))]), id)
  {
    assert Unlink(s, id) == s by {
      DetachNothing(s.dependents, id);
    }
  }

  /** A formula naming one other cell `r`, which has no dependents yet:
      `r` gets the one dependent `id`. */
  lemma OneLink(s: Sheet, id: string, r: string)
    requires id in s.cells && IsFormula(s.cells[id].raw)
    requires ScanRefs(s.cells[id].raw, 0) == [r] && Upper(r) == r && r != id
    requires r !in s.dependents
    ensures Linked(s, id).cells == s.cells
    ensures Linked(s, id).dependents == s.dependents[r := [id]]
  {
    assert Attach(s.dependents, id, [r]) == s.dependents[r := [id]] by {
      assert [r][..0] == [];
      assert AddIfAbsent([], id) == [id];
    }
  }

  /** The walk of the scenario: from `b` to `a`, and from `a` back to `b`,
      which is on the path. */
  lemma WalkBack(c2: map<string, Cell>, g2: Rdeps, a: string, b: string)
    requires IsRefName(a) && IsRefName(b) && a != b
    requires Upper(a) == a && Upper(b) == b
    requires c2 == map[a := Cell("=" + b, Err(ErrorMsg)), b := Cell("=" + a, Err(ErrorMsg))]
    requires g2 == map[b := [a], a := [b]]
    ensures Recompute(c2, g2, b, {}).0 == c2[b := Cell("=" + a, Err(CircMsg))]
  {
    var circ := c2[b := Cell("=" + a, Err(CircMsg))];
    assert c2[a].value == Resolve(c2, c2[a].raw[1..]) by {
      assert ("=" + b)[1..] == b;
      ReferenceToError(c2, b);
    }
    assert c2[b].value == Resolve(c2, c2[b].raw[1..]) by {
      assert ("=" + a)[1..] == a;
      ReferenceToError(c2, a);
    }
    assert DependentsOf(g2, b) == [a] && DependentsOf(g2, a) == [b];
    TwoCellCycle(c2, g2, a, b);
  }

  /** Two up-to-date formula cells, each the other's one dependent: the walk
      from `b` goes through `a` and comes back to `b`, which gets
      `#CIRC!`. */
  lemma TwoCellCycle(cs: map<string, Cell>, g: Rdeps, a: string, b: string)
    requires a != b && a in cs && b in cs
    requires IsFormula(cs[a].raw) && cs[a].value == Resolve(cs, cs[a].raw[1..])
    requires IsFormula(cs[b].raw) && cs[b].value == Resolve(cs, cs[b].raw[1..])
    requires DependentsOf(g, b) == [a] && DependentsOf(g, a) == [b]
    ensures Recompute(cs, g, b, {}).0 == cs[b := Cell(cs[b].raw, Err(CircMsg))]
  {
    var circ := cs[b := Cell(cs[b].raw, Err(CircMsg))];
    assert Visit(cs, g, b, {b, a}) == circ by {
      VisitOnPath(cs, g, b, {b, a});
    }
    assert Visit(cs, g, a, {b}) == circ by {
      VisitSettled(cs, g, a, {b});
      SingleDependent(cs, g, a, {b}, b);
      assert {b} + {a} == {b, a};
    }
    var none: set<string> := {};
    assert none + {b} == {b};
    SingleDependent(cs, g, b, none, a);
  }

  /** A formula cell whose value is already up to date and that is met
      again on the path is marked `#CIRC!`. */
  lemma VisitOnPath(cs: map<string, Cell>, g: Rdeps, d: string, path: set<string>)
    requires d in cs && IsFormula(cs[d].raw) && cs[d].value == Resolve(cs, cs[d].raw[1..])
    requires d in path
    ensures Visit(cs, g, d, path) == cs[d := Cell(cs[d].raw, Err(CircMsg))]
  {
    assert cs[d := Cell(cs[d].raw, Resolve(cs, cs[d].raw[1..]))] == cs;
  }

  /** A formula cell whose value is already up to date and that is not on
      the path: the visit is the walk from it. */
  lemma VisitSettled(cs: map<string, Cell>, g: Rdeps, d: string, path: set<string>)
    requires d in cs && IsFormula(cs[d].raw) && cs[d].value == Resolve(cs, cs[d].raw[1..])
    requires d !in path
    ensures Visit(cs, g, d, path) == Recompute(cs, g, d, path).0
  {
    assert cs[d := Cell(cs[d].raw, Resolve(cs, cs[d].raw[1..]))] == cs;
  }

  /** The same with `A1` and `B1`. */
  lemma MutualReferenceA1B1()
    ensures var r := Write(Write(Empty(), "A1", "=B1"), "B1", "=A1");
            Read(r.cells, "A1") == Err(ErrorMsg) && Read(r.cells, "B1") == Err(CircMsg)
  {
    ShortName('A', '1');
    ShortName('B', '1');
    assert "A1" == ['A', '1'] && "B1" == ['B', '1'];
    assert "=" + "A1" == "=A1" && "=" + "B1" == "=B1";
    MutualReference("A1", "B1");
  }

  /** A name of one upper-case letter and one digit is a reference name, is
      its own upper-case form, and is the one match of its formula `=name`. */
  lemma ShortName(l: char, d: char)
    requires 'A' <= l <= 'Z' && IsDigit(d)
    ensures IsRefName([l, d]) && Upper([l, d]) == [l, d]
    ensures ScanRefs("=" + [l, d], 0) == [[l, d]]
  {
    var r := [l, d];
    var s := "=" + r;
    assert LetterRun(r, 0) == 1 && Evaluator.DigitRun(r, 1) == 2;
    assert LetterRun(s, 1) == 2 && Evaluator.DigitRun(s, 2) == 3;
    assert s[1..3] == r && ScanRefs(s, 3) == [];
    assert ScanRefs(s, 1) == [r];
  }

  /** The sheet of the update scenario before its last write: A1 holds
      `10`, B1 holds `20`, and C1 holds `=A1 + B1`. */
  function SumSheet(): Sheet
  {
    Write(Write(Write(Empty(), "A1", "10"), "B1", "20"), "C1", "=A1 + B1")
  }

  /** A1 is changed to `30` after C1 was set to `=A1 + B1`: C1 is
      recomputed to 50. */
  lemma UpdateExample()
    ensures Read(Write(SumSheet(), "A1", "30").cells, "C1") == Num(FromInt(50))
  {
    var r := Write(SumSheet(), "A1", "30");
    SumUpdated();
    SumExample(r.cells);
    ShortName('C', '1');
    assert "C1" == ['C', '1'];
  }

  /** After the update C1 holds its formula evaluated against the new
      cells, in which A1 holds `30` and B1 still holds `20`. */
  lemma SumUpdated()
    ensures var r := Write(SumSheet(), "A1", "30");
            "C1" in r.cells && r.cells["C1"].raw == "=A1 + B1" &&
            r.cells["C1"].value == Resolve(r.cells, "A1 + B1") &&
            Read(r.cells, "A1") == Text("30") && Read(r.cells, "B1") == Text("20")
  {
    var s := SumSheet();
    SumNames();
    ThreeCells("A1", "B1", "C1", "10", "20", "=A1 + B1");
    UpdateRecomputes(s, "A1", "B1", "C1", "=A1 + B1", "30");
    WriteFacts(s, "A1", "30");
  }

  /** The names and the formula of the update scenario. */
  lemma SumNames()
    ensures Upper("A1") == "A1" && Upper("B1") == "B1" && Upper("C1") == "C1"
    ensures "A1" != "B1" && "B1" != "C1" && "A1" != "C1"
    ensures !IsFormula("10") && !IsFormula("20") && !IsFormula("30") && IsFormula("=A1 + B1")
    ensures ScanRefs("=A1 + B1", 0) == ["A1", "B1"] && BodyRefs("=A1 + B1") == ["A1", "B1"]
    ensures "=A1 + B1"[1..] == "A1 + B1"
  {
    ShortName('A', '1');
    ShortName('B', '1');
    ShortName('C', '1');
    assert "A1" == ['A', '1'] && "B1" == ['B', '1'] && "C1" == ['C', '1'];
    SumTokens();
    assert "=A1 + B1"[1..] == "A1 + B1";
    FormulaRefs("=A1 + B1");
  }

  /** The update scenario with any three distinct names: `a` and `b` hold
      text, `c` a formula naming exactly `a` and then `b`; after `a` is
      written again, `c` holds its formula evaluated against the new
      cells. */
  lemma UpdateRecomputes(s: Sheet, a: string, b: string, c: string, raw: string, z: string)
    requires a != b && b != c && a != c && Upper(a) == a && Upper(b) == b && Upper(c) == c
    requires Coherent(s) && s.cells.Keys == {a, b, c}
    requires !IsFormula(s.cells[a].raw) && !IsFormula(s.cells[b].raw)
    requires s.cells[c].raw == raw && IsFormula(raw) && !IsFormula(z)
    requires ScanRefs(raw, 0) == [a, b] && BodyRefs(raw) == [a, b]
    ensures Settled(Write(s, a, z).cells, c)
  {
    var r := Write(s, a, z);
    var rank := map[a := 0, b := 0, c := 1];
    WriteFacts(s, a, z);
    SumOrder(r, a, b, c, raw, rank);
    WriteSettles(s, a, z, rank);
  }

  /** After the update the edges run from `a` and `b` to `c` only: ranking
      `c` above both orders every edge, `c` lies downstream of `a`, and its
      formula does not name it. */
  lemma SumOrder(r: Sheet, a: string, b: string, c: string, raw: string, rank: map<string, nat>)
    requires a != c && b != c && Upper(a) == a && Upper(b) == b
    requires Coherent(r) && r.cells.Keys == {a, b, c}
    requires !IsFormula(r.cells[a].raw) && !IsFormula(r.cells[b].raw) && r.cells[c].raw == raw
    requires IsFormula(raw) && ScanRefs(raw, 0) == [a, b] && BodyRefs(raw) == [a, b]
    requires rank == map[a := 0, b := 0, c := 1]
    ensures Ranked(r.dependents, rank) && Reaches(r.dependents, a, c) && SelfFree(r.cells, c)
  {
    TwoSources(r, a, b, c, raw);
    SumRanked(r, a, b, c, rank);
    SumReach(r, a, c);
    assert SelfFree(r.cells, c) by {
      assert forall k :: 0 <= k < |BodyRefs(raw)| ==> BodyRefs(raw)[k] in {a, b};
    }
  }

  lemma SumRanked(r: Sheet, a: string, b: string, c: string, rank: map<string, nat>)
    requires GraphOk(r.dependencies, r.dependents)
    requires r.dependencies.Keys == {c} && r.dependencies[c] == {a, b}
    requires rank == map[a := 0, b := 0, c := 1] && a != c && b != c
    ensures Ranked(r.dependents, rank)
  {
    forall t, v | t in r.dependents && v in r.dependents[t]
      ensures t in rank && v in rank && rank[t] < rank[v]
    {
      assert v in r.dependencies && t in r.dependencies[v];
    }
  }

  lemma SumReach(r: Sheet, a: string, c: string)
    requires GraphOk(r.dependencies, r.dependents)
    requires c in r.dependencies && a in r.dependencies[c]
    ensures Reaches(r.dependents, a, c)
  {
    assert c in DependentsOf(r.dependents, a);
    ReachSelf(r.dependents, c);
    ReachBack(r.dependents, a, c, c);
  }

  /** The three writes of the scenario: the sheet is coherent and holds the
      three cells. */
  lemma ThreeCells(a: string, b: string, c: string, x: string, y: string, raw: string)
    requires a != b && b != c && a != c && Upper(a) == a && Upper(b) == b && Upper(c) == c
    requires !IsFormula(x) && !IsFormula(y)
    ensures var s := Write(Write(Write(Empty(), a, x), b, y), c, raw);
            Coherent(s) && s.cells.Keys == {a, b, c} &&
            !IsFormula(s.cells[a].raw) && s.cells[b] == Cell(y, Text(y)) && s.cells[c].raw == raw
  {
    var s2 := Write(Write(Empty(), a, x), b, y);
    TwoCells(a, b, x, y);
    WriteFacts(s2, c, raw);
  }

  /** The first two writes of the scenario. */
  lemma TwoCells(a: string, b: string, x: string, y: string)
    requires a != b && Upper(a) == a && Upper(b) == b
    requires !IsFormula(x) && !IsFormula(y)
    ensures var s := Write(Write(Empty(), a, x), b, y);
            Coherent(s) && s.cells.Keys == {a, b} &&
            s.cells[a] == Cell(x, Text(x)) && s.cells[b] == Cell(y, Text(y))
  {
    var s1 := Write(Empty(), a, x);
    assert Coherent(Empty());
    WriteFacts(Empty(), a, x);
    WriteFacts(s1, b, y);
  }

  /** What one write does that the scenarios use: the sheet stays coherent,
      the written cell holds the raw input, the others keep theirs, and a
      plain input or a plain cell is stored as text. */
  lemma WriteFacts(s: Sheet, id: string, raw: string)
    requires Coherent(s) && Upper(id) == id
    ensures var r := Write(s, id, raw);
            Coherent(r) && r.cells.Keys == s.cells.Keys + {id} && r.cells[id].raw == raw &&
            (forall k :: k in s.cells && k != id ==> r.cells[k].raw == s.cells[k].raw) &&
            (forall k :: k in s.cells && k != id && !IsFormula(s.cells[k].raw) ==> r.cells[k] == s.cells[k]) &&
            (!IsFormula(raw) ==> r.cells[id] == Cell(raw, Text(raw)))
  {
    WriteCoherent(s, id, raw);
    WriteKeepsOthers(s, id, raw);
    if !IsFormula(raw) {
      PlainReadsBack(s, id, raw);
    }
  }

  /** A coherent sheet whose only formula is in `c` and names `a` and `b`:
      `c` is the one cell with dependencies, and they are `a` and `b`. */
  lemma TwoSources(r: Sheet, a: string, b: string, c: string, raw: string)
    requires a != c && b != c && Upper(a) == a && Upper(b) == b
    requires Coherent(r) && r.cells.Keys == {a, b, c}
    requires !IsFormula(r.cells[a].raw) && !IsFormula(r.cells[b].raw) && r.cells[c].raw == raw
    requires IsFormula(raw) && ScanRefs(raw, 0) == [a, b]
    ensures r.dependencies.Keys == {c} && r.dependencies[c] == {a, b}
  {
    assert c in r.dependencies && r.dependencies[c] == RefSet(c, [a, b]);
    PairRefSet(a, b, c);
    forall k | k in r.dependencies
      ensures k == c
    {
      assert k in r.cells && IsFormula(r.cells[k].raw);
    }
  }

  /** The reference set of two upper-case names other than the cell's own. */
  lemma PairRefSet(a: string, b: string, c: string)
    requires a != c && b != c && Upper(a) == a && Upper(b) == b
    ensures RefSet(c, [a, b]) == {a, b}
  {
    assert [a, b][..1] == [a] && [a][..0] == [];
    assert RefSet(c, [a]) == RefSet(c, []) + {a};
  }
}
