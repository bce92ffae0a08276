# Spreadsheet engine model

This project models the calculation engine of minispreadsheet: the
`Spreadsheet` class in `src/engine/Spreadsheet.ts`. The engine keeps three
maps:

- cells by identifier, each with its raw input and computed value;
- `dependencies`, from a formula cell to the cells its formula names;
- `dependents`, the reverse edges.

`set` upper-cases the identifier and removes the cell's old edges. It then
computes the new value: a raw input that starts with `=` is a formula, and
anything else is kept as text. It stores the cell, records the formula's
references as edges and walks the dependents again. `get` returns the stored
value, or the empty text for a cell that was never set.

A formula body is cut into tokens. Each reference is replaced by the string
form of the referenced value, and the joined text is evaluated as the
arithmetic program `return (e)`. A failure gives the `#ERROR!` error. The
walk over dependents carries the set of cells on the current path. A cell
reached a second time on one path throws `#CIRC!`, and its caller stores that
error in the dependent it was re-evaluating.

The project has seven modules:

- `Values` (values.dfy): exact rational numbers kept in lowest terms, cell
  values and cells, identifier upper-casing, the string form of a value
  (`toString`) and `get` as `Read`.
- `Evaluator` (evaluator.dfy): the arithmetic the engine asks the JavaScript
  function constructor for. This is a recursive-descent parser over `(e)`
  with precedence, unary signs, parentheses, decimal literals and legacy
  octal literals (`010` is eight).
- `EvaluatorProperties` (evaluator_properties.dfy): a reference semantics
  for one and two operators. It also covers grouping, the refused inputs,
  the round trip of a substituted number, and the evaluator's part of the
  engine's examples.
- `Formula` (formula.dfy): the tokeniser of `parseFormula`, reference
  substitution, `Resolve`, and the reference scan of `updateDependents`.
- `Graph` (graph.dfy): the two edge maps, the removal and insertion steps,
  and the invariant that the two maps hold the same edges.
- `Propagation` (propagation.dfy): `recomputeDependents` as pure functions
  (`Recompute`, `WalkList`, `Visit`). It also has lemmas on cycle
  reporting, on acyclic (ranked) graphs, and on reachability: on a ranked
  graph every formula cell downstream of the written cell ends settled,
  that is, holding its formula evaluated against the final cells.
- `Spreadsheet` (spreadsheet.dfy): the whole state as the `Sheet` value, and
  `set` as the function `Write`. The `Spreadsheet` class has the three maps
  as fields. Each of its methods is proved to compute the matching function,
  with loop invariants, and `Valid` is the `Coherent` invariant: the two
  maps hold the same edges, and they are exactly the edges the stored
  formulas name. The lemmas about writes are proved about `Write`.

Where the test file and the code disagree, the model follows the code:

- The two-cell cycle. `src/engine/Spreadsheet.test.ts:57-63` expects both
  cells to read `#CIRC!` after `A1 = "=B1"` and then `B1 = "=A1"`. In the
  code the walk from `B1` re-evaluates `A1` first, and that gives `#ERROR!`,
  because `B1` holds an error whose string form is not arithmetic. The walk
  then comes back to `B1`, and only `B1` gets `#CIRC!`.
  `MutualReferenceA1B1` proves what the code does.

Two further consequences of the code that the model keeps:

- Errors in substitution. A referenced error is substituted as its
  `toString()` form, `Error: #ERROR!`, so every formula downstream of an
  error is `#ERROR!`.
- Self-references. A self-reference creates no edge (`NoSelfEdge`), and the
  formula is evaluated against the cell's previous value (`FormulaReadsBack`).

## Model

| member | source | states |
|---|---|---|
| Spreadsheet.Spreadsheet.constructor | src/engine/Spreadsheet.ts:13-17 | a new engine has no cells and no edges, and the coherence invariant holds |
| Spreadsheet.Spreadsheet.Get | src/engine/Spreadsheet.ts:46-50 | the value stored under the upper-cased identifier, or empty text when no cell is stored there |
| Spreadsheet.Spreadsheet.Set | src/engine/Spreadsheet.ts:19-44 | keeps the coherence invariant, and leaves exactly the state `Write` describes |
| Spreadsheet.Spreadsheet.RemoveDependencies | src/engine/Spreadsheet.ts:82-95 | the loop removes the cell from each target's dependents, drops lists left empty, then drops the cell's dependencies (`Unlink`) |
| Spreadsheet.Spreadsheet.UpdateDependents | src/engine/Spreadsheet.ts:97-125 | for a stored formula cell, records its edges and then walks its dependents; nothing happens for an absent cell (`Relink`) |
| Spreadsheet.Spreadsheet.AddReferences | src/engine/Spreadsheet.ts:103-120 | the loop over the matches returns the set of upper-cased references other than the cell itself, and adds the cell to each one's dependents in match order |
| Spreadsheet.Spreadsheet.RecomputeDependents | src/engine/Spreadsheet.ts:127-145 | the cells after the walk and whether it threw `#CIRC!` are exactly `Recompute`'s; the edges do not change |
| Spreadsheet.Spreadsheet.VisitDependent | src/engine/Spreadsheet.ts:134-144 | one dependent: a formula is re-evaluated and walked, and a cycle report stores `#CIRC!` in it (`Visit`) |
| Spreadsheet.Unlink | src/engine/Spreadsheet.ts:82-95 | `removeDependencies`: the cells are untouched and the cell has no dependencies left; on maps in step, the maps stay in step and no dependents list names the cell |
| Spreadsheet.Evaluated | src/engine/Spreadsheet.ts:32-37 | the value `set` computes is text iff the input is not a formula, and then it is the input itself; a formula gives a number or `#ERROR!` |
| Spreadsheet.Linked | src/engine/Spreadsheet.ts:101-121 | the edges of a stored cell: the cells are untouched, the cell gets dependencies iff it holds a formula, and maps in step that no longer mention the cell stay in step |
| Spreadsheet.Relink | src/engine/Spreadsheet.ts:97-125 | `updateDependents`: no raw input changes, no cell appears or disappears, and no non-formula cell changes |
| Spreadsheet.WriteCoherent | src/engine/Spreadsheet.ts:19-44 | `set` (`Write`) keeps the sheet coherent: the maps hold the same edges, and exactly the stored formulas have dependencies, namely the cells they name other than themselves |
| Spreadsheet.WriteSettles | src/engine/Spreadsheet.ts:19-44 | on a coherent sheet whose new graph has no cycle, every formula cell reachable from the written cell through `dependents` (other than one naming itself) ends holding its formula evaluated against the final cells |
| Spreadsheet.WrittenSettled | src/engine/Spreadsheet.ts:33-43 | the written formula itself, if it does not name its own cell, ends settled on an acyclic graph |
| Spreadsheet.WriteKeepsGraph | src/engine/Spreadsheet.ts:19-44 | a write keeps the two edge maps in step (`t` in `dependencies[x]` iff `x` in `dependents[t]`), with no empty or repeating list |
| Spreadsheet.WriteEdges | src/engine/Spreadsheet.ts:82-121 | the written cell has dependencies iff its input is a formula, and they are exactly its references other than itself; every other cell's dependencies are unchanged |
| Spreadsheet.NoSelfEdge | src/engine/Spreadsheet.ts:108-109 | no cell ever depends on itself |
| Spreadsheet.EdgesRebuilt | src/engine/Spreadsheet.ts:23-24 | the edges are rebuilt on each write: writing the same input again leaves the same dependencies |
| Spreadsheet.WriteIgnoresCase | src/engine/Spreadsheet.ts:21 | writing under `a1` is the same as writing under `A1` |
| Spreadsheet.WriteKeepsOthers | src/engine/Spreadsheet.ts:27-40 | the raw input is stored under the upper-cased identifier; every other cell keeps its raw input, and a non-formula cell keeps its value |
| Spreadsheet.PlainReadsBack | src/engine/Spreadsheet.ts:35-37 | an input that is not a formula reads back as exactly that text |
| Spreadsheet.FormulaReadsBack | src/engine/Spreadsheet.ts:33-34 | a formula reads back as its value against the cells before the write, including the cell's own previous value, or as `#CIRC!` |
| Spreadsheet.AcyclicFormulaReadsBack | src/engine/Spreadsheet.ts:33-43 | on a graph without cycles, a formula reads back as exactly its value against the cells before the write |
| Spreadsheet.AcyclicNoCircular | src/engine/Spreadsheet.ts:127-145 | on a graph without cycles, no cell that the walk changes holds `#CIRC!` |
| Spreadsheet.DependentRecomputed | src/engine/Spreadsheet.ts:134-139 | a plain write to a cell whose one dependent has no dependents: the new cells are exactly the written cell plus that dependent re-evaluated against them |
| Spreadsheet.UpdateRecomputes | src/engine/Spreadsheet.ts:127-139 | on a coherent sheet of three cells where `a` and `b` hold no formula and `c`'s formula names exactly `a` and `b`, a plain write to `a` leaves `c` holding its formula evaluated against the new cells |
| Spreadsheet.UpdateExample | src/engine/Spreadsheet.test.ts:48-55 | after `A1` = `10`, `B1` = `20` and `C1` = `=A1 + B1`, writing `30` to `A1` makes `C1` read 50 |
| Spreadsheet.SingleDependent | src/engine/Spreadsheet.ts:133-139 | the walk from a cell with one dependent is the visit of that dependent |
| Spreadsheet.TwoCellCycle | src/engine/Spreadsheet.ts:128-142 | two settled formula cells that depend on each other: the walk from one stores `#CIRC!` in it and leaves the other unchanged |
| Spreadsheet.MutualReference | src/engine/Spreadsheet.ts:127-142 | setting `a` to `=b` and then `b` to `=a` leaves `a` at `#ERROR!` and `b` at `#CIRC!` |
| Spreadsheet.MutualReferenceA1B1 | src/engine/Spreadsheet.test.ts:57-63 | the same scenario for `A1` and `B1`: `A1` reads `#ERROR!` and `B1` reads `#CIRC!`, where the test file expects `#CIRC!` for both |
| Propagation.Recompute | src/engine/Spreadsheet.ts:127-145 | the walk keeps every raw input and every non-formula cell; it reports a cycle iff the cell is already on the path, and then changes nothing |
| Propagation.WalkList | src/engine/Spreadsheet.ts:133-144 | the `forEach` over a dependents list keeps every raw input and every non-formula cell |
| Propagation.Visit | src/engine/Spreadsheet.ts:135-143 | one dependent's visit keeps every raw input and every non-formula cell |
| Propagation.RecomputeSettles | src/engine/Spreadsheet.ts:127-145 | on a ranked graph whose dependents lists cover the formulas, every formula cell downstream of the start (other than one naming itself) ends holding its formula evaluated against the final cells |
| Propagation.SettledVisit | src/engine/Spreadsheet.ts:134-139 | the same for one visit: every formula cell reachable from the visited cell ends settled |
| Propagation.RecomputeReach | src/engine/Spreadsheet.ts:127-145 | the walk changes only cells reachable from the start's dependents |
| Propagation.VisitReach | src/engine/Spreadsheet.ts:134-143 | a visit changes only cells reachable from the visited cell |
| Propagation.TopLevelNotCircular | src/engine/Spreadsheet.ts:127-131 | the walk that `set` starts, with an empty path, never throws |
| Propagation.RevisitIsCircular | src/engine/Spreadsheet.ts:128-142 | a formula dependent that is already on the path ends holding `#CIRC!` |
| Propagation.RecomputePath | src/engine/Spreadsheet.ts:127-145 | every cell on the path either keeps its cell or ends holding `#CIRC!` with its raw input |
| Propagation.RankedNotCircular | src/engine/Spreadsheet.ts:127-145 | on a ranked (acyclic) graph the walk reports no cycle and stores `#CIRC!` in no cell |
| Propagation.RankedChangesAbove | src/engine/Spreadsheet.ts:127-145 | on a ranked graph the walk from a cell changes only cells ranked above it |
| Propagation.FreshValue | src/engine/Spreadsheet.ts:134-139 | on a ranked graph a visited formula cell ends holding its value re-evaluated against the cells as they were when the walk reached it |
| Propagation.Diamond | src/engine/Spreadsheet.ts:127-145 | a diamond (`d` reached from `a` through `b` and through `c`) is walked without any cycle report |
| Graph.Remove | src/engine/Spreadsheet.ts:87 | `Set.delete`: exactly the other elements remain, still without repetitions |
| Graph.AddIfAbsent | src/engine/Spreadsheet.ts:112-115 | `Set.add`: the elements are the old ones plus the new one, still without repetitions, with the old ones first in their order |
| Graph.Detach | src/engine/Spreadsheet.ts:82-95 | detaching removes exactly the edges from the cell to its targets, and keeps every other list as it was |
| Graph.DetachStep | src/engine/Spreadsheet.ts:85-91 | one loop step: take the cell out of one target's list, and drop the list when it is left empty |
| Graph.DetachKeepsGraph | src/engine/Spreadsheet.ts:82-95 | removing a cell's dependencies keeps the two maps in step, and no list mentions the cell any more |
| Graph.Attach | src/engine/Spreadsheet.ts:106-117 | the dependents map gains a list for each referenced cell other than the cell itself, and no other |
| Graph.AttachEdges | src/engine/Spreadsheet.ts:106-117 | the new edges are the old ones plus one from the cell to each reference other than itself |
| Graph.AttachLists | src/engine/Spreadsheet.ts:112-115 | the dependents lists stay non-empty and free of repetitions |
| Graph.AttachKeepsGraph | src/engine/Spreadsheet.ts:102-121 | recording a formula's edges keeps the two maps in step |
| Graph.RefSet | src/engine/Spreadsheet.ts:103-109 | the stored dependency set never holds the cell itself |
| Graph.RefSetMembers | src/engine/Spreadsheet.ts:103-120 | the stored dependency set holds exactly the upper-cased matches other than the cell itself |
| Formula.Resolve | src/engine/Spreadsheet.ts:52-71 | a formula's value is a number when the substituted text evaluates, and `#ERROR!` otherwise |
| Formula.TokenNames | src/engine/Spreadsheet.ts:55-59 | every reference token of the tokeniser is a run of letters followed by a run of digits |
| Formula.ScanNames | src/engine/Spreadsheet.ts:104 | every match of the reference scan is a run of letters followed by a run of digits |
| Formula.FormulaRefs | src/engine/Spreadsheet.ts:102-104 | scanning the whole raw input finds the same references as scanning the body after `=` |
| Formula.TokenRefsAgree | src/engine/Spreadsheet.ts:55-59 | the references the tokeniser substitutes are exactly, and in the same order, the matches `updateDependents` records as edges |
| Formula.SubstitutedLocal | src/engine/Spreadsheet.ts:58-66 | the joined text depends only on the values of the referenced cells |
| Formula.ResolveLocal | src/engine/Spreadsheet.ts:58-63 | a formula's value depends only on the values of the cells it names |
| Formula.OneRef | src/engine/Spreadsheet.ts:55-66 | a body that is one reference is one token, and its text is the string form of the referenced value |
| Formula.ReferenceToNumber | src/engine/Spreadsheet.ts:59-60 | a formula that is one reference to a number has that number |
| Formula.ReferenceToUnset | src/engine/Spreadsheet.ts:58-67 | a formula that is one reference to an unset cell is `#ERROR!` |
| Formula.ReferenceToError | src/engine/Spreadsheet.ts:59-60 | a formula that is one reference to an error is `#ERROR!` |
| Formula.PlainBody | src/engine/Spreadsheet.ts:55-66 | digits, operators, parentheses and spaces reach the evaluator as written, without the spaces |
| Formula.SumTokens | src/engine/Spreadsheet.ts:55 | `A1 + B1` is the tokens `A1`, `+`, `B1`, and the scan of `=A1 + B1` finds `A1` and `B1` |
| Formula.SumExample | src/engine/Spreadsheet.test.ts:48-55 | `A1 + B1` with `A1` holding the text `30` and `B1` the text `20` is 50 |
| Formula.GroupedExample | src/engine/Spreadsheet.test.ts:65-71 | `(10+20)*5` is 150 |
| Formula.QuotientExample | src/engine/Spreadsheet.test.ts:41-46 | `100/10` is 10 |
| Formula.TrailingOperatorBody | src/engine/Spreadsheet.test.ts:73-76 | `=10 + ` is `#ERROR!` |
| Formula.EmptyFormula | src/engine/Spreadsheet.ts:52-71 | the empty formula `=` is `#ERROR!` |
| Evaluator.Evaluate | src/engine/Spreadsheet.ts:73-80 | an expression that evaluates is made only of arithmetic characters, with no `--` or `++` |
| Evaluator.Lit | src/engine/Spreadsheet.ts:76 | a run of digits denotes a whole number, its decimal value unless it is a legacy octal literal |
| Evaluator.NumberSound | src/engine/Spreadsheet.ts:76 | a numeric literal consumes only arithmetic characters |
| Evaluator.ExprSound | src/engine/Spreadsheet.ts:76 | whatever a successful parse consumed is made of arithmetic characters |
| EvaluatorProperties.OneOperator | src/engine/Spreadsheet.ts:76 | `a op b` is the operator applied to the two numerals, and division by zero fails |
| EvaluatorProperties.TwoOperators | src/engine/Spreadsheet.ts:76 | `a op1 b op2 c`: `*` and `/` bind tighter than `+` and `-`, and operators of one level apply left to right |
| EvaluatorProperties.GroupFirst | src/engine/Spreadsheet.ts:76 | `(a op1 b) op2 c` applies the parenthesised operator first |
| EvaluatorProperties.SingleNumeral | src/engine/Spreadsheet.ts:76 | a numeral alone is its value, octal after a leading zero when every later digit is octal, decimal otherwise |
| EvaluatorProperties.NegatedNumeral | src/engine/Spreadsheet.ts:76 | a minus sign negates a numeral, read as `SingleNumeral` reads it |
| EvaluatorProperties.PlainDecimal | src/engine/Spreadsheet.ts:60 | the rendering of a natural number is never read as octal: it denotes the number |
| EvaluatorProperties.TrailingOperator | src/engine/Spreadsheet.ts:73-80 | a numeral followed by a dangling operator fails |
| EvaluatorProperties.EmptyBody | src/engine/Spreadsheet.ts:73-80 | the empty expression `()` fails |
| EvaluatorProperties.NumberRoundTrip | src/engine/Spreadsheet.ts:58-67 | a number's substituted string form evaluates back to the same number |
| EvaluatorProperties.LowestTerms | src/engine/Spreadsheet.ts:60 | the sign and the quotient of the lowest-terms parts a non-integer is rendered from give the number back |
| EvaluatorProperties.QuotientText | src/engine/Spreadsheet.ts:76 | `(a/d)` and `-(a/d)` evaluate to the quotient and its negation |
| EvaluatorProperties.GroupedExample | src/engine/Spreadsheet.test.ts:65-71 | `(10+20)*5` evaluates to 150 |
| EvaluatorProperties.QuotientExample | src/engine/Spreadsheet.test.ts:41-46 | `100/10` evaluates to 10 |
| EvaluatorProperties.SumExample | src/engine/Spreadsheet.test.ts:48-55 | `30+20` evaluates to 50 |
| EvaluatorProperties.OctalExample | src/engine/Spreadsheet.ts:76 | the legacy octal literal `010` evaluates to 8 |
| Values.Upper | src/engine/Spreadsheet.ts:21 | each ASCII lower-case letter becomes upper case, and nothing else changes |
| Values.RatToString | src/engine/Spreadsheet.ts:60 | a number's string form is never empty, and ends in `)` iff the number is not whole |
| Values.ReadIgnoresCase | src/engine/Spreadsheet.ts:46-50 | `get` is case-insensitive |
| Values.ReadUnset | src/engine/Spreadsheet.ts:46-50 | an unset cell reads as empty text |
| Values.NatToStringRoundTrip | src/engine/Spreadsheet.ts:60 | the decimal rendering of a natural number denotes that number |
| Values.Normalize | src/engine/Spreadsheet.ts:76 | a quotient is brought to lowest terms without changing its value |
| Values.AddValue | src/engine/Spreadsheet.ts:76 | exact addition |
| Values.SubValue | src/engine/Spreadsheet.ts:76 | exact subtraction |
| Values.MulValue | src/engine/Spreadsheet.ts:76 | exact multiplication |
| Values.DivValue | src/engine/Spreadsheet.ts:76 | exact division by a non-zero divisor |

## Left out

- Floating point. Numbers are exact rationals, not IEEE doubles, so rounding (`0.1 + 0.2`) is not modelled.
- Number formatting. A whole number is substituted as its decimal digits, as in JavaScript. Any other number is substituted as `(n/d)` in lowest terms, or `-(n/d)` when negative. Standing alone, this form is exact and evaluates back to the same number where JavaScript would print a decimal expansion. It also keeps JavaScript's behaviour after a minus: `10-A1` with `A1` at -2 or at -1/2 becomes `10--2` or `10--(1/2)`, and both are `#ERROR!`.
- Evaluator.Evaluate: division by zero is `#ERROR!`, where JavaScript gives `Infinity` or `NaN`, which `set` would then store as a number.
- Values.RatToString: a non-integer written directly next to a digit or another reference evaluates differently from JavaScript's decimal expansion. With `A1` = `=1/2`, the formula `=2A1` becomes `20.5` in JavaScript and stores 20.5, but becomes `2(1/2)` here and stores `#ERROR!`. Likewise `=A1B1` with `B1` = `2` is `0.52` in JavaScript and `(1/2)2`, an error, here. A whole number gives the same text in both.
- Evaluator.Evaluate: models only `+`, `-`, `*`, `/`, unary signs and parentheses over decimal and legacy octal literals. Exponentiation `**` reaches the evaluator from a formula, because the tokeniser passes each `*` on its own: `=2**3` is 8 in JavaScript and `#ERROR!` here, and `=2**-1` is 0.5 there. The operators that only a text cell can bring in are refused too: `%`, `~`, `!`, the comparison, bitwise and logical operators and `?:`. So are numeric separators (`1_000`), identifiers and globals, strings, exponent notation (`1e3`), hexadecimal and binary literals, comments and regular expression literals. The one JavaScript lexing rule kept is that `--` and `++` are increment and decrement tokens, which is a syntax error.
- Evaluator.Evaluate: whitespace and the comma operator inside substituted text are refused. A text cell holding `1 + 2` referenced by `=A1*2` gives 5 in JavaScript (`(1 + 2*2)`) and `#ERROR!` here, and `=A1` over a text cell holding `1,2` gives 2 in JavaScript and `#ERROR!` here. Spaces written in the formula itself are dropped by the tokeniser and are not affected.
- Values.Upper: upper-cases ASCII letters only. `toUpperCase` also maps non-ASCII letters.
- The `currentCell` parameter of `parseFormula` is unused by the source, so it is not modelled.
- Exceptions. The `#CIRC!` throw is modelled as the returned flag of `Recompute` and `RecomputeDependents`. The `Error` object is modelled as the `Err` value, whose string form `Error: ` + message is kept.
- Acyclicity is stated through a rank map (`Ranked`) rather than through paths in the graph.
- Propagation.Diamond: states for any cell contents that the walk flags no cycle. The values of a concrete diamond such as `A1=1`, `B1=A1+1`, `C1=A1+2`, `D1=B1+C1` are not computed; `WriteSettles` states that `D1` ends settled.
- Spreadsheet.DependentRecomputed: states the exact new cells for one dependent without dependents of its own, because only there is the whole final state a short expression. For any acyclic graph the re-evaluation of every reachable formula is `WriteSettles`, and `UpdateExample` derives the `A1 = 30` gives `C1 = 50` example from it.
- The two-cell cycle: the test file expects both cells to read `#CIRC!`. The code leaves `A1` at `#ERROR!`, and the model follows the code.
- The user interface (`SpreadsheetGrid`, `App`) and any persistence are not part of this model.
