# lr: an LR(0) front end, modelled in Dafny

The repository computes, for a context-free grammar, the three classic
analysis sets and the LR(0) item automaton:

- **Grammar values** (`grammer.dfy`, module `Grammar`). The value types
  are nonterminals (compared by name), terminals (the end marker `EOS` or
  one character), symbols, and productions. A production doubles as a
  dotted item through an optional dot position. The module also holds the
  `From` conversions and the `Display` renderings, written as string
  functions. An item renders as `left -> right`, with the marker `・`
  (U+30FB) before the symbol at the dot.
- **Nullable, First and Follow** (`nullable.dfy`, `first.dfy`,
  `follow.dfy`, with the shared map helpers and `add_char` in
  `terminal_sets.dfy`). Each analysis grows a caller-owned set or map,
  one full pass over the productions at a time, until a pass changes
  nothing.
  - The in-place `&mut` argument is modelled as a value passed in and
    returned.
  - The recursive re-pass is modelled as a `while` loop around one pass.
  - Each analysis is proved to return the **least** set or map above its
    starting value that is closed under its rule. It is also proved to
    stay within the grammar's own nonterminals and terminals, and every
    entry it adds is forced by some production.
  - Two behaviours of the code are kept as written:
    - the flag is updated as `dirty = dirty || add_char(..)`, so a pass
      records at most one new terminal;
    - Follow's `reach_end` is set to `j == len - 1` when the scan stops at
      `j`. A blocker in the last position therefore still propagates
      Follow(left), for example `N -> .. M 't'` gives Follow(N) ⊆ Follow(M).
- **Items and closure** (`items.dfy`, module `Items`).
  - `insert_dots` is a nested loop, proved equal to the sequence of every
    production at every dot position, in order.
  - `closure` is a recursive method with a loop over the universe. It is
    proved equal to a closure function. That function is shown to contain
    its item, to be `{g}` at the end or before a terminal, and to hold only
    dot-0 universe items besides `g`. It is also closed under expansion,
    the least such set, and idempotent.
- **Arena** (`graph.dfy`, class `Graph.Arena`). This is an append-only
  node list with linear lookup.
  - A node's id is its index.
  - The edge maps that `main` uses live in a parallel sequence, whose
    targets are node ids.
- **State graph** (`automaton.dfy`). This is the work-list loop of `main`,
  as a method over an arena. It is proved to produce:
  - node 0 = closure of the start item;
  - no two equal nodes;
  - every node the closure of a universe item;
  - every edge pointing to an existing node, labelled by the symbol after
    the dot of one of its source's items, and leading to that item's
    advanced closure;
  - every node after node 0 being the advanced closure of an item of an
    earlier node, so the graph holds no state the loop does not reach;
  - every item with a symbol after its dot having its advanced closure
    among the nodes, even when a later item with the same symbol
    overwrote the edge to it;
  - every node having an edge for every symbol after one of its dots.
- **Demo** (`demo.dfy`). This is the grammar hard-coded in `main`:
  `S -> E '+' E`, `E -> 'a' E`, `E -> ε`. On it the model derives:
  - Nullable = {E};
  - First(E) = {'a'} and First(S) = {'a', '+'};
  - Follow(E) = {'+'}, with no Follow entry for S;
  - the start state {S→・E+E, E→・aE, E→・}, whose E-edge leads to a
    state holding S→E・+E.

  On this grammar the scan passes the nullable `E` and reaches `'+'`
  (src/main.rs:57-73), so First(S) = {'a', '+'}.

## Model

| member | source | states |
|---|---|---|
| `Grammar.NonterminalFromString` | src/grammer.rs:7-11 | the nonterminal carries the string unchanged |
| `Grammar.TerminalFromChar` | src/grammer.rs:19-23 | a char converts to the character terminal holding it |
| `Grammar.CharacterFromChar` | src/grammer.rs:43-47 | a char converts to a terminal symbol holding that char |
| `Grammar.CharacterFromTerminal` | src/grammer.rs:49-53 | a terminal converts to the terminal symbol holding it |
| `Grammar.CharacterFromNonterminal` | src/grammer.rs:55-59 | a nonterminal converts to the nonterminal symbol holding it |
| `Grammar.CharacterFromString` | src/grammer.rs:55-59 | a name converts, through the nonterminal, to the nonterminal symbol of that name |
| `Grammar.ConversionsDistinct` | src/grammer.rs:43-59 | a char and a name never give the same symbol; each conversion is injective |
| `Grammar.ItemsDifferByDot` | src/grammer.rs:61-66 | two items of one production are equal iff their dot positions are |
| `Grammar.TerminalText` | src/grammer.rs:25-35 | the rendering is `$` exactly for the end marker, and a character terminal's rendering shows its character |
| `Grammar.TerminalTextInjective` | src/grammer.rs:25-35 | `EOS` renders `$`, `'$'` renders `'$'`, any other char as itself; distinct terminals render differently |
| `Grammar.RhsText` | src/grammer.rs:72-82 | from position i on, the loop writes the symbols plus exactly one marker character when the dot stands at or after i inside the right side, none otherwise |
| `Grammar.RhsTextUnmarked` | src/grammer.rs:72-82 | with no dot in range, the loop writes the symbols in order with no marker |
| `Grammar.RhsTextMarked` | src/grammer.rs:72-82 | with the dot at k inside the right side, the loop writes the symbols before k, the marker, then the rest |
| `Grammar.ItemText` | src/grammer.rs:68-90 | the rendering starts with the left name and ` -> `, and holds the symbols plus one marker character when dotted within the right side (end included), none otherwise |
| `Grammar.ItemTextSpec` | src/grammer.rs:68-90 | an item renders as name, ` -> `, its symbols; marker before symbol k for k < len, once at the end for k == len, nowhere for no dot or k > len |
| `TerminalSets.AddChar` | src/main.rs:32-48 | returns true iff the terminal was absent; afterwards it is recorded, a missing entry is created, and nothing else changes |
| `TerminalSets.AddAll` | src/main.rs:65-67 | the loop `dirty = dirty or add_char(..)` over a set: no call once dirty, so at most one new terminal; dirty afterwards iff it was, or some terminal was new |
| `TerminalSets.InsertGrows` | src/main.rs:32-48 | recording a pair grows the map, stays in bounds, and strictly shrinks what is missing |
| `NullableSet.NullablePass` | src/main.rs:15-25 | one pass only inserts left sides; if the size is unchanged the set is closed; every addition has an all-nullable production; it stays below every closed superset |
| `NullableSet.Nullable` | src/main.rs:12-30 | result ⊇ start, bounded by the left sides, closed, least closed superset, and every addition supported |
| `NullableSet.EpsilonNullable` | src/main.rs:16-24 | an empty production's left side is in every closed set |
| `NullableSet.TerminalNeverNullable` | src/main.rs:16-21 | a production holding a terminal never makes its left nullable |
| `NullableSet.ClosedIsFixedPoint` | src/main.rs:27-29 | re-running on a closed set returns it unchanged |
| `FirstSets.FirstProduction` | src/main.rs:54-75 | the scan of one production records at most one forced terminal; if it records none, the production is satisfied |
| `FirstSets.FirstPass` | src/main.rs:53-76 | a pass changes nothing and the map is closed, or adds exactly one pair some production forces |
| `FirstSets.StepKeepsInvariant` | src/main.rs:78-80 | a growing pass keeps the map in bounds, below every closed map, with only forced entries, and shrinks what is missing |
| `FirstSets.First` | src/main.rs:50-81 | result ⊇ start, closed, the least closed map above start, bounded by left sides and grammar terminals, every addition forced |
| `FirstSets.FirstAfterNullablePrefix` | src/main.rs:54-73 | in a closed map, each symbol after a nullable prefix contributes its First set (or itself) to First(left) |
| `FirstSets.NoEndMarker` | src/main.rs:57-68 | the end marker enters no First set unless the grammar or the start map holds it |
| `FollowSets.ScanBlocked` | src/main.rs:92-112 | when the scan stops at j, `reach_end` is `j == len-1`, i.e. all symbols strictly between the target and the last position are nullable |
| `FollowSets.FollowTarget` | src/main.rs:90-121 | one occurrence records at most one forced terminal; if none, its scan and reach-end rules are satisfied |
| `FollowSets.FollowProduction` | src/main.rs:87-123 | one production records at most one forced terminal; if none, each occurrence in it is satisfied |
| `FollowSets.FollowPass` | src/main.rs:86-124 | a pass changes nothing and the map is closed, or adds exactly one pair some occurrence forces |
| `FollowSets.StepKeepsInvariant` | src/main.rs:126-128 | a growing pass keeps the map in bounds, below every closed map, with only forced entries, and shrinks what is missing |
| `FollowSets.Follow` | src/main.rs:83-129 | result ⊇ start, closed, least closed map above start, bounded by right-side nonterminals and grammar/First terminals, every addition forced |
| `FollowSets.FollowAtEnd` | src/main.rs:91-121 | a target followed by nullable symbols and at most one last symbol inherits Follow(left), and also the last symbol's First set |
| `FollowSets.NextSymbolFollows` | src/main.rs:93-104 | the symbol right after a target contributes its First set (or itself) to the target's Follow set |
| `Items.InsertDots` | src/main.rs:131-140 | returns every production at every dot position 0..=len, production by production, positions ascending |
| `Items.DotsLength` | src/main.rs:131-140 | the universe has Σ(len+1) items |
| `Items.DotsIndex` | src/main.rs:133-138 | item (k, i) sits at index (items of productions before k) + i |
| `Items.DotsMember` | src/main.rs:133-138 | an item is in the universe iff it is a production with a dot in 0..=len |
| `Items.DotsValid` | src/main.rs:134-136 | every universe item is dotted within its right side |
| `Items.DotsAdvance` | src/main.rs:239-243 | advancing a universe item with a symbol after its dot gives a universe item |
| `Items.Advance` | src/main.rs:242-243 | the advanced item keeps left and right and has the dot one further |
| `Items.NextNonterminal` | src/main.rs:143-156 | it names a nonterminal iff one stands right after the dot |
| `Items.ComputeClosure` | src/main.rs:142-169 | the result equals the closure of the item over the universe |
| `Items.ClosureOfBlocked` | src/main.rs:143-155 | the item is in its closure; at the end or before a terminal the closure is the item alone |
| `Items.ExpansionMember` | src/main.rs:159-163 | the loop's union holds exactly the closures of the matching dot-0 items seen so far |
| `Items.ClosureMembers` | src/main.rs:156-165 | every member other than the item is a dot-0 universe item |
| `Items.ClosureHoldsExpansions` | src/main.rs:159-163 | every dot-0 universe item of the nonterminal after the dot, and its closure, is in the closure |
| `Items.ClosureIsClosed` | src/main.rs:156-165 | the closure is closed under expansion |
| `Items.ClosureIsLeast` | src/main.rs:142-169 | the closure is inside every expansion-closed set holding the item |
| `Items.ClosureIdempotent` | src/main.rs:142-169 | the closure of any member is inside the closure |
| `Items.ClosureInUniverse` | src/main.rs:156-165 | the closure of a universe item holds only universe items |
| `Graph.Arena.constructor` | src/graph.rs:16-20 | a new arena has no nodes and no edges |
| `Graph.Arena.Push` | src/graph.rs:40-45 | appends one node with empty edges; earlier nodes and edges unchanged |
| `Graph.Arena.Get` | src/graph.rs:22-29 | returns the lowest id holding the value; none iff no node holds it |
| `Graph.Arena.GetMut` | src/graph.rs:31-38 | locates the same node as `get` (lowest id, none iff absent) and changes nothing |
| `Automaton.Link` | src/main.rs:251 | sets one edge of one node and leaves every other node's edges alone |
| `Automaton.PushDiscovered` | src/main.rs:240-258 | appending the advanced closure of an existing node's item keeps every node after the first discovered from an earlier node |
| `Automaton.PushKeeps` | src/main.rs:257-259 | pushing a new possible state, advanced from an item of an existing node, keeps the graph invariant |
| `Automaton.LinkKeeps` | src/main.rs:249-260 | recording a justified edge keeps the invariant and only adds its label |
| `Automaton.PushLinkKeeps` | src/main.rs:256-259 | pushing the state reached from an item and linking to it keeps the invariant and adds exactly that label |
| `Automaton.AdvanceIsState` | src/main.rs:242-246 | the closure of an advanced universe item is one of the possible states |
| `Automaton.NodeItemInUniverse` | src/main.rs:238 | every item of a node is a universe item |
| `Automaton.CoveredStep` | src/main.rs:237-260 | with nodes only appended and labels only added, one more handled item keeps every handled item's label recorded and its state present |
| `Automaton.FinishNode` | src/main.rs:237-263 | once each item of node `done` has its edge label and its state among the nodes, `done` can move on |
| `Automaton.GotoFromItem` | src/main.rs:239-260 | in the finished graph an item with a symbol after its dot has an edge for it, leading (when no other item shares the symbol) to the node equal to the item's advanced closure |
| `Automaton.AddState` | src/main.rs:256-259 | the absent state is appended as the last node and the edge labelled by the consumed symbol points to it; the invariant holds |
| `Automaton.Shift` | src/main.rs:238-261 | one item, as `Shifted`: with the dot at the end nothing changes; if the advanced closure is node t, only the edge of `done` for the consumed symbol changes, to t; otherwise the closure is appended with no edges and that edge points to it; the invariant holds |
| `Automaton.ShiftKeepsFrame` | src/main.rs:237-261 | shifting one more item keeps the round's frame: old nodes a prefix, other nodes' edges unchanged, appended nodes edgeless and advanced from an item of `done` |
| `Automaton.RoundStep` | src/main.rs:237-261 | shifting one more item keeps the round's frame and covers it: its label is recorded and its state is a node |
| `Automaton.ExpandNode` | src/main.rs:237-262 | after shifting every item of node `done`, nodes before `done + 1` are complete and every item's advanced closure is a node; earlier nodes are a prefix; other nodes' edges are unchanged; each appended node has no edges and is the advanced closure of an item of `done` |
| `Automaton.FewerMissing` | src/main.rs:233-264 | a newly appended node is a possible state not yet present, so the work list terminates |
| `Automaton.BuildGraph` | src/main.rs:233-264 | node 0 is the start closure; nodes distinct closures of universe items; edges in range and justified; every node after 0 is the advanced closure of an item of an earlier node, and every item's advanced closure is a node; every node complete |
| `Demo.NullableOfDemo` | src/main.rs:198-202 | Nullable of the demo grammar is {E} |
| `Demo.FirstOfDemo` | src/main.rs:204-208 | First of the demo grammar is S ↦ {'a','+'}, E ↦ {'a'} |
| `Demo.FollowOfDemo` | src/main.rs:210-214 | Follow of the demo grammar is E ↦ {'+'}, S absent |
| `Demo.Analyses` | src/main.rs:172-214 | running the three analyses from empty gives those values |
| `Demo.StartState` | src/main.rs:192-196 | the start state is {S→・E+E, E→・aE, E→・} |
| `Demo.GotoOnE` | src/main.rs:238-260 | the E-edge of the start state leads to a state holding S→E・+E |
| `Demo.DemoGraph` | src/main.rs:233-264 | the built graph starts with the start state and has that E-edge |

## Left out

- Printing is not modelled: every `println!` and the closure dump loop
  (src/main.rs:216-231, 266-281) are console output. The renderings are
  modelled as string functions. `Formatter` errors (`?`) are not modelled;
  rendering cannot fail in the model.
- The raw-pointer `children` map of a node (src/graph.rs:12) is replaced
  by the parallel `edges` sequence of node ids, which `main` uses.
- Hashing and hash iteration order are not modelled. Sets and maps are
  Dafny `set` and `map`. Where order matters, the model picks an
  arbitrary element:
  - the terminals in `AddAll`, where the order decides which new terminal
    a pass records;
  - the items of a node in the state loop, where the order decides which
    item writes an edge last.
  The results of the analyses do not depend on it, because each is the
  unique least closed value.
- Integer width is not modelled. `usize` dot positions and lengths are
  unbounded `nat`s, with no overflow.
- `main` keys First and Follow by `char`, while right-hand sides carry
  `Terminal`. The model uses `Terminal` throughout.
- The blanket `From<T: Into<Nonterminal>>` conversion is modelled for its
  two uses: a nonterminal and a name.
- Items.ComputeClosure: has two requirements stronger than the source's:
  - It requires every universe item to be dotted within its right side.
    The source panics only when an item it unwraps is undotted.
  - It requires a ranking under which expansion always reaches
    lower-ranked nonterminals. The source recurses forever on a
    left-recursive grammar, and the model does not cover that case.
- Automaton.BuildGraph: requires a non-empty production list, as indexing
  `grammers[0]` does, and the same ranking as `closure`.
- `main` finds a node by its own linear scan (src/main.rs:249-255). The
  model uses `Graph.Arena.Get`, which does the same scan with the same
  result (the lowest matching id).
- Graph.Arena.GetMut: returns the node's id instead of a mutable
  reference. The source never writes through that reference.
- `Items.Closure` and `Items.Expansion` carry the ranking only to show that
  the recursion ends. The value they compute does not use it.
