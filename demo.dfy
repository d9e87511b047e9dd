/** The grammar hard-coded in `main` (src/main.rs:172-196),
    S -> E '+' E, E -> 'a' E, E -> (empty), and what the analyses and the
    state-graph builder produce for it. */
module Demo {
  import opened Grammar
  import opened TerminalSets
  import opened NullableSet
  import FirstSets
  import FollowSets
  import opened Items
  import opened Graph
  import opened Automaton

  const S: Nonterminal := NonterminalFromString("S")
  const E: Nonterminal := NonterminalFromString("E")

  const Productions: seq<Grammer> := [
    Grammer(S, [CharacterFromNonterminal(E), CharacterFromChar('+'), CharacterFromNonterminal(E)], None),
    Grammer(E, [CharacterFromChar('a'), CharacterFromNonterminal(E)], None),
    Grammer(E, [], None)
  ]

  /** S is expanded into E, and E is never expanded into a nonterminal. */
  function DemoRank(n: Nonterminal): nat
  {
    if n == S then 1 else 0
  }

  /** The least closed Nullable set of the demo grammar is {E}. */
  lemma NullableOfDemo(r: set<Nonterminal>)
    requires Closed(Productions, r)
    requires forall f :: Closed(Productions, f) ==> r <= f
    ensures r == {E}
  {
    var gs := Productions;
    assert !AllNullable(gs[0].right, {E}) by { assert gs[0].right[1].Term?; }
    assert !AllNullable(gs[1].right, {E}) by { assert gs[1].right[0].Term?; }
    assert Closed(gs, {E});
    EpsilonNullable(gs, r, 2);
  }

  /** The least closed First map of the demo grammar: First(S) = {'a', '+'}
      (the nullable E in front of '+' lets '+' in) and First(E) = {'a'}. */
  lemma FirstOfDemo(r: TerminalMap)
    requires FirstSets.Closed(Productions, {E}, r)
    requires forall f :: FirstSets.Closed(Productions, {E}, f) && Le(map[], f) ==> Le(r, f)
    ensures r == map[S := {Char('a'), Char('+')}, E := {Char('a')}]
  {
    var gs, nulls := Productions, {E};
    var want: TerminalMap := map[S := {Char('a'), Char('+')}, E := {Char('a')}];
    assert FirstSets.ClosedAt(gs[0], nulls, want) by {
      assert !NullableSpan(gs[0].right, 0, 2, nulls) by { assert gs[0].right[1].Term?; }
    }
    assert FirstSets.ClosedAt(gs[1], nulls, want) by {
      assert !NullableSpan(gs[1].right, 0, 1, nulls) by { assert gs[1].right[0].Term?; }
    }
    assert FirstSets.Closed(gs, nulls, want);
    assert Le(r, want);
    FirstSets.FirstAfterNullablePrefix(gs, nulls, r, 1, 0);
    FirstSets.FirstAfterNullablePrefix(gs, nulls, r, 0, 0);
    FirstSets.FirstAfterNullablePrefix(gs, nulls, r, 0, 1);
    assert Get(r, E) == {Char('a')};
    assert Get(r, S) == {Char('a'), Char('+')};
    assert r.Keys == want.Keys;
  }

  /** The least closed Follow map of the demo grammar: Follow(E) = {'+'},
      and S has no entry. */
  lemma FollowOfDemo(first: TerminalMap, r: TerminalMap)
    requires first == map[S := {Char('a'), Char('+')}, E := {Char('a')}]
    requires FollowSets.Closed(Productions, {E}, first, r)
    requires forall f :: FollowSets.Closed(Productions, {E}, first, f) && Le(map[], f) ==> Le(r, f)
    ensures r == map[E := {Char('+')}]
  {
    var gs, nulls := Productions, {E};
    var want: TerminalMap := map[E := {Char('+')}];
    assert FollowSets.TargetClosed(gs[0], 0, nulls, first, want) by {
      assert !NullableSpan(gs[0].right, 1, 2, nulls) by { assert gs[0].right[1].Term?; }
    }
    assert FollowSets.TargetClosed(gs[0], 2, nulls, first, want);
    assert FollowSets.TargetClosed(gs[1], 1, nulls, first, want);
    assert FollowSets.Closed(gs, nulls, first, want);
    assert Le(r, want);
    FollowSets.NextSymbolFollows(gs, nulls, first, r, 0, 0);
    assert Starts(gs[0].right[1], first) == {Char('+')};
    assert Get(r, E) == {Char('+')};
    assert r.Keys == want.Keys;
  }

  /** The three analyses run as `main` runs them, each from empty. */
  method Analyses() returns (nulls: set<Nonterminal>, firsts: TerminalMap, follows: TerminalMap)
    ensures nulls == {E}
    ensures firsts == map[S := {Char('a'), Char('+')}, E := {Char('a')}]
    ensures follows == map[E := {Char('+')}]
  {
    nulls := Nullable(Productions, {});
    NullableOfDemo(nulls);
    firsts := FirstSets.First(Productions, nulls, map[]);
    FirstOfDemo(firsts);
    follows := FollowSets.Follow(Productions, nulls, firsts, map[]);
    FollowOfDemo(firsts, follows);
  }

  /** The start state: S -> ・E+E, E -> ・aE, E -> ・. */
  lemma StartState()
    ensures Valid(Dots(Productions)) && Ranked(Dots(Productions), DemoRank)
    ensures Closure(At(Productions[0], 0), Dots(Productions), DemoRank)
         == {At(Productions[0], 0), At(Productions[1], 0), At(Productions[2], 0)}
  {
    var ps, u := Productions, Dots(Productions);
    DotsValid(ps);
    forall j | 0 <= j < |u| && u[j].dotPos == Some(0) && |u[j].right| > 0 && u[j].right[0].NonTerm?
      ensures DemoRank(u[j].right[0].n) < DemoRank(u[j].left)
    {
      DotsMember(ps, u[j]);
    }
    var g := At(ps[0], 0);
    var c := Closure(g, u, DemoRank);
    DotsIndex(ps, 1, 0);
    DotsIndex(ps, 2, 0);
    assert ps[..1] == [ps[0]] && ps[..2] == [ps[0], ps[1]];
    ClosureHoldsExpansions(g, u, DemoRank, E, 4);
    ClosureHoldsExpansions(g, u, DemoRank, E, 7);
    forall x | x in c
      ensures x in {At(ps[0], 0), At(ps[1], 0), At(ps[2], 0)}
    {
      ClosureMembers(g, u, DemoRank, x);
      if x != g {
        DotsMember(ps, x);
      }
    }
  }

  /** Node 0 of the demo's state graph is the start state, and its edge
      labelled E leads to a state holding S -> E・+E. */
  method DemoGraph() returns (arena: Arena<set<Grammer>>)
    ensures |arena.nodes| > 0 && |arena.edges| == |arena.nodes|
    ensures arena.nodes[0] == {At(Productions[0], 0), At(Productions[1], 0), At(Productions[2], 0)}
    ensures CharacterFromNonterminal(E) in arena.edges[0]
    ensures arena.edges[0][CharacterFromNonterminal(E)] < |arena.nodes|
    ensures At(Productions[0], 1) in arena.nodes[arena.edges[0][CharacterFromNonterminal(E)]]
  {
    StartState();
    arena := BuildGraph(Productions, DemoRank);
    GotoOnE(arena.nodes, arena.edges);
  }

  /** In any complete and justified graph whose node 0 is the start state,
      the edge labelled E from node 0 exists and leads to a state holding
      S -> E・+E: the only item of the start state with E after its dot is
      S -> ・E+E. */
  lemma GotoOnE(nodes: seq<set<Grammer>>, edges: seq<map<Character, nat>>)
    requires Valid(Dots(Productions)) && Ranked(Dots(Productions), DemoRank)
    requires |nodes| > 0 && nodes[0] == {At(Productions[0], 0), At(Productions[1], 0), At(Productions[2], 0)}
    requires Inv(nodes, edges, |nodes|, Dots(Productions), DemoRank)
    ensures CharacterFromNonterminal(E) in edges[0]
    ensures edges[0][CharacterFromNonterminal(E)] < |nodes|
    ensures At(Productions[0], 1) in nodes[edges[0][CharacterFromNonterminal(E)]]
  {
    var u, lbl, g0 := Dots(Productions), CharacterFromNonterminal(E), At(Productions[0], 0);
    var g1, g2 := At(Productions[1], 0), At(Productions[2], 0);
    assert forall h :: h in nodes[0] && h != g0 ==> !Before(h, lbl) by {
      assert !Before(g1, lbl) && !Before(g2, lbl);
    }
    GotoFromItem(nodes, edges, u, DemoRank, 0, g0);
  }
}
