/** The First analysis (src/main.rs:50-81): for each nonterminal, the
    terminals that can begin a string it derives. Each pass scans every
    production left to right, through nullable nonterminals, up to the first
    terminal or non-nullable nonterminal. The flag is updated as
    `dirty = dirty || add_char(..)`, so once a pass has recorded one new
    terminal it calls `add_char` no more: a pass adds at most one terminal,
    and passes repeat until one adds nothing. */
module FirstSets {
  import opened Grammar
  import opened TerminalSets
  import opened NullableSet

  /** Production `g` is satisfied by `m`: every symbol that its scan
      reaches contributes its starting terminals to `g.left`. */
  ghost predicate ClosedAt(g: Grammer, nullable: set<Nonterminal>, m: TerminalMap)
  {
    forall i :: 0 <= i < |g.right| && NullableSpan(g.right, 0, i, nullable) ==>
      Starts(g.right[i], m) <= Get(m, g.left)
  }

  /** No pass over `gs` can add anything to `m`. */
  ghost predicate Closed(gs: seq<Grammer>, nullable: set<Nonterminal>, m: TerminalMap)
  {
    forall k :: 0 <= k < |gs| ==> ClosedAt(gs[k], nullable, m)
  }

  /** Some symbol reached by the scan of `g` begins with `c`, according to `m`. */
  ghost predicate RequiredAt(g: Grammer, nullable: set<Nonterminal>, m: TerminalMap, c: Terminal)
  {
    exists i :: 0 <= i < |g.right| && NullableSpan(g.right, 0, i, nullable) && c in Starts(g.right[i], m)
  }

  /** Given `m`, some production of `n` forces `c` into First(n). */
  ghost predicate Required(gs: seq<Grammer>, nullable: set<Nonterminal>, m: TerminalMap, n: Nonterminal, c: Terminal)
  {
    exists k :: 0 <= k < |gs| && gs[k].left == n && RequiredAt(gs[k], nullable, m, c)
  }

  /** `r` is `m` plus one new pair that some production forces. */
  ghost predicate Step(gs: seq<Grammer>, nullable: set<Nonterminal>, m: TerminalMap, r: TerminalMap)
  {
    exists n, c :: Required(gs, nullable, m, n, c) && c !in Get(m, n) && r == Insert(m, n, c)
  }

  lemma RequiredInClosed(gs: seq<Grammer>, nullable: set<Nonterminal>, m: TerminalMap, f: TerminalMap, n: Nonterminal, c: Terminal)
    requires Closed(gs, nullable, f) && Le(m, f) && Required(gs, nullable, m, n, c)
    ensures c in Get(f, n)
  {
    var k :| 0 <= k < |gs| && gs[k].left == n && RequiredAt(gs[k], nullable, m, c);
    var i :| 0 <= i < |gs[k].right| && NullableSpan(gs[k].right, 0, i, nullable) && c in Starts(gs[k].right[i], m);
    assert ClosedAt(gs[k], nullable, f);
    if gs[k].right[i].NonTerm? {
      LeGet(m, f, gs[k].right[i].n);
    }
  }

  lemma RequiredMono(gs: seq<Grammer>, nullable: set<Nonterminal>, m: TerminalMap, m': TerminalMap, n: Nonterminal, c: Terminal)
    requires Le(m, m') && Required(gs, nullable, m, n, c)
    ensures Required(gs, nullable, m', n, c)
  {
    var k :| 0 <= k < |gs| && gs[k].left == n && RequiredAt(gs[k], nullable, m, c);
    var i :| 0 <= i < |gs[k].right| && NullableSpan(gs[k].right, 0, i, nullable) && c in Starts(gs[k].right[i], m);
    if gs[k].right[i].NonTerm? {
      LeGet(m, m', gs[k].right[i].n);
    }
    assert RequiredAt(gs[k], nullable, m', c);
  }

  lemma RequiredBounded(gs: seq<Grammer>, nullable: set<Nonterminal>, m: TerminalMap, n: Nonterminal, c: Terminal,
                        keys: set<Nonterminal>, terms: set<Terminal>)
    requires Required(gs, nullable, m, n, c)
    requires Within(m, keys, terms) && Lefts(gs) <= keys && Terminals(gs) <= terms
    ensures n in keys && c in terms
  {
    var k :| 0 <= k < |gs| && gs[k].left == n && RequiredAt(gs[k], nullable, m, c);
    var i :| 0 <= i < |gs[k].right| && NullableSpan(gs[k].right, 0, i, nullable) && c in Starts(gs[k].right[i], m);
    assert gs[k].left in Lefts(gs);
    if gs[k].right[i].Term? {
      assert gs[k].right[i].t in Terminals(gs);
    }
  }

  /** The scan of one production (the body of the outer loop at
      src/main.rs:53-76). */
  method FirstProduction(g: Grammer, nullable: set<Nonterminal>, m: TerminalMap, dirty: bool)
    returns (r: TerminalMap, dirty': bool)
    ensures dirty ==> dirty' && r == m
    ensures !dirty' ==> r == m && ClosedAt(g, nullable, m)
    ensures !dirty && dirty' ==>
      exists c :: RequiredAt(g, nullable, m, c) && c !in Get(m, g.left) && r == Insert(m, g.left, c)
  {
    r, dirty' := m, dirty;
    var i := 0;
    while i < |g.right|
      invariant 0 <= i <= |g.right|
      invariant dirty ==> dirty' && r == m
      invariant !dirty' ==> r == m && NullableSpan(g.right, 0, i, nullable)
      invariant !dirty' ==> forall j :: 0 <= j < i ==> Starts(g.right[j], m) <= Get(m, g.left)
      invariant !dirty && dirty' ==>
        exists c :: RequiredAt(g, nullable, m, c) && c !in Get(m, g.left) && r == Insert(m, g.left, c)
    {
      match g.right[i]
      case Term(c) =>
        if !dirty' {
          r, dirty' := AddChar(r, g.left, c);
          assert c in Starts(g.right[i], m);
        }
        BlockedClosed(g, nullable, m, i, dirty');
        break;
      case NonTerm(n) =>
        if n in r {
          var firsts := r[n];
          ghost var wasDirty := dirty';
          r, dirty' := AddAll(r, g.left, firsts, dirty');
          if !wasDirty && dirty' {
            ghost var c :| c in firsts && c !in Get(m, g.left) && r == Insert(m, g.left, c);
            assert c in Starts(g.right[i], m);
          }
        }
        if n !in nullable {
          BlockedClosed(g, nullable, m, i, dirty');
          break;
        }
        i := i + 1;
    }
  }

  /** When the scan stops at a terminal or non-nullable nonterminal at `i`,
      having satisfied positions `0..i`, the whole production is satisfied. */
  lemma BlockedClosed(g: Grammer, nullable: set<Nonterminal>, m: TerminalMap, i: nat, dirty: bool)
    requires i < |g.right| && !(g.right[i].NonTerm? && g.right[i].n in nullable)
    requires !dirty ==> forall j :: 0 <= j <= i ==> Starts(g.right[j], m) <= Get(m, g.left)
    ensures !dirty ==> ClosedAt(g, nullable, m)
  {
  }

  /** One full pass over the productions. Either it changes nothing and then
      no production can add anything, or it records exactly one new
      terminal, one that some production forces. */
  method FirstPass(gs: seq<Grammer>, nullable: set<Nonterminal>, m: TerminalMap) returns (r: TerminalMap, dirty: bool)
    ensures !dirty ==> r == m && Closed(gs, nullable, m)
    ensures dirty ==> Step(gs, nullable, m, r)
  {
    r, dirty := m, false;
    for k := 0 to |gs|
      invariant !dirty ==> r == m && forall q :: 0 <= q < k ==> ClosedAt(gs[q], nullable, m)
      invariant dirty ==> Step(gs, nullable, m, r)
    {
      ghost var wasDirty := dirty;
      r, dirty := FirstProduction(gs[k], nullable, r, dirty);
      if !wasDirty && dirty {
        ghost var c :| RequiredAt(gs[k], nullable, m, c) && c !in Get(m, gs[k].left) && r == Insert(m, gs[k].left, c);
        assert Required(gs, nullable, m, gs[k].left, c);
      }
    }
  }

  /** A growing pass keeps what the main loop of `First` maintains, and
      strictly shrinks what is still missing. */
  lemma StepKeepsInvariant(gs: seq<Grammer>, nullable: set<Nonterminal>, init: TerminalMap, prev: TerminalMap,
                           r: TerminalMap, keys: set<Nonterminal>, terms: set<Terminal>)
    requires Step(gs, nullable, prev, r)
    requires Lefts(gs) <= keys && Terminals(gs) <= terms
    requires Le(init, prev) && Within(prev, keys, terms)
    requires forall f :: Closed(gs, nullable, f) && Le(init, f) ==> Le(prev, f)
    requires forall n, c :: c in Get(prev, n) && c !in Get(init, n) ==> Required(gs, nullable, prev, n, c)
    ensures Le(init, r) && Within(r, keys, terms)
    ensures Missing(r, keys, terms) < Missing(prev, keys, terms)
    ensures forall f :: Closed(gs, nullable, f) && Le(init, f) ==> Le(r, f)
    ensures forall n, c :: c in Get(r, n) && c !in Get(init, n) ==> Required(gs, nullable, r, n, c)
  {
    var n, c :| Required(gs, nullable, prev, n, c) && c !in Get(prev, n) && r == Insert(prev, n, c);
    assert Le(init, r) && Within(r, keys, terms) && Missing(r, keys, terms) < Missing(prev, keys, terms) by {
      RequiredBounded(gs, nullable, prev, n, c, keys, terms);
      InsertGrows(prev, n, c, keys, terms);
      LeTrans(init, prev, r);
    }
    forall f | Closed(gs, nullable, f) && Le(init, f)
      ensures Le(r, f)
    {
      RequiredInClosed(gs, nullable, prev, f, n, c);
    }
    forall n', c' | c' in Get(r, n') && c' !in Get(init, n')
      ensures Required(gs, nullable, r, n', c')
    {
      RequiredMono(gs, nullable, prev, r, n', c');
    }
  }

  /** The First sets grown from `init`, pass after pass until a pass adds
      nothing. The result is the least map above `init` that is closed under
      the rules of the scan, it only names left-hand sides and terminals of
      the grammar (or what `init` held), and every terminal it adds is forced
      by some production. */
  method First(gs: seq<Grammer>, nullable: set<Nonterminal>, init: TerminalMap) returns (r: TerminalMap)
    ensures Le(init, r)
    ensures Closed(gs, nullable, r)
    ensures forall f :: Closed(gs, nullable, f) && Le(init, f) ==> Le(r, f)
    ensures Within(r, Lefts(gs) + init.Keys, Terminals(gs) + Values(init))
    ensures forall n, c :: c in Get(r, n) && c !in Get(init, n) ==> Required(gs, nullable, r, n, c)
  {
    ghost var keys, terms := Lefts(gs) + init.Keys, Terminals(gs) + Values(init);
    r := init;
    var dirty := true;
    while dirty
      invariant Le(init, r) && Within(r, keys, terms)
      invariant !dirty ==> Closed(gs, nullable, r)
      invariant forall f :: Closed(gs, nullable, f) && Le(init, f) ==> Le(r, f)
      invariant forall n, c :: c in Get(r, n) && c !in Get(init, n) ==> Required(gs, nullable, r, n, c)
      decreases Missing(r, keys, terms), dirty
    {
      ghost var prev := r;
      r, dirty := FirstPass(gs, nullable, r);
      if dirty {
        StepKeepsInvariant(gs, nullable, init, prev, r, keys, terms);
      }
    }
  }

  /** In a closed map, every symbol of a production that follows a nullable
      prefix contributes to the First set of the left side: a terminal
      itself, a nonterminal its own First set. */
  lemma FirstAfterNullablePrefix(gs: seq<Grammer>, nullable: set<Nonterminal>, f: TerminalMap, k: nat, i: nat)
    requires Closed(gs, nullable, f)
    requires k < |gs| && i < |gs[k].right| && NullableSpan(gs[k].right, 0, i, nullable)
    ensures Starts(gs[k].right[i], f) <= Get(f, gs[k].left)
  {
    assert ClosedAt(gs[k], nullable, f);
  }

  /** The end-of-input marker gets into no First set unless the grammar or
      the starting map already holds it. */
  lemma NoEndMarker(gs: seq<Grammer>, init: TerminalMap, r: TerminalMap, n: Nonterminal)
    requires Within(r, Lefts(gs) + init.Keys, Terminals(gs) + Values(init))
    requires EOS !in Terminals(gs) && EOS !in Values(init)
    ensures EOS !in Get(r, n)
  {
  }
}
