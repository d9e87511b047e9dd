/** The Follow analysis (src/main.rs:83-129): for each nonterminal, the
    terminals that can come right after it. For every occurrence of a
    nonterminal `target` at position `i` of a right-hand side, a pass scans
    `i+1..` through nullable nonterminals up to the first terminal or
    non-nullable nonterminal, adding the terminal or the First set of each
    symbol it reaches; then, if the scan "reached the end", it adds the
    Follow set of the production's left side. The flag is set to
    `j == len - 1` when the scan stops at position `j`, so a production
    whose last symbol blocks the scan still counts as reaching the end.
    As in First, `dirty = dirty || add_char(..)` records at most one new
    terminal per pass. */
module FollowSets {
  import opened Grammar
  import opened TerminalSets
  import opened NullableSet

  /** Whether the scan after position `i` ends with `reach_end` set: every
      symbol strictly between `i` and the last position is a nullable
      nonterminal. The last symbol itself is never looked at. */
  predicate ReachesEnd(rhs: seq<Character>, i: nat, nullable: set<Nonterminal>)
    requires i < |rhs|
  {
    NullableSpan(rhs, i + 1, |rhs| - 1, nullable)
  }

  /** Every symbol the scan after `i` reaches contributes its First set
      (or itself, for a terminal) to the Follow set of `rhs[i]`. */
  ghost predicate ScanClosed(g: Grammer, i: nat, nullable: set<Nonterminal>, first: TerminalMap, m: TerminalMap)
    requires i < |g.right| && g.right[i].NonTerm?
  {
    forall l :: i < l < |g.right| && NullableSpan(g.right, i + 1, l, nullable) ==>
      Starts(g.right[l], first) <= Get(m, g.right[i].n)
  }

  /** The occurrence of a nonterminal at `i` in `g` is satisfied by `m`. */
  ghost predicate TargetClosed(g: Grammer, i: nat, nullable: set<Nonterminal>, first: TerminalMap, m: TerminalMap)
    requires i < |g.right| && g.right[i].NonTerm?
  {
    && ScanClosed(g, i, nullable, first, m)
    && (ReachesEnd(g.right, i, nullable) ==> Get(m, g.left) <= Get(m, g.right[i].n))
  }

  /** No pass over `gs` can add anything to `m`. */
  ghost predicate Closed(gs: seq<Grammer>, nullable: set<Nonterminal>, first: TerminalMap, m: TerminalMap)
  {
    forall k, i :: 0 <= k < |gs| && 0 <= i < |gs[k].right| && gs[k].right[i].NonTerm? ==>
      TargetClosed(gs[k], i, nullable, first, m)
  }

  /** Given `m`, the occurrence at `i` in `g` forces `c` into its Follow set:
      the scan reaches a symbol beginning with `c`, or it reaches the end
      and `c` follows the left side. */
  ghost predicate RequiredAt(g: Grammer, i: nat, nullable: set<Nonterminal>, first: TerminalMap, m: TerminalMap, c: Terminal)
    requires i < |g.right|
  {
    || (exists l :: i < l < |g.right| && NullableSpan(g.right, i + 1, l, nullable) && c in Starts(g.right[l], first))
    || (ReachesEnd(g.right, i, nullable) && c in Get(m, g.left))
  }

  /** Given `m`, some occurrence of `n` forces `c` into Follow(n). */
  ghost predicate Required(gs: seq<Grammer>, nullable: set<Nonterminal>, first: TerminalMap, m: TerminalMap,
                           n: Nonterminal, c: Terminal)
  {
    exists k, i :: 0 <= k < |gs| && 0 <= i < |gs[k].right| && gs[k].right[i] == NonTerm(n) &&
      RequiredAt(gs[k], i, nullable, first, m, c)
  }

  /** `r` is `m` plus one new pair that some occurrence forces. */
  ghost predicate Step(gs: seq<Grammer>, nullable: set<Nonterminal>, first: TerminalMap, m: TerminalMap, r: TerminalMap)
  {
    exists n, c :: Required(gs, nullable, first, m, n, c) && c !in Get(m, n) && r == Insert(m, n, c)
  }

  lemma RequiredInClosed(gs: seq<Grammer>, nullable: set<Nonterminal>, first: TerminalMap, m: TerminalMap,
                         f: TerminalMap, n: Nonterminal, c: Terminal)
    requires Closed(gs, nullable, first, f) && Le(m, f) && Required(gs, nullable, first, m, n, c)
    ensures c in Get(f, n)
  {
    var k, i :| 0 <= k < |gs| && 0 <= i < |gs[k].right| && gs[k].right[i] == NonTerm(n) &&
      RequiredAt(gs[k], i, nullable, first, m, c);
    assert TargetClosed(gs[k], i, nullable, first, f);
    LeGet(m, f, gs[k].left);
  }

  lemma RequiredMono(gs: seq<Grammer>, nullable: set<Nonterminal>, first: TerminalMap, m: TerminalMap,
                     m': TerminalMap, n: Nonterminal, c: Terminal)
    requires Le(m, m') && Required(gs, nullable, first, m, n, c)
    ensures Required(gs, nullable, first, m', n, c)
  {
    var k, i :| 0 <= k < |gs| && 0 <= i < |gs[k].right| && gs[k].right[i] == NonTerm(n) &&
      RequiredAt(gs[k], i, nullable, first, m, c);
    LeGet(m, m', gs[k].left);
    assert RequiredAt(gs[k], i, nullable, first, m', c);
  }

  lemma RequiredBounded(gs: seq<Grammer>, nullable: set<Nonterminal>, first: TerminalMap, m: TerminalMap,
                        n: Nonterminal, c: Terminal, keys: set<Nonterminal>, terms: set<Terminal>)
    requires Required(gs, nullable, first, m, n, c)
    requires Within(m, keys, terms) && RhsNonterminals(gs) <= keys
    requires Terminals(gs) <= terms && Values(first) <= terms
    ensures n in keys && c in terms
  {
    var k, i :| 0 <= k < |gs| && 0 <= i < |gs[k].right| && gs[k].right[i] == NonTerm(n) &&
      RequiredAt(gs[k], i, nullable, first, m, c);
    assert gs[k].right[i].n in RhsNonterminals(gs);
    if l :| i < l < |gs[k].right| && NullableSpan(gs[k].right, i + 1, l, nullable) && c in Starts(gs[k].right[l], first) {
      match gs[k].right[l]
      case Term(t) =>
        assert t in Terminals(gs);
      case NonTerm(x) =>
        assert c in first[x];
    }
  }

  /** When the scan after `i` stops at a blocking symbol at `j`, having
      passed the nullable nonterminals in between, `reach_end` is set
      exactly as `ReachesEnd` says, and if nothing was added on the way the
      scan part of the occurrence is satisfied. */
  lemma ScanBlocked(g: Grammer, i: nat, j: nat, nullable: set<Nonterminal>, first: TerminalMap, m: TerminalMap, dirty: bool)
    requires i < j < |g.right| && g.right[i].NonTerm?
    requires NullableSpan(g.right, i + 1, j, nullable)
    requires !(g.right[j].NonTerm? && g.right[j].n in nullable)
    requires !dirty ==> forall l :: i < l <= j ==> Starts(g.right[l], first) <= Get(m, g.right[i].n)
    ensures (j == |g.right| - 1) <==> ReachesEnd(g.right, i, nullable)
    ensures !dirty ==> ScanClosed(g, i, nullable, first, m)
  {
  }

  /** The inner loop of src/main.rs:90-121 for the nonterminal at `i`. */
  method FollowTarget(g: Grammer, i: nat, nullable: set<Nonterminal>, first: TerminalMap, m: TerminalMap, dirty: bool)
    returns (r: TerminalMap, dirty': bool)
    requires i < |g.right| && g.right[i].NonTerm?
    ensures dirty ==> dirty' && r == m
    ensures !dirty' ==> r == m && TargetClosed(g, i, nullable, first, m)
    ensures !dirty && dirty' ==> exists c ::
      RequiredAt(g, i, nullable, first, m, c) && c !in Get(m, g.right[i].n) && r == Insert(m, g.right[i].n, c)
  {
    var target := g.right[i].n;
    r, dirty' := m, dirty;
    var reachEnd := true;
    var j := i + 1;
    while j < |g.right|
      invariant i + 1 <= j <= |g.right|
      invariant NullableSpan(g.right, i + 1, j, nullable)
      invariant dirty ==> dirty' && r == m
      invariant !dirty' ==> r == m && forall l :: i < l < j ==> Starts(g.right[l], first) <= Get(m, target)
      invariant !dirty && dirty' ==> exists c ::
        RequiredAt(g, i, nullable, first, m, c) && c !in Get(m, target) && r == Insert(m, target, c)
    {
      match g.right[j]
      case Term(c) =>
        reachEnd := j == |g.right| - 1;
        if !dirty' {
          r, dirty' := AddChar(r, target, c);
          assert c in Starts(g.right[j], first);
        }
        ScanBlocked(g, i, j, nullable, first, m, dirty');
        break;
      case NonTerm(n) =>
        if n in first {
          var firsts := first[n];
          ghost var wasDirty := dirty';
          r, dirty' := AddAll(r, target, firsts, dirty');
          if !wasDirty && dirty' {
            ghost var c :| c in firsts && c !in Get(m, target) && r == Insert(m, target, c);
            assert c in Starts(g.right[j], first);
          }
        }
        if n !in nullable {
          reachEnd := j == |g.right| - 1;
          ScanBlocked(g, i, j, nullable, first, m, dirty');
          break;
        }
        j := j + 1;
    }
    assert reachEnd <==> ReachesEnd(g.right, i, nullable);
    assert !dirty' ==> ScanClosed(g, i, nullable, first, m);
    if reachEnd {
      if g.left in r {
        var firsts := r[g.left];
        ghost var wasDirty := dirty';
        r, dirty' := AddAll(r, target, firsts, dirty');
        if !wasDirty && dirty' {
          ghost var c :| c in firsts && c !in Get(m, target) && r == Insert(m, target, c);
          assert RequiredAt(g, i, nullable, first, m, c);
        }
      }
    }
  }

  /** Every nonterminal occurrence of `g` is satisfied by `m`. */
  ghost predicate ProductionClosed(g: Grammer, nullable: set<Nonterminal>, first: TerminalMap, m: TerminalMap)
  {
    forall i :: 0 <= i < |g.right| && g.right[i].NonTerm? ==> TargetClosed(g, i, nullable, first, m)
  }

  /** `r` is `m` plus one new pair that some occurrence in `g` forces. */
  ghost predicate ProductionStep(g: Grammer, nullable: set<Nonterminal>, first: TerminalMap, m: TerminalMap, r: TerminalMap)
  {
    exists i, c :: 0 <= i < |g.right| && g.right[i].NonTerm? &&
      RequiredAt(g, i, nullable, first, m, c) && c !in Get(m, g.right[i].n) && r == Insert(m, g.right[i].n, c)
  }

  /** Every nonterminal occurrence of one production (the loop at
      src/main.rs:87-123). */
  method FollowProduction(g: Grammer, nullable: set<Nonterminal>, first: TerminalMap, m: TerminalMap, dirty: bool)
    returns (r: TerminalMap, dirty': bool)
    ensures dirty ==> dirty' && r == m
    ensures !dirty' ==> r == m && ProductionClosed(g, nullable, first, m)
    ensures !dirty && dirty' ==> ProductionStep(g, nullable, first, m, r)
  {
    r, dirty' := m, dirty;
    for i := 0 to |g.right|
      invariant dirty ==> dirty' && r == m
      invariant !dirty' ==> r == m && forall q :: 0 <= q < i && g.right[q].NonTerm? ==> TargetClosed(g, q, nullable, first, m)
      invariant !dirty && dirty' ==> ProductionStep(g, nullable, first, m, r)
    {
      if g.right[i].NonTerm? {
        ghost var wasDirty := dirty';
        r, dirty' := FollowTarget(g, i, nullable, first, r, dirty');
        if !wasDirty && dirty' {
          ghost var c :| RequiredAt(g, i, nullable, first, m, c) && c !in Get(m, g.right[i].n) &&
            r == Insert(m, g.right[i].n, c);
        }
      }
    }
  }

  /** One full pass over the productions: it changes nothing, and then no
      occurrence can add anything, or it records exactly one new terminal,
      one that some occurrence forces. */
  method FollowPass(gs: seq<Grammer>, nullable: set<Nonterminal>, first: TerminalMap, m: TerminalMap)
    returns (r: TerminalMap, dirty: bool)
    ensures !dirty ==> r == m && Closed(gs, nullable, first, m)
    ensures dirty ==> Step(gs, nullable, first, m, r)
  {
    r, dirty := m, false;
    for k := 0 to |gs|
      invariant !dirty ==> r == m && forall q :: 0 <= q < k ==> ProductionClosed(gs[q], nullable, first, m)
      invariant dirty ==> Step(gs, nullable, first, m, r)
    {
      ghost var wasDirty := dirty;
      r, dirty := FollowProduction(gs[k], nullable, first, r, dirty);
      if !wasDirty && dirty {
        ghost var i, c :| 0 <= i < |gs[k].right| && gs[k].right[i].NonTerm? &&
          RequiredAt(gs[k], i, nullable, first, m, c) && c !in Get(m, gs[k].right[i].n) &&
          r == Insert(m, gs[k].right[i].n, c);
        assert Required(gs, nullable, first, m, gs[k].right[i].n, c);
      }
    }
  }

  /** A growing pass keeps what the main loop of `Follow` maintains, and
      strictly shrinks what is still missing. */
  lemma StepKeepsInvariant(gs: seq<Grammer>, nullable: set<Nonterminal>, first: TerminalMap, init: TerminalMap,
                           prev: TerminalMap, r: TerminalMap, keys: set<Nonterminal>, terms: set<Terminal>)
    requires Step(gs, nullable, first, prev, r)
    requires RhsNonterminals(gs) <= keys && Terminals(gs) <= terms && Values(first) <= terms
    requires Le(init, prev) && Within(prev, keys, terms)
    requires forall f :: Closed(gs, nullable, first, f) && Le(init, f) ==> Le(prev, f)
    requires forall n, c :: c in Get(prev, n) && c !in Get(init, n) ==> Required(gs, nullable, first, prev, n, c)
    ensures Le(init, r) && Within(r, keys, terms)
    ensures Missing(r, keys, terms) < Missing(prev, keys, terms)
    ensures forall f :: Closed(gs, nullable, first, f) && Le(init, f) ==> Le(r, f)
    ensures forall n, c :: c in Get(r, n) && c !in Get(init, n) ==> Required(gs, nullable, first, r, n, c)
  {
    var n, c :| Required(gs, nullable, first, prev, n, c) && c !in Get(prev, n) && r == Insert(prev, n, c);
    assert Le(init, r) && Within(r, keys, terms) && Missing(r, keys, terms) < Missing(prev, keys, terms) by {
      RequiredBounded(gs, nullable, first, prev, n, c, keys, terms);
      InsertGrows(prev, n, c, keys, terms);
      LeTrans(init, prev, r);
    }
    forall f | Closed(gs, nullable, first, f) && Le(init, f)
      ensures Le(r, f)
    {
      RequiredInClosed(gs, nullable, first, prev, f, n, c);
    }
    forall n', c' | c' in Get(r, n') && c' !in Get(init, n')
      ensures Required(gs, nullable, first, r, n', c')
    {
      RequiredMono(gs, nullable, first, prev, r, n', c');
    }
  }

  /** The Follow sets grown from `init`, pass after pass until a pass adds
      nothing. The result is the least map above `init` closed under the
      rules of the scan; it only names nonterminals that occur on a
      right-hand side (or that `init` held) and terminals of the grammar or
      of `first`; and every terminal it adds is forced by some occurrence. */
  method Follow(gs: seq<Grammer>, nullable: set<Nonterminal>, first: TerminalMap, init: TerminalMap)
    returns (r: TerminalMap)
    ensures Le(init, r)
    ensures Closed(gs, nullable, first, r)
    ensures forall f :: Closed(gs, nullable, first, f) && Le(init, f) ==> Le(r, f)
    ensures Within(r, RhsNonterminals(gs) + init.Keys, Terminals(gs) + Values(first) + Values(init))
    ensures forall n, c :: c in Get(r, n) && c !in Get(init, n) ==> Required(gs, nullable, first, r, n, c)
  {
    ghost var keys, terms := RhsNonterminals(gs) + init.Keys, Terminals(gs) + Values(first) + Values(init);
    r := init;
    var dirty := true;
    while dirty
      invariant Le(init, r) && Within(r, keys, terms)
      invariant !dirty ==> Closed(gs, nullable, first, r)
      invariant forall f :: Closed(gs, nullable, first, f) && Le(init, f) ==> Le(r, f)
      invariant forall n, c :: c in Get(r, n) && c !in Get(init, n) ==> Required(gs, nullable, first, r, n, c)
      decreases Missing(r, keys, terms), dirty
    {
      ghost var prev := r;
      r, dirty := FollowPass(gs, nullable, first, r);
      if dirty {
        StepKeepsInvariant(gs, nullable, first, init, prev, r, keys, terms);
      }
    }
  }

  /** In a closed map, a nonterminal followed only by nullable nonterminals
      inherits the Follow set of the left side (the textbook rule), and so
      does a nonterminal followed by nullable nonterminals and then one last
      symbol, whatever that symbol is: for `N -> .. M t` with a terminal `t`,
      Follow(M) holds `t` and all of Follow(N). */
  lemma {:induction false} FollowAtEnd(gs: seq<Grammer>, nullable: set<Nonterminal>, first: TerminalMap, f: TerminalMap,
                                       k: nat, i: nat)
    requires Closed(gs, nullable, first, f)
    requires k < |gs| && i < |gs[k].right| && gs[k].right[i].NonTerm?
    requires NullableSpan(gs[k].right, i + 1, |gs[k].right| - 1, nullable)
    ensures Get(f, gs[k].left) <= Get(f, gs[k].right[i].n)
    ensures i + 1 < |gs[k].right| ==> Starts(gs[k].right[|gs[k].right| - 1], first) <= Get(f, gs[k].right[i].n)
  {
    assert TargetClosed(gs[k], i, nullable, first, f);
  }

  /** In a closed map, the terminal right after a nonterminal is in its
      Follow set, and so is the First set of a nonterminal right after it. */
  lemma NextSymbolFollows(gs: seq<Grammer>, nullable: set<Nonterminal>, first: TerminalMap, f: TerminalMap,
                          k: nat, i: nat)
    requires Closed(gs, nullable, first, f)
    requires k < |gs| && i + 1 < |gs[k].right| && gs[k].right[i].NonTerm?
    ensures Starts(gs[k].right[i + 1], first) <= Get(f, gs[k].right[i].n)
  {
    assert TargetClosed(gs[k], i, nullable, first, f);
    assert NullableSpan(gs[k].right, i + 1, i + 1, nullable);
  }
}
