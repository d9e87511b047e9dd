/** The LR(0) items of a grammar and the closure of one item
    (`insert_dots` and `closure`, src/main.rs:131-169). */
module Items {
  import opened Grammar

  // ---------------------------------------------------------------------
  // The item universe

  /** Production `p` with its dot before position `i`. */
  function At(p: Grammer, i: nat): Grammer
  {
    p.(dotPos := Some(i))
  }

  /** The items of one production, dot positions `0..=|right|` ascending. */
  function DotsOf(p: Grammer): seq<Grammer>
  {
    seq(|p.right| + 1, i requires 0 <= i => At(p, i))
  }

  /** The items of every production, production after production. */
  function Dots(ps: seq<Grammer>): seq<Grammer>
  {
    if ps == [] then [] else Dots(ps[..|ps| - 1]) + DotsOf(ps[|ps| - 1])
  }

  /** How many items the productions have: one more than the length of
      each right-hand side. */
  function ItemCount(ps: seq<Grammer>): nat
  {
    if ps == [] then 0 else ItemCount(ps[..|ps| - 1]) + |ps[|ps| - 1].right| + 1
  }

  /** `insert_dots`: for each production, in order, a copy for every dot
      position from 0 to the length of its right-hand side. */
  method InsertDots(ps: seq<Grammer>) returns (ret: seq<Grammer>)
    ensures ret == Dots(ps)
  {
    ret := [];
    for k := 0 to |ps|
      invariant ret == Dots(ps[..k])
    {
      var g := ps[k];
      ghost var before := ret;
      for i := 0 to |g.right| + 1
        invariant g.left == ps[k].left && g.right == ps[k].right
        invariant ret == before + DotsOf(ps[k])[..i]
      {
        g := g.(dotPos := Some(i));
        ret := ret + [g];
      }
      assert DotsOf(ps[k])[..|ps[k].right| + 1] == DotsOf(ps[k]);
      assert ps[..k + 1][..k] == ps[..k];
    }
    assert ps[..|ps|] == ps;
  }

  lemma {:induction false} DotsLength(ps: seq<Grammer>)
    ensures |Dots(ps)| == ItemCount(ps)
  {
    if ps != [] {
      DotsLength(ps[..|ps| - 1]);
    }
  }

  /** The items of production `k` sit together, in dot order, right after
      the items of the productions before it. */
  lemma {:induction false} DotsIndex(ps: seq<Grammer>, k: nat, i: nat)
    requires k < |ps| && i <= |ps[k].right|
    ensures ItemCount(ps[..k]) + i < |Dots(ps)|
    ensures Dots(ps)[ItemCount(ps[..k]) + i] == At(ps[k], i)
  {
    var init := ps[..|ps| - 1];
    DotsLength(init);
    if k == |ps| - 1 {
      assert ps[..k] == init;
    } else {
      DotsIndex(init, k, i);
      assert init[..k] == ps[..k];
    }
  }

  /** An item is in the universe exactly when it is some production with
      its dot at some position from 0 to the production's length. */
  lemma {:induction false} DotsMember(ps: seq<Grammer>, x: Grammer)
    ensures x in Dots(ps) <==> exists k, i :: 0 <= k < |ps| && 0 <= i <= |ps[k].right| && x == At(ps[k], i)
  {
    if ps != [] {
      var init := ps[..|ps| - 1];
      DotsMember(init, x);
      if x in Dots(ps) {
        if x in Dots(init) {
          var k, i :| 0 <= k < |init| && 0 <= i <= |init[k].right| && x == At(init[k], i);
          assert x == At(ps[k], i);
        } else {
          var i :| 0 <= i < |DotsOf(ps[|ps| - 1])| && DotsOf(ps[|ps| - 1])[i] == x;
          assert x == At(ps[|ps| - 1], i);
        }
      }
      if exists k, i :: 0 <= k < |ps| && 0 <= i <= |ps[k].right| && x == At(ps[k], i) {
        var k, i :| 0 <= k < |ps| && 0 <= i <= |ps[k].right| && x == At(ps[k], i);
        if k < |ps| - 1 {
          assert x == At(init[k], i);
        } else {
          assert DotsOf(ps[k])[i] == x;
        }
      }
    }
  }

  /** Every item of the universe is dotted, within its right-hand side. */
  lemma DotsValid(ps: seq<Grammer>)
    ensures Valid(Dots(ps))
  {
    forall j | 0 <= j < |Dots(ps)|
      ensures ValidItem(Dots(ps)[j])
    {
      DotsMember(ps, Dots(ps)[j]);
    }
  }

  /** Moving the dot of a universe item one step right, when it is not at
      the end, gives another universe item. */
  lemma DotsAdvance(ps: seq<Grammer>, x: Grammer)
    requires x in Dots(ps) && x.dotPos.Some? && x.dotPos.value < |x.right|
    ensures Advance(x) in Dots(ps)
  {
    DotsMember(ps, x);
    var k, i :| 0 <= k < |ps| && 0 <= i <= |ps[k].right| && x == At(ps[k], i);
    assert Advance(x) == At(ps[k], i + 1);
    DotsMember(ps, Advance(x));
  }

  // ---------------------------------------------------------------------
  // Closure of one item

  /** The item is dotted and its dot is within the right-hand side. */
  predicate ValidItem(g: Grammer)
  {
    g.dotPos.Some? && g.dotPos.value <= |g.right|
  }

  predicate Valid(u: seq<Grammer>)
  {
    forall j :: 0 <= j < |u| ==> ValidItem(u[j])
  }

  /** The item with its dot moved one symbol right. */
  function Advance(g: Grammer): (a: Grammer)
    requires g.dotPos.Some?
    ensures a.left == g.left && a.right == g.right && a.dotPos == Some(g.dotPos.value + 1)
  {
    g.(dotPos := Some(g.dotPos.value + 1))
  }

  /** The nonterminal right after the dot, if there is one. */
  function NextNonterminal(g: Grammer): (r: Option<Nonterminal>)
    requires ValidItem(g)
    ensures r.Some? <==> g.dotPos.value < |g.right| && g.right[g.dotPos.value].NonTerm?
    ensures r.Some? ==> g.right[g.dotPos.value] == NonTerm(r.value)
  {
    var p := g.dotPos.value;
    if p < |g.right| && g.right[p].NonTerm? then Some(g.right[p].n) else None
  }

  /** `x` is an item that expands `n`: a production of `n` with the dot at
      its start. */
  predicate Expands(x: Grammer, n: Nonterminal)
  {
    x.left == n && x.dotPos == Some(0)
  }

  /** A ranking under which expanding an item always leads to a nonterminal
      of lower rank: the relation "`m` is the first symbol of a production
      of `n`" has no cycle among the items of `u`. It is what makes the
      recursion of `closure` end; on a left-recursive grammar it recurses
      forever. */
  ghost predicate Ranked(u: seq<Grammer>, rank: Nonterminal -> nat)
  {
    forall j :: 0 <= j < |u| && u[j].dotPos == Some(0) && |u[j].right| > 0 && u[j].right[0].NonTerm? ==>
      rank(u[j].right[0].n) < rank(u[j].left)
  }

  ghost function Height(g: Grammer, rank: Nonterminal -> nat): nat
    requires ValidItem(g)
  {
    match NextNonterminal(g)
    case None => 0
    case Some(n) => rank(n) + 1
  }

  /** The closure of item `g` over the universe `u`: `g` itself and, when a
      nonterminal `n` follows the dot, the closures of the items of `u` that
      expand `n`. */
  ghost function Closure(g: Grammer, u: seq<Grammer>, rank: Nonterminal -> nat): set<Grammer>
    requires ValidItem(g) && Valid(u) && Ranked(u, rank)
    decreases Height(g, rank)
  {
    match NextNonterminal(g)
    case None => {g}
    case Some(n) => {g} + Expansion(n, u, rank, |u|)
  }

  /** The union of the closures of the items among `u[..k]` that expand `n`. */
  ghost function Expansion(n: Nonterminal, u: seq<Grammer>, rank: Nonterminal -> nat, k: nat): set<Grammer>
    requires Valid(u) && Ranked(u, rank) && k <= |u|
    decreases rank(n) + 1, k
  {
    if k == 0 then {}
    else if Expands(u[k - 1], n) then Expansion(n, u, rank, k - 1) + Closure(u[k - 1], u, rank)
    else Expansion(n, u, rank, k - 1)
  }

  /** `closure`: the recursion of src/main.rs:142-169, with its loop over the
      universe. */
  method ComputeClosure(g: Grammer, u: seq<Grammer>, ghost rank: Nonterminal -> nat) returns (ret: set<Grammer>)
    requires ValidItem(g) && Valid(u) && Ranked(u, rank)
    ensures ret == Closure(g, u, rank)
    decreases Height(g, rank)
  {
    var p := g.dotPos.value;
    if p == |g.right| {
      ret := {g};
    } else {
      match g.right[p]
      case Term(_) =>
        ret := {g};
      case NonTerm(n) =>
        ret := {};
        for k := 0 to |u|
          invariant ret == Expansion(n, u, rank, k)
        {
          if u[k].left == n && u[k].dotPos.value == 0 {
            var sub := ComputeClosure(u[k], u, rank);
            ret := ret + sub;
          }
        }
        ret := ret + {g};
    }
  }

  /** The closure is closed under expansion: whenever a nonterminal follows
      the dot of one of its items, every item of `u` expanding that
      nonterminal is in it too. */
  ghost predicate ClosedUnder(s: set<Grammer>, u: seq<Grammer>)
  {
    forall x, j :: x in s && ValidItem(x) && 0 <= j < |u| && NextNonterminal(x) == Some(u[j].left) && u[j].dotPos == Some(0)
      ==> u[j] in s
  }

  /** `g` is in its own closure; with the dot at the end or before a
      terminal the closure is `g` alone. */
  lemma ClosureOfBlocked(g: Grammer, u: seq<Grammer>, rank: Nonterminal -> nat)
    requires ValidItem(g) && Valid(u) && Ranked(u, rank)
    ensures g in Closure(g, u, rank)
    ensures g.dotPos.value == |g.right| ==> Closure(g, u, rank) == {g}
    ensures g.dotPos.value < |g.right| && g.right[g.dotPos.value].Term? ==> Closure(g, u, rank) == {g}
  {
  }

  /** An item is in the expansion up to `k` exactly when it is in the
      closure of an item among `u[..k]` that expands `n`. */
  lemma {:induction false} ExpansionMember(n: Nonterminal, u: seq<Grammer>, rank: Nonterminal -> nat, k: nat, x: Grammer)
    requires Valid(u) && Ranked(u, rank) && k <= |u|
    ensures x in Expansion(n, u, rank, k) <==>
      exists j :: 0 <= j < k && Expands(u[j], n) && x in Closure(u[j], u, rank)
    decreases k
  {
    if k > 0 {
      ExpansionMember(n, u, rank, k - 1, x);
    }
  }

  /** Every item of the closure other than `g` is an item of `u` that has its
      dot at the start. */
  lemma {:induction false} ClosureMembers(g: Grammer, u: seq<Grammer>, rank: Nonterminal -> nat, x: Grammer)
    requires ValidItem(g) && Valid(u) && Ranked(u, rank)
    requires x in Closure(g, u, rank)
    ensures x == g || (x in u && x.dotPos == Some(0))
    decreases Height(g, rank)
  {
    if x != g {
      var n := NextNonterminal(g).value;
      ExpansionMember(n, u, rank, |u|, x);
      var j :| 0 <= j < |u| && Expands(u[j], n) && x in Closure(u[j], u, rank);
      ClosureMembers(u[j], u, rank, x);
    }
  }

  /** When `n` follows the dot, every item of `u` that expands `n` is in the
      closure, together with its own closure. */
  lemma ClosureHoldsExpansions(g: Grammer, u: seq<Grammer>, rank: Nonterminal -> nat, n: Nonterminal, j: nat)
    requires ValidItem(g) && Valid(u) && Ranked(u, rank)
    requires NextNonterminal(g) == Some(n) && j < |u| && Expands(u[j], n)
    ensures u[j] in Closure(g, u, rank)
    ensures Closure(u[j], u, rank) <= Closure(g, u, rank)
  {
    forall x | x in Closure(u[j], u, rank)
      ensures x in Closure(g, u, rank)
    {
      ExpansionMember(n, u, rank, |u|, x);
    }
  }

  lemma {:induction false} ClosureIsClosed(g: Grammer, u: seq<Grammer>, rank: Nonterminal -> nat)
    requires ValidItem(g) && Valid(u) && Ranked(u, rank)
    ensures ClosedUnder(Closure(g, u, rank), u)
    decreases Height(g, rank)
  {
    var c := Closure(g, u, rank);
    forall x, j | x in c && ValidItem(x) && 0 <= j < |u| && NextNonterminal(x) == Some(u[j].left) && u[j].dotPos == Some(0)
      ensures u[j] in c
    {
      if x == g {
        ClosureHoldsExpansions(g, u, rank, u[j].left, j);
      } else {
        var n := NextNonterminal(g).value;
        ExpansionMember(n, u, rank, |u|, x);
        var i :| 0 <= i < |u| && Expands(u[i], n) && x in Closure(u[i], u, rank);
        ClosureIsClosed(u[i], u, rank);
        ClosureHoldsExpansions(g, u, rank, n, i);
      }
    }
  }

  /** The closure is the least set holding `g` that is closed under
      expansion. */
  lemma {:induction false} ClosureIsLeast(g: Grammer, u: seq<Grammer>, rank: Nonterminal -> nat, s: set<Grammer>)
    requires ValidItem(g) && Valid(u) && Ranked(u, rank)
    requires g in s && ClosedUnder(s, u)
    ensures Closure(g, u, rank) <= s
    decreases Height(g, rank)
  {
    forall x | x in Closure(g, u, rank)
      ensures x in s
    {
      if x != g {
        var n := NextNonterminal(g).value;
        ExpansionMember(n, u, rank, |u|, x);
        var j :| 0 <= j < |u| && Expands(u[j], n) && x in Closure(u[j], u, rank);
        ClosureIsLeast(u[j], u, rank, s);
      }
    }
  }

  /** Closing again adds nothing: the closure of any item of a closure is
      part of it. */
  lemma ClosureIdempotent(g: Grammer, u: seq<Grammer>, rank: Nonterminal -> nat, x: Grammer)
    requires ValidItem(g) && Valid(u) && Ranked(u, rank)
    requires x in Closure(g, u, rank)
    ensures ValidItem(x)
    ensures Closure(x, u, rank) <= Closure(g, u, rank)
  {
    ClosureMembers(g, u, rank, x);
    ClosureIsClosed(g, u, rank);
    ClosureIsLeast(x, u, rank, Closure(g, u, rank));
  }

  /** Every item of the closure of a universe item is in the universe. */
  lemma ClosureInUniverse(u: seq<Grammer>, rank: Nonterminal -> nat, j: nat, x: Grammer)
    requires Valid(u) && Ranked(u, rank) && j < |u|
    requires x in Closure(u[j], u, rank)
    ensures x in u
  {
    ClosureMembers(u[j], u, rank, x);
  }
}
