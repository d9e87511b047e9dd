/** The Nullable analysis (src/main.rs:12-30): the nonterminals that derive
    the empty string, grown pass by pass until a pass adds nothing. */
module NullableSet {
  import opened Grammar

  /** Every symbol of `rhs` is a nonterminal in `known` (vacuously true for
      an empty right-hand side; a terminal never qualifies). */
  predicate AllNullable(rhs: seq<Character>, known: set<Nonterminal>)
  {
    forall i :: 0 <= i < |rhs| ==> rhs[i].NonTerm? && rhs[i].n in known
  }

  /** Every symbol of `rhs[lo..hi]` is a nonterminal in `nullable`: a scan
      that starts at `lo` passes through to `hi`. */
  predicate NullableSpan(rhs: seq<Character>, lo: nat, hi: nat, nullable: set<Nonterminal>)
  {
    forall j :: lo <= j < hi && j < |rhs| ==> rhs[j].NonTerm? && rhs[j].n in nullable
  }

  /** `s` is closed: whenever every symbol of a production is a nonterminal
      in `s`, its left side is in `s` too. */
  ghost predicate Closed(gs: seq<Grammer>, s: set<Nonterminal>)
  {
    forall k :: 0 <= k < |gs| && AllNullable(gs[k].right, s) ==> gs[k].left in s
  }

  /** Some production of `x` has a right side made only of nonterminals in `s`. */
  ghost predicate Supported(gs: seq<Grammer>, s: set<Nonterminal>, x: Nonterminal)
  {
    exists k :: 0 <= k < |gs| && gs[k].left == x && AllNullable(gs[k].right, s)
  }

  lemma AllNullableMono(rhs: seq<Character>, s: set<Nonterminal>, t: set<Nonterminal>)
    requires s <= t && AllNullable(rhs, s)
    ensures AllNullable(rhs, t)
  {
  }

  lemma {:induction false} SubsetSize(s: set<Nonterminal>, t: set<Nonterminal>)
    requires s <= t
    ensures |s| <= |t|
    decreases s
  {
    if s != {} {
      var x :| x in s;
      SubsetSize(s - {x}, t - {x});
    }
  }

  lemma SubsetSameSize(s: set<Nonterminal>, t: set<Nonterminal>)
    requires s <= t && |t| == |s|
    ensures s == t
  {
    if t - s != {} {
      var x :| x in t - s;
      SubsetSize(s, t - {x});
    }
  }

  /** One pass over the productions, inserting as it goes: a production
      whose right side is already all nullable makes its left nullable, and
      later productions of the same pass see the insertion. */
  method NullablePass(gs: seq<Grammer>, m: set<Nonterminal>) returns (r: set<Nonterminal>)
    ensures m <= r <= m + Lefts(gs)
    ensures |r| == |m| ==> Closed(gs, r)
    ensures forall x :: x in r && x !in m ==> Supported(gs, r, x)
    ensures forall f :: Closed(gs, f) && m <= f ==> r <= f
  {
    r := m;
    for k := 0 to |gs|
      invariant m <= r <= m + Lefts(gs)
      invariant forall q :: 0 <= q < k && AllNullable(gs[q].right, m) ==> gs[q].left in r
      invariant forall x :: x in r && x !in m ==> Supported(gs, r, x)
      invariant forall f :: Closed(gs, f) && m <= f ==> r <= f
    {
      var g := gs[k];
      if AllNullable(g.right, r) {
        ghost var prev := r;
        r := r + {g.left};
        forall x | x in r && x !in m
          ensures Supported(gs, r, x)
        {
          if x == g.left {
            AllNullableMono(g.right, prev, r);
          } else {
            var q :| 0 <= q < |gs| && gs[q].left == x && AllNullable(gs[q].right, prev);
            AllNullableMono(gs[q].right, prev, r);
          }
        }
        forall f | Closed(gs, f) && m <= f
          ensures r <= f
        {
          AllNullableMono(g.right, prev, f);
        }
      } else {
        assert !AllNullable(g.right, m) by {
          if AllNullable(g.right, m) {
            AllNullableMono(g.right, m, r);
          }
        }
      }
    }
    if |r| == |m| {
      SubsetSameSize(m, r);
    }
  }

  /** The Nullable set grown from `init`: repeated passes until one leaves
      the size unchanged. The result is the least set above `init` that is
      closed under the rule "a production whose right side is all nullable
      nonterminals makes its left nullable"; so an empty production always
      makes its left nullable, while every nonterminal it adds has a
      production made only of nullable nonterminals (never of a terminal). */
  method Nullable(gs: seq<Grammer>, init: set<Nonterminal>) returns (r: set<Nonterminal>)
    ensures init <= r <= init + Lefts(gs)
    ensures Closed(gs, r)
    ensures forall f :: Closed(gs, f) && init <= f ==> r <= f
    ensures forall x :: x in r && x !in init ==> Supported(gs, r, x)
  {
    ghost var bound := init + Lefts(gs);
    r := init;
    var changed := true;
    while changed
      invariant init <= r <= bound
      invariant !changed ==> Closed(gs, r)
      invariant forall f :: Closed(gs, f) && init <= f ==> r <= f
      invariant forall x :: x in r && x !in init ==> Supported(gs, r, x)
      decreases bound - r, changed
    {
      var originalLen := |r|;
      ghost var prev := r;
      r := NullablePass(gs, r);
      changed := |r| != originalLen;
      forall x | x in r && x !in init
        ensures Supported(gs, r, x)
      {
        if x in prev {
          var q :| 0 <= q < |gs| && gs[q].left == x && AllNullable(gs[q].right, prev);
          AllNullableMono(gs[q].right, prev, r);
        }
      }
      if changed {
        assert r != prev;
      } else {
        SubsetSameSize(prev, r);
      }
    }
  }

  /** An empty production makes its left side nullable in any closed set. */
  lemma EpsilonNullable(gs: seq<Grammer>, s: set<Nonterminal>, k: nat)
    requires Closed(gs, s) && k < |gs| && gs[k].right == []
    ensures gs[k].left in s
  {
    assert AllNullable(gs[k].right, s);
  }

  /** A production with a terminal on its right side never supports its left. */
  lemma TerminalNeverNullable(gs: seq<Grammer>, s: set<Nonterminal>, k: nat, i: nat)
    requires k < |gs| && i < |gs[k].right| && gs[k].right[i].Term?
    ensures !AllNullable(gs[k].right, s)
  {
  }

  /** Running the analysis again on a closed set adds nothing: the least
      closed set above a closed `s` is `s` itself. */
  lemma ClosedIsFixedPoint(gs: seq<Grammer>, s: set<Nonterminal>, r: set<Nonterminal>)
    requires Closed(gs, s) && s <= r
    requires forall f :: Closed(gs, f) && s <= f ==> r <= f
    ensures r == s
  {
  }
}
