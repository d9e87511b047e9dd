/** Maps from nonterminals to terminal sets, as grown by the First and Follow
    analyses, and `add_char`, the one operation that grows them
    (src/main.rs:32-48). */
module TerminalSets {
  import opened Grammar

  type TerminalMap = map<Nonterminal, set<Terminal>>

  /** The terminals recorded for `n`; an absent entry reads as empty. */
  function Get(m: TerminalMap, n: Nonterminal): set<Terminal>
  {
    if n in m then m[n] else {}
  }

  /** `m` with `c` recorded for `n`. */
  function Insert(m: TerminalMap, n: Nonterminal, c: Terminal): TerminalMap
  {
    m[n := Get(m, n) + {c}]
  }

  /** The terminals symbol `x` can begin with according to `m`: a terminal
      itself, or what `m` records for a nonterminal. */
  function Starts(x: Character, m: TerminalMap): set<Terminal>
  {
    match x
    case Term(t) => {t}
    case NonTerm(n) => Get(m, n)
  }

  /** Every entry of `m` is also in `f`. */
  ghost predicate Le(m: TerminalMap, f: TerminalMap)
  {
    m.Keys <= f.Keys && forall n :: n in m ==> m[n] <= f[n]
  }

  /** `m` only mentions keys from `keys` and terminals from `terms`. */
  ghost predicate Within(m: TerminalMap, keys: set<Nonterminal>, terms: set<Terminal>)
  {
    m.Keys <= keys && forall n :: n in m ==> m[n] <= terms
  }

  /** Every terminal recorded anywhere in `m`. */
  ghost function Values(m: TerminalMap): set<Terminal>
  {
    set n, t | n in m && t in m[n] :: t
  }

  /** The pairs of `keys` x `terms` that `m` does not record yet: the measure
      that every growing pass of First and Follow decreases. */
  ghost function Missing(m: TerminalMap, keys: set<Nonterminal>, terms: set<Terminal>): set<(Nonterminal, Terminal)>
  {
    set n, t | n in keys && t in terms && t !in Get(m, n) :: (n, t)
  }

  lemma LeTrans(a: TerminalMap, b: TerminalMap, c: TerminalMap)
    requires Le(a, b) && Le(b, c)
    ensures Le(a, c)
  {
  }

  lemma LeGet(m: TerminalMap, f: TerminalMap, n: Nonterminal)
    requires Le(m, f)
    ensures Get(m, n) <= Get(f, n)
  {
  }

  /** Recording a pair grows the map, keeps it within bounds that contain the
      pair, and strictly shrinks what is missing when the pair was new. */
  lemma InsertGrows(m: TerminalMap, n: Nonterminal, c: Terminal, keys: set<Nonterminal>, terms: set<Terminal>)
    ensures Le(m, Insert(m, n, c))
    ensures Within(m, keys, terms) && n in keys && c in terms ==> Within(Insert(m, n, c), keys, terms)
    ensures n in keys && c in terms && c !in Get(m, n) ==>
      Missing(Insert(m, n, c), keys, terms) < Missing(m, keys, terms)
  {
    if n in keys && c in terms && c !in Get(m, n) {
      assert (n, c) in Missing(m, keys, terms);
      assert (n, c) !in Missing(Insert(m, n, c), keys, terms);
      forall p | p in Missing(Insert(m, n, c), keys, terms)
        ensures p in Missing(m, keys, terms)
      {
        assert Get(m, p.0) <= Get(Insert(m, n, c), p.0);
      }
    }
  }

  /** Records `c` for `n` and reports whether it was new: `added` is true
      exactly when `c` was not recorded for `n` before (a missing entry
      counts as empty and is created), and no other entry changes. */
  method AddChar(m: TerminalMap, n: Nonterminal, c: Terminal) returns (r: TerminalMap, added: bool)
    ensures added <==> c !in Get(m, n)
    ensures r.Keys == m.Keys + {n}
    ensures c in r[n] && Get(r, n) == Get(m, n) + {c}
    ensures forall x :: x in m && x != n ==> r[x] == m[x]
    ensures r == Insert(m, n, c)
    ensures !added ==> r == m
  {
    if n in m {
      if c !in m[n] {
        return m[n := m[n] + {c}], true;
      }
    } else {
      return m[n := {c}], true;
    }
    return m, false;
  }

  /** The loop `for c in cs { dirty = dirty || add_char(m, n, c) }`. Once
      `dirty` is set, `add_char` is no longer called, so at most one new
      terminal is recorded, and only if `dirty` was clear on entry. */
  method AddAll(m: TerminalMap, n: Nonterminal, cs: set<Terminal>, dirty: bool) returns (r: TerminalMap, dirty': bool)
    ensures dirty ==> dirty' && r == m
    ensures !dirty ==> (dirty' <==> !(cs <= Get(m, n)))
    ensures !dirty' ==> r == m
    ensures !dirty && dirty' ==> exists c :: c in cs && c !in Get(m, n) && r == Insert(m, n, c)
  {
    r, dirty' := m, dirty;
    var rest := cs;
    while rest != {}
      invariant rest <= cs
      invariant dirty ==> dirty' && r == m
      invariant !dirty' ==> r == m && cs - rest <= Get(m, n)
      invariant !dirty && dirty' ==> exists c :: c in cs && c !in Get(m, n) && r == Insert(m, n, c)
      decreases rest
    {
      var c :| c in rest;
      if !dirty' {
        r, dirty' := AddChar(r, n, c);
      }
      assert cs - (rest - {c}) == (cs - rest) + {c};
      rest := rest - {c};
    }
  }
}
