/** Grammar symbols, productions and dotted items, with their conversions and
    their textual rendering (src/grammer.rs). */
module Grammar {

  datatype Option<T> = None | Some(value: T)

  /** A grammar variable, identified by its name alone. */
  datatype Nonterminal = Nonterminal(name: string)

  /** An input symbol: the end-of-input marker or one character. */
  datatype Terminal = EOS | Char(c: char)

  /** A grammar symbol, as it appears on a right-hand side or labels an edge. */
  datatype Character = Term(t: Terminal) | NonTerm(n: Nonterminal)

  /** A production `left -> right`; with `dotPos == Some(k)` it is the item
      whose dot stands before `right[k]`. Equality is structural over all
      three fields. */
  datatype Grammer = Grammer(left: Nonterminal, right: seq<Character>, dotPos: Option<nat>)

  // ---------------------------------------------------------------------
  // Conversions (the `From` impls)

  function NonterminalFromString(s: string): (n: Nonterminal)
    ensures n.name == s
  {
    Nonterminal(s)
  }

  function TerminalFromChar(c: char): (t: Terminal)
    ensures t.Char? && t.c == c
  {
    Char(c)
  }

  function CharacterFromChar(c: char): (x: Character)
    ensures x.Term? && x.t.Char? && x.t.c == c
  {
    Term(TerminalFromChar(c))
  }

  function CharacterFromTerminal(t: Terminal): (x: Character)
    ensures x.Term? && x.t == t
  {
    Term(t)
  }

  /** The blanket conversion from anything that converts into a nonterminal:
      here a nonterminal itself or its name. */
  function CharacterFromNonterminal(n: Nonterminal): (x: Character)
    ensures x.NonTerm? && x.n == n
  {
    NonTerm(n)
  }

  function CharacterFromString(s: string): (x: Character)
    ensures x.NonTerm? && x.n.name == s
  {
    CharacterFromNonterminal(NonterminalFromString(s))
  }

  /** A character and a name never convert to the same symbol, and each
      conversion loses nothing. */
  lemma ConversionsDistinct(c: char, d: char, s: string, u: string)
    ensures CharacterFromChar(c) != CharacterFromString(s)
    ensures CharacterFromChar(c) == CharacterFromChar(d) <==> c == d
    ensures CharacterFromString(s) == CharacterFromString(u) <==> s == u
  {
  }

  /** Two items of one production with different dot positions are different items. */
  lemma ItemsDifferByDot(g: Grammer, h: Grammer)
    requires g.left == h.left && g.right == h.right
    ensures g == h <==> g.dotPos == h.dotPos
  {
  }

  // ---------------------------------------------------------------------
  // The grammar's alphabet

  ghost function Lefts(gs: seq<Grammer>): set<Nonterminal>
  {
    set k | 0 <= k < |gs| :: gs[k].left
  }

  /** The nonterminals that occur on some right-hand side. */
  ghost function RhsNonterminals(gs: seq<Grammer>): set<Nonterminal>
  {
    set k, i | 0 <= k < |gs| && 0 <= i < |gs[k].right| && gs[k].right[i].NonTerm? :: gs[k].right[i].n
  }

  /** The terminals that occur on some right-hand side. */
  ghost function Terminals(gs: seq<Grammer>): set<Terminal>
  {
    set k, i | 0 <= k < |gs| && 0 <= i < |gs[k].right| && gs[k].right[i].Term? :: gs[k].right[i].t
  }

  // ---------------------------------------------------------------------
  // Rendering (the `Display` impls), as infallible string building

  /** The dot marker `・` (U+30FB). */
  const DotMarker: string := "\U{30FB}"

  /** A terminal's rendering: it is exactly `$` for the end marker and
      nothing else, and a character terminal shows its character. */
  function TerminalText(t: Terminal): (r: string)
    ensures r == "$" <==> t == EOS
    ensures t.Char? ==> t.c in r
  {
    match t
    case EOS => "$"
    case Char(c) => if c == '$' then "'$'" else [c]
  }

  /** The end marker and the character `$` render differently, and so does
      every other pair of distinct terminals. */
  lemma TerminalTextInjective(a: Terminal, b: Terminal)
    ensures a == EOS ==> TerminalText(a) == "$"
    ensures a == Char('$') ==> TerminalText(a) == "'$'"
    ensures a.Char? && a.c != '$' ==> TerminalText(a) == [a.c]
    ensures TerminalText(a) == TerminalText(b) ==> a == b
  {
  }

  function SymbolText(x: Character): string
  {
    match x
    case Term(t) => TerminalText(t)
    case NonTerm(n) => n.name
  }

  /** The symbols of `syms` rendered one after another, with no marker. */
  function PlainText(syms: seq<Character>): string
  {
    if syms == [] then "" else SymbolText(syms[0]) + PlainText(syms[1..])
  }

  function MarkBefore(dotPos: Option<nat>, k: nat): string
  {
    if dotPos == Some(k) then DotMarker else ""
  }

  /** What the rendering loop writes from position `i` on: for each
      position, the marker if the dot stands there, then the symbol. */
  function RhsText(right: seq<Character>, dotPos: Option<nat>, i: nat): (r: string)
    requires i <= |right|
    ensures |r| == |PlainText(right[i..])| + (if dotPos.Some? && i <= dotPos.value < |right| then 1 else 0)
    decreases |right| - i
  {
    if i == |right| then ""
    else
      assert right[i..][1..] == right[i + 1..];
      MarkBefore(dotPos, i) + SymbolText(right[i]) + RhsText(right, dotPos, i + 1)
  }

  /** An item's rendering starts with its left name and ` -> `, and adds
      exactly one marker character to the symbols when it is dotted within
      its right side (at the end included), none otherwise. */
  function ItemText(g: Grammer): (r: string)
    ensures |r| == |g.left.name| + 4 + |PlainText(g.right)|
                   + (if g.dotPos.Some? && g.dotPos.value <= |g.right| then 1 else 0)
    ensures r[..|g.left.name| + 4] == g.left.name + " -> "
  {
    assert g.right[0..] == g.right;
    g.left.name + " -> " + RhsText(g.right, g.dotPos, 0) + MarkBefore(g.dotPos, |g.right|)
  }

  /** Where the dot does not stand at `i` or later, the loop writes the
      remaining symbols with no marker. */
  lemma {:induction false} RhsTextUnmarked(right: seq<Character>, dotPos: Option<nat>, i: nat)
    requires i <= |right|
    requires dotPos.None? || dotPos.value < i || dotPos.value >= |right|
    ensures RhsText(right, dotPos, i) == PlainText(right[i..])
    decreases |right| - i
  {
    if i < |right| {
      RhsTextUnmarked(right, dotPos, i + 1);
      assert right[i..][1..] == right[i + 1..];
      assert MarkBefore(dotPos, i) == "";
    }
  }

  lemma Regroup(x: string, q: string, d: string, r: string)
    ensures "" + x + (q + d + r) == (x + q) + d + r
    ensures d + x + r == "" + d + (x + r)
  {
  }

  lemma PlainTextCons(s: seq<Character>, i: nat, j: nat)
    requires i < j <= |s|
    ensures PlainText(s[i..j]) == SymbolText(s[i]) + PlainText(s[i + 1..j])
  {
    assert s[i..j][1..] == s[i + 1..j];
  }

  /** At the dot, the loop writes the marker, then the rest of the symbols. */
  lemma RhsTextAtDot(right: seq<Character>, k: nat)
    requires k < |right|
    ensures RhsText(right, Some(k), k) == PlainText(right[k..k]) + DotMarker + PlainText(right[k..])
  {
    var x, r := SymbolText(right[k]), PlainText(right[k + 1..]);
    calc {
      RhsText(right, Some(k), k);
      DotMarker + x + RhsText(right, Some(k), k + 1);
      { RhsTextUnmarked(right, Some(k), k + 1); }
      DotMarker + x + r;
      { Regroup(x, "", DotMarker, r); }
      "" + DotMarker + (x + r);
      { PlainTextCons(right, k, |right|);
        assert right[k..|right|] == right[k..] && right[k + 1..|right|] == right[k + 1..]; }
      "" + DotMarker + PlainText(right[k..]);
      { assert right[k..k] == []; }
      PlainText(right[k..k]) + DotMarker + PlainText(right[k..]);
    }
  }

  /** One position before the dot, the loop prepends that symbol. */
  lemma RhsTextBeforeDot(right: seq<Character>, k: nat, i: nat)
    requires i < k < |right|
    requires RhsText(right, Some(k), i + 1) == PlainText(right[i + 1..k]) + DotMarker + PlainText(right[k..])
    ensures RhsText(right, Some(k), i) == PlainText(right[i..k]) + DotMarker + PlainText(right[k..])
  {
    var x, q, r := SymbolText(right[i]), PlainText(right[i + 1..k]), PlainText(right[k..]);
    calc {
      RhsText(right, Some(k), i);
      "" + x + (q + DotMarker + r);
      { Regroup(x, q, DotMarker, r); }
      (x + q) + DotMarker + r;
      { PlainTextCons(right, i, k); }
      PlainText(right[i..k]) + DotMarker + r;
    }
  }

  /** From a position `i` at or before the dot at `k`, the loop writes the
      symbols from `i` to `k`, the marker, then the symbols from `k` on. */
  lemma {:induction false} RhsTextMarked(right: seq<Character>, k: nat, i: nat)
    requires i <= k < |right|
    ensures RhsText(right, Some(k), i) == PlainText(right[i..k]) + DotMarker + PlainText(right[k..])
    decreases k - i
  {
    if i == k {
      RhsTextAtDot(right, k);
    } else {
      RhsTextMarked(right, k, i + 1);
      RhsTextBeforeDot(right, k, i);
    }
  }

  /** An item renders as its left name, ` -> `, and its symbols in order; the
      marker stands immediately before symbol `k` when `dotPos == Some(k)` and
      `k` is inside the right-hand side, once at the end when `k` is its
      length, and nowhere when the item is undotted or `k` is past the end. */
  lemma ItemTextSpec(g: Grammer)
    ensures g.dotPos.Some? && g.dotPos.value < |g.right| ==>
      ItemText(g) == g.left.name + " -> " + PlainText(g.right[..g.dotPos.value]) + DotMarker
                       + PlainText(g.right[g.dotPos.value..])
    ensures g.dotPos == Some(|g.right|) ==>
      ItemText(g) == g.left.name + " -> " + PlainText(g.right) + DotMarker
    ensures (g.dotPos.None? || g.dotPos.value > |g.right|) ==>
      ItemText(g) == g.left.name + " -> " + PlainText(g.right)
  {
    var right := g.right;
    assert right[0..] == right;
    assert ItemText(g) == g.left.name + " -> " + RhsText(right, g.dotPos, 0) + MarkBefore(g.dotPos, |right|);
    if g.dotPos.Some? && g.dotPos.value < |right| {
      var k := g.dotPos.value;
      RhsTextMarked(right, k, 0);
      assert right[0..k] == right[..k];
      assert MarkBefore(g.dotPos, |right|) == "";
    } else {
      RhsTextUnmarked(right, g.dotPos, 0);
    }
  }
}
