/** The LR(0) state graph built in `main` (src/main.rs:233-264): a work list
    over the arena, where node `done` is processed by advancing the dot of
    each of its items that has a symbol after the dot, closing the result,
    and linking to an equal node (found by linear search) or to a freshly
    pushed one. The link is keyed by the consumed symbol, so two items with
    the same symbol write the same key and the later one wins. */
module Automaton {
  import opened Grammar
  import opened Items
  import opened Graph

  /** No two nodes hold equal item sets. */
  ghost predicate Distinct(nodes: seq<set<Grammer>>)
  {
    forall i, j :: 0 <= i < j < |nodes| ==> nodes[i] != nodes[j]
  }

  /** The closures of the items of the universe: the only possible states. */
  ghost function ClosuresOf(u: seq<Grammer>, rank: Nonterminal -> nat): set<set<Grammer>>
    requires Valid(u) && Ranked(u, rank)
  {
    set j | 0 <= j < |u| :: Closure(u[j], u, rank)
  }

  /** Every node is the closure of some item of the universe. */
  ghost predicate NodesAreClosures(nodes: seq<set<Grammer>>, u: seq<Grammer>, rank: Nonterminal -> nat)
    requires Valid(u) && Ranked(u, rank)
  {
    forall i :: 0 <= i < |nodes| ==> nodes[i] in ClosuresOf(u, rank)
  }

  /** Symbol `c` stands right after the dot of item `h`. */
  predicate Before(h: Grammer, c: Character)
  {
    ValidItem(h) && h.dotPos.value < |h.right| && h.right[h.dotPos.value] == c
  }

  /** Item `g` has a symbol after its dot, and `cls` is the closure of `g`
      with its dot moved over that symbol: the state `g` leads to. */
  ghost predicate AdvancesTo(g: Grammer, cls: set<Grammer>, u: seq<Grammer>, rank: Nonterminal -> nat)
    requires Valid(u) && Ranked(u, rank)
  {
    ValidItem(g) && g.dotPos.value < |g.right| && cls == Closure(Advance(g), u, rank)
  }

  /** Node `t` is the state item `g` of node `d` leads to. */
  ghost predicate ReachedFrom(nodes: seq<set<Grammer>>, d: nat, g: Grammer, t: nat,
                              u: seq<Grammer>, rank: Nonterminal -> nat)
    requires Valid(u) && Ranked(u, rank)
  {
    d < |nodes| && t < |nodes| && g in nodes[d] && AdvancesTo(g, nodes[t], u, rank)
  }

  /** Node `t` is the state item `g` of node `d` leads to, over the symbol
      `c` after the dot of `g`. */
  ghost predicate Shifts(nodes: seq<set<Grammer>>, d: nat, g: Grammer, c: Character, t: nat,
                         u: seq<Grammer>, rank: Nonterminal -> nat)
    requires Valid(u) && Ranked(u, rank)
  {
    ReachedFrom(nodes, d, g, t, u, rank) && Before(g, c)
  }

  /** Every edge has a target in range and is justified by an item of its
      source whose dot stands before the edge's label. */
  ghost predicate EdgesJustified(nodes: seq<set<Grammer>>, edges: seq<map<Character, nat>>,
                                 u: seq<Grammer>, rank: Nonterminal -> nat)
    requires Valid(u) && Ranked(u, rank)
  {
    forall d, c :: 0 <= d < |edges| && c in edges[d] ==>
      edges[d][c] < |nodes| && exists g :: Shifts(nodes, d, g, c, edges[d][c], u, rank)
  }

  /** Every node before `done` has an edge for each symbol that stands after
      the dot of one of its items. */
  ghost predicate Complete(nodes: seq<set<Grammer>>, edges: seq<map<Character, nat>>, done: nat)
  {
    forall d, g :: 0 <= d < done && d < |edges| && d < |nodes| && g in nodes[d] && ValidItem(g) && g.dotPos.value < |g.right|
      ==> g.right[g.dotPos.value] in edges[d]
  }

  /** Every item of a node before `done` with a symbol after its dot has
      the state it leads to among the nodes. */
  ghost predicate Saturated(nodes: seq<set<Grammer>>, done: nat, u: seq<Grammer>, rank: Nonterminal -> nat)
    requires Valid(u) && Ranked(u, rank)
  {
    forall d, g :: 0 <= d < done && d < |nodes| && g in nodes[d] && ValidItem(g) && g.dotPos.value < |g.right|
      ==> Closure(Advance(g), u, rank) in nodes
  }

  /** Node `t` was found by advancing an item of an earlier node. */
  ghost predicate DiscoveredAt(nodes: seq<set<Grammer>>, t: nat, u: seq<Grammer>, rank: Nonterminal -> nat)
    requires Valid(u) && Ranked(u, rank)
  {
    exists d: nat, g :: d < t && ReachedFrom(nodes, d, g, t, u, rank)
  }

  /** Every node after the first was found by advancing an item of an
      earlier node: the graph holds no state the work list never reaches. */
  ghost predicate Discovered(nodes: seq<set<Grammer>>, u: seq<Grammer>, rank: Nonterminal -> nat)
    requires Valid(u) && Ranked(u, rank)
  {
    forall t: nat :: 0 < t < |nodes| ==> DiscoveredAt(nodes, t, u, rank)
  }

  ghost predicate Inv(nodes: seq<set<Grammer>>, edges: seq<map<Character, nat>>, done: nat,
                      u: seq<Grammer>, rank: Nonterminal -> nat)
    requires Valid(u) && Ranked(u, rank)
  {
    && |edges| == |nodes| && done <= |nodes|
    && Distinct(nodes)
    && NodesAreClosures(nodes, u, rank)
    && Discovered(nodes, u, rank)
    && EdgesJustified(nodes, edges, u, rank)
    && Complete(nodes, edges, done)
    && Saturated(nodes, done, u, rank)
  }

  /** The edge lists with the edge from `d` labelled `c` set to `t`
      (`edges[d].insert(c, t)`). */
  function Link(edges: seq<map<Character, nat>>, d: nat, c: Character, t: nat): (r: seq<map<Character, nat>>)
    requires d < |edges|
    ensures |r| == |edges| && r[d] == edges[d][c := t]
    ensures forall e :: 0 <= e < |edges| && e != d ==> r[e] == edges[e]
  {
    var m: map<Character, nat> := edges[d][c := t];
    edges[d := m]
  }

  /** Appending a state reached from item `g` of an existing node keeps
      every node discovered. */
  lemma PushDiscovered(nodes: seq<set<Grammer>>, u: seq<Grammer>, rank: Nonterminal -> nat,
                       cls: set<Grammer>, d: nat, g: Grammer)
    requires Valid(u) && Ranked(u, rank)
    requires Discovered(nodes, u, rank)
    requires d < |nodes| && g in nodes[d] && ValidItem(g) && g.dotPos.value < |g.right|
    requires cls == Closure(Advance(g), u, rank)
    ensures Discovered(nodes + [cls], u, rank)
  {
    var nodes' := nodes + [cls];
    forall t: nat | 0 < t < |nodes'|
      ensures DiscoveredAt(nodes', t, u, rank)
    {
      if t == |nodes| {
        assert ReachedFrom(nodes', d, g, t, u, rank);
      } else {
        assert DiscoveredAt(nodes, t, u, rank);
        var d': nat, g' :| d' < t && ReachedFrom(nodes, d', g', t, u, rank);
        assert ReachedFrom(nodes', d', g', t, u, rank);
      }
    }
  }

  /** Pushing a state that is not yet a node, reached from item `g` of
      node `d`, keeps the invariant. */
  lemma PushKeeps(nodes: seq<set<Grammer>>, edges: seq<map<Character, nat>>, done: nat,
                  u: seq<Grammer>, rank: Nonterminal -> nat, cls: set<Grammer>, d: nat, g: Grammer)
    requires Valid(u) && Ranked(u, rank)
    requires Inv(nodes, edges, done, u, rank)
    requires cls in ClosuresOf(u, rank) && cls !in nodes
    requires d < |nodes| && g in nodes[d] && ValidItem(g) && g.dotPos.value < |g.right|
    requires cls == Closure(Advance(g), u, rank)
    ensures Inv(nodes + [cls], edges + [map[]], done, u, rank)
  {
    var nodes', edges' := nodes + [cls], edges + [map[]];
    PushDiscovered(nodes, u, rank, cls, d, g);
    forall d, c | 0 <= d < |edges'| && c in edges'[d]
      ensures edges'[d][c] < |nodes'| && exists g :: Shifts(nodes', d, g, c, edges'[d][c], u, rank)
    {
      var g :| Shifts(nodes, d, g, c, edges[d][c], u, rank);
      assert Shifts(nodes', d, g, c, edges'[d][c], u, rank);
    }
  }

  /** Recording the edge for item `g` of node `done` keeps the invariant,
      and keeps every label already recorded for that node. */
  lemma LinkKeeps(nodes: seq<set<Grammer>>, edges: seq<map<Character, nat>>, done: nat,
                  u: seq<Grammer>, rank: Nonterminal -> nat, g: Grammer, c: Character, t: nat)
    requires Valid(u) && Ranked(u, rank)
    requires Inv(nodes, edges, done, u, rank) && done < |nodes|
    requires Shifts(nodes, done, g, c, t, u, rank)
    ensures Inv(nodes, Link(edges, done, c, t), done, u, rank)
    ensures edges[done].Keys + {c} == Link(edges, done, c, t)[done].Keys
  {
    var edges' := Link(edges, done, c, t);
    forall d, c' | 0 <= d < |edges'| && c' in edges'[d]
      ensures edges'[d][c'] < |nodes| && exists g' :: Shifts(nodes, d, g', c', edges'[d][c'], u, rank)
    {
      if d == done && c' == c {
        assert Shifts(nodes, d, g, c', edges'[d][c'], u, rank);
      }
    }
  }

  /** Pushing the state reached from item `g` of node `done`, when it is
      not yet a node, and linking to it keeps the invariant and only adds
      its label to the edges of `done`. */
  lemma PushLinkKeeps(nodes: seq<set<Grammer>>, edges: seq<map<Character, nat>>, done: nat,
                      u: seq<Grammer>, rank: Nonterminal -> nat, g: Grammer, c: Character, cls: set<Grammer>)
    requires Valid(u) && Ranked(u, rank)
    requires Inv(nodes, edges, done, u, rank) && done < |nodes|
    requires g in nodes[done] && Before(g, c) && cls == Closure(Advance(g), u, rank)
    requires cls in ClosuresOf(u, rank) && cls !in nodes
    ensures Inv(nodes + [cls], Link(edges + [map[]], done, c, |nodes|), done, u, rank)
    ensures edges[done].Keys + {c} == Link(edges + [map[]], done, c, |nodes|)[done].Keys
  {
    PushKeeps(nodes, edges, done, u, rank, cls, done, g);
    LinkKeeps(nodes + [cls], edges + [map[]], done, u, rank, g, c, |nodes|);
  }

  /** The state reached from a node's item is a possible state: advancing a
      universe item stays in the universe. */
  lemma AdvanceIsState(ps: seq<Grammer>, rank: Nonterminal -> nat, g: Grammer)
    requires Valid(Dots(ps)) && Ranked(Dots(ps), rank)
    requires g in Dots(ps) && ValidItem(g) && g.dotPos.value < |g.right|
    ensures ValidItem(Advance(g))
    ensures Closure(Advance(g), Dots(ps), rank) in ClosuresOf(Dots(ps), rank)
  {
    DotsAdvance(ps, g);
    var j :| 0 <= j < |Dots(ps)| && Dots(ps)[j] == Advance(g);
  }

  /** Every item of every node is an item of the universe. */
  lemma NodeItemInUniverse(nodes: seq<set<Grammer>>, u: seq<Grammer>, rank: Nonterminal -> nat, d: nat, g: Grammer)
    requires Valid(u) && Ranked(u, rank)
    requires NodesAreClosures(nodes, u, rank) && d < |nodes| && g in nodes[d]
    ensures g in u && ValidItem(g)
  {
    assert nodes[d] in ClosuresOf(u, rank);
    var j :| 0 <= j < |u| && nodes[d] == Closure(u[j], u, rank);
    ClosureInUniverse(u, rank, j, g);
  }

  /** In a finished graph, an item of node `d` with a symbol after its dot
      has an edge for that symbol; when no other item of `d` has the same
      symbol after its dot, the edge leads to the node that is the closure
      of the item with its dot moved over the symbol. */
  lemma GotoFromItem(nodes: seq<set<Grammer>>, edges: seq<map<Character, nat>>,
                     u: seq<Grammer>, rank: Nonterminal -> nat, d: nat, g: Grammer)
    requires Valid(u) && Ranked(u, rank)
    requires Inv(nodes, edges, |nodes|, u, rank)
    requires d < |nodes| && g in nodes[d] && ValidItem(g) && g.dotPos.value < |g.right|
    requires forall h :: h in nodes[d] && h != g ==> !Before(h, g.right[g.dotPos.value])
    ensures g.right[g.dotPos.value] in edges[d]
    ensures edges[d][g.right[g.dotPos.value]] < |nodes|
    ensures nodes[edges[d][g.right[g.dotPos.value]]] == Closure(Advance(g), u, rank)
    ensures Advance(g) in nodes[edges[d][g.right[g.dotPos.value]]]
  {
    var c := g.right[g.dotPos.value];
    assert Complete(nodes, edges, |nodes|);
    assert EdgesJustified(nodes, edges, u, rank);
    var h :| Shifts(nodes, d, h, c, edges[d][c], u, rank);
    ClosureOfBlocked(Advance(h), u, rank);
  }

  /** Every item of `handled` with a symbol after its dot has an edge for
      that symbol in `out`, and the state it leads to is among `nodes`. */
  ghost predicate Covered(handled: set<Grammer>, nodes: seq<set<Grammer>>, out: map<Character, nat>,
                          u: seq<Grammer>, rank: Nonterminal -> nat)
    requires Valid(u) && Ranked(u, rank)
  {
    forall g :: g in handled && ValidItem(g) && g.dotPos.value < |g.right| ==>
      g.right[g.dotPos.value] in out && Closure(Advance(g), u, rank) in nodes
  }

  /** Handling one more item keeps the handled items covered, as long as
      nodes are only appended and edge labels only added. */
  lemma CoveredStep(handled: set<Grammer>, nodes: seq<set<Grammer>>, out: map<Character, nat>,
                    g: Grammer, nodes': seq<set<Grammer>>, out': map<Character, nat>,
                    u: seq<Grammer>, rank: Nonterminal -> nat)
    requires Valid(u) && Ranked(u, rank)
    requires Covered(handled, nodes, out, u, rank)
    requires nodes <= nodes' && out.Keys <= out'.Keys
    requires ValidItem(g) && g.dotPos.value < |g.right| ==>
      g.right[g.dotPos.value] in out' && Closure(Advance(g), u, rank) in nodes'
    ensures Covered(handled + {g}, nodes', out', u, rank)
  {
    forall h | h in handled + {g} && ValidItem(h) && h.dotPos.value < |h.right|
      ensures h.right[h.dotPos.value] in out' && Closure(Advance(h), u, rank) in nodes'
    {
      if h != g {
        var i :| 0 <= i < |nodes| && nodes[i] == Closure(Advance(h), u, rank);
        assert nodes'[i] == nodes[i];
      }
    }
  }

  /** Once every item of node `done` has its edge, the node is complete. */
  lemma FinishNode(nodes: seq<set<Grammer>>, edges: seq<map<Character, nat>>, done: nat,
                   u: seq<Grammer>, rank: Nonterminal -> nat)
    requires Valid(u) && Ranked(u, rank)
    requires Inv(nodes, edges, done, u, rank) && done < |nodes|
    requires Covered(nodes[done], nodes, edges[done], u, rank)
    ensures Inv(nodes, edges, done + 1, u, rank)
  {
  }

  /** Pushes `cls`, the state reached from item `g` of node `done` and not
      yet a node, and sets the edge from `done` labelled `c` to it
      (src/main.rs:256-259). */
  method AddState(arena: Arena<set<Grammer>>, done: nat, g: Grammer, c: Character, cls: set<Grammer>,
                  ghost u: seq<Grammer>, ghost rank: Nonterminal -> nat)
    requires Valid(u) && Ranked(u, rank)
    requires arena.Valid() && Inv(arena.nodes, arena.edges, done, u, rank) && done < |arena.nodes|
    requires g in arena.nodes[done] && Before(g, c) && cls == Closure(Advance(g), u, rank)
    requires cls in ClosuresOf(u, rank) && cls !in arena.nodes
    modifies arena
    ensures arena.nodes == old(arena.nodes) + [cls]
    ensures arena.edges == Link(old(arena.edges) + [map[]], done, c, |old(arena.nodes)|)
    ensures arena.Valid() && Inv(arena.nodes, arena.edges, done, u, rank)
    ensures arena.edges[done].Keys == old(arena.edges)[done].Keys + {c}
  {
    PushLinkKeeps(arena.nodes, arena.edges, done, u, rank, g, c, cls);
    var t := |arena.nodes|;
    arena.Push(cls);
    arena.edges := Link(arena.edges, done, c, t);
  }

  /** The effect of shifting item `g` of node `d` on nodes and edges: with
      the dot at the end nothing changes; otherwise, when the advanced
      closure is already node `t`, the edge from `d` labelled by the
      consumed symbol is set to `t`, and when it is not, the closure is
      appended with no edges and the edge is set to it. */
  ghost predicate Shifted(nodes: seq<set<Grammer>>, edges: seq<map<Character, nat>>, d: nat, g: Grammer,
                          nodes': seq<set<Grammer>>, edges': seq<map<Character, nat>>,
                          u: seq<Grammer>, rank: Nonterminal -> nat)
    requires Valid(u) && Ranked(u, rank)
    requires d < |edges| && ValidItem(g)
  {
    if g.dotPos.value >= |g.right| then
      nodes' == nodes && edges' == edges
    else
      var c, cls := g.right[g.dotPos.value], Closure(Advance(g), u, rank);
      if cls in nodes then
        && nodes' == nodes
        && d < |edges'| && c in edges'[d] && edges'[d][c] < |nodes|
        && nodes[edges'[d][c]] == cls
        && edges' == Link(edges, d, c, edges'[d][c])
      else
        && nodes' == nodes + [cls]
        && edges' == Link(edges + [map[]], d, c, |nodes|)
  }

  /** The body of the loop over the items of node `done`
      (src/main.rs:239-261): when `g` has a symbol after its dot, the
      closure of `g` with the dot moved over it is looked up among the
      nodes, pushed when absent, and the edge from `done` labelled by that
      symbol is set to it. */
  method Shift(arena: Arena<set<Grammer>>, done: nat, g: Grammer, grammers: seq<Grammer>,
               ghost productions: seq<Grammer>, ghost rank: Nonterminal -> nat)
    requires grammers == Dots(productions) && Valid(grammers) && Ranked(grammers, rank)
    requires arena.Valid() && done < |arena.nodes| && g in arena.nodes[done]
    requires Inv(arena.nodes, arena.edges, done, grammers, rank)
    modifies arena
    ensures arena.Valid() && Inv(arena.nodes, arena.edges, done, grammers, rank)
    ensures ValidItem(g)
    ensures Shifted(old(arena.nodes), old(arena.edges), done, g, arena.nodes, arena.edges, grammers, rank)
    ensures old(arena.nodes) <= arena.nodes && |arena.nodes| <= |old(arena.nodes)| + 1
    ensures old(arena.edges)[done].Keys <= arena.edges[done].Keys
    ensures g.dotPos.value < |g.right| ==> g.right[g.dotPos.value] in arena.edges[done]
    ensures g.dotPos.value < |g.right| ==> Closure(Advance(g), grammers, rank) in arena.nodes
  {
    NodeItemInUniverse(arena.nodes, grammers, rank, done, g);
    var pos := g.dotPos.value;
    if pos < |g.right| {
      var gg := g;
      gg := gg.(dotPos := Some(pos + 1));
      var cls := ComputeClosure(gg, grammers, rank);
      var found := arena.Get(cls);
      match found
      case Some(i) =>
        LinkKeeps(arena.nodes, arena.edges, done, grammers, rank, g, g.right[pos], i);
        arena.edges := Link(arena.edges, done, g.right[pos], i);
      case None =>
        AdvanceIsState(productions, rank, g);
        AddState(arena, done, g, g.right[pos], cls, grammers, rank);
    }
  }

  /** `cls` is the closure of some item of `items` with its dot moved over
      the symbol after it. */
  ghost predicate AdvancedFrom(items: set<Grammer>, cls: set<Grammer>, u: seq<Grammer>, rank: Nonterminal -> nat)
    requires Valid(u) && Ranked(u, rank)
  {
    exists g :: g in items && AdvancesTo(g, cls, u, rank)
  }

  /** What a round over node `done` of `nodes0` has changed so far: the
      old nodes are a prefix, other nodes' edges are as they were, and each
      appended node has no edges and is advanced from an item of `items`. */
  ghost predicate RoundFrame(nodes0: seq<set<Grammer>>, edges0: seq<map<Character, nat>>, done: nat,
                             items: set<Grammer>, nodes: seq<set<Grammer>>, edges: seq<map<Character, nat>>,
                             u: seq<Grammer>, rank: Nonterminal -> nat)
    requires Valid(u) && Ranked(u, rank)
  {
    && nodes0 <= nodes && |edges| == |nodes| && |edges0| == |nodes0|
    && (forall e :: 0 <= e < |edges0| && e != done ==> edges[e] == edges0[e])
    && (forall t :: |nodes0| <= t < |nodes| ==> edges[t] == map[])
    && (forall t :: |nodes0| <= t < |nodes| ==> AdvancedFrom(items, nodes[t], u, rank))
  }

  /** Shifting one more item of `items` keeps the round's frame. */
  lemma ShiftKeepsFrame(nodes0: seq<set<Grammer>>, edges0: seq<map<Character, nat>>, done: nat,
                        items: set<Grammer>, nodes: seq<set<Grammer>>, edges: seq<map<Character, nat>>,
                        g: Grammer, nodes': seq<set<Grammer>>, edges': seq<map<Character, nat>>,
                        u: seq<Grammer>, rank: Nonterminal -> nat)
    requires Valid(u) && Ranked(u, rank)
    requires RoundFrame(nodes0, edges0, done, items, nodes, edges, u, rank)
    requires done < |nodes0| && g in items && ValidItem(g)
    requires Shifted(nodes, edges, done, g, nodes', edges', u, rank)
    ensures RoundFrame(nodes0, edges0, done, items, nodes', edges', u, rank)
  {
    if g.dotPos.value < |g.right| {
      var cls := Closure(Advance(g), u, rank);
      if cls !in nodes {
        assert nodes' == nodes + [cls];
        forall t | |nodes0| <= t < |nodes'|
          ensures AdvancedFrom(items, nodes'[t], u, rank)
        {
          if t < |nodes| {
            assert nodes'[t] == nodes[t];
          }
        }
      }
    }
  }

  /** Shifting item `g`, taken from the items still to do, keeps the
      round's frame and leaves the items done so far, `g` included,
      covered. */
  lemma RoundStep(nodes0: seq<set<Grammer>>, edges0: seq<map<Character, nat>>, done: nat,
                  items: set<Grammer>, rest: set<Grammer>, g: Grammer,
                  nodes: seq<set<Grammer>>, edges: seq<map<Character, nat>>,
                  nodes': seq<set<Grammer>>, edges': seq<map<Character, nat>>,
                  u: seq<Grammer>, rank: Nonterminal -> nat)
    requires Valid(u) && Ranked(u, rank)
    requires RoundFrame(nodes0, edges0, done, items, nodes, edges, u, rank)
    requires done < |nodes0| && rest <= items && g in rest && ValidItem(g)
    requires Covered(items - rest, nodes, edges[done], u, rank)
    requires Shifted(nodes, edges, done, g, nodes', edges', u, rank)
    requires nodes <= nodes' && done < |edges'| && edges[done].Keys <= edges'[done].Keys
    requires g.dotPos.value < |g.right| ==>
      g.right[g.dotPos.value] in edges'[done] && Closure(Advance(g), u, rank) in nodes'
    ensures RoundFrame(nodes0, edges0, done, items, nodes', edges', u, rank)
    ensures Covered(items - (rest - {g}), nodes', edges'[done], u, rank)
  {
    ShiftKeepsFrame(nodes0, edges0, done, items, nodes, edges, g, nodes', edges', u, rank);
    CoveredStep(items - rest, nodes, edges[done], g, nodes', edges'[done], u, rank);
    assert items - (rest - {g}) == (items - rest) + {g};
  }

  /** One round of the work list (src/main.rs:237-262): every item of node
      `done` is shifted, after which the node is complete; nodes are only
      appended, at most one per item. */
  method ExpandNode(arena: Arena<set<Grammer>>, done: nat, grammers: seq<Grammer>,
                    ghost productions: seq<Grammer>, ghost rank: Nonterminal -> nat)
    requires grammers == Dots(productions) && Valid(grammers) && Ranked(grammers, rank)
    requires arena.Valid() && done < |arena.nodes|
    requires Inv(arena.nodes, arena.edges, done, grammers, rank)
    modifies arena
    ensures arena.Valid() && Inv(arena.nodes, arena.edges, done + 1, grammers, rank)
    ensures old(arena.nodes) <= arena.nodes
    ensures forall e :: 0 <= e < |old(arena.edges)| && e != done ==> arena.edges[e] == old(arena.edges)[e]
    ensures forall t :: |old(arena.nodes)| <= t < |arena.nodes| ==> arena.edges[t] == map[]
    ensures forall t :: |old(arena.nodes)| <= t < |arena.nodes| ==>
      AdvancedFrom(old(arena.nodes)[done], arena.nodes[t], grammers, rank)
  {
    var items := arena.nodes[done];
    var rest := items;
    while rest != {}
      invariant arena.Valid() && done < |arena.nodes| && arena.nodes[done] == items
      invariant Inv(arena.nodes, arena.edges, done, grammers, rank)
      invariant RoundFrame(old(arena.nodes), old(arena.edges), done, items, arena.nodes, arena.edges, grammers, rank)
      invariant rest <= items
      invariant Covered(items - rest, arena.nodes, arena.edges[done], grammers, rank)
      decreases rest
    {
      var g :| g in rest;
      ghost var nodes, edges := arena.nodes, arena.edges;
      Shift(arena, done, g, grammers, productions, rank);
      RoundStep(old(arena.nodes), old(arena.edges), done, items, rest, g, nodes, edges,
                arena.nodes, arena.edges, grammers, rank);
      rest := rest - {g};
    }
    FinishNode(arena.nodes, arena.edges, done, grammers, rank);
  }

  /** A node appended to the graph is a possible state not yet present, so
      the set of possible states still missing from the graph shrinks. */
  lemma FewerMissing(before: seq<set<Grammer>>, after: seq<set<Grammer>>, u: seq<Grammer>, rank: Nonterminal -> nat)
    requires Valid(u) && Ranked(u, rank)
    requires before <= after && Distinct(after) && NodesAreClosures(after, u, rank)
    requires |after| > |before|
    ensures ClosuresOf(u, rank) - (set x | x in after) < ClosuresOf(u, rank) - (set x | x in before)
  {
    var added := after[|before|];
    assert added in ClosuresOf(u, rank);
    assert added !in before by {
      forall i | 0 <= i < |before|
        ensures before[i] != added
      {
        assert before[i] == after[i];
      }
    }
    assert added in ClosuresOf(u, rank) - (set x | x in before);
  }

  /** The state graph of the productions, whose first production is the
      start: node 0 is the closure of the start item; every node is the
      closure of an item of the universe and no two nodes are equal; every
      edge leads to an existing node, is labelled by the symbol after the
      dot of one of its source's items and leads to the closure of that item
      with the dot moved over it; and every node has an edge for every
      symbol after a dot in it. */
  method BuildGraph(productions: seq<Grammer>, ghost rank: Nonterminal -> nat) returns (arena: Arena<set<Grammer>>)
    requires |productions| > 0
    requires Ranked(Dots(productions), rank)
    ensures Valid(Dots(productions))
    ensures arena.Valid() && |arena.nodes| > 0
    ensures arena.nodes[0] == Closure(At(productions[0], 0), Dots(productions), rank)
    ensures Inv(arena.nodes, arena.edges, |arena.nodes|, Dots(productions), rank)
  {
    var grammers := InsertDots(productions);
    DotsValid(productions);
    DotsIndex(productions, 0, 0);
    assert productions[..0] == [];
    var start := productions[0];
    start := start.(dotPos := Some(0));
    var first := ComputeClosure(start, grammers, rank);
    assert first in ClosuresOf(grammers, rank);
    arena := new Arena();
    arena.Push(first);
    var done := 0;
    while done < |arena.nodes|
      invariant arena.Valid() && |arena.nodes| > 0
      invariant arena.nodes[0] == first
      invariant Inv(arena.nodes, arena.edges, done, grammers, rank)
      decreases ClosuresOf(grammers, rank) - set x | x in arena.nodes, |arena.nodes| - done
    {
      ghost var before := arena.nodes;
      ExpandNode(arena, done, grammers, productions, rank);
      if |arena.nodes| > |before| {
        FewerMissing(before, arena.nodes, grammers, rank);
      }
      done := done + 1;
    }
  }
}
