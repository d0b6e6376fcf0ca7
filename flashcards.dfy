/**
  The flashcards extension: one question for every child of every top-level
  node of a parsed graph, asking for the child's content. The graph to ask
  about can be kept with `load`, and the questions pile up in one list
  across calls.
 */
module Flashcards {
  import opened Wrappers
  import opened PyDict
  import opened Syntax
  import opened GraphModel
  import opened CausalityLang

  /** `Question` */
  datatype Question = Question(question: string, answer: string)

  /** The card for child `c` of a node whose content is `content`: `"{content} . {name} = ?"`, answered by the child's content. */
  function Ask(content: string, c: Leaf): Question
  {
    Question(content + " . " + c.name + " = ?", c.content)
  }

  /** The cards about one node, one per child, in order. */
  function Cards(content: string, cs: seq<Leaf>): seq<Question>
  {
    if cs == [] then [] else Cards(content, cs[..|cs| - 1]) + [Ask(content, cs[|cs| - 1])]
  }

  /** Every entry's children registry is well formed, so its children can be listed. */
  ghost predicate Listable(es: seq<Entry>)
  {
    forall i :: 0 <= i < |es| ==> es[i].children.Valid()
  }

  /** The cards about a list of nodes: node by node, and for each node child by child. */
  function Deck(es: seq<Entry>): seq<Question>
    requires Listable(es)
  {
    if es == [] then []
    else
      var n := |es| - 1;
      Deck(es[..n]) + Cards(es[n].content, es[n].children.Values())
  }

  /** What `attribute_questions` adds for a graph: the cards about its nodes in `get_all` order. */
  function QuestionsOf(g: Store): seq<Question>
    requires WellFormed(g)
  {
    WellFormedListable(g);
    Deck(g.Values())
  }

  lemma WellFormedListable(g: Store)
    requires WellFormed(g)
    ensures Listable(g.Values())
  {
    forall i | 0 <= i < |g.Values()| ensures g.Values()[i].children.Valid() {
      assert EntryFits(g, g.keys[i], g.items[g.keys[i]]);
    }
  }

  // ---------------------------------------------------------------- the cards

  /** One card per child, in the children's order, and nothing else. */
  lemma {:induction false} CardsSpec(content: string, cs: seq<Leaf>)
    ensures |Cards(content, cs)| == |cs|
    ensures forall j :: 0 <= j < |cs| ==> Cards(content, cs)[j] == Ask(content, cs[j])
  {
    if cs != [] {
      CardsSpec(content, cs[..|cs| - 1]);
    }
  }

  /** The cards about a longer list of children: those about the first, then those about the rest. */
  lemma {:induction false} CardsAppend(content: string, a: seq<Leaf>, b: seq<Leaf>)
    ensures Cards(content, a + b) == Cards(content, a) + Cards(content, b)
    decreases |b|
  {
    if b == [] {
      assert a + b == a;
    } else {
      var n := |b| - 1;
      assert (a + b)[..|a + b| - 1] == a + b[..n];
      CardsAppend(content, a, b[..n]);
    }
  }

  /** One more child, one more card at the end. */
  lemma CardsSnoc(content: string, cs: seq<Leaf>, c: Leaf)
    ensures Cards(content, cs + [c]) == Cards(content, cs) + [Ask(content, c)]
  {
    assert (cs + [c])[..|cs|] == cs;
  }

  lemma Associative(a: seq<Question>, b: seq<Question>, c: seq<Question>)
    ensures a + b + c == a + (b + c)
  {
  }

  /** The deck of the first `i + 1` nodes: that of the first `i`, then the cards about node `i`. */
  lemma DeckSnoc(es: seq<Entry>, i: nat)
    requires Listable(es) && i < |es|
    ensures Listable(es[..i]) && Listable(es[..i + 1])
    ensures Deck(es[..i + 1]) == Deck(es[..i]) + Cards(es[i].content, es[i].children.Values())
  {
    assert es[..i + 1][..i] == es[..i];
  }

  /** The deck of two lists of nodes, one after the other, is the first deck followed by the second. */
  lemma {:induction false} DeckAppend(a: seq<Entry>, b: seq<Entry>)
    requires Listable(a) && Listable(b)
    ensures Listable(a + b)
    ensures Deck(a + b) == Deck(a) + Deck(b)
    decreases |b|
  {
    assert forall i :: 0 <= i < |a + b| ==> (a + b)[i] == if i < |a| then a[i] else b[i - |a|];
    if b == [] {
      assert a + b == a;
    } else {
      var n := |b| - 1;
      assert (a + b)[..|a + b| - 1] == a + b[..n];
      assert Listable(b[..n]);
      DeckAppend(a, b[..n]);
    }
  }

  /**
    Every card in the deck is the card about some child of some node, and
    every child of every node has its card there.
   */
  lemma DeckMembers(es: seq<Entry>, q: Question)
    requires Listable(es)
    ensures q in Deck(es) <==>
              exists i, j :: 0 <= i < |es| && 0 <= j < |es[i].children.Values()| && q == Ask(es[i].content, es[i].children.Values()[j])
  {
    if q in Deck(es) {
      var i, j := DeckOnly(es, q);
    } else {
      forall i, j | 0 <= i < |es| && 0 <= j < |es[i].children.Values()|
        ensures q != Ask(es[i].content, es[i].children.Values()[j])
      {
        DeckHas(es, i, j);
      }
    }
  }

  /** A card in the deck is about child `j` of node `i`. */
  lemma {:induction false} DeckOnly(es: seq<Entry>, q: Question) returns (i: nat, j: nat)
    requires Listable(es) && q in Deck(es)
    ensures i < |es| && j < |es[i].children.Values()| && q == Ask(es[i].content, es[i].children.Values()[j])
  {
    var n := |es| - 1;
    var front := es[..n];
    var cs := es[n].children.Values();
    assert Listable(front);
    if q in Deck(front) {
      i, j := DeckOnly(front, q);
      assert es[i] == front[i];
    } else {
      CardsSpec(es[n].content, cs);
      var k :| 0 <= k < |cs| && Cards(es[n].content, cs)[k] == q;
      i, j := n, k;
    }
  }

  /** The card about child `j` of node `i` is in the deck. */
  lemma {:induction false} DeckHas(es: seq<Entry>, i: nat, j: nat)
    requires Listable(es) && i < |es| && j < |es[i].children.Values()|
    ensures Ask(es[i].content, es[i].children.Values()[j]) in Deck(es)
  {
    var n := |es| - 1;
    var front := es[..n];
    assert Listable(front);
    if i < n {
      assert es[i] == front[i];
      DeckHas(front, i, j);
    } else {
      CardsSpec(es[n].content, es[n].children.Values());
      assert Cards(es[n].content, es[n].children.Values())[j] == Ask(es[i].content, es[i].children.Values()[j]);
    }
  }

  /** The number of children over all the nodes. */
  function ChildTotal(es: seq<Entry>): nat
  {
    if es == [] then 0 else ChildTotal(es[..|es| - 1]) + |es[|es| - 1].children.keys|
  }

  /** Exactly one card per (node, child) pair. */
  lemma {:induction false} DeckCount(es: seq<Entry>)
    requires Listable(es)
    ensures |Deck(es)| == ChildTotal(es)
  {
    if es != [] {
      var n := |es| - 1;
      assert Listable(es[..n]);
      DeckCount(es[..n]);
      CardsSpec(es[n].content, es[n].children.Values());
    }
  }

  // ---------------------------------------------------------------- cards and parsing

  /** A definition line adds no card: the new node comes last and has no children yet. */
  lemma DefineAddsNoCards(g: Store, f: Fields)
    requires WellFormed(g)
    requires Define(g, f).Success?
    ensures WellFormed(Define(g, f).value)
    ensures QuestionsOf(Define(g, f).value) == QuestionsOf(g)
  {
    var h := Define(g, f).value;
    DefineWellFormed(g, f);
    PutNewValues(g, f.id, NewEntry(f));
    WellFormedListable(g);
    WellFormedListable(h);
    assert Listable([NewEntry(f)]);
    DeckAppend(g.Values(), [NewEntry(f)]);
    assert Deck([NewEntry(f)]) == Deck([]) + Cards(f.content, []);
  }

  /** A connection line changes no card: it touches neither contents nor children. */
  lemma ConnectKeepsCards(g: Store, l: Link)
    requires WellFormed(g)
    requires Connect(g, l).Success?
    ensures WellFormed(Connect(g, l).value)
    ensures QuestionsOf(Connect(g, l).value) == QuestionsOf(g)
  {
    var p := g.items[l.origin];
    var p' := p.(links := Extend(p.links, l.relation, ResolveAll(g, l.targets)));
    var h := Connect(g, l).value;
    assert h == g.Put(l.origin, p');
    ConnectWellFormed(g, l);
    assert EntryFits(g, l.origin, p);
    WellFormedListable(g);
    var k := SwapCards(g, l.origin, p');
    PutSame(g, l.origin);
    var k' := SwapCards(g, l.origin, p);
  }

  /**
    An elaboration line adds exactly one card, the one asking for the new
    child's content under its parent's content, inserted at one place among
    the others; every other card stays in its order.
   */
  lemma ElaborateAddsCard(g: Store, e: Elab)
    requires WellFormed(g)
    requires Elaborate(g, e).Success?
    ensures WellFormed(Elaborate(g, e).value)
    ensures var q, card := QuestionsOf(g), Ask(g.items[e.parent].content, Leaf(e.child.id, e.child.name, e.child.content));
            exists at :: 0 <= at <= |q| && QuestionsOf(Elaborate(g, e).value) == q[..at] + [card] + q[at..]
  {
    ElaborateWellFormed(g, e);
    WellFormedListable(g);
    assert EntryFits(g, e.parent, g.items[e.parent]);
    var at := ElaborateDeck(g, e);
    var q, card := QuestionsOf(g), Ask(g.items[e.parent].content, Leaf(e.child.id, e.child.name, e.child.content));
    assert QuestionsOf(Elaborate(g, e).value) == q[..at] + [card] + q[at..];
  }

  /** `ElaborateAddsCard` on the decks themselves; `at` is where the new card goes. */
  lemma ElaborateDeck(g: Store, e: Elab) returns (at: nat)
    requires g.Valid() && Listable(g.Values())
    requires Elaborate(g, e).Success? && g.items[e.parent].children.Valid()
    ensures var h := Elaborate(g, e).value; h.Valid() && Listable(h.Values())
    ensures var q, card := Deck(g.Values()), Ask(g.items[e.parent].content, Leaf(e.child.id, e.child.name, e.child.content));
            at <= |q| && Deck(Elaborate(g, e).value.Values()) == q[..at] + [card] + q[at..]
  {
    var p := g.items[e.parent];
    var leaf := Leaf(e.child.id, e.child.name, e.child.content);
    var p' := p.(children := p.children.Put(e.child.id, leaf));
    assert Elaborate(g, e).value == g.Put(e.parent, p');
    PutNewValues(p.children, e.child.id, leaf);
    var k := SwapCards(g, e.parent, p');
    PutSame(g, e.parent);
    var k' := SwapCards(g, e.parent, p);
    var vs := g.Values();
    var a, c, b := Deck(vs[..k]), Cards(p.content, p.children.Values()), Deck(vs[k + 1..]);
    CardsSnoc(p.content, p.children.Values(), leaf);
    at := Inserted(a, c, b, Ask(p.content, leaf));
  }

  /** Assigning a key the value it already has changes nothing. */
  lemma PutSame<V>(d: Dict<V>, k: string)
    requires k in d.items
    ensures d.Put(k, d.items[k]) == d
  {
    assert d.items[k := d.items[k]] == d.items;
  }

  /** One more card at the end of the middle part is one card inserted into the whole. */
  lemma Inserted(a: seq<Question>, c: seq<Question>, b: seq<Question>, card: Question) returns (at: nat)
    ensures var q := a + c + b;
            at <= |q| && a + (c + [card]) + b == q[..at] + [card] + q[at..]
  {
    var q := a + c + b;
    at := |a + c|;
    assert q[..at] == a + c && q[at..] == b;
  }

  /** Replacing the entry under a registered id replaces its cards in place: `k` is its position. */
  lemma SwapCards(g: Store, id: string, x: Entry) returns (k: nat)
    requires g.Valid() && Listable(g.Values()) && id in g.items && x.children.Valid()
    ensures k == IndexOf(g.keys, id)
    ensures g.Put(id, x).Valid() && Listable(g.Put(id, x).Values())
    ensures Deck(g.Put(id, x).Values()) == Deck(g.Values()[..k]) + Cards(x.content, x.children.Values()) + Deck(g.Values()[k + 1..])
  {
    k := IndexOf(g.keys, id);
    PutOldValues(g, id, x);
    DeckAround(g.Values(), k, x);
  }

  /** The deck with node `k` swapped for `x`: the cards before it, its own cards, the cards after it. */
  lemma DeckAround(es: seq<Entry>, k: nat, x: Entry)
    requires Listable(es) && k < |es| && x.children.Valid()
    ensures Listable(es[k := x])
    ensures Deck(es[k := x]) == Deck(es[..k]) + Cards(x.content, x.children.Values()) + Deck(es[k + 1..])
  {
    var es' := es[k := x];
    assert es' == es[..k] + [x] + es[k + 1..];
    assert Listable(es[..k]) && Listable(es[k + 1..]) && Listable([x]);
    DeckAppend(es[..k], [x]);
    DeckAppend(es[..k] + [x], es[k + 1..]);
    assert Deck([x]) == Deck([]) + Cards(x.content, x.children.Values());
  }

  // ---------------------------------------------------------------- the module state

  /** The module-level state of the extension: the graph kept by `load` (`_graph`) and the questions asked so far (`_questions`). */
  class Session {
    var graph: Graph?
    var questions: seq<Question>

    /** On import: no graph, no questions. */
    constructor()
      ensures graph == null && questions == []
    {
      graph := null;
      questions := [];
    }

    /** `load`: keep `g` as the graph to ask about. */
    method Load(g: Graph)
      modifies this
      ensures graph == g && questions == old(questions)
    {
      graph := g;
    }

    /** The inner loop of `attribute_questions`: the cards about `node`, child by child; `e` is the node read back. */
    method AskAbout(node: Node, ghost e: Entry)
      requires node.children.d.Valid()
      requires e.content == node.content && e.children == LeavesOf(node.children.d)
      modifies this
      ensures graph == old(graph)
      ensures e.children.Valid() && questions == old(questions) + Cards(e.content, e.children.Values())
    {
      LeavesOfValues(node.children.d);
      var kids := node.children.GetAll();
      ghost var cs := e.children.Values();
      var j := 0;
      while j < |kids|
        invariant j <= |kids| == |cs|
        invariant questions == old(questions) + Cards(e.content, cs[..j])
        invariant graph == old(graph)
      {
        var child := kids[j];
        assert cs[..j + 1][..j] == cs[..j];
        assert cs[j] == Leaf(child.id, child.name, child.content);
        questions := questions + [Question(node.content + " . " + child.name + " = ?", child.content)];
        j := j + 1;
      }
      assert cs[..j] == cs;
    }

    /** `graph or _graph`: an explicit graph wins over the kept one. */
    function Chosen(g: Graph?): Graph?
      reads this
    {
      if g != null then g else graph
    }

    /**
      `attribute_questions`: with no graph given and none kept, the assertion
      fails (`false`) and nothing is added. Otherwise the questions about the
      chosen graph's nodes, child by child, are appended to those asked so
      far; the graph is only read.
     */
    method AttributeQuestions(ghost L: Ledger, g: Graph?) returns (ok: bool)
      requires Chosen(g) != null ==> Chosen(g).Valid(L)
      modifies this
      ensures graph == old(graph)
      ensures ok <==> old(Chosen(g)) != null
      ensures !ok ==> questions == old(questions)
      ensures ok ==> WellFormed(L.model) && questions == old(questions) + QuestionsOf(L.model)
    {
      var chosen := if g != null then g else graph;
      if chosen == null {
        return false;
      }
      chosen.ReadBack(L);
      CoherentWellFormed(chosen.nodes.d, L);
      WellFormedListable(L.model);
      AskAboutAll(chosen.nodes.GetAll(), L.model.Values());
      return true;
    }

    /**
      `health_check`: parse `code` into a new graph, `load` it and ask about it.
      A failing parse raises, so nothing is loaded or asked; otherwise the new
      graph is kept and the questions about what `code` parses to are appended.
     */
    method HealthCheck(code: string) returns (r: Outcome<ErrorKind>)
      modifies this
      ensures r == GraphModel.Parse(Empty(), code).outcome
      ensures r.Fail? ==> graph == old(graph) && questions == old(questions)
      ensures r.Pass? ==> graph != null && fresh(graph)
      ensures r.Pass? ==> WellFormed(GraphModel.Parse(Empty(), code).store)
      ensures r.Pass? ==> questions == old(questions) + QuestionsOf(GraphModel.Parse(Empty(), code).store)
    {
      var g := new Graph();
      ghost var L;
      r, L := g.Parse(Graph.Start(g.nodes), code);
      if r.Fail? {
        return;
      }
      Load(g);
      var ok := AttributeQuestions(L, g);
    }

    /** `vs` is `all` read back: one entry per node, with the node's content and its children. */
    ghost predicate ReadAs(all: seq<Node>, vs: seq<Entry>)
      reads set m | 0 <= m < |all| :: all[m].children
    {
      && |all| == |vs|
      && forall m :: 0 <= m < |all| ==>
           && all[m].children.d.Valid()
           && vs[m].content == all[m].content
           && vs[m].children == LeavesOf(all[m].children.d)
    }

    /** The outer loop of `attribute_questions`: the cards about every node of `all`, node by node; `vs` are the nodes read back. */
    method AskAboutAll(all: seq<Node>, ghost vs: seq<Entry>)
      requires ReadAs(all, vs)
      modifies this
      ensures graph == old(graph)
      ensures Listable(vs) && questions == old(questions) + Deck(vs)
    {
      assert Listable(vs) by {
        forall m | 0 <= m < |vs| ensures vs[m].children.Valid() {
          LeavesOfValues(all[m].children.d);
        }
      }
      var i := 0;
      while i < |all|
        invariant i <= |all|
        invariant ReadAs(all, vs)
        invariant Listable(vs[..i])
        invariant questions == old(questions) + Deck(vs[..i])
        invariant graph == old(graph)
      {
        AskAbout(all[i], vs[i]);
        DeckSnoc(vs, i);
        Associative(old(questions), Deck(vs[..i]), Cards(vs[i].content, vs[i].children.Values()));
        i := i + 1;
      }
      assert vs[..i] == vs;
    }
  }
}
