/**
  The parser's objects as they live on the heap: `Node`, its two registries
  `Node_manager` and `Connection_manager`, and `Graph`, whose `parse` and
  `parse_line` update them in place. A ghost `Ledger` records what the heap
  reads back as, a `GraphModel.Store`, and every state-changing method is
  proved to move that value exactly as the corresponding `GraphModel`
  function says.
 */
module CausalityLang {
  import opened Wrappers
  import opened PyDict
  import opened Syntax
  import opened GraphModel

  /** `Node`: three strings fixed at creation, and two registries of its own, mutated in place. */
  class Node {
    const id: string
    const name: string
    const content: string
    const children: NodeManager
    const connections: ConnectionManager

    constructor(id: string, name: string, content: string)
      ensures this.id == id && this.name == name && this.content == content
      ensures fresh(children) && fresh(connections)
      ensures children.d == Empty() && connections.d == Empty()
    {
      this.id := id;
      this.name := name;
      this.content := content;
      children := new NodeManager();
      connections := new ConnectionManager();
    }
  }

  /** `Node_manager`: a dict from id to node. */
  class NodeManager {
    var d: Dict<Node>

    constructor()
      ensures d == Empty()
    {
      d := Empty();
    }

    /** `add`: refuses an id already present, otherwise stores the node under its id. */
    method Add(node: Node) returns (r: Outcome<ErrorKind>)
      requires d.Valid()
      modifies this
      ensures d.Valid()
      ensures r.Pass? <==> node.id !in old(d.items)
      ensures r.Pass? ==> Get(node.id) == Success(node) && forall k :: k != node.id ==> Get(k) == old(Get(k))
      ensures r.Pass? ==> Register(old(d), node.id, node) == Success(d)
      ensures r.Fail? ==> Register(old(d), node.id, node) == Failure(r.error) && unchanged(this)
    {
      if node.id in d.items {
        return Fail(Redefinition);
      }
      PutSpec(d, node.id, node);
      d := d.Put(node.id, node);
      return Pass;
    }

    /** `get`: the node stored under `id`; fails exactly when there is none. */
    function Get(id: string): (r: Result<Node, ErrorKind>)
      reads this
      ensures r.Success? <==> id in d.items
      ensures r.Success? ==> r.value == d.items[id]
      ensures r.Failure? ==> r.error == Nonexistent
    {
      if id !in d.items then Failure(Nonexistent) else Success(d.items[id])
    }

    /** `get_all`: the stored nodes in insertion order. */
    function GetAll(): seq<Node>
      reads this
      requires d.Valid()
    {
      d.Values()
    }

    /**
      `find_node`: a breadth-first search seeded with `get(id)`, returning the
      first node met whose id is `id`. The search is proved for seeds whose
      children have no children, which is every node parsing registers; it
      then returns the first match among the seed and its children, so a seed
      stored under its own id, as parsing stores every node, is what it returns.
     */
    method FindNode(id: string) returns (r: Result<Node, ErrorKind>)
      requires id in d.items ==> d.items[id].children.d.Valid()
      requires id in d.items ==> forall c :: c in d.items[id].children.d.Values() ==> c.children.d == Empty()
      ensures id !in d.items ==> r == Failure(Nonexistent)
      ensures id in d.items ==> r == FirstMatch([d.items[id]] + d.items[id].children.d.Values(), id)
      ensures id in d.items && d.items[id].id == id ==> r == Success(d.items[id])
    {
      var seed := Get(id);
      if seed.Failure? {
        return Failure(seed.error);
      }
      ghost var all := [seed.value] + seed.value.children.GetAll();
      var frontier := [seed.value];
      ghost var k := 0;
      while |frontier| > 0
        invariant k <= |all|
        invariant k == 0 ==> frontier == [seed.value]
        invariant k > 0 ==> frontier == all[k..]
        invariant FirstMatch(all[k..], id) == FirstMatch(all, id)
        decreases if k == 0 then 1 else 0, |frontier|
      {
        var node := frontier[0];
        frontier := frontier[1..];
        if node.id == id {
          return Success(node);
        }
        assert all[k..][1..] == all[k + 1..];
        if k > 0 {
          assert node in seed.value.children.d.Values() by {
            assert node == all[k] == seed.value.children.d.Values()[k - 1];
          }
          assert node.children.GetAll() == [];
        }
        frontier := frontier + node.children.GetAll();
        k := k + 1;
      }
      return Failure(NotFound);
    }
  }

  /** The first node of `ns` with id `id`, or the error `find_node` raises when its frontier runs dry. */
  function FirstMatch(ns: seq<Node>, id: string): (r: Result<Node, ErrorKind>)
    ensures r.Success? ==> r.value in ns && r.value.id == id
    ensures r.Success? ==> exists i :: 0 <= i < |ns| && ns[i] == r.value && forall j :: 0 <= j < i ==> ns[j].id != id
    ensures r.Failure? ==> r.error == NotFound && forall i :: 0 <= i < |ns| ==> ns[i].id != id
  {
    if ns == [] then Failure(NotFound)
    else if ns[0].id == id then Success(ns[0])
    else
      var r := FirstMatch(ns[1..], id);
      assert r.Success? ==> exists i :: 0 < i < |ns| && ns[i] == r.value && forall j :: 0 <= j < i ==> ns[j].id != id by {
        if r.Success? {
          var i :| 0 <= i < |ns[1..]| && ns[1..][i] == r.value && forall j :: 0 <= j < i ==> ns[1..][j].id != id;
          assert forall j :: 1 <= j < i + 1 ==> ns[j].id == ns[1..][j - 1].id;
        }
      }
      r
  }

  /** `Connection_manager`: a dict from label to the list of destination nodes. */
  class ConnectionManager {
    var d: Dict<seq<Node>>

    constructor()
      ensures d == Empty()
    {
      d := Empty();
    }

    /** `add`: start an empty list for a new label, then extend the label's list by `nodes`. */
    method Add(relation: string, nodes: seq<Node>)
      requires d.Valid()
      modifies this
      ensures d.Valid()
      ensures d == Extend(old(d), relation, nodes)
    {
      ExtendSpec(d, relation, nodes);
      ghost var before := d;
      if relation !in d.items {
        d := d.Put(relation, []);
        PutPut(before, relation, [], nodes);
        assert [] + nodes == nodes;
      }
      d := d.Put(relation, d.items[relation] + nodes);
    }
  }

  // ---------------------------------------------------------------- reading registries back as values

  function LeafOf(c: Node): Leaf
  {
    Leaf(c.id, c.name, c.content)
  }

  /** A children registry as values. */
  function LeavesOf(d: Dict<Node>): Dict<Leaf>
  {
    Dict(d.keys, map j | j in d.items :: LeafOf(d.items[j]))
  }

  /** A destination node, told apart by whether it is one of the stand-ins the connection handler created. */
  function DestOf(n: Node, standIns: set<Node>): Dest
  {
    if n in standIns then StandIn(n.id) else Resolved(n.id)
  }

  function DestsOf(ns: seq<Node>, standIns: set<Node>): seq<Dest>
  {
    seq(|ns|, i requires 0 <= i < |ns| => DestOf(ns[i], standIns))
  }

  /** A connection table as values. */
  function LinksOf(d: Dict<seq<Node>>, standIns: set<Node>): Dict<seq<Dest>>
  {
    Dict(d.keys, map t | t in d.items :: DestsOf(d.items[t], standIns))
  }

  /** A registered node as a value, given the contents of its two registries. */
  function EntryFrom(n: Node, kids: Dict<Node>, links: Dict<seq<Node>>, standIns: set<Node>): Entry
  {
    Entry(n.id, n.name, n.content, LeavesOf(kids), LinksOf(links, standIns))
  }

  /** The children registry as values lists the same children, in the same order. */
  lemma LeavesOfValues(d: Dict<Node>)
    requires d.Valid()
    ensures LeavesOf(d).Valid()
    ensures |LeavesOf(d).Values()| == |d.Values()|
    ensures forall j :: 0 <= j < |d.Values()| ==> LeavesOf(d).Values()[j] == LeafOf(d.Values()[j])
  {
  }

  lemma LeavesOfPut(d: Dict<Node>, c: Node)
    ensures LeavesOf(d.Put(c.id, c)) == LeavesOf(d).Put(c.id, LeafOf(c))
  {
    assert LeavesOf(d.Put(c.id, c)).items == LeavesOf(d).items[c.id := LeafOf(c)];
  }

  /** One more destination, read against a set of stand-ins that classifies the earlier ones as before. */
  lemma DestsOfSnoc(ds: seq<Node>, nd: Node, before: set<Node>, after: set<Node>)
    requires forall j :: 0 <= j < |ds| ==> DestOf(ds[j], after) == DestOf(ds[j], before)
    ensures DestsOf(ds + [nd], after) == DestsOf(ds, before) + [DestOf(nd, after)]
  {
  }

  lemma DestsOfAppend(a: seq<Node>, b: seq<Node>, standIns: set<Node>)
    ensures DestsOf(a + b, standIns) == DestsOf(a, standIns) + DestsOf(b, standIns)
  {
  }

  lemma LinksOfExtend(d: Dict<seq<Node>>, relation: string, ns: seq<Node>, standIns: set<Node>)
    ensures LinksOf(Extend(d, relation, ns), standIns) == Extend(LinksOf(d, standIns), relation, DestsOf(ns, standIns))
  {
    DestsOfAppend(Listed(d, relation), ns, standIns);
    assert DestsOf([], standIns) == [];
    assert LinksOf(Extend(d, relation, ns), standIns).items
        == LinksOf(d, standIns).items[relation := Listed(LinksOf(d, standIns), relation) + DestsOf(ns, standIns)];
  }

  lemma EmptyViews(standIns: set<Node>)
    ensures LeavesOf(Empty()) == Empty()
    ensures LinksOf(Empty(), standIns) == Empty()
  {
    assert LeavesOf(Empty()).items == map[];
    assert LinksOf(Empty(), standIns).items == map[];
  }

  // ---------------------------------------------------------------- the graph's bookkeeping

  /** Which registry a `Node_manager` is: the top-level one, a registered node's children, or a child's children. */
  datatype Tag = Root | Kids(key: string) | Inner(key: string, child: string)

  /**
    What a graph keeps beside the heap: the place of every registry (distinct
    places mean distinct objects), the key of every registered node's
    connection table, the stand-ins the connection handler created, the
    contents of each registered node's two registries, and the whole registry
    read back as a value.
   */
  datatype Ledger = Ledger(
    managers: map<NodeManager, Tag>,
    tables: map<ConnectionManager, string>,
    standIns: set<Node>,
    kids: map<string, Dict<Node>>,
    links: map<string, Dict<seq<Node>>>,
    model: Store)

  /** `c` is the child `j` of the node `k`: its id is `j` and its own registry is in its place. */
  ghost predicate ChildHolds(k: string, j: string, c: Node, managers: map<NodeManager, Tag>)
  {
    && c.id == j
    && c.children in managers && managers[c.children] == Inner(k, j)
  }

  /** Every destination is a stand-in or the node registered under its id. */
  ghost predicate Aimed(ds: seq<Node>, items: map<string, Node>, standIns: set<Node>)
  {
    forall i :: 0 <= i < |ds| ==> ds[i] in standIns || (ds[i].id in items && items[ds[i].id] == ds[i])
  }

  /** Map `b` extends map `a`. */
  ghost predicate Extends<K, V>(a: map<K, V>, b: map<K, V>)
  {
    forall x :: x in a ==> x in b && b[x] == a[x]
  }

  /** `n` is registered under `k` with its registries in their places, and the ledger has an entry for it. */
  ghost predicate Placed(k: string, n: Node, L: Ledger)
  {
    && n.id == k
    && n !in L.standIns
    && n.children in L.managers && L.managers[n.children] == Kids(k)
    && n.connections in L.tables && L.tables[n.connections] == k
    && k in L.kids && k in L.links && k in L.model.items
  }

  /** `kids`, the children of the node `k`, form a well-formed registry with each child in its place. */
  ghost predicate KidsFit(k: string, kids: Dict<Node>, managers: map<NodeManager, Tag>)
  {
    && kids.Valid()
    && forall j :: j in kids.items ==> ChildHolds(k, j, kids.items[j], managers)
  }

  /** `links` is a well-formed table whose destinations are stand-ins or registered nodes. */
  ghost predicate LinksFit(links: Dict<seq<Node>>, items: map<string, Node>, standIns: set<Node>)
  {
    && links.Valid()
    && forall t :: t in links.items ==> Aimed(links.items[t], items, standIns)
  }

  /** The node `n`, registered under `k` in `top`, is in its place, its registries are as the ledger has them, and so is its value. */
  ghost predicate Fits(k: string, n: Node, top: Dict<Node>, L: Ledger)
  {
    && Placed(k, n, L)
    && KidsFit(k, L.kids[k], L.managers)
    && LinksFit(L.links[k], top.items, L.standIns)
    && L.model.items[k] == EntryFrom(n, L.kids[k], L.links[k], L.standIns)
  }

  /** The bookkeeping agrees with the top-level registry `top`: every node in it fits, and the model has the same keys in the same order. */
  ghost predicate Coherent(top: Dict<Node>, L: Ledger)
  {
    && top.Valid()
    && (forall k :: k in top.items ==> Fits(k, top.items[k], top, L))
    && L.model.keys == top.keys
    && (forall k :: k in L.model.items <==> k in top.items)
  }

  /** The bookkeeping read back is well formed: every node sits under its own id and every resolved destination is registered. */
  lemma CoherentWellFormed(top: Dict<Node>, L: Ledger)
    requires Coherent(top, L)
    ensures WellFormed(L.model)
  {
    var g := L.model;
    forall k | k in g.items ensures EntryFits(g, k, g.items[k]) {
      var n := top.items[k];
      assert Fits(k, n, top, L);
      var kids, links := L.kids[k], L.links[k];
      forall j | j in kids.items ensures kids.items[j].id == j {
        assert ChildHolds(k, j, kids.items[j], L.managers);
      }
      forall t | t in links.items ensures Targets(g, DestsOf(links.items[t], L.standIns)) {
        assert Aimed(links.items[t], top.items, L.standIns);
      }
    }
  }

  lemma KidsFitGrow(k: string, kids: Dict<Node>, m1: map<NodeManager, Tag>, m2: map<NodeManager, Tag>)
    requires KidsFit(k, kids, m1) && Extends(m1, m2)
    ensures KidsFit(k, kids, m2)
  {
    forall j | j in kids.items ensures ChildHolds(k, j, kids.items[j], m2) {
      assert ChildHolds(k, j, kids.items[j], m1);
    }
  }

  lemma LinksFitGrow(links: Dict<seq<Node>>, i1: map<string, Node>, s1: set<Node>, i2: map<string, Node>, s2: set<Node>)
    requires LinksFit(links, i1, s1) && Extends(i1, i2) && s1 <= s2
    ensures LinksFit(links, i2, s2)
  {
    forall t | t in links.items ensures Aimed(links.items[t], i2, s2) {
      assert Aimed(links.items[t], i1, s1);
    }
  }

  // ---------------------------------------------------------------- how each handler moves the bookkeeping

  /** The bookkeeping once the fresh node `nd` is registered under `f.id`. */
  function Defined(L: Ledger, f: Fields, nd: Node): Ledger
  {
    L.(managers := L.managers[nd.children := Kids(f.id)],
       tables := L.tables[nd.connections := f.id],
       kids := L.kids[f.id := Empty()],
       links := L.links[f.id := Empty()],
       model := L.model.Put(f.id, NewEntry(f)))
  }

  /** A node registered before the definition still fits after it. */
  lemma DefineKeepsOther(top: Dict<Node>, L: Ledger, f: Fields, nd: Node, k: string)
    requires k in top.items && Fits(k, top.items[k], top, L)
    requires f.id !in top.items && k != f.id
    requires nd.children !in L.managers && nd.connections !in L.tables
    ensures Fits(k, top.items[k], top.Put(f.id, nd), Defined(L, f, nd))
  {
    var L' := Defined(L, f, nd);
    KidsFitGrow(k, L.kids[k], L.managers, L'.managers);
    LinksFitGrow(L.links[k], top.items, L.standIns, top.Put(f.id, nd).items, L.standIns);
  }

  /** Registering a node made from `f`, under an id not yet taken and with registries of its own, keeps the bookkeeping coherent. */
  lemma DefineKeeps(top: Dict<Node>, L: Ledger, f: Fields, nd: Node)
    requires Coherent(top, L)
    requires f.id !in top.items
    requires nd.id == f.id && nd.name == f.name && nd.content == f.content
    requires nd.children !in L.managers && nd.connections !in L.tables && nd !in L.standIns
    ensures Coherent(top.Put(f.id, nd), Defined(L, f, nd))
  {
    var top', L' := top.Put(f.id, nd), Defined(L, f, nd);
    PutSpec(top, f.id, nd);
    forall k | k in top'.items ensures Fits(k, top'.items[k], top', L') {
      if k == f.id {
        EmptyViews(L.standIns);
        assert EntryFrom(nd, Empty(), Empty(), L.standIns) == NewEntry(f);
      } else {
        DefineKeepsOther(top, L, f, nd, k);
      }
    }
  }

  /** The bookkeeping once the fresh node `c` is among the children of the node registered under `k`. */
  function Elaborated(L: Ledger, k: string, c: Node): Ledger
    requires k in L.kids && k in L.model.items
  {
    var q := L.model.items[k];
    L.(managers := L.managers[c.children := Inner(k, c.id)],
       kids := L.kids[k := L.kids[k].Put(c.id, c)],
       model := L.model.Put(k, q.(children := q.children.Put(c.id, LeafOf(c)))))
  }

  /** The parent still fits once `c` is among its children. */
  lemma ElaborateKeepsParent(top: Dict<Node>, L: Ledger, k: string, c: Node)
    requires k in top.items && Fits(k, top.items[k], top, L)
    requires c.id !in L.kids[k].items && c.children !in L.managers
    ensures Fits(k, top.items[k], top, Elaborated(L, k, c))
  {
    var L' := Elaborated(L, k, c);
    var kids := L.kids[k];
    PutSpec(kids, c.id, c);
    forall j | j in L'.kids[k].items ensures ChildHolds(k, j, L'.kids[k].items[j], L'.managers) {
      if j != c.id {
        assert ChildHolds(k, j, kids.items[j], L.managers);
      }
    }
    LeavesOfPut(kids, c);
  }

  /** Every other registered node still fits once `c` is among the children of `k`. */
  lemma ElaborateKeepsOther(top: Dict<Node>, L: Ledger, k: string, c: Node, kk: string)
    requires kk in top.items && Fits(kk, top.items[kk], top, L)
    requires k in L.kids && k in L.model.items && kk != k && c.children !in L.managers
    ensures Fits(kk, top.items[kk], top, Elaborated(L, k, c))
  {
    KidsFitGrow(kk, L.kids[kk], L.managers, Elaborated(L, k, c).managers);
  }

  /** Adding a child with a new id and a registry of its own to a registered node keeps the bookkeeping coherent. */
  lemma ElaborateKeeps(top: Dict<Node>, L: Ledger, k: string, c: Node)
    requires Coherent(top, L)
    requires k in top.items && k in L.kids && c.id !in L.kids[k].items
    requires c.children !in L.managers
    ensures Coherent(top, Elaborated(L, k, c))
  {
    forall kk | kk in top.items ensures Fits(kk, top.items[kk], top, Elaborated(L, k, c)) {
      if kk == k {
        ElaborateKeepsParent(top, L, k, c);
      } else {
        ElaborateKeepsOther(top, L, k, c, kk);
      }
    }
  }

  /**
    The bookkeeping once `ds` is appended to the list for `relation` of the
    node registered under `k`, with `made` the stand-ins among them and
    `dests` what they read back as.
   */
  function Connected(L: Ledger, k: string, relation: string, ds: seq<Node>, made: set<Node>, dests: seq<Dest>): Ledger
    requires k in L.links && k in L.model.items
  {
    var q := L.model.items[k];
    L.(standIns := L.standIns + made,
       links := L.links[k := Extend(L.links[k], relation, ds)],
       model := L.model.Put(k, q.(links := Extend(q.links, relation, dests))))
  }

  /** A table reads back the same against a larger set of stand-ins when none of the new ones is on it. */
  lemma LinksOfStable(links: Dict<seq<Node>>, items: map<string, Node>, s: set<Node>, made: set<Node>)
    requires LinksFit(links, items, s)
    requires forall j :: j in items ==> items[j] !in made
    ensures LinksOf(links, s + made) == LinksOf(links, s)
  {
    forall t | t in links.items ensures DestsOf(links.items[t], s + made) == DestsOf(links.items[t], s) {
      assert Aimed(links.items[t], items, s);
    }
  }

  /** The origin still fits once `ds` is on its list for `relation`. */
  lemma ConnectKeepsOrigin(top: Dict<Node>, L: Ledger, k: string, relation: string, ds: seq<Node>, made: set<Node>, dests: seq<Dest>)
    requires k in top.items && Fits(k, top.items[k], top, L)
    requires forall j :: j in top.items ==> top.items[j] !in made
    requires Aimed(ds, top.items, L.standIns + made)
    requires DestsOf(ds, L.standIns + made) == dests
    ensures Fits(k, top.items[k], top, Connected(L, k, relation, ds, made, dests))
  {
    var links, s' := L.links[k], L.standIns + made;
    var links' := Extend(links, relation, ds);
    LinksOfStable(links, top.items, L.standIns, made);
    LinksOfExtend(links, relation, ds, s');
    ExtendSpec(links, relation, ds);
    forall t | t in links'.items ensures Aimed(links'.items[t], top.items, s') {
      if t != relation || relation in links.items {
        assert Aimed(links.items[t], top.items, L.standIns);
      }
    }
  }

  /** Every other registered node still fits once `ds` is on the list of `k`. */
  lemma ConnectKeepsOther(top: Dict<Node>, L: Ledger, k: string, relation: string, ds: seq<Node>, made: set<Node>, dests: seq<Dest>, kk: string)
    requires kk in top.items && Fits(kk, top.items[kk], top, L)
    requires k in L.links && k in L.model.items && kk != k
    requires forall j :: j in top.items ==> top.items[j] !in made
    ensures Fits(kk, top.items[kk], top, Connected(L, k, relation, ds, made, dests))
  {
    LinksOfStable(L.links[kk], top.items, L.standIns, made);
    LinksFitGrow(L.links[kk], top.items, L.standIns, top.items, L.standIns + made);
  }

  /**
    Appending destinations that are each a new stand-in or a registered node
    to a list of a registered node keeps the bookkeeping coherent.
   */
  lemma ConnectKeeps(top: Dict<Node>, L: Ledger, k: string, relation: string, ds: seq<Node>, made: set<Node>, dests: seq<Dest>)
    requires Coherent(top, L)
    requires k in top.items
    requires forall x :: x in made ==> x !in L.standIns && x.children !in L.managers
    requires forall i :: 0 <= i < |ds| ==> ds[i] in made || (ds[i].id in top.items && top.items[ds[i].id] == ds[i])
    requires DestsOf(ds, L.standIns + made) == dests
    ensures Coherent(top, Connected(L, k, relation, ds, made, dests))
  {
    forall j | j in top.items ensures top.items[j] !in made {
      assert Placed(j, top.items[j], L);
    }
    forall kk | kk in top.items ensures Fits(kk, top.items[kk], top, Connected(L, k, relation, ds, made, dests)) {
      if kk == k {
        ConnectKeepsOrigin(top, L, k, relation, ds, made, dests);
      } else {
        ConnectKeepsOther(top, L, k, relation, ds, made, dests, kk);
      }
    }
  }

  /** The bookkeeping before a step, and the key of the registered node whose registry the step changes. */
  datatype Step = Step(ledger: Ledger, key: string)

  /**
    `Graph`: the top-level registry. What the graph keeps beside the heap, a
    `Ledger`, is passed in and handed back by every operation as a ghost value.
   */
  class Graph {
    const nodes: NodeManager

    /**
      The heap holds what the given bookkeeping records: each registered node's
      registries in their places and with the recorded contents, and every
      child's registry empty.
     */
    ghost predicate Holds(managers: map<NodeManager, Tag>, tables: map<ConnectionManager, string>,
                          kids: map<string, Dict<Node>>, links: map<string, Dict<seq<Node>>>)
      reads nodes, managers.Keys, tables.Keys
    {
      && nodes in managers && managers[nodes] == Root
      && (forall k :: k in nodes.d.items ==>
           var n := nodes.d.items[k];
           && n.children in managers && managers[n.children] == Kids(k)
           && n.connections in tables && tables[n.connections] == k
           && k in kids && n.children.d == kids[k]
           && k in links && n.connections.d == links[k])
      && (forall o :: o in managers && managers[o].Inner? ==> o.d == Empty())
    }

    /** The heap holds what `L` records, and `L` agrees with the top-level registry. */
    ghost predicate Valid(L: Ledger)
      reads nodes, L.managers.Keys, L.tables.Keys
    {
      Holds(L.managers, L.tables, L.kids, L.links) && Coherent(nodes.d, L)
    }

    /** `Graph()`: an empty registry. */
    constructor()
      ensures fresh(nodes)
      ensures Valid(Start(nodes)) && Start(nodes).model == Empty()
    {
      nodes := new NodeManager();
    }

    /** The bookkeeping of a graph nothing was parsed into. */
    static ghost function Start(nodes: NodeManager): (L: Ledger)
      ensures L.model == Empty() && L.managers.Keys == {nodes} && L.tables == map[]
    {
      Ledger(map[nodes := Root], map[], {}, map[], map[], Empty())
    }

    /** The registry read back is well formed. */
    lemma ModelWellFormed(L: Ledger)
      requires Valid(L)
      ensures WellFormed(L.model)
    {
      CoherentWellFormed(nodes.d, L);
    }

    /** A registered node is a seed `FindNode` accepts, and it is registered under its own id. */
    lemma Shallow(L: Ledger, id: string)
      requires Valid(L)
      ensures id in nodes.d.items ==> nodes.d.items[id].id == id && nodes.d.items[id].children.d.Valid()
      ensures id in nodes.d.items ==> forall c :: c in nodes.d.items[id].children.d.Values() ==> c.children.d == Empty()
    {
      if id in nodes.d.items {
        assert Fits(id, nodes.d.items[id], nodes.d, L);
        var kids := L.kids[id];
        forall c | c in kids.Values() ensures c.children.d == Empty() {
          var i :| 0 <= i < |kids.keys| && kids.Values()[i] == c;
          assert ChildHolds(id, kids.keys[i], c, L.managers);
        }
      }
    }

    /** The registries of a registered node are among those the bookkeeping records. */
    lemma Places(L: Ledger, k: string)
      requires Valid(L)
      ensures k in nodes.d.items ==> nodes.d.items[k].children in L.managers && nodes.d.items[k].connections in L.tables
    {
    }

    /**
      `get_all` read back: the model lists its entries in the order the
      registry lists its nodes, each entry with its node's content and with
      that node's children registry as its children.
     */
    lemma ReadBack(L: Ledger)
      requires Valid(L)
      ensures nodes.d.Valid() && L.model.Valid()
      ensures |L.model.Values()| == |nodes.GetAll()|
      ensures forall i :: 0 <= i < |nodes.GetAll()| ==>
                && nodes.GetAll()[i].children.d.Valid()
                && L.model.Values()[i].content == nodes.GetAll()[i].content
                && L.model.Values()[i].children == LeavesOf(nodes.GetAll()[i].children.d)
    {
      forall i | 0 <= i < |nodes.GetAll()|
        ensures && nodes.GetAll()[i].children.d.Valid()
                && L.model.Values()[i].content == nodes.GetAll()[i].content
                && L.model.Values()[i].children == LeavesOf(nodes.GetAll()[i].children.d)
      {
        var k := nodes.d.keys[i];
        assert Fits(k, nodes.d.items[k], nodes.d, L);
      }
    }

    /** A step that changes no registry keeps the invariant. */
    twostate lemma Same(L: Ledger)
      requires old(Valid(L))
      requires forall o :: o in L.managers ==> unchanged(o)
      requires forall o :: o in L.tables ==> unchanged(o)
      ensures Valid(L)
    {
    }

    /** `Node(id, name, content)`: a new node, with registries the bookkeeping has never seen. */
    static method NewNode(ghost L: Ledger, id: string, name: string, content: string) returns (nd: Node)
      ensures nd.id == id && nd.name == name && nd.content == content
      ensures nd.children.d == Empty() && nd.connections.d == Empty()
      ensures nd.children !in L.managers && nd.connections !in L.tables && nd !in L.standIns
      ensures fresh(nd) && fresh(nd.children) && fresh(nd.connections)
      ensures forall o :: o in L.managers ==> unchanged(o)
      ensures forall o :: o in L.tables ==> unchanged(o)
    {
      nd := new Node(id, name, content);
    }

    /** Once the fresh node `nd` is registered under its id, the heap holds what `Defined` records. */
    twostate lemma DefineHolds(L: Ledger, new nd: Node)
      requires old(Holds(L.managers, L.tables, L.kids, L.links))
      requires nd.id !in old(nodes.d.items) && nodes.d == old(nodes.d).Put(nd.id, nd)
      requires nd.children.d == Empty() && nd.connections.d == Empty()
      requires nd.children !in L.managers && nd.connections !in L.tables
      requires forall o :: o in L.managers && o != nodes ==> unchanged(o)
      requires forall o :: o in L.tables ==> unchanged(o)
      ensures var L' := Defined(L, Fields(nd.id, nd.name, nd.content), nd); Holds(L'.managers, L'.tables, L'.kids, L'.links)
    {
      var L' := Defined(L, Fields(nd.id, nd.name, nd.content), nd);
      forall k | k in nodes.d.items && k != nd.id
        ensures var n := nodes.d.items[k];
          && n.children in L'.managers && L'.managers[n.children] == Kids(k)
          && n.connections in L'.tables && L'.tables[n.connections] == k
          && k in L'.kids && n.children.d == L'.kids[k]
          && k in L'.links && n.connections.d == L'.links[k]
      {
        assert k in old(nodes.d.items);
      }
      forall o | o in L'.managers && L'.managers[o].Inner? ensures o.d == Empty() {
        assert o in L.managers;
      }
    }

    /** The definition handler from `Node(alias, name, content)` on: add a fresh node to the top-level registry. */
    method Define(ghost L: Ledger, f: Fields) returns (r: Outcome<ErrorKind>, ghost L': Ledger)
      requires Valid(L)
      modifies nodes
      ensures Valid(L')
      ensures r.Pass? ==> GraphModel.Define(L.model, f) == Success(L'.model)
      ensures r.Fail? ==> GraphModel.Define(L.model, f) == Failure(r.error) && L' == L
      ensures fresh(L'.managers.Keys - L.managers.Keys) && fresh(L'.tables.Keys - L.tables.Keys)
    {
      var nd := NewNode(L, f.id, f.name, f.content);
      r := nodes.Add(nd);
      if r.Pass? {
        assert f.id !in L.model.items;
        DefineKeeps(old(nodes.d), L, f, nd);
        DefineHolds(L, nd);
        L' := Defined(L, f, nd);
      } else {
        assert f.id in L.model.items;
        Same(L);
        L' := L;
      }
    }

    /** Once the fresh node `c` is among the children of the node registered under `k`, the heap holds what `Elaborated` records. */
    twostate lemma ElaborateHolds(at: Step, new c: Node)
      requires old(Holds(at.ledger.managers, at.ledger.tables, at.ledger.kids, at.ledger.links))
      requires at.key in old(nodes.d.items) && nodes.d == old(nodes.d) && at.key in at.ledger.model.items
      requires c.children.d == Empty() && c.children !in at.ledger.managers
      requires old(nodes.d.items[at.key]).children.d == at.ledger.kids[at.key].Put(c.id, c)
      requires forall o :: o in at.ledger.managers && o != old(nodes.d.items[at.key]).children ==> unchanged(o)
      requires forall o :: o in at.ledger.tables ==> unchanged(o)
      ensures var L' := Elaborated(at.ledger, at.key, c); Holds(L'.managers, L'.tables, L'.kids, L'.links)
    {
      var L' := Elaborated(at.ledger, at.key, c);
      var p := old(nodes.d.items[at.key]);
      assert at.ledger.managers[p.children] == Kids(at.key);
      forall o | o in L'.managers && L'.managers[o].Inner? ensures o.d == Empty() {
        if o != c.children {
          assert o in at.ledger.managers;
        }
      }
    }

    /** `parent.children.add(new)`, with what it leaves alone among the registries `L` records. */
    static method AddChild(ghost L: Ledger, p: Node, c: Node) returns (r: Outcome<ErrorKind>)
      requires p.children.d.Valid()
      modifies p.children
      ensures p.children.d.Valid()
      ensures r.Pass? ==> Register(old(p.children.d), c.id, c) == Success(p.children.d)
      ensures r.Fail? ==> Register(old(p.children.d), c.id, c) == Failure(r.error) && unchanged(p.children)
      ensures forall o :: o in L.managers && o != p.children ==> unchanged(o)
      ensures forall o :: o in L.tables ==> unchanged(o)
      ensures c.children != p.children ==> unchanged(c.children)
    {
      r := p.children.Add(c);
    }

    /**
      The elaboration handler from `new = Node(alias, alias, content)` on: the
      child is made first, then the parent is looked up and the child is added
      to the parent's children.
     */
    method Elaborate(ghost L: Ledger, e: Elab) returns (r: Outcome<ErrorKind>, ghost L': Ledger)
      requires Valid(L)
      modifies if e.parent in nodes.d.items then {nodes.d.items[e.parent].children} else {}
      ensures Valid(L')
      ensures r.Pass? ==> GraphModel.Elaborate(L.model, e) == Success(L'.model)
      ensures r.Fail? ==> GraphModel.Elaborate(L.model, e) == Failure(r.error) && L' == L
      ensures fresh(L'.managers.Keys - L.managers.Keys) && L'.tables == L.tables
    {
      var c := NewNode(L, e.child.id, e.child.name, e.child.content);
      var got := nodes.Get(e.parent);
      if got.Failure? {
        Same(L);
        return Fail(got.error), L;
      }
      var p := got.value;
      assert Fits(e.parent, p, nodes.d, L);
      r := AddChild(L, p, c);
      if r.Pass? {
        ElaborateKeeps(nodes.d, L, e.parent, c);
        LeavesOfPut(old(p.children.d), c);
        ElaborateHolds(Step(L, e.parent), c);
        L' := Elaborated(L, e.parent, c);
      } else {
        Same(L);
        L' := L;
      }
    }

    /**
      One `&`-separated token of a connection: the registered node
      `find_node` returns for it, or, when the lookup raises, a new stand-in
      `Node(txt, txt, txt)`.
     */
    method Destination(ghost L: Ledger, t: string) returns (nd: Node)
      requires Valid(L)
      ensures Valid(L)
      ensures t in nodes.d.items ==> nd == nodes.d.items[t] && Placed(t, nd, L)
      ensures t !in nodes.d.items ==> nd.id == t && nd.name == t && nd.content == t && fresh(nd)
      ensures t !in nodes.d.items ==> nd !in L.standIns && nd.children !in L.managers
    {
      Shallow(L, t);
      var found := nodes.FindNode(t);
      if found.Success? {
        nd := found.value;
        assert Fits(t, nd, nodes.d, L);
      } else {
        nd := NewNode(L, t, t, t);
        Same(L);
      }
    }

    /** The loop over the tokens of a connection; `made` is the set of stand-ins created. */
    method Destinations(ghost L: Ledger, ts: seq<string>) returns (ds: seq<Node>, ghost made: set<Node>)
      requires Valid(L)
      ensures |ds| == |ts|
      ensures forall x :: x in made ==> x !in L.standIns && x.children !in L.managers
      ensures forall i :: 0 <= i < |ds| ==> ds[i] in made || (ds[i].id in nodes.d.items && nodes.d.items[ds[i].id] == ds[i])
      ensures DestsOf(ds, L.standIns + made) == ResolveAll(L.model, ts)
    {
      ds, made := [], {};
      var i := 0;
      while i < |ts|
        invariant i <= |ts| && |ds| == i
        invariant Valid(L)
        invariant forall x :: x in made ==> x !in L.standIns && x.children !in L.managers
        invariant forall j :: 0 <= j < i ==> ds[j] in made || (ds[j].id in nodes.d.items && nodes.d.items[ds[j].id] == ds[j])
        invariant DestsOf(ds, L.standIns + made) == ResolveAll(L.model, ts[..i])
      {
        var t := ts[i];
        var nd := Destination(L, t);
        ghost var made' := made;
        if t !in nodes.d.items {
          made' := made + {nd};
          forall j | 0 <= j < i ensures DestOf(ds[j], L.standIns + made') == DestOf(ds[j], L.standIns + made) {
            if ds[j] !in made {
              assert Placed(ds[j].id, ds[j], L);
            }
          }
        }
        assert ts[..i + 1][..i] == ts[..i];
        ResolveAllSnoc(L.model, ts, i);
        DestsOfSnoc(ds, nd, L.standIns + made, L.standIns + made');
        ds, made := ds + [nd], made';
        i := i + 1;
      }
      assert ts[..i] == ts;
    }

    /** Once the connections of the node registered under `k` are changed, the heap holds the bookkeeping with that node's table replaced. */
    twostate lemma ConnectHolds(at: Step)
      requires old(Holds(at.ledger.managers, at.ledger.tables, at.ledger.kids, at.ledger.links))
      requires at.key in old(nodes.d.items) && nodes.d == old(nodes.d)
      requires forall o :: o in at.ledger.managers ==> unchanged(o)
      requires forall o :: o in at.ledger.tables && o != old(nodes.d.items[at.key]).connections ==> unchanged(o)
      ensures Holds(at.ledger.managers, at.ledger.tables, at.ledger.kids, at.ledger.links[at.key := old(nodes.d.items[at.key]).connections.d])
    {
      var p := old(nodes.d.items[at.key]);
      assert at.ledger.tables[p.connections] == at.key;
    }

    /** `origin.connections.add(connection, dests)`, with what it leaves alone among the registries `L` records. */
    static method AddLinks(ghost L: Ledger, origin: Node, relation: string, ds: seq<Node>)
      requires origin.connections.d.Valid()
      modifies origin.connections
      ensures origin.connections.d.Valid()
      ensures origin.connections.d == Extend(old(origin.connections.d), relation, ds)
      ensures forall o :: o in L.managers ==> unchanged(o)
      ensures forall o :: o in L.tables && o != origin.connections ==> unchanged(o)
    {
      origin.connections.Add(relation, ds);
    }

    /**
      The connection handler from `origin = self.nodes.find_node(left)` on:
      the destinations are resolved and the origin's list for the relation is
      extended by them.
     */
    method Connect(ghost L: Ledger, l: Link) returns (r: Outcome<ErrorKind>, ghost L': Ledger)
      requires Valid(L)
      modifies if l.origin in nodes.d.items then {nodes.d.items[l.origin].connections} else {}
      ensures Valid(L')
      ensures r.Pass? ==> GraphModel.Connect(L.model, l) == Success(L'.model)
      ensures r.Fail? ==> GraphModel.Connect(L.model, l) == Failure(r.error) && L' == L
      ensures L'.managers == L.managers && L'.tables == L.tables
    {
      Shallow(L, l.origin);
      var found := nodes.FindNode(l.origin);
      if found.Failure? {
        return Fail(found.error), L;
      }
      var origin := found.value;
      assert Fits(l.origin, origin, nodes.d, L);
      var ds, made := Destinations(L, l.targets);
      AddLinks(L, origin, l.relation, ds);
      var dests := ResolveAll(L.model, l.targets);
      ConnectKeeps(nodes.d, L, l.origin, l.relation, ds, made, dests);
      ConnectHolds(Step(L, l.origin));
      L' := Connected(L, l.origin, l.relation, ds, made, dests);
      r := Pass;
    }

    /**
      `parse_line`: a comment is skipped, a definition, an elaboration or a
      connection goes to its handler, and any other line is invalid syntax
      reported with the window `ctx`. A line that fails changes nothing.
     */
    method ParseLine(ghost L: Ledger, line: string, ctx: seq<ContextLine>) returns (r: Outcome<ErrorKind>, ghost L': Ledger)
      requires Valid(L)
      modifies L.managers.Keys, L.tables.Keys
      ensures Valid(L')
      ensures r.Pass? ==> ApplyLine(L.model, line, ctx) == Success(L'.model)
      ensures r.Fail? ==> ApplyLine(L.model, line, ctx) == Failure(r.error) && L' == L
      ensures fresh(L'.managers.Keys - L.managers.Keys) && fresh(L'.tables.Keys - L.tables.Keys)
    {
      match Classify(line)
      case Comment =>
        r, L' := Pass, L;
      case Definition(colon) =>
        r, L' := DefinitionLine(L, line, ctx, colon);
      case Elaboration(lt) =>
        r, L' := ElaborationLine(L, line, ctx, lt);
      case Connection(open, close) =>
        r, L' := ConnectionLine(L, line, ctx, open, close);
      case Malformed =>
        r, L' := Fail(InvalidSyntax(ctx)), L;
    }

    /** The definition branch of `parse_line`. */
    method DefinitionLine(ghost L: Ledger, line: string, ctx: seq<ContextLine>, colon: nat) returns (r: Outcome<ErrorKind>, ghost L': Ledger)
      requires Classify(line) == Definition(colon)
      requires Valid(L)
      modifies L.managers.Keys, L.tables.Keys
      ensures Valid(L')
      ensures r.Pass? ==> ApplyLine(L.model, line, ctx) == Success(L'.model)
      ensures r.Fail? ==> ApplyLine(L.model, line, ctx) == Failure(r.error) && L' == L
      ensures fresh(L'.managers.Keys - L.managers.Keys) && fresh(L'.tables.Keys - L.tables.Keys)
    {
      var f := DefinitionFields(line, colon);
      ApplyDefinition(L.model, line, ctx, colon);
      if f.Failure? {
        return Fail(f.error), L;
      }
      r, L' := Define(L, f.value);
    }

    /** The elaboration branch of `parse_line`. */
    method ElaborationLine(ghost L: Ledger, line: string, ctx: seq<ContextLine>, lt: nat) returns (r: Outcome<ErrorKind>, ghost L': Ledger)
      requires Classify(line) == Elaboration(lt)
      requires Valid(L)
      modifies L.managers.Keys, L.tables.Keys
      ensures Valid(L')
      ensures r.Pass? ==> ApplyLine(L.model, line, ctx) == Success(L'.model)
      ensures r.Fail? ==> ApplyLine(L.model, line, ctx) == Failure(r.error) && L' == L
      ensures fresh(L'.managers.Keys - L.managers.Keys) && fresh(L'.tables.Keys - L.tables.Keys)
    {
      var e := ElaborationFields(line, lt);
      ApplyElaboration(L.model, line, ctx, lt);
      if e.Failure? {
        return Fail(e.error), L;
      }
      Places(L, e.value.parent);
      r, L' := Elaborate(L, e.value);
    }

    /** The connection branch of `parse_line`. */
    method ConnectionLine(ghost L: Ledger, line: string, ctx: seq<ContextLine>, open: int, close: nat) returns (r: Outcome<ErrorKind>, ghost L': Ledger)
      requires Classify(line) == Connection(open, close)
      requires Valid(L)
      modifies L.managers.Keys, L.tables.Keys
      ensures Valid(L')
      ensures r.Pass? ==> ApplyLine(L.model, line, ctx) == Success(L'.model)
      ensures r.Fail? ==> ApplyLine(L.model, line, ctx) == Failure(r.error) && L' == L
      ensures fresh(L'.managers.Keys - L.managers.Keys) && fresh(L'.tables.Keys - L.tables.Keys)
    {
      var l := ConnectionFields(line, open, close);
      ApplyConnection(L.model, line, ctx, open, close);
      Places(L, l.origin);
      r, L' := Connect(L, l);
    }

    /**
      `parse`: the non-blank lines of `code`, stripped, are handled in order,
      each with its diagnostic window; the first line that fails ends the
      parse, keeping what the lines before it built.
     */
    method Parse(ghost L: Ledger, code: string) returns (r: Outcome<ErrorKind>, ghost L': Ledger)
      requires Valid(L)
      modifies L.managers.Keys, L.tables.Keys
      ensures Valid(L')
      ensures GraphModel.Parse(L.model, code) == Run(L'.model, r)
      ensures fresh(L'.managers.Keys - L.managers.Keys) && fresh(L'.tables.Keys - L.tables.Keys)
    {
      var lines := Lines(code);
      var i := 0;
      r, L' := Pass, L;
      while i < |lines|
        invariant i <= |lines|
        invariant Valid(L')
        invariant RunLines(L.model, lines, i) == Run(L'.model, Pass)
        invariant forall o :: o in L'.managers ==> o in L.managers || fresh(o)
        invariant forall o :: o in L'.tables ==> o in L.tables || fresh(o)
      {
        var outcome, next := ParseLine(L', lines[i], Context(lines, i));
        if outcome.Fail? {
          RunFail(L.model, lines, i, L'.model, outcome.error);
          return outcome, next;
        }
        RunPass(L.model, lines, i, L'.model, next.model);
        L' := next;
        i := i + 1;
      }
    }
  }
}
