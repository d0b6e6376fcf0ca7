/**
  The graph that parsing builds, as a value: the top-level registry of nodes,
  each node with its own registry of children and its table of labelled
  connections; and what one line, and a whole text, does to that value.
  The heap-level classes are proved to follow these definitions.
 */
module GraphModel {
  import opened Wrappers
  import opened PyText
  import opened PyDict
  import opened Syntax

  /** A child node: it gets an id, a name and a content, and never children or connections of its own. */
  datatype Leaf = Leaf(id: string, name: string, content: string)

  /** A connection destination: the registered node with that id, or an unregistered stand-in built from the token. */
  datatype Dest = Resolved(id: string) | StandIn(text: string)

  /** A registered node. */
  datatype Entry = Entry(id: string, name: string, content: string, children: Dict<Leaf>, links: Dict<seq<Dest>>)

  /** The top-level registry, keyed by id. */
  type Store = Dict<Entry>

  // ---------------------------------------------------------------- registries

  /** `Node_manager.add`: a new id is inserted, an id already present is refused. */
  function Register<V>(d: Dict<V>, id: string, v: V): Result<Dict<V>, ErrorKind>
  {
    if id in d.items then Failure(Redefinition) else Success(d.Put(id, v))
  }

  /**
    `add` succeeds exactly when the id is new; it then makes `get(id)` return the
    new node, leaves every other id alone, and puts the node last in `get_all`.
    A refused `add` leaves the registry as it was, since no registry is returned.
   */
  lemma RegisterSpec<V>(d: Dict<V>, id: string, v: V)
    requires d.Valid()
    ensures Register(d, id, v).Success? <==> id !in d.items
    ensures Register(d, id, v).Failure? ==> Register(d, id, v).error == Redefinition
    ensures Register(d, id, v).Success? ==>
              var e := Register(d, id, v).value;
              && e.Valid()
              && e.Lookup(id) == Some(v)
              && (forall k :: k != id ==> e.Lookup(k) == d.Lookup(k))
              && e.Values() == d.Values() + [v]
  {
    if id !in d.items {
      PutSpec(d, id, v);
      PutNewValues(d, id, v);
    }
  }

  /** `get_all` after a run of successful `add`s lists the added values in the order they were added. */
  lemma {:induction false} RegisterAll<V>(ids: seq<string>, vs: seq<V>, d: Dict<V>)
    requires |ids| == |vs|
    requires d.Valid()
    requires Registered(d, ids, vs).Success?
    ensures Registered(d, ids, vs).value.Valid()
    ensures Registered(d, ids, vs).value.Values() == d.Values() + vs
  {
    if ids != [] {
      var n := |ids| - 1;
      RegisterAll(ids[..n], vs[..n], d);
      var e := Registered(d, ids[..n], vs[..n]).value;
      RegisterSpec(e, ids[n], vs[n]);
      assert vs == vs[..n] + [vs[n]];
    }
  }

  /** A run of `add`s, stopping at the first refusal. */
  function Registered<V>(d: Dict<V>, ids: seq<string>, vs: seq<V>): Result<Dict<V>, ErrorKind>
    requires |ids| == |vs|
  {
    if ids == [] then Success(d)
    else
      var n := |ids| - 1;
      match Registered(d, ids[..n], vs[..n])
      case Failure(err) => Failure(err)
      case Success(e) => Register(e, ids[n], vs[n])
  }

  /** What a label maps to so far: its list, or nothing for a label never used. */
  function Listed<D>(links: Dict<seq<D>>, relation: string): seq<D>
  {
    if relation in links.items then links.items[relation] else []
  }

  /** `Connection_manager.add`: create the label's list if needed, then extend it. */
  function Extend<D>(links: Dict<seq<D>>, relation: string, ds: seq<D>): Dict<seq<D>>
  {
    links.Put(relation, Listed(links, relation) + ds)
  }

  /**
    After `add(t, ns)` the list for `t` is its old list (empty for a new label)
    followed by `ns`; every other label keeps its list; a new label goes last.
   */
  lemma ExtendSpec<D>(links: Dict<seq<D>>, relation: string, ds: seq<D>)
    requires links.Valid()
    ensures var e := Extend(links, relation, ds);
            && e.Valid()
            && e.Lookup(relation) == Some(Listed(links, relation) + ds)
            && (forall t :: t != relation ==> e.Lookup(t) == links.Lookup(t))
            && e.keys == (if relation in links.items then links.keys else links.keys + [relation])
  {
    PutSpec(links, relation, Listed(links, relation) + ds);
  }

  /** Using a label twice accumulates: the second list is appended to the first. */
  lemma ExtendTwice<D>(links: Dict<seq<D>>, relation: string, a: seq<D>, b: seq<D>)
    ensures Extend(Extend(links, relation, a), relation, b) == Extend(links, relation, a + b)
  {
    var once := Extend(links, relation, a);
    assert Listed(once, relation) == Listed(links, relation) + a;
    assert Listed(links, relation) + a + b == Listed(links, relation) + (a + b);
    assert once.items[relation := Listed(once, relation) + b] == links.items[relation := Listed(links, relation) + (a + b)];
  }

  // ---------------------------------------------------------------- destinations

  /** `find_node(t)` inside the `try`: the registered node, or a stand-in `Node(t, t, t)` when the lookup fails. */
  function Resolve(g: Store, t: string): Dest
  {
    if t in g.items then Resolved(t) else StandIn(t)
  }

  /** The destinations of a connection, one per token, in order. */
  function ResolveAll(g: Store, ts: seq<string>): seq<Dest>
  {
    if ts == [] then [] else ResolveAll(g, ts[..|ts| - 1]) + [Resolve(g, ts[|ts| - 1])]
  }

  /** The destinations of the first `i + 1` tokens: those of the first `i`, then that of token `i`. */
  lemma ResolveAllSnoc(g: Store, ts: seq<string>, i: nat)
    requires i < |ts|
    ensures ResolveAll(g, ts[..i + 1]) == ResolveAll(g, ts[..i]) + [Resolve(g, ts[i])]
  {
    assert ts[..i + 1][..i] == ts[..i];
  }

  /**
    Exactly one destination per token, in order: the registered node with
    that id when there is one, and otherwise a stand-in carrying the token
    verbatim (untrimmed).
   */
  lemma {:induction false} ResolveAllSpec(g: Store, ts: seq<string>)
    ensures var ds := ResolveAll(g, ts);
            && |ds| == |ts|
            && forall i :: 0 <= i < |ts| ==>
                 (ts[i] in g.items && ds[i] == Resolved(ts[i])) || (ts[i] !in g.items && ds[i] == StandIn(ts[i]))
  {
    if ts != [] {
      ResolveAllSpec(g, ts[..|ts| - 1]);
    }
  }

  // ---------------------------------------------------------------- line handlers

  /** The node a definition creates: no children, no connections yet. */
  function NewEntry(f: Fields): Entry
  {
    Entry(f.id, f.name, f.content, Empty(), Empty())
  }

  /** The definition handler: create the node and add it to the top-level registry. */
  function Define(g: Store, f: Fields): Result<Store, ErrorKind>
  {
    Register(g, f.id, NewEntry(f))
  }

  /** The elaboration handler: `get` the parent, then add the child to the parent's own registry. */
  function Elaborate(g: Store, e: Elab): Result<Store, ErrorKind>
  {
    if e.parent !in g.items then Failure(Nonexistent)
    else
      var p := g.items[e.parent];
      match Register(p.children, e.child.id, Leaf(e.child.id, e.child.name, e.child.content))
      case Failure(err) => Failure(err)
      case Success(kids) => Success(g.Put(e.parent, p.(children := kids)))
  }

  /** The connection handler: find the origin, resolve every token, extend the origin's list for the label. */
  function Connect(g: Store, l: Link): Result<Store, ErrorKind>
  {
    if l.origin !in g.items then Failure(Nonexistent)
    else
      var p := g.items[l.origin];
      Success(g.Put(l.origin, p.(links := Extend(p.links, l.relation, ResolveAll(g, l.targets)))))
  }

  /** `parse_line` on one kept line, with `ctx` the diagnostic window an invalid line reports. */
  function ApplyLine(g: Store, line: string, ctx: seq<ContextLine>): Result<Store, ErrorKind>
  {
    match Classify(line)
    case Comment => Success(g)
    case Definition(colon) =>
      (match DefinitionFields(line, colon)
       case Failure(err) => Failure(err)
       case Success(f) => Define(g, f))
    case Elaboration(lt) =>
      (match ElaborationFields(line, lt)
       case Failure(err) => Failure(err)
       case Success(e) => Elaborate(g, e))
    case Connection(open, close) => Connect(g, ConnectionFields(line, open, close))
    case Malformed => Failure(InvalidSyntax(ctx))
  }

  // ---------------------------------------------------------------- invariant

  /** Ids are the keys a node is registered under, and a resolved destination names a registered node. */
  ghost predicate WellFormed(g: Store)
  {
    && g.Valid()
    && forall k :: k in g.items ==> EntryFits(g, k, g.items[k])
  }

  ghost predicate EntryFits(g: Store, k: string, e: Entry)
  {
    && e.id == k
    && e.children.Valid()
    && (forall j :: j in e.children.items ==> e.children.items[j].id == j)
    && e.links.Valid()
    && (forall t :: t in e.links.items ==> Targets(g, e.links.items[t]))
  }

  ghost predicate Targets(g: Store, ds: seq<Dest>)
  {
    forall i :: 0 <= i < |ds| ==> ds[i].Resolved? ==> ds[i].id in g.items
  }

  lemma TargetsGrow(g: Store, h: Store, ds: seq<Dest>)
    requires Targets(g, ds)
    requires forall k :: k in g.items ==> k in h.items
    ensures Targets(h, ds)
  {
  }

  /** Every successful line keeps the registry well formed. */
  lemma ApplyLineWellFormed(g: Store, line: string, ctx: seq<ContextLine>)
    requires WellFormed(g)
    ensures ApplyLine(g, line, ctx).Success? ==> WellFormed(ApplyLine(g, line, ctx).value)
  {
    match Classify(line)
    case Comment =>
    case Definition(colon) =>
      var f := DefinitionFields(line, colon);
      if f.Success? {
        DefineWellFormed(g, f.value);
      }
    case Elaboration(lt) =>
      var e := ElaborationFields(line, lt);
      if e.Success? {
        ElaborateWellFormed(g, e.value);
      }
    case Connection(open, close) =>
      ConnectWellFormed(g, ConnectionFields(line, open, close));
    case Malformed =>
  }

  lemma DefineWellFormed(g: Store, f: Fields)
    requires WellFormed(g)
    ensures Define(g, f).Success? ==> WellFormed(Define(g, f).value)
  {
    if f.id !in g.items {
      var h := Define(g, f).value;
      PutSpec(g, f.id, NewEntry(f));
      forall k | k in h.items ensures EntryFits(h, k, h.items[k]) {
        if k != f.id {
          var e := g.items[k];
          forall t | t in e.links.items ensures Targets(h, e.links.items[t]) {
            TargetsGrow(g, h, e.links.items[t]);
          }
        }
      }
    }
  }

  lemma ElaborateWellFormed(g: Store, e: Elab)
    requires WellFormed(g)
    ensures Elaborate(g, e).Success? ==> WellFormed(Elaborate(g, e).value)
  {
    if e.parent in g.items {
      var p := g.items[e.parent];
      var leaf := Leaf(e.child.id, e.child.name, e.child.content);
      RegisterSpec(p.children, e.child.id, leaf);
      if e.child.id !in p.children.items {
        var h := Elaborate(g, e).value;
        PutSpec(g, e.parent, p.(children := p.children.Put(e.child.id, leaf)));
        assert h.items.Keys == g.items.Keys;
        forall k | k in h.items ensures EntryFits(h, k, h.items[k]) {
          var x := h.items[k];
          forall t | t in x.links.items ensures Targets(h, x.links.items[t]) {
            TargetsGrow(g, h, x.links.items[t]);
          }
        }
      }
    }
  }

  lemma ConnectWellFormed(g: Store, l: Link)
    requires WellFormed(g)
    ensures Connect(g, l).Success? ==> WellFormed(Connect(g, l).value)
  {
    if l.origin in g.items {
      var p := g.items[l.origin];
      var ds := ResolveAll(g, l.targets);
      var links := Extend(p.links, l.relation, ds);
      var h := Connect(g, l).value;
      ExtendSpec(p.links, l.relation, ds);
      ResolveAllSpec(g, l.targets);
      PutSpec(g, l.origin, p.(links := links));
      assert h.items.Keys == g.items.Keys;
      assert Targets(g, Listed(p.links, l.relation) + ds);
      forall k | k in h.items ensures EntryFits(h, k, h.items[k]) {
        var x := h.items[k];
        forall t | t in x.links.items ensures Targets(h, x.links.items[t]) {
          if k == l.origin && t == l.relation {
            assert x.links.items[t] == Listed(p.links, l.relation) + ds;
          } else if k == l.origin {
            assert x.links.Lookup(t) == p.links.Lookup(t);
          }
          TargetsGrow(g, h, x.links.items[t]);
        }
      }
    }
  }

  // ---------------------------------------------------------------- handler properties

  /**
    An elaboration fails with a missing-node error exactly when the parent is not
    registered, and with a redefinition exactly when the parent already has a
    child with that id. Otherwise it adds the child last among the parent's
    children and changes nothing else: not the top-level registry, not the
    parent's id, name, content or connections, not any other node.
   */
  lemma ElaborateSpec(g: Store, e: Elab)
    requires WellFormed(g)
    ensures var r := Elaborate(g, e);
            && (r.Success? <==> e.parent in g.items && e.child.id !in g.items[e.parent].children.items)
            && (r.Failure? ==> r.error == (if e.parent in g.items then Redefinition else Nonexistent))
    ensures Elaborate(g, e).Success? ==>
              var h := Elaborate(g, e).value;
              var p := g.items[e.parent];
              && h.keys == g.keys
              && (forall k :: k != e.parent ==> h.Lookup(k) == g.Lookup(k))
              && e.parent in h.items
              && h.items[e.parent] == p.(children := h.items[e.parent].children)
              && h.items[e.parent].children.Values() == p.children.Values() + [Leaf(e.child.id, e.child.name, e.child.content)]
              && h.items[e.parent].children.Lookup(e.child.id) == Some(Leaf(e.child.id, e.child.name, e.child.content))
  {
    if e.parent in g.items {
      var p := g.items[e.parent];
      RegisterSpec(p.children, e.child.id, Leaf(e.child.id, e.child.name, e.child.content));
      if e.child.id !in p.children.items {
        PutSpec(g, e.parent, Elaborate(g, e).value.items[e.parent]);
      }
    }
  }

  /**
    A connection fails, with a missing-node error, exactly when the origin is not
    registered. Otherwise the only change is to the origin's table: the label's
    list is extended by one destination per token, other labels keep theirs, and
    the top-level registry and the origin's other parts are untouched.
   */
  lemma ConnectSpec(g: Store, l: Link)
    requires WellFormed(g)
    ensures Connect(g, l).Success? <==> l.origin in g.items
    ensures Connect(g, l).Failure? ==> Connect(g, l).error == Nonexistent
    ensures Connect(g, l).Success? ==>
              var h := Connect(g, l).value;
              var p := g.items[l.origin];
              var x := h.items[l.origin];
              && h.keys == g.keys
              && (forall k :: k != l.origin ==> h.Lookup(k) == g.Lookup(k))
              && x == p.(links := x.links)
              && x.links.Lookup(l.relation) == Some(Listed(p.links, l.relation) + ResolveAll(g, l.targets))
              && (forall t :: t != l.relation ==> x.links.Lookup(t) == p.links.Lookup(t))
  {
    if l.origin in g.items {
      var p := g.items[l.origin];
      ExtendSpec(p.links, l.relation, ResolveAll(g, l.targets));
      PutSpec(g, l.origin, Connect(g, l).value.items[l.origin]);
    }
  }

  /** A comment line changes nothing and cannot fail. */
  lemma CommentLine(g: Store, line: string, ctx: seq<ContextLine>)
    requires |line| > 0 && line[0] == '#'
    ensures ApplyLine(g, line, ctx) == Success(g)
  {
    assert Slice(line, 0, 1) == line[..1] == "#";
  }

  /** A line of no known form fails with the invalid-syntax error carrying its window, and only such a line does. */
  lemma MalformedLine(g: Store, line: string, ctx: seq<ContextLine>)
    ensures (ApplyLine(g, line, ctx) == Failure(InvalidSyntax(ctx))) <==> Classify(line).Malformed?
  {
    match Classify(line)
    case Comment =>
    case Definition(colon) =>
    case Elaboration(lt) =>
    case Connection(open, close) =>
    case Malformed =>
  }

  /** A definition line goes to the definition handler once its fields are read. */
  lemma ApplyDefinition(g: Store, line: string, ctx: seq<ContextLine>, colon: nat)
    requires Classify(line) == Definition(colon)
    ensures var f := DefinitionFields(line, colon);
            ApplyLine(g, line, ctx) == if f.Failure? then Failure(f.error) else Define(g, f.value)
  {
  }

  /** An elaboration line goes to the elaboration handler once its fields are read. */
  lemma ApplyElaboration(g: Store, line: string, ctx: seq<ContextLine>, lt: nat)
    requires Classify(line) == Elaboration(lt)
    ensures var e := ElaborationFields(line, lt);
            ApplyLine(g, line, ctx) == if e.Failure? then Failure(e.error) else Elaborate(g, e.value)
  {
  }

  /** A connection line goes to the connection handler on its three fields. */
  lemma ApplyConnection(g: Store, line: string, ctx: seq<ContextLine>, open: int, close: nat)
    requires Classify(line) == Connection(open, close)
    ensures ApplyLine(g, line, ctx) == Connect(g, ConnectionFields(line, open, close))
  {
  }

  /**
    A definition line fails with the index error exactly when only spaces come
    before its `:`, and with a redefinition exactly when the id its fields give
    is taken. Otherwise it registers a node with those fields and with no
    children or connections, last in `get_all`, and leaves every other id alone.
   */
  lemma DefinitionLineSpec(g: Store, line: string, ctx: seq<ContextLine>)
    requires g.Valid() && Classify(line).Definition?
    ensures var colon := Classify(line).colon;
            var f := DefinitionFields(line, colon);
            var r := ApplyLine(g, line, ctx);
            && (r == Failure(IndexOutOfRange) <==> forall i :: 0 <= i < colon ==> line[i] == ' ')
            && (r == Failure(Redefinition) <==> f.Success? && f.value.id in g.items)
            && (r.Success? <==> f.Success? && f.value.id !in g.items)
            && (r.Success? ==>
                  var n := Entry(f.value.id, f.value.name, f.value.content, Empty(), Empty());
                  && r.value.Valid()
                  && r.value.Values() == g.Values() + [n]
                  && r.value.Lookup(f.value.id) == Some(n)
                  && forall k :: k != f.value.id ==> r.value.Lookup(k) == g.Lookup(k))
  {
    var colon := Classify(line).colon;
    var f := DefinitionFields(line, colon);
    ApplyDefinition(g, line, ctx, colon);
    DefinitionFails(line, colon);
    if f.Success? {
      RegisterSpec(g, f.value.id, NewEntry(f.value));
    }
  }

  /**
    An elaboration line fails with the index error exactly when only spaces
    follow its `<`, with a missing-node error exactly when the parent its fields
    name is not registered, and with a redefinition exactly when that parent
    already has a child with the child's id. Otherwise the child goes last among
    the parent's children, and nothing else changes.
   */
  lemma ElaborationLineSpec(g: Store, line: string, ctx: seq<ContextLine>)
    requires WellFormed(g) && Classify(line).Elaboration?
    ensures var lt := Classify(line).lt;
            var e := ElaborationFields(line, lt);
            var r := ApplyLine(g, line, ctx);
            && (r == Failure(IndexOutOfRange) <==> forall i :: lt < i < |line| ==> line[i] == ' ')
            && (r == Failure(Nonexistent) <==> e.Success? && e.value.parent !in g.items)
            && (r == Failure(Redefinition) <==>
                  e.Success? && e.value.parent in g.items && e.value.child.id in g.items[e.value.parent].children.items)
            && (r.Success? <==>
                  e.Success? && e.value.parent in g.items && e.value.child.id !in g.items[e.value.parent].children.items)
            && (r.Success? ==>
                  var p, c := g.items[e.value.parent], Leaf(e.value.child.id, e.value.child.name, e.value.child.content);
                  var x := r.value.items[e.value.parent];
                  && r.value.keys == g.keys
                  && (forall k :: k != e.value.parent ==> r.value.Lookup(k) == g.Lookup(k))
                  && x == p.(children := x.children)
                  && x.children.Values() == p.children.Values() + [c])
  {
    var lt := Classify(line).lt;
    var e := ElaborationFields(line, lt);
    ApplyElaboration(g, line, ctx, lt);
    ElaborationFails(line, lt);
    if e.Success? {
      ElaborateSpec(g, e.value);
    }
  }

  /**
    A connection line fails, with a missing-node error, exactly when its origin
    is not registered. Otherwise only the origin's list for the label changes:
    it is extended by one destination per token, in order.
   */
  lemma ConnectionLineSpec(g: Store, line: string, ctx: seq<ContextLine>)
    requires WellFormed(g) && Classify(line).Connection?
    ensures var l := ConnectionFields(line, Classify(line).open, Classify(line).close);
            var r := ApplyLine(g, line, ctx);
            && (r.Success? <==> l.origin in g.items)
            && (r.Failure? ==> r.error == Nonexistent)
            && (r.Success? ==>
                  var p, x := g.items[l.origin], r.value.items[l.origin];
                  var ds := ResolveAll(g, l.targets);
                  && |ds| == |l.targets|
                  && r.value.keys == g.keys
                  && (forall k :: k != l.origin ==> r.value.Lookup(k) == g.Lookup(k))
                  && x == p.(links := x.links)
                  && x.links.Lookup(l.relation) == Some(Listed(p.links, l.relation) + ds)
                  && (forall t :: t != l.relation ==> x.links.Lookup(t) == p.links.Lookup(t)))
  {
    var f := Classify(line);
    var l := ConnectionFields(line, f.open, f.close);
    ApplyConnection(g, line, ctx, f.open, f.close);
    ConnectSpec(g, l);
    ResolveAllSpec(g, l.targets);
  }

  /** The window only shows up in the invalid-syntax error: whether a line succeeds, and what it builds, does not depend on it. */
  lemma ApplyLineContext(g: Store, line: string, c1: seq<ContextLine>, c2: seq<ContextLine>)
    ensures ApplyLine(g, line, c1).Success? <==> ApplyLine(g, line, c2).Success?
    ensures ApplyLine(g, line, c1).Success? ==> ApplyLine(g, line, c1).value == ApplyLine(g, line, c2).value
  {
  }

  // ---------------------------------------------------------------- parsing a text

  /** Where parsing stands: the registry built so far, and whether some line has failed. */
  datatype Run = Run(store: Store, outcome: Outcome<ErrorKind>)

  /**
    `parse` after the first `n` kept lines: each line is handled with its own
    window; the first failing line ends the parse, keeping what the lines
    before it built (a failing line itself changes nothing).
   */
  function RunLines(g: Store, lines: seq<string>, n: nat): Run
    requires n <= |lines|
  {
    if n == 0 then Run(g, Pass)
    else Step(RunLines(g, lines, n - 1), lines[n - 1], Context(lines, n - 1))
  }

  /** One iteration of the loop in `parse`: nothing once a line has failed, otherwise `parse_line`. */
  function Step(r: Run, line: string, ctx: seq<ContextLine>): Run
  {
    if r.outcome.Fail? then r
    else
      match ApplyLine(r.store, line, ctx)
      case Success(h) => Run(h, Pass)
      case Failure(err) => Run(r.store, Fail(err))
  }

  /** Runs that agree stay in agreement over one more line, whatever windows they report. */
  lemma StepAgree(r: Run, s: Run, line: string, c1: seq<ContextLine>, c2: seq<ContextLine>)
    requires Agree(r, s)
    ensures Agree(Step(r, line, c1), Step(s, line, c2))
  {
    ApplyLineContext(r.store, line, c1, c2);
  }

  /** `Graph.parse(code)` on a graph whose registry is `g`. */
  function Parse(g: Store, code: string): Run
  {
    RunLines(g, Lines(code), |Lines(code)|)
  }

  /** A line that is handled moves the run on to the store it builds. */
  lemma RunPass(g: Store, lines: seq<string>, n: nat, h: Store, k: Store)
    requires n < |lines|
    requires RunLines(g, lines, n) == Run(h, Pass)
    requires ApplyLine(h, lines[n], Context(lines, n)) == Success(k)
    ensures RunLines(g, lines, n + 1) == Run(k, Pass)
  {
  }

  /** A line that fails ends the run with its error and the store from before it... */
  lemma RunFailAt(g: Store, lines: seq<string>, n: nat, h: Store, err: ErrorKind)
    requires n < |lines|
    requires RunLines(g, lines, n) == Run(h, Pass)
    requires ApplyLine(h, lines[n], Context(lines, n)) == Failure(err)
    ensures RunLines(g, lines, n + 1) == Run(h, Fail(err))
  {
  }

  /** ...and the lines after it do not change that. */
  lemma RunFail(g: Store, lines: seq<string>, n: nat, h: Store, err: ErrorKind)
    requires n < |lines|
    requires RunLines(g, lines, n) == Run(h, Pass)
    requires ApplyLine(h, lines[n], Context(lines, n)) == Failure(err)
    ensures RunLines(g, lines, |lines|) == Run(h, Fail(err))
  {
    RunFailAt(g, lines, n, h, err);
    RunSticky(g, lines, n + 1, |lines|);
  }

  /** Once a line has failed, the remaining lines are not handled. */
  lemma {:induction false} RunSticky(g: Store, lines: seq<string>, n: nat, m: nat)
    requires n <= m <= |lines|
    requires RunLines(g, lines, n).outcome.Fail?
    ensures RunLines(g, lines, m) == RunLines(g, lines, n)
    decreases m
  {
    if m > n {
      RunSticky(g, lines, n, m - 1);
    }
  }

  /**
    A failed parse failed at one line `i`: lines before it all succeeded, the
    registry is what they built, and the error is the one line `i` raised.
   */
  lemma {:induction false} RunFailure(g: Store, lines: seq<string>, n: nat)
    requires n <= |lines|
    requires RunLines(g, lines, n).outcome.Fail?
    ensures exists i :: 0 <= i < n && FailsAt(g, lines, i, RunLines(g, lines, n))
  {
    var before := RunLines(g, lines, n - 1);
    if before.outcome.Fail? {
      RunFailure(g, lines, n - 1);
      var i :| 0 <= i < n - 1 && FailsAt(g, lines, i, before);
      assert FailsAt(g, lines, i, RunLines(g, lines, n));
    } else {
      assert FailsAt(g, lines, n - 1, RunLines(g, lines, n));
    }
  }

  /** The run `r` is the one that stopped at line `i`. */
  ghost predicate FailsAt(g: Store, lines: seq<string>, i: nat, r: Run)
    requires i < |lines|
  {
    && RunLines(g, lines, i).outcome == Pass
    && r.store == RunLines(g, lines, i).store
    && ApplyLine(r.store, lines[i], Context(lines, i)).Failure?
    && r.outcome == Fail(ApplyLine(r.store, lines[i], Context(lines, i)).error)
  }

  /** Parsing keeps the registry well formed, whether or not it stops early. */
  lemma {:induction false} RunWellFormed(g: Store, lines: seq<string>, n: nat)
    requires n <= |lines|
    requires WellFormed(g)
    ensures WellFormed(RunLines(g, lines, n).store)
  {
    if n > 0 {
      RunWellFormed(g, lines, n - 1);
      var before := RunLines(g, lines, n - 1);
      if before.outcome.Pass? {
        ApplyLineWellFormed(before.store, lines[n - 1], Context(lines, n - 1));
      }
    }
  }

  /** Two runs agree on the registry and on whether they have failed (their error windows may differ). */
  ghost predicate Agree(r: Run, s: Run)
  {
    r.store == s.store && r.outcome.Pass? == s.outcome.Pass?
  }

  /** Handling a prefix of a longer list of lines builds what handling them alone builds. */
  lemma {:induction false} RunPrefix(g: Store, xs: seq<string>, ys: seq<string>, n: nat)
    requires n <= |xs|
    ensures Agree(RunLines(g, xs + ys, n), RunLines(g, xs, n))
  {
    if n > 0 {
      RunPrefix(g, xs, ys, n - 1);
      assert (xs + ys)[n - 1] == xs[n - 1];
      StepAgree(RunLines(g, xs + ys, n - 1), RunLines(g, xs, n - 1), xs[n - 1], Context(xs + ys, n - 1), Context(xs, n - 1));
    }
  }

  /** After a prefix that succeeded, the remaining lines build what they would build on their own, from that registry. */
  lemma {:induction false} RunSuffix(g: Store, xs: seq<string>, ys: seq<string>, n: nat)
    requires n <= |ys|
    requires RunLines(g, xs, |xs|).outcome == Pass
    ensures Agree(RunLines(g, xs + ys, |xs| + n), RunLines(RunLines(g, xs, |xs|).store, ys, n))
  {
    if n == 0 {
      RunPrefix(g, xs, ys, |xs|);
    } else {
      RunSuffix(g, xs, ys, n - 1);
      var h := RunLines(g, xs, |xs|).store;
      var r, q := RunLines(g, xs + ys, |xs| + n - 1), RunLines(h, ys, n - 1);
      var c1, c2 := Context(xs + ys, |xs| + n - 1), Context(ys, n - 1);
      assert (xs + ys)[|xs| + n - 1] == ys[n - 1];
      assert RunLines(g, xs + ys, |xs| + n) == Step(r, ys[n - 1], c1);
      assert RunLines(h, ys, n) == Step(q, ys[n - 1], c2);
      StepAgree(r, q, ys[n - 1], c1, c2);
    }
  }

  /**
    Parsing two texts joined by a line break builds what parsing the first and
    then the second builds, and, the first having passed, fails exactly when the
    second does.
   */
  lemma ParseConcat(g: Store, a: string, b: string)
    requires Parse(g, a).outcome == Pass
    ensures Agree(Parse(g, a + "\n" + b), Parse(Parse(g, a).store, b))
  {
    LinesConcat(a, b);
    RunSuffix(g, Lines(a), Lines(b), |Lines(b)|);
  }

  /** A failed parse of the first text is also where the parse of the joined text stops. */
  lemma ParseConcatFail(g: Store, a: string, b: string)
    requires Parse(g, a).outcome.Fail?
    ensures Agree(Parse(g, a + "\n" + b), Parse(g, a))
  {
    var xs, ys := Lines(a), Lines(b);
    LinesConcat(a, b);
    RunPrefix(g, xs, ys, |xs|);
    RunSticky(g, xs + ys, |xs|, |xs| + |ys|);
  }
}
