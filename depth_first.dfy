/**
 * The first half of `get_all_amr_string`: a depth-first walk of the sub-graph
 * under a concept variable, over a Python list used as a stack, in which a
 * per-element counter bounds how often a re-entrant element is expanded again.
 */
module DepthFirst {
  import opened Wrappers
  import opened AmrGraph

  /** The `defaultdict(int)` `entry`: how many times each element has been pushed. */
  type Counter = map<Node, nat>

  /** `entry[v]`, which is 0 for an element never pushed. */
  function Get(c: Counter, v: Node): nat {
    if v in c then c[v] else 0
  }

  function Reverse<T>(s: seq<T>): (r: seq<T>)
    ensures |r| == |s|
  {
    if s == [] then [] else Reverse(s[1..]) + [s[0]]
  }

  lemma {:induction false} ReverseConcat<T>(a: seq<T>, b: seq<T>)
    ensures Reverse(a + b) == Reverse(b) + Reverse(a)
    decreases |a|
  {
    if a == [] {
      assert a + b == b && Reverse(b) + [] == Reverse(b);
    } else {
      assert (a + b)[0] == a[0] && (a + b)[1..] == a[1..] + b;
      ReverseConcat(a[1..], b);
    }
  }

  lemma {:induction false} ReverseReverse<T>(s: seq<T>)
    ensures Reverse(Reverse(s)) == s
    decreases |s|
  {
    if s != [] {
      ReverseConcat(Reverse(s[1..]), [s[0]]);
      ReverseReverse(s[1..]);
      assert [s[0]] + s[1..] == s;
    }
  }

  /** How many edges of `s` lead to `v`. */
  function Count(s: seq<Edge>, v: Node): nat {
    if s == [] then 0 else (if s[0].dep == v then 1 else 0) + Count(s[1..], v)
  }

  lemma {:induction false} CountConcat(a: seq<Edge>, b: seq<Edge>, v: Node)
    ensures Count(a + b, v) == Count(a, v) + Count(b, v)
    decreases |a|
  {
    if a != [] {
      assert (a + b)[0] == a[0] && (a + b)[1..] == a[1..] + b;
      CountConcat(a[1..], b, v);
    } else {
      assert a + b == b;
    }
  }

  /** The children that the push loop lets onto the stack, in push order, and the updated counter. */
  datatype Pushed = Pushed(edges: seq<Edge>, entry: Counter)

  /**
   * The inner `for` loop over the children `es` (already reversed): a child whose
   * dependent is re-entrant is pushed only while its counter is at most its
   * re-entrancy count plus one; any other child is always pushed. Each push bumps
   * the dependent's counter.
   */
  function Admit(reent: map<Node, nat>, c: Counter, es: seq<Edge>): (r: Pushed)
    decreases |es|
  {
    if es == [] then Pushed([], c)
    else
      var e := es[0];
      var push := e.dep !in reent || Get(c, e.dep) <= reent[e.dep] + 1;
      var c' := if push then c[e.dep := Get(c, e.dep) + 1] else c;
      var rest := Admit(reent, c', es[1..]);
      Pushed((if push then [e] else []) + rest.edges, rest.entry)
  }

  /**
   * What the push loop guarantees: every child whose dependent is not re-entrant
   * is pushed; each counter grows by the number of pushes of its element; and a
   * re-entrant element within the bound `reentrancies[v] + 2` stays within it.
   */
  lemma AdmitSpec(reent: map<Node, nat>, c: Counter, es: seq<Edge>, v: Node)
    ensures v !in reent ==> Count(Admit(reent, c, es).edges, v) == Count(es, v)
    ensures Get(Admit(reent, c, es).entry, v) == Get(c, v) + Count(Admit(reent, c, es).edges, v)
    ensures v in reent && Get(c, v) <= reent[v] + 2 ==> Get(Admit(reent, c, es).entry, v) <= reent[v] + 2
  {
    if v !in reent {
      AdmitAll(reent, c, es, v);
    }
    AdmitCounts(reent, c, es, v);
    if v in reent && Get(c, v) <= reent[v] + 2 {
      AdmitBound(reent, c, es, v);
    }
  }

  /** The first child of `es` and the rest: `Count` splits accordingly. */
  lemma CountCons(es: seq<Edge>, v: Node)
    requires es != []
    ensures Count(es, v) == (if es[0].dep == v then 1 else 0) + Count(es[1..], v)
  {
  }

  /** A single child counts once for its own element. */
  lemma CountOne(e: Edge, v: Node)
    ensures Count([e], v) == if e.dep == v then 1 else 0
  {
    assert [e][1..] == [];
  }

  /** A non-re-entrant element is pushed once per child leading to it. */
  lemma {:induction false} AdmitAll(reent: map<Node, nat>, c: Counter, es: seq<Edge>, v: Node)
    requires v !in reent
    ensures Count(Admit(reent, c, es).edges, v) == Count(es, v)
    decreases |es|
  {
    if es != [] {
      var e := es[0];
      var push := e.dep !in reent || Get(c, e.dep) <= reent[e.dep] + 1;
      var c' := if push then c[e.dep := Get(c, e.dep) + 1] else c;
      AdmitAll(reent, c', es[1..], v);
      CountConcat(if push then [e] else [], Admit(reent, c', es[1..]).edges, v);
      CountCons(es, v);
    }
  }

  /** Each push bumps the counter of its own element, and nothing else does. */
  lemma {:induction false} AdmitCounts(reent: map<Node, nat>, c: Counter, es: seq<Edge>, v: Node)
    ensures Get(Admit(reent, c, es).entry, v) == Get(c, v) + Count(Admit(reent, c, es).edges, v)
    decreases |es|
  {
    if es != [] {
      var e := es[0];
      var push := e.dep !in reent || Get(c, e.dep) <= reent[e.dep] + 1;
      var c' := if push then c[e.dep := Get(c, e.dep) + 1] else c;
      AdmitCounts(reent, c', es[1..], v);
      var rest := Admit(reent, c', es[1..]);
      var head := if push then [e] else [];
      assert Admit(reent, c, es) == Pushed(head + rest.edges, rest.entry);
      CountConcat(head, rest.edges, v);
      CountOne(e, v);
      assert Count(head, v) == if push && e.dep == v then 1 else 0;
      assert Get(c', v) == Get(c, v) + Count(head, v);
    }
  }

  /** The push guard keeps a re-entrant element's counter within `reentrancies[v] + 2`. */
  lemma {:induction false} AdmitBound(reent: map<Node, nat>, c: Counter, es: seq<Edge>, v: Node)
    requires v in reent && Get(c, v) <= reent[v] + 2
    ensures Get(Admit(reent, c, es).entry, v) <= reent[v] + 2
    decreases |es|
  {
    if es != [] {
      var e := es[0];
      var push := e.dep !in reent || Get(c, e.dep) <= reent[e.dep] + 1;
      var c' := if push then c[e.dep := Get(c, e.dep) + 1] else c;
      AdmitBound(reent, c', es[1..], v);
    }
  }

  /** The outcome of a walk: the entries in the order popped, the final counter, and the unused fuel. */
  datatype Walk = Walk(order: seq<Edge>, entry: Counter, fuel: nat)

  /** The walk `w` with the entries `pre` recorded before it. */
  function Prefix(pre: seq<Edge>, w: Option<Walk>): Option<Walk> {
    match w
    case None => None
    case Some(x) => Some(x.(order := pre + x.order))
  }

  lemma PrefixPrefix(a: seq<Edge>, b: seq<Edge>, w: Option<Walk>)
    ensures Prefix(a, Prefix(b, w)) == Prefix(a + b, w)
  {
    if w.Some? {
      assert a + (b + w.value.order) == (a + b) + w.value.order;
    }
  }

  /** The children pushed when `u` is popped with counter `c`. */
  function Expand(g: Graph, u: Edge, c: Counter): Pushed {
    Admit(g.reentrancies, c, Reverse(Children(g, u.dep)))
  }

  /**
   * The `while q:` loop from stack `q` and counter `c`: pop the last entry, record
   * it, push its admitted children. `fuel` bounds the number of pops; `None`
   * means it ran out (the source loop has no bound and may not terminate).
   */
  function Run(g: Graph, q: seq<Edge>, c: Counter, fuel: nat): (r: Option<Walk>)
    ensures r.Some? ==> r.value.fuel <= fuel
    decreases fuel
  {
    if q == [] then Some(Walk([], c, fuel))
    else if fuel == 0 then None
    else
      var u := q[|q| - 1];
      var p := Expand(g, u, c);
      Prefix([u], Run(g, q[..|q| - 1] + p.edges, p.entry, fuel - 1))
  }

  /** The walk of `get_all_amr_string(root)`: the stack starts as `[(TOP, :top, root)]` with `entry[root] == 1`. */
  function Traversal(g: Graph, root: Node, fuel: nat): (r: Option<Walk>)
    ensures r.Some? ==> |r.value.order| >= 1 && r.value.order[0] == TopEdge(root)
  {
    Run(g, [TopEdge(root)], map[root := 1], fuel)
  }

  // ---------------------------------------------------------------- reference: recursive preorder

  /**
   * Reference definition of a depth-first preorder visit of `e`: record `e`,
   * admit its children against the counter all at once, then visit the admitted
   * children in `get_triples` order, one subtree after the other.
   */
  function Visit(g: Graph, e: Edge, c: Counter, fuel: nat): (r: Option<Walk>)
    ensures r.Some? ==> r.value.fuel < fuel
    decreases fuel, 0, 0
  {
    if fuel == 0 then None
    else
      var p := Expand(g, e, c);
      Prefix([e], VisitAll(g, Reverse(p.edges), p.entry, fuel - 1))
  }

  /** Visit the subtrees of `es` in order, threading the counter and the fuel. */
  function VisitAll(g: Graph, es: seq<Edge>, c: Counter, fuel: nat): (r: Option<Walk>)
    ensures r.Some? ==> r.value.fuel <= fuel
    decreases fuel, 1, |es|
  {
    if es == [] then Some(Walk([], c, fuel))
    else
      match Visit(g, es[0], c, fuel)
      case None => None
      case Some(w1) => Prefix(w1.order, VisitAll(g, es[1..], w1.entry, w1.fuel))
  }

  /** A finished walk `w`, followed by running the stack machine on `q`. */
  function Then(g: Graph, w: Option<Walk>, q: seq<Edge>): Option<Walk> {
    match w
    case None => None
    case Some(w1) => Prefix(w1.order, Run(g, q, w1.entry, w1.fuel))
  }

  lemma ThenPrefix(g: Graph, pre: seq<Edge>, w: Option<Walk>, q: seq<Edge>)
    ensures Then(g, Prefix(pre, w), q) == Prefix(pre, Then(g, w, q))
  {
    if w.Some? {
      PrefixPrefix(pre, w.value.order, Run(g, q, w.value.entry, w.value.fuel));
    }
  }

  /** Popping `e` off the top of the stack records it and pushes its admitted children. */
  lemma RunPop(g: Graph, q: seq<Edge>, e: Edge, c: Counter, fuel: nat, p: Pushed, after: Option<Walk>)
    requires fuel > 0 && p == Expand(g, e, c)
    requires Run(g, q + p.edges, p.entry, fuel - 1) == after
    ensures Run(g, q + [e], c, fuel) == Prefix([e], after)
  {
    var stack := q + [e];
    assert stack[|stack| - 1] == e && stack[..|stack| - 1] == q;
  }

  /**
   * Pushing children in reverse makes the stack machine a preorder walk: with
   * `es` pushed reversed on top of `q`, it first visits the subtrees of `es` in
   * order and only then goes on with `q`.
   */
  lemma {:induction false} StackIsPreorder(g: Graph, q: seq<Edge>, es: seq<Edge>, c: Counter, fuel: nat)
    ensures Run(g, q + Reverse(es), c, fuel) == Then(g, VisitAll(g, es, c, fuel), q)
    decreases fuel, |es|, 2
  {
    if es == [] {
      assert q + Reverse(es) == q;
      var r := Run(g, q, c, fuel);
      assert Prefix([], r) == r by {
        if r.Some? {
          assert [] + r.value.order == r.value.order;
        }
      }
    } else {
      var e := es[0];
      var rest := es[1..];
      assert es == [e] + rest;
      ReverseConcat([e], rest);
      assert Reverse([e]) == [e];
      var q' := q + Reverse(rest);
      assert q + Reverse(es) == q' + [e];
      if fuel == 0 {
        assert Run(g, q' + [e], c, fuel) == None;
      } else {
        StackPopIsPreorder(g, q, es, c, fuel);
      }
    }
  }

  /** The step of `StackIsPreorder` where the first child is popped and expanded. */
  lemma {:induction false} StackPopIsPreorder(g: Graph, q: seq<Edge>, es: seq<Edge>, c: Counter, fuel: nat)
    requires es != [] && fuel > 0
    ensures Run(g, q + Reverse(es[1..]) + [es[0]], c, fuel) == Then(g, VisitAll(g, es, c, fuel), q)
    decreases fuel, |es|, 1
  {
    var e := es[0];
    var q' := q + Reverse(es[1..]);
    var p := Expand(g, e, c);
    var kids := Reverse(p.edges);
    var inner := VisitAll(g, kids, p.entry, fuel - 1);
    // Run(q' + [e]) is `e` followed by the subtrees of the children, then the rest of the stack.
    ReverseReverse(p.edges);
    assert q' + Reverse(kids) == q' + p.edges;
    StackIsPreorder(g, q', kids, p.entry, fuel - 1);
    RunPop(g, q', e, c, fuel, p, Then(g, inner, q'));
    assert Visit(g, e, c, fuel) == Prefix([e], inner);
    if inner.Some? {
      StackPopSome(g, q, es, c, fuel, inner.value);
    } else {
      assert VisitAll(g, es, c, fuel) == None;
    }
  }

  /** When the first child's subtree finishes as walk `w1`, the remaining children are visited from where it stopped. */
  lemma {:induction false} StackPopSome(g: Graph, q: seq<Edge>, es: seq<Edge>, c: Counter, fuel: nat, w1: Walk)
    requires es != [] && fuel > 0 && w1.fuel < fuel
    requires Visit(g, es[0], c, fuel) == Prefix([es[0]], Some(w1))
    ensures Prefix([es[0]], Then(g, Some(w1), q + Reverse(es[1..]))) == Then(g, VisitAll(g, es, c, fuel), q)
    decreases fuel, |es|, 0
  {
    var e := es[0];
    var rest := es[1..];
    var tail := VisitAll(g, rest, w1.entry, w1.fuel);
    StackIsPreorder(g, q, rest, w1.entry, w1.fuel);
    assert Then(g, Some(w1), q + Reverse(rest)) == Prefix(w1.order, Then(g, tail, q));
    PrefixPrefix([e], w1.order, Then(g, tail, q));
    assert VisitAll(g, es, c, fuel) == Prefix([e] + w1.order, tail);
    ThenPrefix(g, [e] + w1.order, tail, q);
  }

  /** The walk of `get_all_amr_string` is the depth-first preorder from `(TOP, :top, root)`. */
  lemma TraversalIsPreorder(g: Graph, root: Node, fuel: nat)
    ensures Traversal(g, root, fuel) == VisitAll(g, [TopEdge(root)], map[root := 1], fuel)
  {
    StackIsPreorder(g, [], [TopEdge(root)], map[root := 1], fuel);
    assert [] + Reverse([TopEdge(root)]) == [TopEdge(root)];
    var w := VisitAll(g, [TopEdge(root)], map[root := 1], fuel);
    if w.Some? {
      assert w.value.order + [] == w.value.order;
    }
  }

  // ---------------------------------------------------------------- the re-entrancy bound

  /** Each element's counter plus the entries still on stack `q` that lead to it equals its old counter plus the entries recorded. */
  ghost predicate CountsMatch(q: seq<Edge>, c: Counter, order: seq<Edge>, entry: Counter) {
    forall v :: Get(entry, v) + Count(q, v) == Get(c, v) + Count(order, v)
  }

  /** No re-entrant element has been pushed more than its re-entrancy count plus two times. */
  ghost predicate Bounded(reent: map<Node, nat>, c: Counter) {
    forall v :: v in reent ==> Get(c, v) <= reent[v] + 2
  }

  lemma {:induction false} PopCounts(q: seq<Edge>, pushed: seq<Edge>, order: seq<Edge>, v: Node)
    requires q != []
    ensures Count(q, v) + Count(pushed, v) == Count(q[..|q| - 1] + pushed, v) + (if q[|q| - 1].dep == v then 1 else 0)
    ensures Count([q[|q| - 1]] + order, v) == (if q[|q| - 1].dep == v then 1 else 0) + Count(order, v)
  {
    var u := q[|q| - 1];
    assert q == q[..|q| - 1] + [u];
    CountConcat(q[..|q| - 1], [u], v);
    CountConcat(q[..|q| - 1], pushed, v);
    CountConcat([u], order, v);
  }

  /**
   * Along the loop, each element's counter equals the number of entries leading
   * to it that have been recorded or still wait on the stack, and the bound
   * `count <= reentrancies[v] + 2` is kept for every re-entrant element.
   */
  lemma {:induction false} RunCounts(g: Graph, q: seq<Edge>, c: Counter, fuel: nat)
    requires Run(g, q, c, fuel).Some?
    ensures CountsMatch(q, c, Run(g, q, c, fuel).value.order, Run(g, q, c, fuel).value.entry)
    ensures Bounded(g.reentrancies, c) ==> Bounded(g.reentrancies, Run(g, q, c, fuel).value.entry)
    decreases fuel
  {
    var w := Run(g, q, c, fuel).value;
    if q == [] {
      assert CountsMatch(q, c, w.order, w.entry);
    } else {
      var u := q[|q| - 1];
      var p := Expand(g, u, c);
      var q' := q[..|q| - 1] + p.edges;
      forall v ensures Get(p.entry, v) == Get(c, v) + Count(p.edges, v)
        && (v in g.reentrancies && Get(c, v) <= g.reentrancies[v] + 2 ==> Get(p.entry, v) <= g.reentrancies[v] + 2)
      {
        AdmitSpec(g.reentrancies, c, Reverse(Children(g, u.dep)), v);
      }
      RunCounts(g, q', p.entry, fuel - 1);
      var w' := Run(g, q', p.entry, fuel - 1).value;
      assert w.order == [u] + w'.order && w.entry == w'.entry;
      forall v ensures Get(w.entry, v) + Count(q, v) == Get(c, v) + Count(w.order, v) {
        PopCounts(q, p.edges, w'.order, v);
      }
    }
  }

  /**
   * Every completed walk records each re-entrant element `v` at most
   * `reentrancies[v] + 2` times, and every element exactly as often as its
   * counter says.
   */
  lemma ReentrancyBound(g: Graph, root: Node, fuel: nat)
    requires Traversal(g, root, fuel).Some?
    ensures forall v :: Count(Traversal(g, root, fuel).value.order, v) == Get(Traversal(g, root, fuel).value.entry, v)
    ensures forall v :: v in g.reentrancies ==> Count(Traversal(g, root, fuel).value.order, v) <= g.reentrancies[v] + 2
  {
    var c0 := map[root := 1];
    RunCounts(g, [TopEdge(root)], c0, fuel);
    var w := Traversal(g, root, fuel).value;
    forall v ensures Count(w.order, v) == Get(w.entry, v) {
      assert Count([TopEdge(root)], v) == Get(c0, v);
    }
  }

  // ---------------------------------------------------------------- the loop

  /** The inner `for triplet in triples[::-1]` loop: push the admitted children onto `q`. */
  method PushChildren(reent: map<Node, nat>, q0: seq<Edge>, entry0: Counter, kids: seq<Edge>)
    returns (q: seq<Edge>, entry: Counter)
    ensures q == q0 + Admit(reent, entry0, kids).edges
    ensures entry == Admit(reent, entry0, kids).entry
  {
    q, entry := q0, entry0;
    var i := 0;
    while i < |kids|
      invariant 0 <= i <= |kids|
      invariant q0 + Admit(reent, entry0, kids).edges == q + Admit(reent, entry, kids[i..]).edges
      invariant Admit(reent, entry0, kids).entry == Admit(reent, entry, kids[i..]).entry
    {
      var d := kids[i].dep;
      assert kids[i..][0] == kids[i] && kids[i..][1..] == kids[i + 1..];
      if d !in reent || Get(entry, d) <= reent[d] + 1 {
        q := q + [kids[i]];
        entry := entry[d := Get(entry, d) + 1];
      }
      i := i + 1;
    }
  }

  /** One pop of a walk that ends: the popped entry is recorded, and the rest of the walk ends too. */
  lemma RunStep(g: Graph, q: seq<Edge>, c: Counter, fuel: nat, done: seq<Edge>)
    requires q != [] && Run(g, q, c, fuel).Some?
    ensures fuel > 0
    ensures var u := q[|q| - 1];
      var p := Expand(g, u, c);
      && Run(g, q[..|q| - 1] + p.edges, p.entry, fuel - 1).Some?
      && done + Run(g, q, c, fuel).value.order == (done + [u]) + Run(g, q[..|q| - 1] + p.edges, p.entry, fuel - 1).value.order
  {
    var u := q[|q| - 1];
    var p := Expand(g, u, c);
    var next := Run(g, q[..|q| - 1] + p.edges, p.entry, fuel - 1).value.order;
    assert Run(g, q, c, fuel).value.order == [u] + next;
    assert done + ([u] + next) == (done + [u]) + next;
  }

  /**
   * The traversal loop of `get_all_amr_string`. The source loop has no bound; the
   * ghost `steps` is a number of pops after which the walk is known to be over.
   */
  method Traverse(g: Graph, root: Node, ghost steps: nat) returns (order: seq<Edge>)
    requires Traversal(g, root, steps).Some?
    ensures order == Traversal(g, root, steps).value.order
  {
    var q := [TopEdge(root)];
    var entry: Counter := map[root := 1];
    order := [];
    ghost var fuel := steps;
    ghost var total := Traversal(g, root, steps).value.order;
    assert total == order + Run(g, q, entry, fuel).value.order;
    while q != []
      invariant Run(g, q, entry, fuel).Some?
      invariant total == order + Run(g, q, entry, fuel).value.order
      decreases fuel
    {
      var u := q[|q| - 1];
      var below := q[..|q| - 1];
      RunStep(g, q, entry, fuel, order);
      order := order + [u];
      q, entry := PushChildren(g.reentrancies, below, entry, Reverse(Children(g, u.dep)));
      fuel := fuel - 1;
    }
  }
}
