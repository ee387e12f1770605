/**
 * The second half of `get_all_amr_string`: one left-to-right pass over the
 * walked edges that rebuilds indented, parenthesised AMR text, with a stack of
 * open scopes, the `instance_fulfilled` flag and the `concept_stack_depth` map.
 */
module Rebuild {
  import opened Wrappers
  import opened PyStr
  import opened AmrGraph
  import opened DepthFirst

  /** `instance_fulfilled`: `None`, `False` (scope opened, concept not yet bound) or `True`. */
  datatype Fill = Unset | Unbound | Bound

  /**
   * The loop state: the text `s`, the open scopes, the flag, and for each variable
   * the number of open scopes when its `:instance-of` edge was seen. The entry
   * `None: 0` of `concept_stack_depth` belongs to the end-of-input sentinel and is
   * not stored here.
   */
  datatype Text = Text(s: string, stack: seq<Edge>, fill: Fill, depth: map<Node, nat>)

  /** The state before the first edge. */
  const Start := Text("", [], Unset, map[])

  function Min(a: nat, b: nat): nat {
    if a <= b then a else b
  }

  /** `s[:-len(d2()) - 1] + d2()`: replace the last `len(name) + 1` characters of `s` by `name`. */
  function Collapse(s: string, name: string): string {
    (if |name| + 1 <= |s| then s[..|s| - |name| - 1] else "") + name
  }

  /** A scope opened as `(` + name and never bound to a concept loses its `(` when it is closed. */
  lemma CollapseDropsParen(p: string, name: string)
    ensures Collapse(p + "(" + name, name) == p + name
  {
    assert (p + "(" + name)[..|p|] == p;
  }

  /** `n` closing parentheses. */
  function Parens(n: nat): (r: string)
    ensures |r| == n && forall i :: 0 <= i < n ==> r[i] == ')'
  {
    if n == 0 then "" else Parens(n - 1) + ")"
  }

  /**
   * The inner `while len(stack) > concept_stack_depth[h]:` loop: pop scopes until
   * at most `d` stay open. The first popped scope loses its `(` if its concept was
   * never bound, and gains `)` otherwise; every later one gains `)`.
   */
  function CloseTo(t: Text, d: nat): (r: Text)
    ensures r.stack == t.stack[..Min(|t.stack|, d)]
    ensures r.depth == t.depth
    ensures |t.stack| > d ==> r.fill == Unset
    ensures |t.stack| <= d ==> r == t
    decreases |t.stack|
  {
    if |t.stack| <= d then t
    else
      var top := t.stack[|t.stack| - 1];
      var s' := if t.fill == Unbound then Collapse(t.s, Label(top.dep)) else t.s + ")";
      CloseTo(Text(s', t.stack[..|t.stack| - 1], Unset, t.depth), d)
  }

  /**
   * Closing `k` scopes appends `k` parentheses, except that an innermost scope
   * whose concept was never bound is collapsed to its bare name first.
   */
  lemma {:induction false} CloseToText(t: Text, d: nat)
    requires |t.stack| > d
    ensures t.fill != Unbound ==> CloseTo(t, d).s == t.s + Parens(|t.stack| - d)
    ensures t.fill == Unbound ==>
      CloseTo(t, d).s == Collapse(t.s, Label(t.stack[|t.stack| - 1].dep)) + Parens(|t.stack| - d - 1)
    decreases |t.stack|
  {
    var top := t.stack[|t.stack| - 1];
    var s' := if t.fill == Unbound then Collapse(t.s, Label(top.dep)) else t.s + ")";
    var t' := Text(s', t.stack[..|t.stack| - 1], Unset, t.depth);
    if |t'.stack| > d {
      CloseToText(t', d);
      assert Parens(|t.stack| - d) == ")" + Parens(|t.stack| - d - 1) by {
        ParensShift(|t.stack| - d - 1);
      }
    }
  }

  lemma {:induction false} ParensShift(n: nat)
    ensures Parens(n + 1) == ")" + Parens(n)
    decreases n
  {
    if n > 0 {
      ParensShift(n - 1);
    }
  }

  /** The edge opens a new indented scope: it is none of `:top`, `:instance-of`, `:wiki`, inline `:polarity`. */
  predicate Ordinary(t: Text, e: Edge) {
    && e.role != ":top" && e.role != ":instance-of" && e.role != ":wiki"
    && t.stack != []
    && !(e.head == t.stack[|t.stack| - 1].dep && e.role == ":polarity")
  }

  /** One iteration of `for h, r, d in all_triples` for a real edge. */
  function Step(t: Text, e: Edge): Result<Text> {
    if e.role == ":top" then
      Ok(Text(t.s + "(" + Label(e.dep), t.stack + [e], Unbound, t.depth))
    else if e.role == ":instance-of" then
      Ok(Text(t.s + " / " + Label(e.dep), t.stack, Bound, t.depth[e.head := |t.stack|]))
    else if e.role == ":wiki" then
      Ok(t)
    else if t.stack == [] then
      Err(IndexError("stack[-1]"))
    else if e.head == t.stack[|t.stack| - 1].dep && e.role == ":polarity" then
      Ok(t.(s := t.s + " " + e.role + " " + Label(e.dep)))
    else if e.head !in t.depth then
      Err(KeyError(Label(e.head)))
    else
      var c := CloseTo(t, t.depth[e.head]);
      Ok(Text(c.s + " \n" + Spaces(4 * |c.stack|) + e.role + " (" + Label(e.dep), c.stack + [e], Unbound, c.depth))
  }

  /** The iteration for the sentinel `(None, None, None)`: `stack[-1]` must exist, then every scope is closed. */
  function Finish(t: Text): (r: Result<string>)
    ensures r.Ok? <==> t.stack != []
  {
    if t.stack == [] then Err(IndexError("stack[-1]")) else Ok(CloseTo(t, 0).s)
  }

  /** The loop over the walked edges, stopping at the first exception. */
  function Fold(t: Text, es: seq<Edge>): Result<Text>
    decreases |es|
  {
    if es == [] then Ok(t)
    else
      match Step(t, es[0])
      case Err(x) => Err(x)
      case Ok(t') => Fold(t', es[1..])
  }

  /** The text rebuilt from the walked edges `order`. */
  function RebuildText(order: seq<Edge>): Result<string> {
    match Fold(Start, order)
    case Err(x) => Err(x)
    case Ok(t) => Finish(t)
  }

  // ---------------------------------------------------------------- formatting rules

  /** A `:polarity` edge on the innermost scope is written on the same line: the scopes stay as they are. */
  lemma PolarityInline(t: Text, e: Edge)
    requires e.role == ":polarity" && t.stack != [] && e.head == t.stack[|t.stack| - 1].dep
    ensures Step(t, e) == Ok(t.(s := t.s + " :polarity " + Label(e.dep)))
  {
    assert t.s + " " + e.role + " " + Label(e.dep) == t.s + " :polarity " + Label(e.dep);
  }

  /**
   * Any other edge first closes scopes until as many are open as when its head's
   * concept was bound, then opens a scope on a new line indented four spaces per
   * open scope; an edge whose head never had its concept bound raises `KeyError`.
   */
  lemma NewScope(t: Text, e: Edge)
    requires Ordinary(t, e)
    ensures e.head !in t.depth ==> Step(t, e) == Err(KeyError(Label(e.head)))
    ensures e.head in t.depth ==>
      var m := Min(|t.stack|, t.depth[e.head]);
      && Step(t, e).Ok?
      && Step(t, e).value.stack == t.stack[..m] + [e]
      && Step(t, e).value.s == CloseTo(t, t.depth[e.head]).s + " \n" + Spaces(4 * m) + e.role + " (" + Label(e.dep)
      && Step(t, e).value.fill == Unbound
  {
  }

  /** Edges with role `:wiki`. */
  function DropWiki(es: seq<Edge>): (r: seq<Edge>)
    ensures forall i :: 0 <= i < |r| ==> r[i].role != ":wiki"
  {
    if es == [] then []
    else (if es[0].role == ":wiki" then [] else [es[0]]) + DropWiki(es[1..])
  }

  /** `:wiki` edges are never written: the text is the same with them removed. */
  lemma {:induction false} WikiIgnored(t: Text, es: seq<Edge>)
    ensures Fold(t, es) == Fold(t, DropWiki(es))
    decreases |es|
  {
    if es != [] {
      var e := es[0];
      if e.role == ":wiki" {
        assert DropWiki(es) == DropWiki(es[1..]);
        WikiIgnored(t, es[1..]);
      } else {
        var d := DropWiki(es);
        assert d == [e] + DropWiki(es[1..]);
        assert d[0] == e && d[1..] == DropWiki(es[1..]);
        match Step(t, e)
        case Err(x) =>
        case Ok(t') => WikiIgnored(t', es[1..]);
      }
    }
  }

  /** A root with no edges below it is written as its bare name: its `(` is dropped. */
  lemma LeafRoot(root: Node)
    ensures RebuildText([TopEdge(root)]) == Ok(Label(root))
  {
    var t := Text("(" + Label(root), [TopEdge(root)], Unbound, map[]);
    assert Start.s + "(" + Label(root) == "(" + Label(root);
    assert Start.stack + [TopEdge(root)] == [TopEdge(root)];
    assert Step(Start, TopEdge(root)) == Ok(t);
    assert Fold(Start, [TopEdge(root)]) == Fold(t, []);
    CollapseDropsParen("", Label(root));
    assert "" + "(" + Label(root) == "(" + Label(root);
    assert "" + Label(root) == Label(root);
  }

  /** A root bound to concept `c` and nothing else is written `(root / c)`. */
  lemma ConceptRoot(root: Node, c: Node)
    ensures RebuildText([TopEdge(root), Edge(root, ":instance-of", c)])
         == Ok("(" + Label(root) + " / " + Label(c) + ")")
  {
    var es := [TopEdge(root), Edge(root, ":instance-of", c)];
    var t1 := Text("(" + Label(root), [TopEdge(root)], Unbound, map[]);
    var t2 := Text("(" + Label(root) + " / " + Label(c), [TopEdge(root)], Bound, map[root := 1]);
    assert es[1..] == [Edge(root, ":instance-of", c)];
    assert Start.s + "(" + Label(root) == "(" + Label(root);
    assert Start.stack + [TopEdge(root)] == [TopEdge(root)];
    assert Step(Start, es[0]) == Ok(t1);
    assert Fold(Start, es) == Fold(t1, es[1..]);
    assert Fold(t1, es[1..]) == Ok(t2);
  }

  // ---------------------------------------------------------------- which exceptions can occur

  /** Once the `:top` scope is open it is never closed before the sentinel, as every recorded depth is at least 1. */
  ghost predicate Rooted(t: Text) {
    t.stack != [] && forall h :: h in t.depth ==> t.depth[h] >= 1
  }

  lemma StepRooted(t: Text, e: Edge)
    requires Rooted(t)
    ensures Step(t, e).Ok? ==> Rooted(Step(t, e).value)
    ensures Step(t, e).Err? ==> Step(t, e).error.KeyError?
  {
  }

  lemma {:induction false} FoldRooted(t: Text, es: seq<Edge>)
    requires Rooted(t)
    ensures Fold(t, es).Ok? ==> Rooted(Fold(t, es).value)
    ensures Fold(t, es).Err? ==> Fold(t, es).error.KeyError?
    decreases |es|
  {
    if es != [] {
      StepRooted(t, es[0]);
      if Step(t, es[0]).Ok? {
        FoldRooted(Step(t, es[0]).value, es[1..]);
      }
    }
  }

  /**
   * A walk starts with its `:top` edge, so the rebuild never indexes an empty
   * stack: the only exception it can raise is `KeyError`, for an edge whose head
   * had no `:instance-of` edge before it.
   */
  lemma OnlyKeyError(order: seq<Edge>)
    requires order != [] && order[0].role == ":top"
    ensures RebuildText(order).Err? ==> RebuildText(order).error.KeyError?
  {
    var t1 := Step(Start, order[0]).value;
    assert Rooted(t1);
    FoldRooted(t1, order[1..]);
    assert Fold(Start, order) == Fold(t1, order[1..]);
  }

  // ---------------------------------------------------------------- the loops

  /** The `while len(stack) > concept_stack_depth[h]:` loop. */
  method Close(t0: Text, d: nat) returns (t: Text)
    ensures t == CloseTo(t0, d)
  {
    var s, stack, fill := t0.s, t0.stack, t0.fill;
    while |stack| > d
      invariant CloseTo(t0, d) == CloseTo(Text(s, stack, fill, t0.depth), d)
      decreases |stack|
    {
      var top := stack[|stack| - 1];
      stack := stack[..|stack| - 1];
      if fill == Unbound {
        s := Collapse(s, Label(top.dep));
      } else {
        s := s + ")";
      }
      fill := Unset;
    }
    t := Text(s, stack, fill, t0.depth);
  }

  /** The rebuild loop of `get_all_amr_string` over the walked edges and the sentinel. */
  method Rebuild(order: seq<Edge>) returns (r: Result<string>)
    ensures r == RebuildText(order)
  {
    var t := Start;
    var i := 0;
    while i < |order|
      invariant 0 <= i <= |order|
      invariant Fold(Start, order) == Fold(t, order[i..])
    {
      var e := order[i];
      assert order[i..][0] == e && order[i..][1..] == order[i + 1..];
      if e.role == ":top" {
        t := Text(t.s + "(" + Label(e.dep), t.stack + [e], Unbound, t.depth);
      } else if e.role == ":instance-of" {
        t := Text(t.s + " / " + Label(e.dep), t.stack, Bound, t.depth[e.head := |t.stack|]);
      } else if e.role == ":wiki" {
      } else if t.stack == [] {
        return Err(IndexError("stack[-1]"));
      } else if e.head == t.stack[|t.stack| - 1].dep && e.role == ":polarity" {
        t := t.(s := t.s + " " + e.role + " " + Label(e.dep));
      } else if e.head !in t.depth {
        return Err(KeyError(Label(e.head)));
      } else {
        var c := Close(t, t.depth[e.head]);
        t := Text(c.s + " \n" + Spaces(4 * |c.stack|) + e.role + " (" + Label(e.dep), c.stack + [e], Unbound, c.depth);
      }
      i := i + 1;
    }
    if t.stack == [] {
      return Err(IndexError("stack[-1]"));
    }
    var c := Close(t, 0);
    return Ok(c.s);
  }

  // ---------------------------------------------------------------- get_all_amr_string

  /** `get_all_amr_string(root)`, for a walk known to end within `fuel` pops. */
  function AmrString(g: Graph, root: Node, fuel: nat): Result<string>
    requires Traversal(g, root, fuel).Some?
  {
    RebuildText(Traversal(g, root, fuel).value.order)
  }

  /** Serializing a sub-graph fails only with `KeyError`, never on an empty scope stack. */
  lemma AmrStringErrors(g: Graph, root: Node, fuel: nat)
    requires Traversal(g, root, fuel).Some?
    ensures AmrString(g, root, fuel).Err? ==> AmrString(g, root, fuel).error.KeyError?
  {
    OnlyKeyError(Traversal(g, root, fuel).value.order);
  }

  /** `get_all_amr_string(root)`: the walk, then the rebuild. */
  method Serialize(g: Graph, root: Node, ghost steps: nat) returns (r: Result<string>)
    requires Traversal(g, root, steps).Some?
    ensures r == AmrString(g, root, steps)
  {
    var order := Traverse(g, root, steps);
    r := Rebuild(order);
  }
}
