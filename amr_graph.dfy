/**
 * The AMR graph as the core sees it. The graph object itself (parsing, its
 * triple store, its alignment and re-entrancy tables) belongs to an external
 * AMR library; here it is the read-only data that the core queries.
 */
module AmrGraph {
  import opened PyStr

  /**
   * An element of an AMR graph: a variable, a concept, or a constant such as `-`.
   * Calling one with an empty alignment key, which is the only key the core ever
   * passes, yields its text.
   */
  datatype Node = Var(name: string) | Concept(name: string) | Const(name: string)

  /** The text an element prints as: `d()`, `d('')`, `d('', append=True)`. */
  function Label(n: Node): string {
    n.name
  }

  /** A triple `(head, role, dependent)`, with roles written like `:ARG0`, `:ARG1-of`, `:instance-of`. */
  datatype Edge = Edge(head: Node, role: string, dep: Node)

  /**
   * What the core reads from one AMR object:
   * - `concepts`: the variables of `concepts()`, in order;
   * - `var2c`: `var2concept()`, each variable's concept as text (e.g. `want-01`);
   * - `out`: `triples(head=v)`, the edges whose head is `v`, in the graph's order;
   * - `argOf`: `triples(dep=v, rel=':ARG-of', normalize_inverses=True)`;
   * - `reentrancies`: `reentrancies()`, the re-entrancy count of each re-entrant element;
   * - `alignments`: `alignments().items()`, in dict order;
   * - `falsy`: the elements that Python's truth test rejects.
   */
  datatype Graph = Graph(
    concepts: seq<Node>,
    var2c: map<Node, string>,
    out: map<Node, seq<Edge>>,
    argOf: map<Node, seq<Edge>>,
    reentrancies: map<Node, nat>,
    alignments: seq<(Edge, string)>,
    falsy: set<Node>)

  /** `triples(head=v)`; an element without outgoing edges has none. */
  function Triples(g: Graph, v: Node): seq<Edge> {
    if v in g.out then g.out[v] else []
  }

  /** `triples(dep=v, rel=':ARG-of', normalize_inverses=True)`. */
  function InverseArgs(g: Graph, v: Node): seq<Edge> {
    if v in g.argOf then g.argOf[v] else []
  }

  /** `get_triples(v)` of the serializer: the normalised inverse edges, then the outgoing ones. */
  function Children(g: Graph, v: Node): seq<Edge> {
    InverseArgs(g, v) + Triples(g, v)
  }

  /** The synthetic edge `(Var('TOP'), ':top', root)` that seeds a serialization. */
  function TopEdge(root: Node): Edge {
    Edge(Var("TOP"), ":top", root)
  }

  /** `'ARG' in role`. */
  predicate HasArg(role: string) {
    Contains(role, "ARG")
  }

  /** A forward argument role such as `:ARG0`: `'ARG' in role and 'of' not in role`. */
  predicate IsForwardArg(role: string) {
    Contains(role, "ARG") && !Contains(role, "of")
  }

  /** An inverse argument role such as `:ARG1-of`: `'ARG' in role and 'of' in role`. */
  predicate IsInverseArg(role: string) {
    Contains(role, "ARG") && Contains(role, "of")
  }
}
