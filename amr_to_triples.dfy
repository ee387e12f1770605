/**
 * `AMRtoTriples`: one AMR graph and the PropBank table; `convert` fills the
 * `self.triples` dict, and `generate_amr_string_from_triples` turns it into rows.
 */
module TriplesConverter {
  import opened Wrappers
  import opened PyStr
  import opened AmrGraph
  import opened RoleClassifier
  import opened OrderedMap
  import opened TripleBuilder
  import opened Assembly

  class AmrToTriples {
    /** `self.amr_obj` (with `self.var2c`), fixed at construction. */
    const graph: Graph
    /** `self.propbank`. */
    const propbank: RoleTable
    /** `self.triples_linkers`, `None` until `convert`. */
    var linkers: Option<seq<seq<Edge>>>
    /** `self.triples`, created empty once, in `__init__`, and never reset. */
    var triples: Table

    ghost predicate Valid()
      reads this
    {
      triples.Valid()
    }

    constructor (g: Graph, pb: RoleTable)
      ensures Valid()
      ensures graph == g && propbank == pb && linkers == None && triples.vals == map[]
    {
      graph := g;
      propbank := pb;
      linkers := None;
      triples := Empty();
    }

    /**
     * `convert()`: compute the linker groups, then run both passes on the dict as
     * it stands, which is empty only on the first call. When a pass raises, the
     * dict keeps what was written before the exception.
     */
    method Convert() returns (r: Result<Table>)
      requires Valid()
      modifies this
      ensures Valid()
      ensures linkers == Some(Linkers(graph))
      ensures triples == Passes(graph, propbank, old(triples), Linkers(graph)).table
      ensures var run := Passes(graph, propbank, old(triples), Linkers(graph));
        r == if run.error.Some? then Err(run.error.value) else Ok(run.table)
      ensures old(GoodRecords(triples)) && r.Ok? ==> GoodRecords(triples)
    {
      var groups := Linkers(graph);
      linkers := Some(groups);
      ghost var before := triples;
      var run := GenerateTriples(graph, propbank, groups, triples);
      triples := run.table;
      if GoodRecords(before) {
        PassesGood(graph, propbank, before, groups);
      }
      PassesValid(graph, propbank, before, groups);
      if run.error.Some? {
        return Err(run.error.value);
      }
      return Ok(run.table);
    }

    /**
     * The corrected `convert()`: start from an empty dict, as `AMRtoCMap.build_CMap`
     * does, so that the result depends only on the graph and the table.
     */
    method ConvertFresh() returns (r: Result<Table>)
      modifies this
      ensures Valid()
      ensures linkers == Some(Linkers(graph))
      ensures triples == Passes(graph, propbank, Empty(), Linkers(graph)).table
      ensures var run := Passes(graph, propbank, Empty(), Linkers(graph));
        r == if run.error.Some? then Err(run.error.value) else Ok(run.table)
      ensures r.Ok? ==> GoodRecords(triples)
    {
      triples := Empty();
      r := Convert();
    }

    /** `generate_amr_string_from_triples()`, with a truth test on each patient. */
    method AmrStringFromTriples(ghost fuel: nat) returns (r: Result<Assembled>)
      requires Valid() && WalksEnd(graph, triples, true, fuel)
      ensures r == Assemble(graph, triples, true, fuel)
    {
      r := AssembleRows(graph, triples, true, fuel);
    }
  }

  /** Calling the corrected `convert` twice gives the same dict and the same answer. */
  method ConvertTwiceAgrees(g: Graph, pb: RoleTable) returns (r1: Result<Table>, r2: Result<Table>)
    ensures r1 == r2
  {
    var c := new AmrToTriples(g, pb);
    r1 := c.ConvertFresh();
    r2 := c.ConvertFresh();
  }

  // ---------------------------------------------------------------- a second convert() duplicates patients

  /**
   * Variable `a` has the single edge `(a, :ARG0-of, b)`, and `b` is bound to a
   * concept with sense `00`, so `is_agent` answers `False` without the table.
   */
  function DupGraph(): Graph {
    Graph([Var("a")], map[Var("b") := "x-00"], map[Var("a") := [Edge(Var("a"), ":ARG0-of", Var("b"))]],
          map[], map[], [], {})
  }

  lemma ArgOfRole()
    ensures IsInverseArg(":ARG0-of") && !IsForwardArg(":ARG0-of") && HasArg(":ARG0-of")
  {
    var s := ":ARG0-of";
    assert s[1..][..3] == "ARG";
    assert s[..3][0] == ':' && "ARG"[0] == 'A';
    assert IndexOf(s, "ARG") == Some(1);
    assert s[6..][..2] == "of";
    assert IndexOf(s, "of").Some? by {
      assert OccursAt(s, "of", 6);
    }
  }

  lemma SenseZero()
    ensures SplitSense("x-00") == Ok(("x", "00"))
  {
    var c := "x-00";
    assert c[..3][..2][1] == '-';
    assert LastIndexOf(c[..3][..2], '-') == Some(1);
    assert c[..3][..2] == c[..2] && c[..3] == c[..3];
    assert LastIndexOf(c, '-') == Some(1);
    assert c[2..] == "00" && c[..1] == "x";
  }

  /** The single edge of `DupGraph`. */
  function DupEdge(): Edge {
    Edge(Var("a"), ":ARG0-of", Var("b"))
  }

  /** `a`'s edges form the only linker group, which pass 1 skips since its only edge is an inverse one. */
  lemma DupLinkers()
    ensures Linkers(DupGraph()) == [[DupEdge()]]
    ensures Pass1(DupGraph(), map[], Empty(), [[DupEdge()]]) == Run(Empty(), None)
  {
    var g, e := DupGraph(), DupEdge();
    ArgOfRole();
    assert Triples(g, Var("a")) == [e];
    assert [e][0].role == ":ARG0-of" && HasArg([e][0].role);
    assert HasArgEdge([e]);
    assert ForwardRecord(g, map[], [e]) == Ok(Record(None, Var("a"), []));
  }

  /** On any dict, the inverse step appends `a` to the patients of `b`'s record, creating it when missing. */
  lemma DupStep(t: Table)
    ensures var t1 := Ensure(t, Var("b"));
      InverseStep(InverseVerdict(DupGraph(), map[]), t, DupEdge()) == Run(Put(t1, Var("b"), Merge(t1.vals[Var("b")], false, Var("a"))), None)
  {
    ArgOfRole();
    SenseZero();
    assert ClassifyWith(DupGraph(), map[], DupEdge(), Var("b")) == Ok(false);
  }

  /** Both passes over the single group amount to one inverse step. */
  lemma DupPasses(t: Table)
    requires Pass1(DupGraph(), map[], t, [[DupEdge()]]) == Run(t, None)
    ensures Passes(DupGraph(), map[], t, [[DupEdge()]]) == InverseStep(InverseVerdict(DupGraph(), map[]), t, DupEdge())
  {
    var e := DupEdge();
    assert Flatten([[e]]) == [e];
    DupStep(t);
    assert InverseEdges(InverseVerdict(DupGraph(), map[]), t, [e]) == InverseEdges(InverseVerdict(DupGraph(), map[]), InverseStep(InverseVerdict(DupGraph(), map[]), t, e).table, []);
  }

  /**
   * `convert()` run a second time on the same object appends the patients of
   * records made only by the inverse pass once more: `b`'s patients go from
   * `[a]` to `[a, a]`.
   */
  lemma ConvertTwiceDuplicates()
    ensures var g := DupGraph();
      var once := Passes(g, map[], Empty(), Linkers(g)).table;
      var twice := Passes(g, map[], once, Linkers(g)).table;
      && Var("b") in once.vals && once.vals[Var("b")].patients == [Var("a")]
      && Var("b") in twice.vals && twice.vals[Var("b")].patients == [Var("a"), Var("a")]
  {
    var g, e := DupGraph(), DupEdge();
    DupLinkers();
    var t0: Table := Empty();
    DupPasses(t0);
    DupStep(t0);
    var once := Passes(g, map[], t0, [[e]]).table;
    assert once.vals[Var("b")] == Record(None, Var("b"), [Var("a")]);
    assert once.keys == [Var("b")];
    assert Pass1(g, map[], once, [[e]]) == Run(once, None) by {
      assert ForwardRecord(g, map[], [e]) == Ok(Record(None, Var("a"), []));
    }
    DupPasses(once);
    DupStep(once);
  }
}
