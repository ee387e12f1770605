/**
 * `AMRtoCMap`: one AMR graph and the PropBank table; `convert` rebuilds the
 * `self.cmaps` dict from scratch, and `build_amr_string_from_CMap` turns it into rows.
 */
module CMapConverter {
  import opened Wrappers
  import opened AmrGraph
  import opened RoleClassifier
  import opened OrderedMap
  import opened TripleBuilder
  import opened Assembly

  class AmrToCMap {
    /** `self.amr_obj` (with `self.var2c`), fixed at construction. */
    const graph: Graph
    /** `self.propbank`. */
    const propbank: RoleTable
    /** `self.cmap_linkers`, an attribute that exists only once `convert` has run. */
    var linkers: Option<seq<seq<Edge>>>
    /** `self.cmaps`, an attribute that `build_CMap` creates (and resets) on every `convert`. */
    var cmaps: Option<Table>

    ghost predicate Valid()
      reads this
    {
      cmaps.Some? ==> cmaps.value.Valid()
    }

    constructor (g: Graph, pb: RoleTable)
      ensures Valid()
      ensures graph == g && propbank == pb && linkers == None && cmaps == None
    {
      graph := g;
      propbank := pb;
      linkers := None;
      cmaps := None;
    }

    /**
     * `convert()`: compute the linker groups, reset the dict to `{}`, and run both
     * passes. The dict depends only on the graph and the table; when a pass
     * raises, it keeps what was written before the exception.
     */
    method Convert() returns (r: Result<Table>)
      modifies this
      ensures Valid()
      ensures linkers == Some(Linkers(graph))
      ensures cmaps == Some(Passes(graph, propbank, Empty(), Linkers(graph)).table)
      ensures var run := Passes(graph, propbank, Empty(), Linkers(graph));
        r == if run.error.Some? then Err(run.error.value) else Ok(run.table)
      ensures r.Ok? ==> GoodRecords(cmaps.value)
    {
      var groups := Linkers(graph);
      linkers := Some(groups);
      var run := GenerateTriples(graph, propbank, groups, Empty());
      cmaps := Some(run.table);
      PassesGood(graph, propbank, Empty(), groups);
      PassesValid(graph, propbank, Empty(), groups);
      if run.error.Some? {
        return Err(run.error.value);
      }
      return Ok(run.table);
    }

    /**
     * `build_amr_string_from_CMap()`: reading `self.cmaps` before `convert` raises
     * `AttributeError`; every patient gets a row, since `concept_var != []` holds
     * for any graph element.
     */
    method AmrStringFromCMap(ghost fuel: nat) returns (r: Result<Assembled>)
      requires Valid()
      requires cmaps.Some? ==> WalksEnd(graph, cmaps.value, false, fuel)
      ensures cmaps.None? ==> r == Err(AttributeError("self.cmaps"))
      ensures cmaps.Some? ==> r == Assemble(graph, cmaps.value, false, fuel)
    {
      if cmaps.None? {
        return Err(AttributeError("self.cmaps"));
      }
      r := AssembleRows(graph, cmaps.value, false, fuel);
    }
  }

  /** Calling `convert` twice on one object gives the same dict and the same answer both times. */
  method ConvertTwiceAgrees(g: Graph, pb: RoleTable) returns (r1: Result<Table>, r2: Result<Table>)
    ensures r1 == r2
  {
    var c := new AmrToCMap(g, pb);
    r1 := c.Convert();
    r2 := c.Convert();
  }
}
