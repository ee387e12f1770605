/**
 * The argument linker and the two-pass triple builder shared by `AMRtoTriples.convert`
 * and `AMRtoCMap.convert`: pick the concepts with `ARG` edges, then fill a dict from
 * predicate variable to `[agent, predicate, patients]`, first from the forward `:ARGn`
 * edges of each linker group, then from the inverse `:ARGn-of` edges.
 */
module TripleBuilder {
  import opened Wrappers
  import opened PyStr
  import opened AmrGraph
  import opened RoleClassifier
  import opened OrderedMap

  /** The list `[agent, predicate, patients]`; the agent slot holds `None` until an agent is found. */
  datatype Record = Record(agent: Option<Node>, pred: Node, patients: seq<Node>)

  /** The dict `self.triples` / `self.cmaps`: predicate variable to record, in insertion order. */
  type Table = OMap<Node, Record>

  /** What a pass leaves behind: the dict as it stands, and the exception that stopped the pass, if any. */
  datatype Run = Run(table: Table, error: Option<Error>)

  /** Every stored record is keyed by its own predicate slot and has an agent or at least one patient. */
  ghost predicate GoodRecords(t: Table) {
    && t.Valid()
    && forall k :: k in t.vals ==>
         t.vals[k].pred == k && (t.vals[k].agent.Some? || t.vals[k].patients != [])
  }

  // ---------------------------------------------------------------- linker selection

  /** Some edge of the group has a role containing `ARG`. */
  predicate HasArgEdge(grp: seq<Edge>) {
    exists i :: 0 <= i < |grp| && HasArg(grp[i].role)
  }

  /**
   * `get_triples_linker` over the variables `vs`: the outgoing edge lists of the
   * variables that have an `ARG` edge, in the order of `vs`, without deduplication.
   */
  function LinkersOf(g: Graph, vs: seq<Node>): (r: seq<seq<Edge>>)
    ensures forall i :: 0 <= i < |r| ==> HasArgEdge(r[i]) && r[i] != []
    ensures |r| <= |vs|
  {
    if vs == [] then []
    else
      var rest := LinkersOf(g, vs[1..]);
      if HasArgEdge(Triples(g, vs[0])) then [Triples(g, vs[0])] + rest else rest
  }

  /** Every group is the outgoing edge list of one of the variables. */
  lemma {:induction false} LinkersOfSound(g: Graph, vs: seq<Node>)
    ensures forall i :: 0 <= i < |LinkersOf(g, vs)| ==> exists v :: v in vs && LinkersOf(g, vs)[i] == Triples(g, v)
    decreases |vs|
  {
    if vs != [] {
      LinkersOfSound(g, vs[1..]);
      var rest := LinkersOf(g, vs[1..]);
      var first := HasArgEdge(Triples(g, vs[0]));
      forall i | 0 <= i < |LinkersOf(g, vs)|
        ensures exists v :: v in vs && LinkersOf(g, vs)[i] == Triples(g, v)
      {
        if first && i == 0 {
          assert vs[0] in vs;
        } else {
          var j := if first then i - 1 else i;
          assert LinkersOf(g, vs)[i] == rest[j];
          var v :| v in vs[1..] && rest[j] == Triples(g, v);
          assert v in vs;
        }
      }
    } else {
      assert LinkersOf(g, vs) == [];
    }
  }

  /** Every variable with an `ARG` edge contributes its outgoing edge list. */
  lemma {:induction false} LinkersOfComplete(g: Graph, vs: seq<Node>)
    ensures forall v :: v in vs && HasArgEdge(Triples(g, v)) ==> Triples(g, v) in LinkersOf(g, vs)
    decreases |vs|
  {
    if vs != [] {
      LinkersOfComplete(g, vs[1..]);
      assert forall v :: v in vs ==> v == vs[0] || v in vs[1..];
    }
  }

  /** The groups follow the order of the variables: those of `a + b` are those of `a`, then those of `b`. */
  lemma {:induction false} LinkersOfConcat(g: Graph, a: seq<Node>, b: seq<Node>)
    ensures LinkersOf(g, a + b) == LinkersOf(g, a) + LinkersOf(g, b)
    decreases |a|
  {
    if a == [] {
      assert a + b == b;
    } else {
      assert (a + b)[0] == a[0] && (a + b)[1..] == a[1..] + b;
      LinkersOfConcat(g, a[1..], b);
    }
  }

  /** One variable contributes its outgoing edge list exactly when that list has an `ARG` edge. */
  lemma LinkersOfOne(g: Graph, v: Node)
    ensures LinkersOf(g, [v]) == if HasArgEdge(Triples(g, v)) then [Triples(g, v)] else []
  {
    assert [v][1..] == [];
  }

  /** `get_triples_linker()` / `get_CMap_linker()`: the linker groups of the concepts of `g`. */
  function Linkers(g: Graph): seq<seq<Edge>> {
    LinkersOf(g, g.concepts)
  }

  predicate NonEmptyGroups(groups: seq<seq<Edge>>) {
    forall i :: 0 <= i < |groups| ==> groups[i] != []
  }

  // ---------------------------------------------------------------- pass 1: forward edges

  /** `is_agent(rel, self.var2c[v].__str__())`: a variable with no concept raises `KeyError`. */
  function ClassifyWith(g: Graph, pb: RoleTable, e: Edge, v: Node): Result<bool> {
    if v !in g.var2c then Err(KeyError(Label(v))) else IsAgent(pb, e, g.var2c[v])
  }

  /** The edge is a forward argument edge whose dependent `is_agent` accepts (`Ok(true)`) or rejects (`Ok(false)`). */
  predicate ForwardAgent(g: Graph, pb: RoleTable, e: Edge, verdict: bool) {
    IsForwardArg(e.role) && ClassifyWith(g, pb, e, e.head) == Ok(verdict)
  }

  /** One iteration of the forward loop over a linker group. */
  function ForwardStep(g: Graph, pb: RoleTable, rec: Record, e: Edge): Result<Record> {
    if !IsForwardArg(e.role) then Ok(rec)
    else
      match ClassifyWith(g, pb, e, e.head)
      case Err(x) => Err(x)
      case Ok(isAgent) =>
        if isAgent then Ok(rec.(agent := Some(e.dep))) else Ok(rec.(patients := rec.patients + [e.dep]))
  }

  /** The forward loop from record `rec` over the edges `es`, stopping at the first exception. */
  function ForwardFold(g: Graph, pb: RoleTable, rec: Record, es: seq<Edge>): Result<Record>
    decreases |es|
  {
    if es == [] then Ok(rec)
    else
      match ForwardStep(g, pb, rec, es[0])
      case Err(x) => Err(x)
      case Ok(r) => ForwardFold(g, pb, r, es[1..])
  }

  /** The record pass 1 builds for one linker group, keyed by the head of its first edge. */
  function ForwardRecord(g: Graph, pb: RoleTable, grp: seq<Edge>): Result<Record>
    requires grp != []
  {
    ForwardFold(g, pb, Record(None, grp[0].head, []), grp)
  }

  /** Reference definition: the dependents of the non-agent forward edges of `es`, in edge order. */
  function NonAgentDeps(g: Graph, pb: RoleTable, es: seq<Edge>): seq<Node> {
    if es == [] then []
    else (if ForwardAgent(g, pb, es[0], false) then [es[0].dep] else []) + NonAgentDeps(g, pb, es[1..])
  }

  /** Reference definition: the dependent of the last forward edge of `es` classified as agent. */
  function LastAgent(g: Graph, pb: RoleTable, es: seq<Edge>): (r: Option<Node>)
    ensures r.Some? ==> exists i :: (0 <= i < |es| && ForwardAgent(g, pb, es[i], true) && es[i].dep == r.value
      && forall j :: i < j < |es| ==> !ForwardAgent(g, pb, es[j], true))
    ensures r.None? ==> forall i :: 0 <= i < |es| ==> !ForwardAgent(g, pb, es[i], true)
  {
    if es == [] then None
    else
      var later := LastAgent(g, pb, es[1..]);
      assert forall j :: 1 <= j < |es| ==> es[j] == es[1..][j - 1];
      if later.Some? then later
      else if ForwardAgent(g, pb, es[0], true) then Some(es[0].dep)
      else None
  }

  /** Every forward edge of `es` can be classified without an exception. */
  predicate Classifiable(g: Graph, pb: RoleTable, es: seq<Edge>) {
    forall i :: 0 <= i < |es| && IsForwardArg(es[i].role) ==> ClassifyWith(g, pb, es[i], es[i].head).Ok?
  }

  /**
   * The forward loop fails exactly when some forward edge cannot be classified;
   * otherwise it keeps the predicate, appends the non-agent dependents in edge
   * order, and leaves in the agent slot the dependent of the last agent edge
   * (each agent edge overwrites the previous one), or the old agent if there is none.
   * Edges that are not forward `ARG` edges play no part.
   */
  lemma ForwardFoldSpec(g: Graph, pb: RoleTable, rec: Record, es: seq<Edge>)
    ensures ForwardFold(g, pb, rec, es).Ok? <==> Classifiable(g, pb, es)
    ensures ForwardFold(g, pb, rec, es).Ok? ==>
      var r := ForwardFold(g, pb, rec, es).value;
      && r.pred == rec.pred
      && r.patients == rec.patients + NonAgentDeps(g, pb, es)
      && r.agent == (if LastAgent(g, pb, es).Some? then LastAgent(g, pb, es) else rec.agent)
  {
    ForwardFoldOk(g, pb, rec, es);
    ForwardFoldPatients(g, pb, rec, es);
    ForwardFoldAgent(g, pb, rec, es);
  }

  /** The forward loop completes exactly when every forward edge can be classified. */
  lemma {:induction false} ForwardFoldOk(g: Graph, pb: RoleTable, rec: Record, es: seq<Edge>)
    ensures ForwardFold(g, pb, rec, es).Ok? <==> Classifiable(g, pb, es)
    decreases |es|
  {
    if es != [] {
      ClassifiableCons(g, pb, es);
      ForwardStepSpec(g, pb, rec, es[0]);
      var step := ForwardStep(g, pb, rec, es[0]);
      if step.Ok? {
        ForwardFoldOk(g, pb, step.value, es[1..]);
      }
    }
  }

  /** A completed forward loop keeps the predicate and appends the non-agent dependents in edge order. */
  lemma {:induction false} ForwardFoldPatients(g: Graph, pb: RoleTable, rec: Record, es: seq<Edge>)
    ensures ForwardFold(g, pb, rec, es).Ok? ==>
      && ForwardFold(g, pb, rec, es).value.pred == rec.pred
      && ForwardFold(g, pb, rec, es).value.patients == rec.patients + NonAgentDeps(g, pb, es)
    decreases |es|
  {
    if es != [] {
      ForwardStepSpec(g, pb, rec, es[0]);
      var step := ForwardStep(g, pb, rec, es[0]);
      if step.Ok? {
        ForwardFoldPatients(g, pb, step.value, es[1..]);
      }
    }
  }

  /** A completed forward loop leaves the last agent edge's dependent in the agent slot. */
  lemma {:induction false} ForwardFoldAgent(g: Graph, pb: RoleTable, rec: Record, es: seq<Edge>)
    ensures ForwardFold(g, pb, rec, es).Ok? ==>
      ForwardFold(g, pb, rec, es).value.agent == (if LastAgent(g, pb, es).Some? then LastAgent(g, pb, es) else rec.agent)
    decreases |es|
  {
    if es != [] {
      ForwardStepSpec(g, pb, rec, es[0]);
      var step := ForwardStep(g, pb, rec, es[0]);
      if step.Ok? {
        ForwardFoldAgent(g, pb, step.value, es[1..]);
      }
    }
  }

  /** One forward step: the effect of a single edge on the record. */
  lemma ForwardStepSpec(g: Graph, pb: RoleTable, rec: Record, e: Edge)
    ensures ForwardStep(g, pb, rec, e).Ok? <==> (IsForwardArg(e.role) ==> ClassifyWith(g, pb, e, e.head).Ok?)
    ensures ForwardStep(g, pb, rec, e).Ok? ==>
      var r := ForwardStep(g, pb, rec, e).value;
      && r.pred == rec.pred
      && r.patients == rec.patients + (if ForwardAgent(g, pb, e, false) then [e.dep] else [])
      && r.agent == (if ForwardAgent(g, pb, e, true) then Some(e.dep) else rec.agent)
  {
  }

  /** `Classifiable` splits into the first edge and the rest. */
  lemma ClassifiableCons(g: Graph, pb: RoleTable, es: seq<Edge>)
    requires es != []
    ensures Classifiable(g, pb, es) <==>
      (IsForwardArg(es[0].role) ==> ClassifyWith(g, pb, es[0], es[0].head).Ok?) && Classifiable(g, pb, es[1..])
  {
    assert forall j :: 1 <= j < |es| ==> es[j] == es[1..][j - 1];
  }

  /** Pass 1 ("Case 1: ARG") over the linker groups, starting from dict `t`. */
  function Pass1(g: Graph, pb: RoleTable, t: Table, groups: seq<seq<Edge>>): Run
    requires NonEmptyGroups(groups)
    decreases |groups|
  {
    if groups == [] then Run(t, None)
    else
      match ForwardRecord(g, pb, groups[0])
      case Err(x) => Run(t, Some(x))
      case Ok(rec) =>
        var t' := if rec.agent.None? && rec.patients == [] then t else Put(t, rec.pred, rec);
        Pass1(g, pb, t', groups[1..])
  }

  // ---------------------------------------------------------------- pass 2: inverse edges

  /** `if rel[2] not in self.triples: self.triples[rel[2]] = [None, rel[2], []]`. */
  function Ensure(t: Table, k: Node): Table {
    if k in t.vals then t else Put(t, k, Record(None, k, []))
  }

  /** The verdict of `is_agent` puts `head` in the agent slot or appends it to the patients. */
  function Merge(rec: Record, isAgent: bool, head: Node): Record {
    if isAgent then rec.(agent := Some(head)) else rec.(patients := rec.patients + [head])
  }

  /** The verdict of `is_agent` on an inverse edge, looked up through the concept of its dependent. */
  function InverseVerdict(g: Graph, pb: RoleTable): Edge -> Result<bool> {
    (e: Edge) => ClassifyWith(g, pb, e, e.dep)
  }

  /**
   * One iteration of the inverse loop, given the verdict `classify` of `is_agent`: the record is keyed by the dependent and
   * created empty when absent (before the classifier runs, so it stays when the
   * classifier raises); the head fills the agent slot or joins the patients.
   */
  function InverseStep(classify: Edge -> Result<bool>, t: Table, e: Edge): Run {
    if !IsInverseArg(e.role) then Run(t, None)
    else
      var t1 := Ensure(t, e.dep);
      match classify(e)
      case Err(x) => Run(t1, Some(x))
      case Ok(isAgent) => Run(Put(t1, e.dep, Merge(t1.vals[e.dep], isAgent, e.head)), None)
  }

  /** The inverse loop over the edges `es`, stopping at the first exception. */
  function InverseEdges(classify: Edge -> Result<bool>, t: Table, es: seq<Edge>): Run
    decreases |es|
  {
    if es == [] then Run(t, None)
    else
      var r := InverseStep(classify, t, es[0]);
      if r.error.Some? then r else InverseEdges(classify, r.table, es[1..])
  }

  /** The edges of all groups, group after group. */
  function Flatten(groups: seq<seq<Edge>>): seq<Edge> {
    if groups == [] then [] else groups[0] + Flatten(groups[1..])
  }

  /** Pass 2 ("Case 2: ARG-of"): the inverse loop over every edge of every linker group. */
  function Pass2(g: Graph, pb: RoleTable, t: Table, groups: seq<seq<Edge>>): Run {
    InverseEdges(InverseVerdict(g, pb), t, Flatten(groups))
  }

  /** `generate_triples` / `build_CMap` after the dict has been set to `t`: pass 1, then pass 2. */
  function Passes(g: Graph, pb: RoleTable, t: Table, groups: seq<seq<Edge>>): Run
    requires NonEmptyGroups(groups)
  {
    var r1 := Pass1(g, pb, t, groups);
    if r1.error.Some? then r1 else Pass2(g, pb, r1.table, groups)
  }

  // ---------------------------------------------------------------- properties of the passes

  /** Pass 1 only stores records keyed by their predicate that have an agent or a patient, even when it stops early. */
  lemma {:induction false} Pass1Good(g: Graph, pb: RoleTable, t: Table, groups: seq<seq<Edge>>)
    requires NonEmptyGroups(groups) && GoodRecords(t)
    ensures GoodRecords(Pass1(g, pb, t, groups).table)
    decreases |groups|
  {
    if groups != [] {
      match ForwardRecord(g, pb, groups[0])
      case Err(x) =>
      case Ok(rec) =>
        var t' := if rec.agent.None? && rec.patients == [] then t else Put(t, rec.pred, rec);
        assert GoodRecords(t');
        Pass1Good(g, pb, t', groups[1..]);
    }
  }

  /** Pass 1 keeps the dict well formed. */
  lemma {:induction false} Pass1Valid(g: Graph, pb: RoleTable, t: Table, groups: seq<seq<Edge>>)
    requires NonEmptyGroups(groups) && t.Valid()
    ensures Pass1(g, pb, t, groups).table.Valid()
    decreases |groups|
  {
    if groups != [] {
      match ForwardRecord(g, pb, groups[0])
      case Err(x) =>
      case Ok(rec) =>
        var t' := if rec.agent.None? && rec.patients == [] then t else Put(t, rec.pred, rec);
        Pass1Valid(g, pb, t', groups[1..]);
    }
  }

  /**
   * Every key pass 1 adds is the predicate of a linker group, that is the head of
   * the group's first edge, and pass 1 never removes a key.
   */
  lemma {:induction false} Pass1Keys(g: Graph, pb: RoleTable, t: Table, groups: seq<seq<Edge>>)
    requires NonEmptyGroups(groups)
    ensures var r := Pass1(g, pb, t, groups).table;
      && t.vals.Keys <= r.vals.Keys
      && forall k :: k in r.vals && k !in t.vals ==> exists i :: 0 <= i < |groups| && groups[i][0].head == k
    decreases |groups|
  {
    if groups != [] {
      assert forall i :: 1 <= i < |groups| ==> groups[i] == groups[1..][i - 1];
      match ForwardRecord(g, pb, groups[0])
      case Err(x) =>
      case Ok(rec) =>
        ForwardFoldSpec(g, pb, Record(None, groups[0][0].head, []), groups[0]);
        var t' := if rec.agent.None? && rec.patients == [] then t else Put(t, rec.pred, rec);
        Pass1Keys(g, pb, t', groups[1..]);
    }
  }

  /** Merging a verdict into the record of `k`, created if absent, leaves every record keyed by its predicate and non-empty. */
  lemma MergeGood(t: Table, k: Node, isAgent: bool, head: Node)
    requires GoodRecords(t)
    ensures var t1 := Ensure(t, k);
      k in t1.vals && GoodRecords(Put(t1, k, Merge(t1.vals[k], isAgent, head)))
  {
    var t1 := Ensure(t, k);
    assert t1.Valid() && k in t1.vals && t1.vals[k].pred == k;
    var t2 := Put(t1, k, Merge(t1.vals[k], isAgent, head));
    assert t2.vals == t.vals[k := Merge(t1.vals[k], isAgent, head)];
  }

  /** A successful inverse step keeps every record keyed by its predicate and non-empty. */
  lemma InverseStepGood(classify: Edge -> Result<bool>, t: Table, e: Edge)
    requires GoodRecords(t)
    ensures InverseStep(classify, t, e).error.None? ==> GoodRecords(InverseStep(classify, t, e).table)
  {
    if IsInverseArg(e.role) {
      var c := classify(e);
      if c.Ok? {
        MergeGood(t, e.dep, c.value, e.head);
      }
    }
  }

  lemma {:induction false} InverseEdgesGood(classify: Edge -> Result<bool>, t: Table, es: seq<Edge>)
    requires GoodRecords(t)
    ensures InverseEdges(classify, t, es).error.None? ==> GoodRecords(InverseEdges(classify, t, es).table)
    decreases |es|
  {
    if es != [] {
      var r := InverseStep(classify, t, es[0]);
      InverseStepGood(classify, t, es[0]);
      if r.error.None? {
        InverseEdgesGood(classify, r.table, es[1..]);
      }
    }
  }

  /**
   * When both passes complete, every entry of the dict is the record of its own
   * predicate and names an agent or at least one patient; this holds for any
   * starting dict with that property, in particular for the empty one.
   */
  lemma PassesGood(g: Graph, pb: RoleTable, t: Table, groups: seq<seq<Edge>>)
    requires NonEmptyGroups(groups) && GoodRecords(t)
    ensures Passes(g, pb, t, groups).error.None? ==> GoodRecords(Passes(g, pb, t, groups).table)
  {
    Pass1Good(g, pb, t, groups);
    var r1 := Pass1(g, pb, t, groups);
    if r1.error.None? {
      InverseEdgesGood(InverseVerdict(g, pb), r1.table, Flatten(groups));
    }
  }

  /**
   * `r` merges into the records of `t` rather than replacing them: every key of
   * `t` keeps its place in the insertion order and its predicate, and the patients
   * already recorded stay a prefix of the new patient list.
   */
  ghost predicate Extends(t: Table, r: Table) {
    && r.Valid()
    && t.keys <= r.keys
    && forall k :: k in t.vals ==>
         (k in r.vals && r.vals[k].pred == t.vals[k].pred && t.vals[k].patients <= r.vals[k].patients)
  }

  lemma ExtendsTrans(a: Table, b: Table, c: Table)
    requires Extends(a, b) && Extends(b, c)
    ensures Extends(a, c)
  {
    forall k | k in a.vals
      ensures a.vals[k].patients <= c.vals[k].patients
    {
      assert a.vals[k].patients <= b.vals[k].patients <= c.vals[k].patients;
    }
  }

  /** Creating an absent record extends the dict by that key alone. */
  lemma EnsureExtend(t: Table, k: Node)
    requires t.Valid()
    ensures Extends(t, Ensure(t, k)) && k in Ensure(t, k).vals
    ensures forall j :: j in Ensure(t, k).vals && j !in t.vals ==> j == k
  {
  }

  /** Merging a verdict into an existing record extends the dict and adds no key. */
  lemma MergeExtend(t: Table, k: Node, isAgent: bool, head: Node)
    requires t.Valid() && k in t.vals
    ensures Extends(t, Put(t, k, Merge(t.vals[k], isAgent, head)))
    ensures Put(t, k, Merge(t.vals[k], isAgent, head)).vals.Keys == t.vals.Keys
  {
    var t2 := Put(t, k, Merge(t.vals[k], isAgent, head));
    assert t.vals[k].patients <= t2.vals[k].patients;
  }

  /** One inverse step extends the dict, and a key it adds is the edge's dependent. */
  lemma InverseStepExtend(classify: Edge -> Result<bool>, t: Table, e: Edge)
    requires t.Valid()
    ensures Extends(t, InverseStep(classify, t, e).table)
    ensures forall k :: k in InverseStep(classify, t, e).table.vals && k !in t.vals ==> IsInverseArg(e.role) && k == e.dep
  {
    if IsInverseArg(e.role) {
      var t1 := Ensure(t, e.dep);
      EnsureExtend(t, e.dep);
      var c := classify(e);
      if c.Ok? {
        MergeExtend(t1, e.dep, c.value, e.head);
        ExtendsTrans(t, t1, Put(t1, e.dep, Merge(t1.vals[e.dep], c.value, e.head)));
      }
    } else {
      assert Extends(t, t);
    }
  }

  /**
   * Pass 2 merges into the records pass 1 built rather than replacing them (see
   * `Extends`), and every key it adds is the dependent of an inverse `ARG` edge.
   * This holds also when the pass stops on an exception.
   */
  lemma InverseEdgesExtend(classify: Edge -> Result<bool>, t: Table, es: seq<Edge>)
    requires t.Valid()
    ensures Extends(t, InverseEdges(classify, t, es).table)
    ensures forall k :: k in InverseEdges(classify, t, es).table.vals && k !in t.vals ==>
      exists i :: 0 <= i < |es| && IsInverseArg(es[i].role) && es[i].dep == k
  {
    InverseEdgesExtends(classify, t, es);
    InverseEdgesNewKeys(classify, t, es);
  }

  /** Pass 2 merges into the dict it starts from, also when it stops early. */
  lemma {:induction false} InverseEdgesExtends(classify: Edge -> Result<bool>, t: Table, es: seq<Edge>)
    requires t.Valid()
    ensures Extends(t, InverseEdges(classify, t, es).table)
    decreases |es|
  {
    if es == [] {
      assert Extends(t, t);
    } else {
      var r := InverseStep(classify, t, es[0]);
      InverseStepExtend(classify, t, es[0]);
      if r.error.None? {
        InverseEdgesExtends(classify, r.table, es[1..]);
        ExtendsTrans(t, r.table, InverseEdges(classify, r.table, es[1..]).table);
      }
    }
  }

  /** Every key pass 2 adds is the dependent of one of its inverse `ARG` edges. */
  lemma {:induction false} InverseEdgesNewKeys(classify: Edge -> Result<bool>, t: Table, es: seq<Edge>)
    requires t.Valid()
    ensures forall k :: k in InverseEdges(classify, t, es).table.vals && k !in t.vals ==>
      exists i :: 0 <= i < |es| && IsInverseArg(es[i].role) && es[i].dep == k
    decreases |es|
  {
    if es != [] {
      var r := InverseStep(classify, t, es[0]);
      InverseStepExtend(classify, t, es[0]);
      if r.error.None? {
        var rest := InverseEdges(classify, r.table, es[1..]).table;
        InverseEdgesNewKeys(classify, r.table, es[1..]);
        forall k | k in rest.vals && k !in t.vals
          ensures exists i :: 0 <= i < |es| && IsInverseArg(es[i].role) && es[i].dep == k
        {
          if k !in r.table.vals {
            var i :| 0 <= i < |es[1..]| && IsInverseArg(es[1..][i].role) && es[1..][i].dep == k;
            assert es[i + 1] == es[1..][i];
          }
        }
      }
    }
  }

  /** The inverse edge `e` has dependent `k`, and `is_agent` gives `verdict` for it. */
  predicate InverseAgent(classify: Edge -> Result<bool>, e: Edge, k: Node, verdict: bool) {
    IsInverseArg(e.role) && e.dep == k && classify(e) == Ok(verdict)
  }

  /** Reference definition: the heads of the inverse edges of `es` into `k` classified as non-agent, in edge order. */
  function InverseHeads(classify: Edge -> Result<bool>, es: seq<Edge>, k: Node): seq<Node> {
    if es == [] then []
    else (if InverseAgent(classify, es[0], k, false) then [es[0].head] else []) + InverseHeads(classify, es[1..], k)
  }

  /** Reference definition: the head of the last inverse edge of `es` into `k` classified as agent. */
  function LastInverseAgent(classify: Edge -> Result<bool>, es: seq<Edge>, k: Node): (r: Option<Node>)
    ensures r.Some? ==> exists i :: (0 <= i < |es| && InverseAgent(classify, es[i], k, true) && es[i].head == r.value
      && forall j :: i < j < |es| ==> !InverseAgent(classify, es[j], k, true))
    ensures r.None? ==> forall i :: 0 <= i < |es| ==> !InverseAgent(classify, es[i], k, true)
  {
    if es == [] then None
    else
      var later := LastInverseAgent(classify, es[1..], k);
      assert forall j :: 1 <= j < |es| ==> es[j] == es[1..][j - 1];
      if later.Some? then later
      else if InverseAgent(classify, es[0], k, true) then Some(es[0].head)
      else None
  }

  /** Every inverse edge of `es` can be classified without an exception. */
  predicate InverseClassifiable(classify: Edge -> Result<bool>, es: seq<Edge>) {
    forall i :: 0 <= i < |es| && IsInverseArg(es[i].role) ==> classify(es[i]).Ok?
  }

  /** The record of `k` that pass 2 merges into: the stored one, or the `[None, k, []]` it creates. */
  function Before(t: Table, k: Node): Record {
    if k in t.vals then t.vals[k] else Record(None, k, [])
  }

  /**
   * Pass 2 completes exactly when every inverse edge can be classified. Then
   * each record it holds is the earlier record of its key (or a fresh one) with
   * the heads of the non-agent inverse edges into that key appended in edge
   * order, and with the head of the last agent edge into it in the agent slot,
   * or the earlier agent if there is none; every dependent of an inverse edge
   * has a record.
   */
  lemma InverseEdgesSpec(classify: Edge -> Result<bool>, t: Table, es: seq<Edge>)
    requires t.Valid()
    ensures InverseEdges(classify, t, es).error.None? <==> InverseClassifiable(classify, es)
    ensures var r := InverseEdges(classify, t, es).table;
      InverseClassifiable(classify, es) ==> forall k :: k in r.vals ==>
        && r.vals[k].pred == Before(t, k).pred
        && r.vals[k].patients == Before(t, k).patients + InverseHeads(classify, es, k)
        && r.vals[k].agent == (if LastInverseAgent(classify, es, k).Some? then LastInverseAgent(classify, es, k) else Before(t, k).agent)
    ensures InverseClassifiable(classify, es) ==>
      forall i :: 0 <= i < |es| && IsInverseArg(es[i].role) ==> es[i].dep in InverseEdges(classify, t, es).table.vals
  {
    InverseEdgesOk(classify, t, es);
    var r := InverseEdges(classify, t, es).table;
    forall k | k in r.vals && InverseClassifiable(classify, es)
      ensures && r.vals[k].pred == Before(t, k).pred
        && r.vals[k].patients == Before(t, k).patients + InverseHeads(classify, es, k)
        && r.vals[k].agent == (if LastInverseAgent(classify, es, k).Some? then LastInverseAgent(classify, es, k) else Before(t, k).agent)
    {
      InverseEdgesPatients(classify, t, es, k);
      InverseEdgesAgent(classify, t, es, k);
    }
    InverseEdgesKeys(classify, t, es);
  }

  /** One inverse step, seen from the record of `k`: it raises only when classifying an inverse edge fails. */
  lemma InverseStepSpec(classify: Edge -> Result<bool>, t: Table, e: Edge, k: Node)
    ensures InverseStep(classify, t, e).error.None? <==> (IsInverseArg(e.role) ==> classify(e).Ok?)
    ensures InverseStep(classify, t, e).error.None? ==>
      var b := Before(InverseStep(classify, t, e).table, k);
      && b.pred == Before(t, k).pred
      && b.patients == Before(t, k).patients + (if InverseAgent(classify, e, k, false) then [e.head] else [])
      && b.agent == (if InverseAgent(classify, e, k, true) then Some(e.head) else Before(t, k).agent)
    ensures InverseStep(classify, t, e).error.None? && IsInverseArg(e.role) ==> e.dep in InverseStep(classify, t, e).table.vals
  {
  }

  /** `InverseClassifiable` splits into the first edge and the rest. */
  lemma InverseClassifiableCons(classify: Edge -> Result<bool>, es: seq<Edge>)
    requires es != []
    ensures InverseClassifiable(classify, es) <==>
      (IsInverseArg(es[0].role) ==> classify(es[0]).Ok?) && InverseClassifiable(classify, es[1..])
  {
    assert forall j :: 1 <= j < |es| ==> es[j] == es[1..][j - 1];
  }

  /** The inverse loop completes exactly when every inverse edge can be classified. */
  lemma {:induction false} InverseEdgesOk(classify: Edge -> Result<bool>, t: Table, es: seq<Edge>)
    ensures InverseEdges(classify, t, es).error.None? <==> InverseClassifiable(classify, es)
    decreases |es|
  {
    if es != [] {
      InverseClassifiableCons(classify, es);
      InverseStepSpec(classify, t, es[0], es[0].dep);
      var r := InverseStep(classify, t, es[0]);
      if r.error.None? {
        InverseEdgesOk(classify, r.table, es[1..]);
      }
    }
  }

  /** A completed inverse loop keeps the predicate of the record of `k` and appends the non-agent heads into `k`, in order. */
  lemma {:induction false} InverseEdgesPatients(classify: Edge -> Result<bool>, t: Table, es: seq<Edge>, k: Node)
    ensures InverseEdges(classify, t, es).error.None? ==>
      var b := Before(InverseEdges(classify, t, es).table, k);
      b.pred == Before(t, k).pred && b.patients == Before(t, k).patients + InverseHeads(classify, es, k)
    decreases |es|
  {
    if es != [] {
      var r := InverseStep(classify, t, es[0]);
      if r.error.None? {
        InverseEdgesPatients(classify, r.table, es[1..], k);
        InversePatientsStep(classify, t, es, k);
      }
    }
  }

  /** The step of `InverseEdgesPatients`: the first edge, then the rest of the loop as the hypothesis gives it. */
  lemma InversePatientsStep(classify: Edge -> Result<bool>, t: Table, es: seq<Edge>, k: Node)
    requires es != [] && InverseStep(classify, t, es[0]).error.None?
    requires var r := InverseStep(classify, t, es[0]).table;
      InverseEdges(classify, r, es[1..]).error.None? ==>
        var b := Before(InverseEdges(classify, r, es[1..]).table, k);
        b.pred == Before(r, k).pred && b.patients == Before(r, k).patients + InverseHeads(classify, es[1..], k)
    ensures InverseEdges(classify, t, es).error.None? ==>
      var b := Before(InverseEdges(classify, t, es).table, k);
      b.pred == Before(t, k).pred && b.patients == Before(t, k).patients + InverseHeads(classify, es, k)
  {
    InverseStepSpec(classify, t, es[0], k);
    var r := InverseStep(classify, t, es[0]).table;
    if InverseEdges(classify, r, es[1..]).error.None? {
      var head := if InverseAgent(classify, es[0], k, false) then [es[0].head] else [];
      AppendedTwice(Before(t, k).patients, Before(r, k).patients,
        Before(InverseEdges(classify, r, es[1..]).table, k).patients, head, InverseHeads(classify, es[1..], k));
    }
  }

  lemma AppendedTwice(p0: seq<Node>, p1: seq<Node>, p2: seq<Node>, head: seq<Node>, rest: seq<Node>)
    requires p1 == p0 + head && p2 == p1 + rest
    ensures p2 == p0 + (head + rest)
  {
  }

  /** A completed inverse loop leaves the head of the last agent edge into `k` in its agent slot, or the earlier agent. */
  lemma {:induction false} InverseEdgesAgent(classify: Edge -> Result<bool>, t: Table, es: seq<Edge>, k: Node)
    ensures InverseEdges(classify, t, es).error.None? ==>
      Before(InverseEdges(classify, t, es).table, k).agent ==
        (if LastInverseAgent(classify, es, k).Some? then LastInverseAgent(classify, es, k) else Before(t, k).agent)
    decreases |es|
  {
    if es != [] {
      var r := InverseStep(classify, t, es[0]);
      if r.error.None? {
        InverseStepSpec(classify, t, es[0], k);
        InverseEdgesAgent(classify, r.table, es[1..], k);
      }
    }
  }

  /** A completed inverse loop leaves a record for the dependent of every inverse edge. */
  lemma {:induction false} InverseEdgesKeys(classify: Edge -> Result<bool>, t: Table, es: seq<Edge>)
    requires t.Valid()
    ensures InverseEdges(classify, t, es).error.None? ==>
      forall i :: 0 <= i < |es| && IsInverseArg(es[i].role) ==> es[i].dep in InverseEdges(classify, t, es).table.vals
    decreases |es|
  {
    if es != [] {
      var r := InverseStep(classify, t, es[0]);
      if r.error.None? && InverseEdges(classify, r.table, es[1..]).error.None? {
        InverseStepSpec(classify, t, es[0], es[0].dep);
        InverseStepExtend(classify, t, es[0]);
        InverseEdgesKeys(classify, r.table, es[1..]);
        InverseEdgesExtends(classify, r.table, es[1..]);
        var last := InverseEdges(classify, r.table, es[1..]).table;
        forall i | 0 < i < |es| && IsInverseArg(es[i].role)
          ensures es[i].dep in last.vals
        {
          assert es[i] == es[1..][i - 1];
        }
      }
    }
  }

  /**
   * Both passes keep the dict well formed, whatever dict they start from and
   * wherever an exception stops them; pass 2 only extends what pass 1 left.
   */
  lemma PassesValid(g: Graph, pb: RoleTable, t: Table, groups: seq<seq<Edge>>)
    requires NonEmptyGroups(groups) && t.Valid()
    ensures Passes(g, pb, t, groups).table.Valid()
    ensures Pass1(g, pb, t, groups).error.None? ==>
      Extends(Pass1(g, pb, t, groups).table, Passes(g, pb, t, groups).table)
  {
    Pass1Valid(g, pb, t, groups);
    var r1 := Pass1(g, pb, t, groups);
    if r1.error.None? {
      InverseEdgesExtend(InverseVerdict(g, pb), r1.table, Flatten(groups));
    }
  }

  /** The inner forward loop of pass 1 over one linker group. */
  method BuildForwardRecord(g: Graph, pb: RoleTable, grp: seq<Edge>) returns (r: Result<Record>)
    requires grp != []
    ensures r == ForwardRecord(g, pb, grp)
  {
    var rec := Record(None, grp[0].head, []);
    var j := 0;
    while j < |grp|
      invariant 0 <= j <= |grp|
      invariant ForwardRecord(g, pb, grp) == ForwardFold(g, pb, rec, grp[j..])
    {
      var e := grp[j];
      assert grp[j..][0] == e && grp[j..][1..] == grp[j + 1..];
      if IsForwardArg(e.role) {
        var a := ClassifyWith(g, pb, e, e.head);
        if a.Err? {
          return Err(a.error);
        }
        if a.value {
          rec := rec.(agent := Some(e.dep));
        } else {
          rec := rec.(patients := rec.patients + [e.dep]);
        }
      }
      j := j + 1;
    }
    return Ok(rec);
  }

  /** Pass 1 ("Case 1: ARG"): records with an agent or a patient are stored under their predicate. */
  method ForwardPass(g: Graph, pb: RoleTable, linkers: seq<seq<Edge>>, t0: Table) returns (run: Run)
    requires NonEmptyGroups(linkers)
    ensures run == Pass1(g, pb, t0, linkers)
  {
    var t := t0;
    var i := 0;
    while i < |linkers|
      invariant 0 <= i <= |linkers|
      invariant Pass1(g, pb, t0, linkers) == Pass1(g, pb, t, linkers[i..])
    {
      assert linkers[i..][0] == linkers[i] && linkers[i..][1..] == linkers[i + 1..];
      var r := BuildForwardRecord(g, pb, linkers[i]);
      if r.Err? {
        return Run(t, Some(r.error));
      }
      var rec := r.value;
      if !(rec.agent.None? && rec.patients == []) {
        t := Put(t, rec.pred, rec);
      }
      i := i + 1;
    }
    return Run(t, None);
  }

  /** The body of the inverse loop for one edge. */
  method ApplyInverse(g: Graph, pb: RoleTable, t0: Table, e: Edge) returns (run: Run)
    ensures run == InverseStep(InverseVerdict(g, pb), t0, e)
  {
    var t := t0;
    if IsInverseArg(e.role) {
      if e.dep !in t.vals {
        t := Put(t, e.dep, Record(None, e.dep, []));
      }
      var a := ClassifyWith(g, pb, e, e.dep);
      if a.Err? {
        return Run(t, Some(a.error));
      }
      var rec := t.vals[e.dep];
      if a.value {
        t := Put(t, e.dep, rec.(agent := Some(e.head)));
      } else {
        t := Put(t, e.dep, rec.(patients := rec.patients + [e.head]));
      }
    }
    return Run(t, None);
  }

  /** Pass 2 ("Case 2: ARG-of"): both loops, over the groups and over the edges of each group. */
  method InversePass(g: Graph, pb: RoleTable, linkers: seq<seq<Edge>>, t0: Table) returns (run: Run)
    ensures run == Pass2(g, pb, t0, linkers)
  {
    var t := t0;
    var i := 0;
    while i < |linkers|
      invariant 0 <= i <= |linkers|
      invariant Pass2(g, pb, t0, linkers) == InverseEdges(InverseVerdict(g, pb), t, Flatten(linkers[i..]))
    {
      var grp := linkers[i];
      assert Flatten(linkers[i..]) == grp + Flatten(linkers[i + 1..]) by {
        assert linkers[i..][0] == grp && linkers[i..][1..] == linkers[i + 1..];
      }
      var rest := Flatten(linkers[i + 1..]);
      var j := 0;
      while j < |grp|
        invariant 0 <= j <= |grp|
        invariant Pass2(g, pb, t0, linkers) == InverseEdges(InverseVerdict(g, pb), t, grp[j..] + rest)
      {
        assert (grp[j..] + rest)[0] == grp[j];
        assert (grp[j..] + rest)[1..] == grp[j + 1..] + rest;
        var r := ApplyInverse(g, pb, t, grp[j]);
        if r.error.Some? {
          return r;
        }
        t := r.table;
        j := j + 1;
      }
      assert grp[j..] + rest == rest;
      i := i + 1;
    }
    return Run(t, None);
  }

  /**
   * The two loops of `generate_triples` / `build_CMap`, run on the dict `t0`: the
   * result is the dict and exception that the two passes specify.
   */
  method GenerateTriples(g: Graph, pb: RoleTable, linkers: seq<seq<Edge>>, t0: Table) returns (run: Run)
    requires NonEmptyGroups(linkers)
    ensures run == Passes(g, pb, t0, linkers)
  {
    run := ForwardPass(g, pb, linkers, t0);
    if run.error.None? {
      run := InversePass(g, pb, linkers, run.table);
    }
  }
}
