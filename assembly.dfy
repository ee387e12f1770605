/**
 * The row assembly of `generate_amr_string_from_triples` and
 * `build_amr_string_from_CMap`: for every record whose predicate has an
 * `:instance-of` alignment, one row `(agent text, predicate concept, patient text)`
 * per patient.
 */
module Assembly {
  import opened Wrappers
  import opened PyStr
  import opened AmrGraph
  import opened OrderedMap
  import opened TripleBuilder
  import opened DepthFirst
  import opened Rebuild

  // ---------------------------------------------------------------- get_alignment

  /** The alignment is the one of the `:instance-of` edge of `v`. */
  predicate InstanceOf(e: Edge, v: Node) {
    e.head == v && e.role == ":instance-of"
  }

  /** The first-match search of `get_alignment` over `alignments().items()`. */
  function FirstAlignment(alns: seq<(Edge, string)>, v: Node): (r: Option<string>)
    ensures r.None? <==> forall i :: 0 <= i < |alns| ==> !InstanceOf(alns[i].0, v)
    ensures r.Some? ==> exists i :: (0 <= i < |alns| && InstanceOf(alns[i].0, v) && alns[i].1 == r.value
      && forall j :: 0 <= j < i ==> !InstanceOf(alns[j].0, v))
  {
    if alns == [] then None
    else if InstanceOf(alns[0].0, v) then Some(alns[0].1)
    else
      var r := FirstAlignment(alns[1..], v);
      assert forall i :: 1 <= i < |alns| ==> alns[i] == alns[1..][i - 1];
      r
  }

  /** The value of a string of decimal digits. */
  function DigitsValue(s: string): nat
    requires AllDigits(s)
  {
    if s == [] then 0 else 10 * DigitsValue(s[..|s| - 1]) + (s[|s| - 1] as int - '0' as int)
  }

  predicate IsSign(c: char) {
    c == '+' || c == '-'
  }

  /** `int(s)` for a string of ASCII digits with an optional sign; anything else raises `ValueError`. */
  function ParseInt(s: string): (r: Result<int>)
    ensures r.Ok? <==> (s != [] && AllDigits(s)) || (|s| >= 2 && IsSign(s[0]) && AllDigits(s[1..]))
    ensures r.Ok? && s[0] == '-' ==> r.value <= 0
    ensures r.Ok? && s[0] != '-' ==> r.value >= 0
  {
    if s != [] && AllDigits(s) then Ok(DigitsValue(s))
    else if |s| >= 2 && IsSign(s[0]) && AllDigits(s[1..]) then
      var n: int := DigitsValue(s[1..]);
      Ok(if s[0] == '-' then -n else n)
    else Err(ValueError("int() of " + s))
  }

  /**
   * `int(a.split('.')[1].split(',')[0])`: the token offset between the first `.`
   * and the next `,` of a descriptor such as `0.3,4`. Without a `.` the `[1]`
   * raises `IndexError`; an offset that is not an integer raises `ValueError`.
   */
  function ParseOffset(a: string): (r: Result<int>)
    ensures r.Err? && r.error.IndexError? <==> !Contains(a, ".")
    ensures r.Err? ==> r.error.IndexError? || r.error.ValueError?
  {
    var parts := Split(a, ".");
    if |parts| < 2 then Err(IndexError("a.split('.')[1]"))
    else ParseInt(Split(parts[1], ",")[0])
  }

  /** `get_alignment(v)`: `None` when `v` has no `:instance-of` alignment, else the parsed offset. */
  function Alignment(g: Graph, v: Node): Result<Option<int>> {
    match FirstAlignment(g.alignments, v)
    case None => Ok(None)
    case Some(a) =>
      match ParseOffset(a)
      case Err(x) => Err(x)
      case Ok(n) => Ok(Some(n))
  }

  // ---------------------------------------------------------------- rows

  /** The text has a space or starts with `(`. */
  predicate Wrapped(t: string) {
    Contains(t, " ") || (t != [] && t[0] == '(')
  }

  /**
   * A patient text that is one word not starting with `(` is put in parentheses,
   * so every right-hand text is either parenthesised or has several words.
   */
  function Wrap(t: string): (r: string)
    ensures Wrapped(r)
    ensures Wrapped(t) ==> r == t
    ensures !Wrapped(t) ==> r == "(" + t + ")"
  {
    if |Split(t, " ")| == 1 && !(t != [] && t[0] == '(') then "(" + t + ")" else t
  }

  /** Wrapping twice is wrapping once. */
  lemma WrapIdempotent(t: string)
    ensures Wrap(Wrap(t)) == Wrap(t)
  {
  }

  /** One result tuple: agent text (`''` if none), predicate concept name, patient text. */
  datatype Row = Row(left: string, middle: string, right: string)

  /** `''` for an empty dict, otherwise the list of rows. */
  datatype Assembled = EmptyString | Rows(rows: seq<Row>)

  /**
   * The walks the assembly may start for one record end within `fuel` pops: those
   * of its agent and of its emitted patients, and only when its predicate is
   * aligned, since an unaligned record is skipped before any walk.
   */
  ghost predicate RecordWalksEnd(g: Graph, rec: Record, skipFalsy: bool, fuel: nat) {
    Aligned(g, rec.pred) ==>
      && (rec.agent.Some? ==> Traversal(g, rec.agent.value, fuel).Some?)
      && forall i :: 0 <= i < |rec.patients| && Emits(g, skipFalsy, rec.patients[i]) ==>
           Traversal(g, rec.patients[i], fuel).Some?
  }

  /** The walks the assembly may start, record by record, end within `fuel` pops. */
  ghost predicate WalksEnd(g: Graph, t: Table, skipFalsy: bool, fuel: nat) {
    forall k :: k in t.vals ==> RecordWalksEnd(g, t.vals[k], skipFalsy, fuel)
  }

  /** A patient gets a row: always for the CMap version (`concept_var != []`), only when truthy for the triples version. */
  predicate Emits(g: Graph, skipFalsy: bool, p: Node) {
    !skipFalsy || p !in g.falsy
  }

  /** Rows `pre` followed by the outcome `r` of producing more rows. */
  function Append(pre: seq<Row>, r: Result<seq<Row>>): Result<seq<Row>> {
    match r
    case Err(x) => Err(x)
    case Ok(rest) => Ok(pre + rest)
  }

  lemma AppendAppend(a: seq<Row>, b: seq<Row>, r: Result<seq<Row>>)
    ensures Append(a, Append(b, r)) == Append(a + b, r)
  {
    if r.Ok? {
      assert a + (b + r.value) == (a + b) + r.value;
    }
  }

  /** Appending the rows of a loop that has nothing left to do keeps what was collected. */
  lemma AppendEnd(pre: seq<Row>)
    ensures Append(pre, Ok([])) == Ok(pre)
  {
    assert pre + [] == pre;
  }

  lemma AppendNothing(r: Result<seq<Row>>)
    ensures Append([], r) == r
  {
    if r.Ok? {
      assert [] + r.value == r.value;
    }
  }

  /**
   * What `get_all_amr_string` gives for each patient of `ps` that gets a row (`''`
   * for the others, which are never read). Serializing is pure, so computing these
   * texts up front and reading them in order changes nothing.
   */
  function Texts(g: Graph, ps: seq<Node>, skipFalsy: bool, fuel: nat): (r: seq<Result<string>>)
    requires forall i :: 0 <= i < |ps| && Emits(g, skipFalsy, ps[i]) ==> Traversal(g, ps[i], fuel).Some?
    ensures |r| == |ps|
  {
    seq(|ps|, i requires 0 <= i < |ps| => if Emits(g, skipFalsy, ps[i]) then AmrString(g, ps[i], fuel) else Ok(""))
  }

  /**
   * The rows for the patients of `ps` from the `j`-th on, of a record with agent
   * text `left` and predicate `pred`, where `texts[i]` is the text of `ps[i]`.
   */
  function PatientRows(g: Graph, pred: Node, left: string, ps: seq<Node>, texts: seq<Result<string>>, j: nat,
                       skipFalsy: bool): Result<seq<Row>>
    requires |texts| == |ps| && j <= |ps|
    decreases |ps| - j
  {
    if j == |ps| then Ok([])
    else if !Emits(g, skipFalsy, ps[j]) then PatientRows(g, pred, left, ps, texts, j + 1, skipFalsy)
    else
      match texts[j]
      case Err(x) => Err(x)
      case Ok(text) =>
        if pred !in g.var2c then Err(KeyError(Label(pred)))
        else
          Append([Row(left, g.var2c[pred], Wrap(text))], PatientRows(g, pred, left, ps, texts, j + 1, skipFalsy))
  }

  /** The rows of one record: none without an alignment, else one per emitted patient. */
  function RecordRows(g: Graph, rec: Record, skipFalsy: bool, fuel: nat): Result<seq<Row>>
    requires RecordWalksEnd(g, rec, skipFalsy, fuel)
  {
    match Alignment(g, rec.pred)
    case Err(x) => Err(x)
    case Ok(None) => Ok([])
    case Ok(Some(_)) =>
      var left := if rec.agent.Some? then AmrString(g, rec.agent.value, fuel) else Ok("");
      match left
      case Err(x) => Err(x)
      case Ok(l) => PatientRows(g, rec.pred, l, rec.patients, Texts(g, rec.patients, skipFalsy, fuel), 0, skipFalsy)
  }

  /** The `for key, triple in self.triples.items()` loop, from the `i`-th key in insertion order. */
  function KeyRows(g: Graph, t: Table, i: nat, skipFalsy: bool, fuel: nat): Result<seq<Row>>
    requires t.Valid() && WalksEnd(g, t, skipFalsy, fuel) && i <= |t.keys|
    decreases |t.keys| - i
  {
    if i == |t.keys| then Ok([])
    else
      match RecordRows(g, t.vals[t.keys[i]], skipFalsy, fuel)
      case Err(x) => Err(x)
      case Ok(rows) => Append(rows, KeyRows(g, t, i + 1, skipFalsy, fuel))
  }

  /**
   * The assembly: `''` for an empty dict, else the rows of the records in
   * insertion order. `skipFalsy` selects the triples version's `if concept_var:`.
   */
  function Assemble(g: Graph, t: Table, skipFalsy: bool, fuel: nat): Result<Assembled>
    requires t.Valid() && WalksEnd(g, t, skipFalsy, fuel)
  {
    if t.vals == map[] then Ok(EmptyString)
    else
      match KeyRows(g, t, 0, skipFalsy, fuel)
      case Err(x) => Err(x)
      case Ok(rows) => Ok(Rows(rows))
  }

  // ---------------------------------------------------------------- properties

  /** The assembly returns `''` exactly for an empty dict; a non-empty dict with no aligned record gives an empty list. */
  lemma EmptyStringIffEmpty(g: Graph, t: Table, skipFalsy: bool, fuel: nat)
    requires t.Valid() && WalksEnd(g, t, skipFalsy, fuel)
    ensures Assemble(g, t, skipFalsy, fuel) == Ok(EmptyString) <==> t.vals == map[]
  {
  }

  /** How many patients of `ps` from the `j`-th on get a row. */
  function Emitted(g: Graph, ps: seq<Node>, j: nat, skipFalsy: bool): nat
    requires j <= |ps|
    decreases |ps| - j
  {
    if j == |ps| then 0 else (if Emits(g, skipFalsy, ps[j]) then 1 else 0) + Emitted(g, ps, j + 1, skipFalsy)
  }

  /** Whether the record's predicate has an `:instance-of` alignment. */
  predicate Aligned(g: Graph, v: Node) {
    Alignment(g, v).Ok? && Alignment(g, v).value.Some?
  }

  /** The number of rows the records from the `i`-th key on should give: the emitted patients of the aligned ones. */
  function ExpectedRows(g: Graph, t: Table, i: nat, skipFalsy: bool): nat
    requires t.Valid() && i <= |t.keys|
    decreases |t.keys| - i
  {
    if i == |t.keys| then 0
    else
      var rec := t.vals[t.keys[i]];
      (if Aligned(g, rec.pred) then Emitted(g, rec.patients, 0, skipFalsy) else 0) + ExpectedRows(g, t, i + 1, skipFalsy)
  }

  lemma {:induction false} PatientRowsCount(g: Graph, pred: Node, left: string, ps: seq<Node>, texts: seq<Result<string>>,
                                           j: nat, skipFalsy: bool)
    requires |texts| == |ps| && j <= |ps|
    ensures PatientRows(g, pred, left, ps, texts, j, skipFalsy).Ok? ==>
      |PatientRows(g, pred, left, ps, texts, j, skipFalsy).value| == Emitted(g, ps, j, skipFalsy)
    decreases |ps| - j
  {
    if j < |ps| {
      PatientRowsCount(g, pred, left, ps, texts, j + 1, skipFalsy);
    }
  }

  /** One record gives no row when unaligned, and one row per emitted patient otherwise. */
  lemma RecordRowsCount(g: Graph, rec: Record, skipFalsy: bool, fuel: nat)
    requires RecordWalksEnd(g, rec, skipFalsy, fuel)
    ensures RecordRows(g, rec, skipFalsy, fuel).Ok? ==>
      |RecordRows(g, rec, skipFalsy, fuel).value| == if Aligned(g, rec.pred) then Emitted(g, rec.patients, 0, skipFalsy) else 0
  {
    if Aligned(g, rec.pred) && (rec.agent.None? || AmrString(g, rec.agent.value, fuel).Ok?) {
      var l := if rec.agent.Some? then AmrString(g, rec.agent.value, fuel).value else "";
      PatientRowsCount(g, rec.pred, l, rec.patients, Texts(g, rec.patients, skipFalsy, fuel), 0, skipFalsy);
    }
  }

  lemma {:induction false} KeyRowsCount(g: Graph, t: Table, i: nat, skipFalsy: bool, fuel: nat)
    requires t.Valid() && WalksEnd(g, t, skipFalsy, fuel) && i <= |t.keys|
    ensures KeyRows(g, t, i, skipFalsy, fuel).Ok? ==>
      |KeyRows(g, t, i, skipFalsy, fuel).value| == ExpectedRows(g, t, i, skipFalsy)
    decreases |t.keys| - i
  {
    if i < |t.keys| {
      RecordRowsCount(g, t.vals[t.keys[i]], skipFalsy, fuel);
      KeyRowsCount(g, t, i + 1, skipFalsy, fuel);
    }
  }

  /**
   * A successful assembly of a non-empty dict has one row per emitted patient
   * of every record whose predicate is aligned, and none for the others.
   */
  lemma RowCount(g: Graph, t: Table, skipFalsy: bool, fuel: nat)
    requires t.Valid() && WalksEnd(g, t, skipFalsy, fuel) && t.vals != map[]
    ensures Assemble(g, t, skipFalsy, fuel).Ok? ==>
      Assemble(g, t, skipFalsy, fuel).value.Rows?
      && |Assemble(g, t, skipFalsy, fuel).value.rows| == ExpectedRows(g, t, 0, skipFalsy)
  {
    KeyRowsCount(g, t, 0, skipFalsy, fuel);
  }

  /** Every row repeats the agent text `left` and the concept `middle`, and has a wrapped patient text. */
  ghost predicate PatientShaped(rows: seq<Row>, left: string, middle: string) {
    forall i :: 0 <= i < |rows| ==> rows[i].left == left && rows[i].middle == middle && Wrapped(rows[i].right)
  }

  /** A well-shaped row in front of well-shaped rows. */
  lemma ShapedCons(row: Row, rows: seq<Row>, left: string, middle: string)
    requires row.left == left && row.middle == middle && Wrapped(row.right)
    requires PatientShaped(rows, left, middle)
    ensures PatientShaped([row] + rows, left, middle)
  {
    forall i | 0 < i < |[row] + rows|
      ensures ([row] + rows)[i] == rows[i - 1]
    {
    }
  }

  /** Every patient row repeats the agent text and the predicate's concept, and has a wrapped patient text. */
  lemma {:induction false} PatientRowsShape(g: Graph, pred: Node, left: string, ps: seq<Node>, texts: seq<Result<string>>,
                                           j: nat, skipFalsy: bool)
    requires |texts| == |ps| && j <= |ps|
    ensures var r := PatientRows(g, pred, left, ps, texts, j, skipFalsy);
      r.Ok? && r.value != [] ==> pred in g.var2c && PatientShaped(r.value, left, g.var2c[pred])
    decreases |ps| - j
  {
    if j < |ps| {
      PatientRowsShape(g, pred, left, ps, texts, j + 1, skipFalsy);
      var r := PatientRows(g, pred, left, ps, texts, j, skipFalsy);
      var rest := PatientRows(g, pred, left, ps, texts, j + 1, skipFalsy);
      if r.Ok? && Emits(g, skipFalsy, ps[j]) {
        var row := Row(left, g.var2c[pred], Wrap(texts[j].value));
        assert r.value == [row] + rest.value;
        ShapedCons(row, rest.value, left, g.var2c[pred]);
      }
    }
  }

  /** The concept names of the predicates of the stored records. */
  function Concepts(g: Graph, t: Table): set<string> {
    set k | k in t.vals && t.vals[k].pred in g.var2c :: g.var2c[t.vals[k].pred]
  }

  /** Every row has a wrapped patient text and the concept of a stored record's predicate. */
  ghost predicate RowsShaped(g: Graph, t: Table, rows: seq<Row>) {
    forall i :: 0 <= i < |rows| ==> Wrapped(rows[i].right) && rows[i].middle in Concepts(g, t)
  }

  lemma RecordRowsShape(g: Graph, t: Table, k: Node, skipFalsy: bool, fuel: nat)
    requires WalksEnd(g, t, skipFalsy, fuel) && k in t.vals
    ensures var r := RecordRows(g, t.vals[k], skipFalsy, fuel);
      r.Ok? ==> RowsShaped(g, t, r.value)
  {
    var rec := t.vals[k];
    if Aligned(g, rec.pred) && (rec.agent.None? || AmrString(g, rec.agent.value, fuel).Ok?) {
      var l := if rec.agent.Some? then AmrString(g, rec.agent.value, fuel).value else "";
      var texts := Texts(g, rec.patients, skipFalsy, fuel);
      PatientRowsShape(g, rec.pred, l, rec.patients, texts, 0, skipFalsy);
      var r := PatientRows(g, rec.pred, l, rec.patients, texts, 0, skipFalsy);
      if r.Ok? && r.value != [] {
        assert g.var2c[rec.pred] in Concepts(g, t);
      }
    }
  }

  /**
   * Every row of one record repeats the agent's text (`''` without an agent) and
   * the concept of the record's predicate, and has a wrapped patient text; a
   * record that gives a row has an aligned predicate with a concept.
   */
  lemma RecordRowsContent(g: Graph, rec: Record, skipFalsy: bool, fuel: nat)
    requires RecordWalksEnd(g, rec, skipFalsy, fuel)
    ensures var r := RecordRows(g, rec, skipFalsy, fuel);
      r.Ok? && r.value != [] ==>
        && Aligned(g, rec.pred)
        && rec.pred in g.var2c
        && (rec.agent.Some? ==> AmrString(g, rec.agent.value, fuel).Ok?)
        && forall i :: 0 <= i < |r.value| ==>
             && r.value[i].left == (if rec.agent.Some? then AmrString(g, rec.agent.value, fuel).value else "")
             && r.value[i].middle == g.var2c[rec.pred]
             && Wrapped(r.value[i].right)
  {
    if Aligned(g, rec.pred) && (rec.agent.None? || AmrString(g, rec.agent.value, fuel).Ok?) {
      var l := if rec.agent.Some? then AmrString(g, rec.agent.value, fuel).value else "";
      PatientRowsShape(g, rec.pred, l, rec.patients, Texts(g, rec.patients, skipFalsy, fuel), 0, skipFalsy);
    }
  }

  lemma ShapedConcat(g: Graph, t: Table, a: seq<Row>, b: seq<Row>)
    requires RowsShaped(g, t, a) && RowsShaped(g, t, b)
    ensures RowsShaped(g, t, a + b)
  {
    forall i | 0 <= i < |a + b|
      ensures Wrapped((a + b)[i].right) && (a + b)[i].middle in Concepts(g, t)
    {
      if i >= |a| {
        assert (a + b)[i] == b[i - |a|];
      }
    }
  }

  lemma {:induction false} KeyRowsWrapped(g: Graph, t: Table, i: nat, skipFalsy: bool, fuel: nat)
    requires t.Valid() && WalksEnd(g, t, skipFalsy, fuel) && i <= |t.keys|
    ensures var r := KeyRows(g, t, i, skipFalsy, fuel);
      r.Ok? ==> RowsShaped(g, t, r.value)
    decreases |t.keys| - i
  {
    if i < |t.keys| {
      KeyRowsWrapped(g, t, i + 1, skipFalsy, fuel);
      RecordRowsShape(g, t, t.keys[i], skipFalsy, fuel);
      var first := RecordRows(g, t.vals[t.keys[i]], skipFalsy, fuel);
      var rest := KeyRows(g, t, i + 1, skipFalsy, fuel);
      if first.Ok? && rest.Ok? {
        ShapedConcat(g, t, first.value, rest.value);
      }
    }
  }

  /**
   * Every row's patient text has a space or starts with `(`, and its middle is
   * the concept of the predicate of a stored record.
   */
  lemma RowsShape(g: Graph, t: Table, skipFalsy: bool, fuel: nat)
    requires t.Valid() && WalksEnd(g, t, skipFalsy, fuel)
    ensures var r := Assemble(g, t, skipFalsy, fuel);
      r.Ok? && r.value.Rows? ==> RowsShaped(g, t, r.value.rows)
  {
    if t.vals != map[] {
      KeyRowsWrapped(g, t, 0, skipFalsy, fuel);
    }
  }

  /** No patient of any record is falsy. */
  ghost predicate NoFalsyPatients(g: Graph, t: Table) {
    forall k :: k in t.vals ==> forall i :: 0 <= i < |t.vals[k].patients| ==> t.vals[k].patients[i] !in g.falsy
  }

  lemma {:induction false} PatientRowsAgree(g: Graph, pred: Node, left: string, ps: seq<Node>, texts: seq<Result<string>>, j: nat)
    requires |texts| == |ps| && j <= |ps|
    requires forall i :: 0 <= i < |ps| ==> ps[i] !in g.falsy
    ensures PatientRows(g, pred, left, ps, texts, j, true) == PatientRows(g, pred, left, ps, texts, j, false)
    decreases |ps| - j
  {
    if j < |ps| {
      PatientRowsAgree(g, pred, left, ps, texts, j + 1);
    }
  }

  /** For one record with no falsy patient, the truth test changes nothing. */
  lemma RecordRowsAgree(g: Graph, rec: Record, fuel: nat)
    requires RecordWalksEnd(g, rec, true, fuel) && RecordWalksEnd(g, rec, false, fuel)
    requires forall i :: 0 <= i < |rec.patients| ==> rec.patients[i] !in g.falsy
    ensures RecordRows(g, rec, true, fuel) == RecordRows(g, rec, false, fuel)
  {
    if Aligned(g, rec.pred) && (rec.agent.None? || AmrString(g, rec.agent.value, fuel).Ok?) {
      var l := if rec.agent.Some? then AmrString(g, rec.agent.value, fuel).value else "";
      assert Texts(g, rec.patients, true, fuel) == Texts(g, rec.patients, false, fuel);
      PatientRowsAgree(g, rec.pred, l, rec.patients, Texts(g, rec.patients, true, fuel), 0);
    }
  }

  lemma {:induction false} KeyRowsAgree(g: Graph, t: Table, i: nat, fuel: nat)
    requires t.Valid() && WalksEnd(g, t, true, fuel) && WalksEnd(g, t, false, fuel) && NoFalsyPatients(g, t)
    requires i <= |t.keys|
    ensures KeyRows(g, t, i, true, fuel) == KeyRows(g, t, i, false, fuel)
    decreases |t.keys| - i
  {
    if i < |t.keys| {
      RecordRowsAgree(g, t.vals[t.keys[i]], fuel);
      KeyRowsAgree(g, t, i + 1, fuel);
    }
  }

  /** The two versions differ only in the truth test, so they agree when no patient is falsy. */
  lemma VersionsAgree(g: Graph, t: Table, fuel: nat)
    requires t.Valid() && WalksEnd(g, t, true, fuel) && WalksEnd(g, t, false, fuel) && NoFalsyPatients(g, t)
    ensures Assemble(g, t, true, fuel) == Assemble(g, t, false, fuel)
  {
    KeyRowsAgree(g, t, 0, fuel);
  }

  /** One patient of the inner loop: its row comes next, it is skipped, or its exception ends the loop. */
  lemma PatientRowsStep(g: Graph, pred: Node, left: string, ps: seq<Node>, texts: seq<Result<string>>, j: nat,
                        skipFalsy: bool, done: seq<Row>)
    requires |texts| == |ps| && j < |ps|
    ensures Append(done, PatientRows(g, pred, left, ps, texts, j, skipFalsy)) ==
      if !Emits(g, skipFalsy, ps[j]) then Append(done, PatientRows(g, pred, left, ps, texts, j + 1, skipFalsy))
      else if texts[j].Err? then Err(texts[j].error)
      else if pred !in g.var2c then Err(KeyError(Label(pred)))
      else Append(done + [Row(left, g.var2c[pred], Wrap(texts[j].value))], PatientRows(g, pred, left, ps, texts, j + 1, skipFalsy))
  {
    if Emits(g, skipFalsy, ps[j]) && texts[j].Ok? && pred in g.var2c {
      AppendAppend(done, [Row(left, g.var2c[pred], Wrap(texts[j].value))], PatientRows(g, pred, left, ps, texts, j + 1, skipFalsy));
    }
  }

  // ---------------------------------------------------------------- the loops

  /** `get_alignment(v)`: the `for triplet, a in alignments().items()` search. */
  method GetAlignment(g: Graph, v: Node) returns (r: Result<Option<int>>)
    ensures r == Alignment(g, v)
  {
    var i := 0;
    while i < |g.alignments|
      invariant 0 <= i <= |g.alignments|
      invariant FirstAlignment(g.alignments, v) == FirstAlignment(g.alignments[i..], v)
    {
      assert g.alignments[i..][0] == g.alignments[i] && g.alignments[i..][1..] == g.alignments[i + 1..];
      var (e, a) := g.alignments[i];
      if e.head == v && e.role == ":instance-of" {
        var n := ParseOffset(a);
        if n.Err? {
          return Err(n.error);
        }
        return Ok(Some(n.value));
      }
      i := i + 1;
    }
    return Ok(None);
  }

  /** The inner `for concept_var in triple[2]` loop for one aligned record. */
  method AppendPatientRows(g: Graph, pred: Node, left: string, ps: seq<Node>, skipFalsy: bool, ghost fuel: nat)
    returns (r: Result<seq<Row>>)
    requires forall i :: 0 <= i < |ps| && Emits(g, skipFalsy, ps[i]) ==> Traversal(g, ps[i], fuel).Some?
    ensures r == PatientRows(g, pred, left, ps, Texts(g, ps, skipFalsy, fuel), 0, skipFalsy)
  {
    ghost var texts := Texts(g, ps, skipFalsy, fuel);
    ghost var whole := PatientRows(g, pred, left, ps, texts, 0, skipFalsy);
    var rows: seq<Row> := [];
    AppendNothing(whole);
    var j := 0;
    while j < |ps|
      invariant 0 <= j <= |ps|
      invariant whole == Append(rows, PatientRows(g, pred, left, ps, texts, j, skipFalsy))
    {
      PatientRowsStep(g, pred, left, ps, texts, j, skipFalsy, rows);
      var p := ps[j];
      if Emits(g, skipFalsy, p) {
        var text := Serialize(g, p, fuel);
        assert text == texts[j];
        if text.Err? {
          return Err(text.error);
        }
        if pred !in g.var2c {
          return Err(KeyError(Label(pred)));
        }
        rows := rows + [Row(left, g.var2c[pred], Wrap(text.value))];
      }
      j := j + 1;
    }
    AppendEnd(rows);
    return Ok(rows);
  }

  /** The body of the assembly loop for one record. */
  method BuildRecordRows(g: Graph, t: Table, key: Node, skipFalsy: bool, ghost fuel: nat) returns (r: Result<seq<Row>>)
    requires WalksEnd(g, t, skipFalsy, fuel) && key in t.vals
    ensures r == RecordRows(g, t.vals[key], skipFalsy, fuel)
  {
    var rec := t.vals[key];
    var al := GetAlignment(g, rec.pred);
    if al.Err? {
      return Err(al.error);
    }
    if al.value.None? {
      return Ok([]);
    }
    var left := "";
    if rec.agent.Some? {
      var a := Serialize(g, rec.agent.value, fuel);
      if a.Err? {
        return Err(a.error);
      }
      left := a.value;
    }
    r := AppendPatientRows(g, rec.pred, left, rec.patients, skipFalsy, fuel);
  }

  /** One record of the loop over the keys: its rows come next, or its exception ends the loop. */
  lemma KeyRowsStep(g: Graph, t: Table, i: nat, skipFalsy: bool, fuel: nat, done: seq<Row>, first: Result<seq<Row>>, whole: Result<seq<Row>>)
    requires t.Valid() && WalksEnd(g, t, skipFalsy, fuel) && i < |t.keys|
    requires first == RecordRows(g, t.vals[t.keys[i]], skipFalsy, fuel)
    requires whole == Append(done, KeyRows(g, t, i, skipFalsy, fuel))
    ensures first.Err? ==> whole == Err(first.error)
    ensures first.Ok? ==> whole == Append(done + first.value, KeyRows(g, t, i + 1, skipFalsy, fuel))
  {
    if first.Ok? {
      AppendAppend(done, first.value, KeyRows(g, t, i + 1, skipFalsy, fuel));
    }
  }

  /** The rows of the `i`-th record, as one step of the loop over the keys. */
  method NextRecordRows(g: Graph, t: Table, i: nat, skipFalsy: bool, ghost fuel: nat, ghost done: seq<Row>, ghost whole: Result<seq<Row>>)
    returns (rows: Result<seq<Row>>)
    requires t.Valid() && WalksEnd(g, t, skipFalsy, fuel) && i < |t.keys|
    requires whole == Append(done, KeyRows(g, t, i, skipFalsy, fuel))
    ensures rows.Err? ==> whole == Err(rows.error)
    ensures rows.Ok? ==> whole == Append(done + rows.value, KeyRows(g, t, i + 1, skipFalsy, fuel))
  {
    rows := BuildRecordRows(g, t, t.keys[i], skipFalsy, fuel);
    KeyRowsStep(g, t, i, skipFalsy, fuel, done, rows, whole);
  }

  /** The `for key, triple in self.triples.items()` loop, record by record in insertion order. */
  method CollectRows(g: Graph, t: Table, skipFalsy: bool, ghost fuel: nat) returns (r: Result<seq<Row>>)
    requires t.Valid() && WalksEnd(g, t, skipFalsy, fuel)
    ensures r == KeyRows(g, t, 0, skipFalsy, fuel)
  {
    ghost var whole := KeyRows(g, t, 0, skipFalsy, fuel);
    var results: seq<Row> := [];
    AppendNothing(whole);
    var i := 0;
    while i < |t.keys|
      invariant 0 <= i <= |t.keys|
      invariant whole == Append(results, KeyRows(g, t, i, skipFalsy, fuel))
    {
      var rows := NextRecordRows(g, t, i, skipFalsy, fuel, results, whole);
      if rows.Err? {
        return Err(rows.error);
      }
      results := results + rows.value;
      i := i + 1;
    }
    AppendEnd(results);
    return Ok(results);
  }

  /**
   * The assembly: `''` for an empty dict; otherwise the rows of the records in
   * insertion order, each skipping unaligned predicates, serializing the agent,
   * and giving one row per emitted patient.
   */
  method AssembleRows(g: Graph, t: Table, skipFalsy: bool, ghost fuel: nat) returns (r: Result<Assembled>)
    requires t.Valid() && WalksEnd(g, t, skipFalsy, fuel)
    ensures r == Assemble(g, t, skipFalsy, fuel)
  {
    if t.vals == map[] {
      return Ok(EmptyString);
    }
    var rows := CollectRows(g, t, skipFalsy, fuel);
    if rows.Err? {
      return Err(rows.error);
    }
    return Ok(Rows(rows.value));
  }
}
