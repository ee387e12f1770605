/**
 * The line parsers of `AMRReader.build_corpus`: `extract_attr_file` collects the
 * sentence type of every id from a proxy file with no alignments, and `load_amr`
 * collects the AMR text of every block of a proxy file with alignments into a
 * corpus indexed by document and sentence. A file is the sequence of its lines.
 */
module AmrReader {
  import opened Wrappers
  import opened PyStr
  import opened OrderedMap

  // ---------------------------------------------------------------- line shapes

  /** A line that is empty once `rstrip()` has removed its trailing whitespace. */
  predicate Blank(raw: string) {
    RStrip(raw) == ""
  }

  predicate IsHeader(line: string) {
    line != [] && line[0] == '#'
  }

  /** `line.split('::')[1:]`: the text after each `::` of a header line. */
  function Fields(line: string): (r: seq<string>)
    ensures Join("::", [Split(line, "::")[0]] + r) == line
  {
    var parts := Split(line, "::");
    assert parts == [parts[0]] + parts[1..];
    parts[1..]
  }

  // ---------------------------------------------------------------- extract_attr_file

  /** The locals of `extract_attr_file`: `first_line`, `snt_type`, `snt_id` and `amr_attr`. */
  datatype AttrState = AttrState(firstLine: bool, sntType: string, sntId: string, attr: map<string, string>)

  const AttrStart := AttrState(true, "", "", map[])

  /** One `::` field: `id` sets the id, `snt-type` the type, other names are skipped. */
  function AttrField(s: AttrState, field: string): Result<AttrState> {
    var tokens := SplitWs(field);
    if tokens == [] then Err(IndexError("tokens[0]"))
    else if tokens[0] == "id" then
      if |tokens| < 2 then Err(IndexError("tokens[1]")) else Ok(s.(sntId := tokens[1]))
    else if tokens[0] == "snt-type" then
      if |tokens| < 2 then Err(IndexError("tokens[1]")) else Ok(s.(sntType := tokens[1]))
    else Ok(s)
  }

  function AttrFields(s: AttrState, fields: seq<string>): Result<AttrState>
    decreases |fields|
  {
    if fields == [] then Ok(s)
    else match AttrField(s, fields[0])
      case Err(e) => Err(e)
      case Ok(s1) => AttrFields(s1, fields[1..])
  }

  /** What a blank line does: record the current id, unless it is the first blank line or the id is `''`. */
  function AttrBlank(s: AttrState): AttrState {
    var attr := if !s.firstLine && s.sntId != "" then
      s.attr[s.sntId := if s.sntType != "" then s.sntType else "body"]
    else s.attr;
    s.(attr := attr, firstLine := false)
  }

  /** One iteration of the loop of `extract_attr_file`. */
  function AttrLine(s: AttrState, raw: string): Result<AttrState> {
    var line := RStrip(raw);
    var s1 := if line == "" then AttrBlank(s) else s;
    if IsHeader(line) then AttrFields(s1, Fields(line)) else Ok(s1)
  }

  function AttrLines(s: AttrState, lines: seq<string>): Result<AttrState>
    decreases |lines|
  {
    if lines == [] then Ok(s)
    else match AttrLine(s, lines[0])
      case Err(e) => Err(e)
      case Ok(s1) => AttrLines(s1, lines[1..])
  }

  /** `extract_attr_file(file)`. */
  function ExtractAttr(lines: seq<string>): Result<map<string, string>> {
    match AttrLines(AttrStart, lines)
    case Err(e) => Err(e)
    case Ok(s) => Ok(s.attr)
  }

  lemma {:induction false} AttrLinesConcat(s: AttrState, a: seq<string>, b: seq<string>)
    ensures AttrLines(s, a + b) ==
      match AttrLines(s, a) case Err(e) => Err(e) case Ok(s1) => AttrLines(s1, b)
    decreases |a|
  {
    if a == [] {
      assert a + b == b;
    } else {
      assert (a + b)[0] == a[0] && (a + b)[1..] == a[1..] + b;
      if AttrLine(s, a[0]).Ok? {
        AttrLinesConcat(AttrLine(s, a[0]).value, a[1..], b);
      }
    }
  }

  /** Ids and types are single tokens: the id `''` is never recorded, and no recorded type is empty. */
  ghost predicate AttrWords(s: AttrState) {
    && (s.sntId == "" || IsWord(s.sntId))
    && (s.sntType == "" || IsWord(s.sntType))
    && forall id :: id in s.attr ==> IsWord(id) && IsWord(s.attr[id])
  }

  lemma {:induction false} AttrFieldsWords(s: AttrState, fields: seq<string>)
    requires AttrWords(s) && AttrFields(s, fields).Ok?
    ensures AttrWords(AttrFields(s, fields).value)
    decreases |fields|
  {
    if fields != [] {
      AttrFieldsWords(AttrField(s, fields[0]).value, fields[1..]);
    }
  }

  lemma {:induction false} AttrLinesWords(s: AttrState, lines: seq<string>)
    requires AttrWords(s) && AttrLines(s, lines).Ok?
    ensures AttrWords(AttrLines(s, lines).value)
    decreases |lines|
  {
    if lines != [] {
      var line := RStrip(lines[0]);
      var s1 := if line == "" then AttrBlank(s) else s;
      assert "body" == ['b', 'o', 'd', 'y'];
      assert AttrWords(s1);
      if IsHeader(line) {
        AttrFieldsWords(s1, Fields(line));
      }
      AttrLinesWords(AttrLine(s, lines[0]).value, lines[1..]);
    }
  }

  /** Every id in the attribute map, and every type recorded for one, is a non-empty whitespace-free token. */
  lemma ExtractAttrWords(lines: seq<string>)
    requires ExtractAttr(lines).Ok?
    ensures forall id :: id in ExtractAttr(lines).value ==> IsWord(id) && IsWord(ExtractAttr(lines).value[id])
  {
    AttrLinesWords(AttrStart, lines);
  }

  /**
   * At a blank line the current id is recorded, with the current type or `'body'`
   * when no type has been read, unless this is the first blank line or no id has
   * been read; nothing else is recorded or removed.
   */
  lemma BlankLineRecords(s: AttrState, raw: string)
    requires Blank(raw)
    ensures AttrLine(s, raw).Ok? && !AttrLine(s, raw).value.firstLine
    ensures var r := AttrLine(s, raw).value;
      if s.firstLine || s.sntId == "" then r.attr == s.attr
      else r.attr == s.attr[s.sntId := if s.sntType == "" then "body" else s.sntType]
  {
  }

  /** Before the first blank line nothing is recorded, and `first_line` stays true. */
  lemma {:induction false} NoRecordBeforeBlank(s: AttrState, lines: seq<string>)
    requires s.firstLine && s.attr == map[]
    requires forall k :: 0 <= k < |lines| ==> !Blank(lines[k])
    requires AttrLines(s, lines).Ok?
    ensures AttrLines(s, lines).value.firstLine && AttrLines(s, lines).value.attr == map[]
    decreases |lines|
  {
    if lines != [] {
      var s1 := AttrLine(s, lines[0]).value;
      assert s1.firstLine && s1.attr == map[] by {
        if IsHeader(RStrip(lines[0])) {
          AttrFieldsKeep(s, Fields(RStrip(lines[0])));
        }
      }
      NoRecordBeforeBlank(s1, lines[1..]);
    }
  }

  /** Header fields change only the id and the type. */
  lemma {:induction false} AttrFieldsKeep(s: AttrState, fields: seq<string>)
    requires AttrFields(s, fields).Ok?
    ensures AttrFields(s, fields).value.firstLine == s.firstLine
    ensures AttrFields(s, fields).value.attr == s.attr
    decreases |fields|
  {
    if fields != [] {
      AttrFieldsKeep(AttrField(s, fields[0]).value, fields[1..]);
    }
  }

  /**
   * The first blank line of a file records nothing, whatever the lines before it
   * hold: the attribute map is still empty after it.
   */
  lemma FirstBlankRecordsNothing(pre: seq<string>, blank: string)
    requires forall k :: 0 <= k < |pre| ==> !Blank(pre[k])
    requires Blank(blank)
    requires AttrLines(AttrStart, pre + [blank]).Ok?
    ensures AttrLines(AttrStart, pre + [blank]).value.attr == map[]
    ensures !AttrLines(AttrStart, pre + [blank]).value.firstLine
  {
    AttrLinesConcat(AttrStart, pre, [blank]);
    NoRecordBeforeBlank(AttrStart, pre);
    var s := AttrLines(AttrStart, pre).value;
    assert AttrLines(s, [blank]) == AttrLine(s, blank);
  }

  /** A field whose first word is `snt-type`. */
  predicate TypeField(field: string) {
    var tokens := SplitWs(field);
    tokens != [] && tokens[0] == "snt-type"
  }

  /** A header line with a `::snt-type` field. */
  predicate SetsType(raw: string) {
    var line := RStrip(raw);
    IsHeader(line) && exists k :: 0 <= k < |Fields(line)| && TypeField(Fields(line)[k])
  }

  lemma {:induction false} AttrFieldsType(s: AttrState, fields: seq<string>)
    requires forall k :: 0 <= k < |fields| ==> !TypeField(fields[k])
    requires AttrFields(s, fields).Ok?
    ensures AttrFields(s, fields).value.sntType == s.sntType
    decreases |fields|
  {
    if fields != [] {
      assert !TypeField(fields[0]);
      AttrFieldsType(AttrField(s, fields[0]).value, fields[1..]);
    }
  }

  /**
   * `snt_type` is never reset: across lines with no `::snt-type` field, the type
   * read earlier stays, so the next block recorded gets it.
   */
  lemma {:induction false} TypeInherited(s: AttrState, lines: seq<string>)
    requires forall k :: 0 <= k < |lines| ==> !SetsType(lines[k])
    requires AttrLines(s, lines).Ok?
    ensures AttrLines(s, lines).value.sntType == s.sntType
    decreases |lines|
  {
    if lines != [] {
      var line := RStrip(lines[0]);
      var s1 := if line == "" then AttrBlank(s) else s;
      if IsHeader(line) {
        assert !SetsType(lines[0]);
        AttrFieldsType(s1, Fields(line));
      }
      TypeInherited(AttrLine(s, lines[0]).value, lines[1..]);
    }
  }

  /** The `for field in fields[1:]` loop of `extract_attr_file`. */
  method ReadAttrHeader(s0: AttrState, fields: seq<string>) returns (r: Result<AttrState>)
    ensures r == AttrFields(s0, fields)
  {
    var sntType, sntId := s0.sntType, s0.sntId;
    for j := 0 to |fields|
      invariant AttrFields(s0, fields) == AttrFields(s0.(sntType := sntType, sntId := sntId), fields[j..])
    {
      assert fields[j..][0] == fields[j] && fields[j..][1..] == fields[j + 1..];
      var tokens := SplitWs(fields[j]);
      if tokens == [] {
        return Err(IndexError("tokens[0]"));
      }
      if tokens[0] == "id" {
        if |tokens| < 2 {
          return Err(IndexError("tokens[1]"));
        }
        sntId := tokens[1];
      }
      if tokens[0] == "snt-type" {
        if |tokens| < 2 {
          return Err(IndexError("tokens[1]"));
        }
        sntType := tokens[1];
      }
    }
    assert fields[|fields|..] == [];
    r := Ok(s0.(sntType := sntType, sntId := sntId));
  }

  /** `extract_attr_file(file)`. */
  method ExtractAttrFile(lines: seq<string>) returns (r: Result<map<string, string>>)
    ensures r == ExtractAttr(lines)
  {
    var firstLine, sntType, sntId, attr := true, "", "", map[];
    for i := 0 to |lines|
      invariant AttrLines(AttrStart, lines) == AttrLines(AttrState(firstLine, sntType, sntId, attr), lines[i..])
    {
      assert lines[i..][0] == lines[i] && lines[i..][1..] == lines[i + 1..];
      var line := RStrip(lines[i]);
      if line == "" {
        if !firstLine {
          if sntId != "" {
            if sntType != "" {
              attr := attr[sntId := sntType];
            } else {
              attr := attr[sntId := "body"];
            }
          }
        }
        firstLine := false;
      }
      if IsHeader(line) {
        var before := AttrState(firstLine, sntType, sntId, attr);
        var h := ReadAttrHeader(before, Fields(line));
        if h.Err? {
          return Err(h.error);
        }
        AttrFieldsKeep(before, Fields(line));
        sntType, sntId := h.value.sntType, h.value.sntId;
        assert h.value == AttrState(firstLine, sntType, sntId, attr);
      }
    }
    assert lines[|lines|..] == [];
    r := Ok(attr);
  }

  // ---------------------------------------------------------------- sentence ids

  /** The sentence ids of the corpus read `<doc>.<n>`: the text after the last `.` is the key. */
  predicate NoDot(s: string) {
    forall k :: 0 <= k < |s| ==> s[k] != '.'
  }

  /** `'.'.join(snt_id.split('.')[:-1])`: the id without its last `.`-segment. */
  function DocId(id: string): string {
    var parts := Split(id, ".");
    Join(".", parts[..|parts| - 1])
  }

  /** `re.match(r'.*\.(.*)', snt_id).group(1)`: the greedy `.*` puts the group after the last `.`; no `.`, no match. */
  function SentKey(id: string): Option<string> {
    match LastIndexOf(id, '.')
    case None => None
    case Some(i) => Some(id[i + 1..])
  }

  lemma {:induction false} JoinLast(sep: string, p: seq<string>)
    requires |p| >= 2
    ensures Join(sep, p) == Join(sep, p[..|p| - 1]) + sep + p[|p| - 1]
    decreases |p|
  {
    if |p| > 2 {
      JoinLast(sep, p[1..]);
      assert p[1..][..|p| - 2] == p[..|p| - 1][1..];
    }
  }

  lemma NoContainsNoDot(s: string)
    requires !Contains(s, ".")
    ensures NoDot(s)
  {
    forall k | 0 <= k < |s| ensures s[k] != '.' {
      assert s[k..k + 1] == [s[k]];
      assert !OccursAt(s, ".", k);
    }
  }

  /** The sentence key exists exactly when the id holds a `.`. */
  lemma SentKeyIffDot(id: string)
    ensures SentKey(id).Some? <==> Contains(id, ".")
  {
    match LastIndexOf(id, '.')
    case None =>
      forall i | 0 <= i && i + 1 <= |id| ensures !OccursAt(id, ".", i) {
        assert id[i..i + 1] == [id[i]];
      }
    case Some(r) =>
      assert OccursAt(id, ".", r) by { assert id[r..r + 1] == [id[r]]; }
  }

  /** Text with no `.` after a prefix leaves the last `.` where it was. */
  lemma {:induction false} LastDotSkip(p: string, l: string)
    requires NoDot(l)
    ensures LastIndexOf(p + l, '.') == LastIndexOf(p, '.')
    decreases |l|
  {
    if l == [] {
      assert p + l == p;
    } else {
      var s := p + l;
      assert s[|s| - 1] == l[|l| - 1];
      assert s[..|s| - 1] == p + l[..|l| - 1];
      LastDotSkip(p, l[..|l| - 1]);
    }
  }

  /** Where the last `.` of `d + "." + l` is, when `l` has none. */
  lemma LastDot(d: string, l: string)
    requires NoDot(l)
    ensures LastIndexOf(d + "." + l, '.') == Some(|d|)
  {
    LastDotSkip(d + ".", l);
    assert (d + ".")[|d|] == '.';
  }

  /**
   * The two ways `load_amr` cuts an id agree: when the id holds a `.`, the
   * sentence key has no `.` of its own, and document id, `.` and key give back
   * the id.
   */
  lemma DocKeySplit(id: string)
    requires Contains(id, ".")
    ensures SentKey(id).Some?
    ensures DocId(id) + "." + SentKey(id).value == id && NoDot(SentKey(id).value)
  {
    SentKeyIffDot(id);
    var parts := Split(id, ".");
    JoinLast(".", parts);
    var d, l := DocId(id), parts[|parts| - 1];
    assert id == d + "." + l;
    NoContainsNoDot(l);
    LastDot(d, l);
    assert id[|d| + 1..] == l;
  }

  // ---------------------------------------------------------------- load_amr

  /** One AMR block as `load_amr` stores it: the type from the attribute map, the tokens and the graph text. */
  datatype Entry = Entry(sntType: string, tok: Option<seq<string>>, amr: string)

  /** `corpus[doc_id][key]`, with both dicts in insertion order. */
  type Corpus = OMap<string, OMap<string, Entry>>

  /**
   * The locals of `load_amr`: the AMR buffer, `snt_id` (`None` while it is
   * unbound), `snt_tok` (`None` while it is still the initial `''`) and the corpus.
   */
  datatype LoadState = LoadState(amr: string, sntId: Option<string>, tok: Option<seq<string>>, corpus: Corpus)

  function LoadStart(): LoadState {
    LoadState("", None, None, Empty())
  }

  /** One `::` field: `id` sets the id, `tok` the words after it, other names are skipped. */
  function LoadField(s: LoadState, field: string): Result<LoadState> {
    var tokens := SplitWs(field);
    if tokens == [] then Err(IndexError("tokens[0]"))
    else if tokens[0] == "id" then
      if |tokens| < 2 then Err(IndexError("tokens[1]")) else Ok(s.(sntId := Some(tokens[1])))
    else if tokens[0] == "tok" then Ok(s.(tok := Some(tokens[1..])))
    else Ok(s)
  }

  function LoadFields(s: LoadState, fields: seq<string>): Result<LoadState>
    decreases |fields|
  {
    if fields == [] then Ok(s)
    else match LoadField(s, fields[0])
      case Err(e) => Err(e)
      case Ok(s1) => LoadFields(s1, fields[1..])
  }

  /** `corpus.setdefault(doc_id, {})[key] = amr; corpus[doc_id] = ...`. */
  function Store(corpus: Corpus, doc: string, key: string, e: Entry): Corpus {
    var body := if doc in corpus.vals then corpus.vals[doc] else Empty();
    Put(corpus, doc, Put(body, key, e))
  }

  /**
   * The end of a block: an unbound id raises `NameError`; an id missing from the
   * attribute map drops the block; an id with no `.` raises `AttributeError` (no
   * regex match); otherwise the block is stored. The buffer is emptied.
   */
  function Flush(s: LoadState, attr: map<string, string>): Result<LoadState> {
    if s.sntId.None? then Err(NameError("snt_id"))
    else
      var id := s.sntId.value;
      if id !in attr then Ok(s.(amr := ""))
      else match SentKey(id)
        case None => Err(AttributeError("group"))
        case Some(key) => Ok(s.(amr := "", corpus := Store(s.corpus, DocId(id), key, Entry(attr[id], s.tok, s.amr))))
  }

  /** One iteration of the loop of `load_amr`. */
  function LoadLine(s: LoadState, attr: map<string, string>, raw: string): Result<LoadState> {
    var line := RStrip(raw);
    if line == "" then
      if s.amr == "" then Ok(s) else Flush(s, attr)
    else if IsHeader(line) then LoadFields(s, Fields(line))
    else Ok(s.(amr := s.amr + line + "\n"))
  }

  function LoadLines(s: LoadState, attr: map<string, string>, lines: seq<string>): Result<LoadState>
    decreases |lines|
  {
    if lines == [] then Ok(s)
    else match LoadLine(s, attr, lines[0])
      case Err(e) => Err(e)
      case Ok(s1) => LoadLines(s1, attr, lines[1..])
  }

  /** `load_amr(amr_attr, file)`. */
  function LoadAmr(attr: map<string, string>, lines: seq<string>): Result<Corpus> {
    match LoadLines(LoadStart(), attr, lines)
    case Err(e) => Err(e)
    case Ok(s) => Ok(s.corpus)
  }

  lemma {:induction false} LoadFieldsKeep(s: LoadState, fields: seq<string>)
    requires LoadFields(s, fields).Ok?
    ensures LoadFields(s, fields).value.amr == s.amr
    ensures LoadFields(s, fields).value.corpus == s.corpus
    decreases |fields|
  {
    if fields != [] {
      LoadFieldsKeep(LoadField(s, fields[0]).value, fields[1..]);
    }
  }

  /** Lines after the last blank line are read into the buffer but never stored. */
  lemma {:induction false} FinalBlockNotStored(s: LoadState, attr: map<string, string>, tail: seq<string>)
    requires forall k :: 0 <= k < |tail| ==> !Blank(tail[k])
    requires LoadLines(s, attr, tail).Ok?
    ensures LoadLines(s, attr, tail).value.corpus == s.corpus
    decreases |tail|
  {
    if tail != [] {
      assert !Blank(tail[0]);
      var line := RStrip(tail[0]);
      if IsHeader(line) {
        LoadFieldsKeep(s, Fields(line));
      }
      FinalBlockNotStored(LoadLine(s, attr, tail[0]).value, attr, tail[1..]);
    }
  }

  /** The buffer is empty or a sequence of lines, each ending in a line break. */
  predicate Buffered(amr: string) {
    amr == "" || amr[|amr| - 1] == '\n'
  }

  /**
   * A stored entry sits where its id says: `doc + "." + key` is an id of the
   * attribute map, the key holds no `.`, the type is the one the map gives that
   * id, and the text is a non-empty sequence of lines.
   */
  ghost predicate Filed(attr: map<string, string>, doc: string, key: string, e: Entry) {
    && doc + "." + key in attr
    && e.sntType == attr[doc + "." + key]
    && NoDot(key)
    && e.amr != "" && Buffered(e.amr)
  }

  ghost predicate BodyFiled(attr: map<string, string>, doc: string, body: OMap<string, Entry>) {
    body.Valid() && forall key :: key in body.vals ==> Filed(attr, doc, key, body.vals[key])
  }

  ghost predicate CorpusFiled(attr: map<string, string>, c: Corpus) {
    c.Valid() && forall doc :: doc in c.vals ==> BodyFiled(attr, doc, c.vals[doc])
  }

  ghost predicate LoadInv(attr: map<string, string>, s: LoadState) {
    Buffered(s.amr) && CorpusFiled(attr, s.corpus)
  }

  lemma StoreFiled(attr: map<string, string>, c: Corpus, id: string, key: string, e: Entry)
    requires CorpusFiled(attr, c)
    requires SentKey(id) == Some(key) && id in attr
    requires e.sntType == attr[id] && e.amr != "" && Buffered(e.amr)
    ensures CorpusFiled(attr, Store(c, DocId(id), key, e))
  {
    SentKeyIffDot(id);
    DocKeySplit(id);
    var doc := DocId(id);
    var body: OMap<string, Entry> := if doc in c.vals then c.vals[doc] else Empty();
    assert BodyFiled(attr, doc, body);
    assert Filed(attr, doc, key, e);
    assert BodyFiled(attr, doc, Put(body, key, e));
  }

  lemma LoadLineInv(s: LoadState, attr: map<string, string>, raw: string)
    requires LoadInv(attr, s) && LoadLine(s, attr, raw).Ok?
    ensures LoadInv(attr, LoadLine(s, attr, raw).value)
  {
    var line := RStrip(raw);
    if line == "" {
      if s.amr != "" && s.sntId.Some? && s.sntId.value in attr {
        var id := s.sntId.value;
        StoreFiled(attr, s.corpus, id, SentKey(id).value, Entry(attr[id], s.tok, s.amr));
      }
    } else if IsHeader(line) {
      LoadFieldsKeep(s, Fields(line));
    } else {
      var a := s.amr + line + "\n";
      assert a[|a| - 1] == '\n';
    }
  }

  lemma {:induction false} LoadLinesInv(s: LoadState, attr: map<string, string>, lines: seq<string>)
    requires LoadInv(attr, s) && LoadLines(s, attr, lines).Ok?
    ensures LoadInv(attr, LoadLines(s, attr, lines).value)
    decreases |lines|
  {
    if lines != [] {
      LoadLineInv(s, attr, lines[0]);
      LoadLinesInv(LoadLine(s, attr, lines[0]).value, attr, lines[1..]);
    }
  }

  /**
   * Every block `load_amr` stores is filed under its id's document and key, the
   * id is one of the attribute map and the stored type is the map's; the text is
   * made of whole lines.
   */
  lemma LoadAmrFiled(attr: map<string, string>, lines: seq<string>)
    requires LoadAmr(attr, lines).Ok?
    ensures CorpusFiled(attr, LoadAmr(attr, lines).value)
  {
    LoadLinesInv(LoadStart(), attr, lines);
  }

  /** The `for field in fields[1:]` loop of `load_amr`. */
  method ReadLoadHeader(s0: LoadState, fields: seq<string>) returns (r: Result<LoadState>)
    ensures r == LoadFields(s0, fields)
  {
    var sntId, sntTok := s0.sntId, s0.tok;
    for j := 0 to |fields|
      invariant LoadFields(s0, fields) == LoadFields(s0.(sntId := sntId, tok := sntTok), fields[j..])
    {
      assert fields[j..][0] == fields[j] && fields[j..][1..] == fields[j + 1..];
      var tokens := SplitWs(fields[j]);
      if tokens == [] {
        return Err(IndexError("tokens[0]"));
      }
      if tokens[0] == "id" {
        if |tokens| < 2 {
          return Err(IndexError("tokens[1]"));
        }
        sntId := Some(tokens[1]);
      }
      if tokens[0] == "tok" {
        sntTok := Some(tokens[1..]);
      }
    }
    assert fields[|fields|..] == [];
    r := Ok(s0.(sntId := sntId, tok := sntTok));
  }

  /** The end of a block in `load_amr`, with the `setdefault` insertion. */
  method FlushBlock(s: LoadState, attr: map<string, string>) returns (r: Result<LoadState>)
    ensures r == Flush(s, attr)
  {
    if s.sntId.None? {
      return Err(NameError("snt_id"));
    }
    var id := s.sntId.value;
    var corpus := s.corpus;
    if id in attr {
      var docId := DocId(id);
      var body: OMap<string, Entry>;
      if docId in corpus.vals {
        body := corpus.vals[docId];
      } else {
        body := Empty();
      }
      var result := SentKey(id);
      if result.None? {
        return Err(AttributeError("group"));
      }
      body := Put(body, result.value, Entry(attr[id], s.tok, s.amr));
      corpus := Put(corpus, docId, body);
    }
    r := Ok(s.(amr := "", corpus := corpus));
  }

  /** `load_amr(amr_attr, file)`. */
  method LoadAmrFile(attr: map<string, string>, lines: seq<string>) returns (r: Result<Corpus>)
    ensures r == LoadAmr(attr, lines)
  {
    var s := LoadStart();
    for i := 0 to |lines|
      invariant LoadLines(LoadStart(), attr, lines) == LoadLines(s, attr, lines[i..])
    {
      assert lines[i..][0] == lines[i] && lines[i..][1..] == lines[i + 1..];
      var line := RStrip(lines[i]);
      if line == "" {
        if s.amr == "" {
          continue;
        }
        var f := FlushBlock(s, attr);
        if f.Err? {
          return Err(f.error);
        }
        s := f.value;
        continue;
      }
      if IsHeader(line) {
        var h := ReadLoadHeader(s, Fields(line));
        if h.Err? {
          return Err(h.error);
        }
        s := h.value;
        continue;
      }
      s := s.(amr := s.amr + line + "\n");
    }
    assert lines[|lines|..] == [];
    r := Ok(s.corpus);
  }

  // ---------------------------------------------------------------- split names

  /** `-proxy.txt` at position `j`, where the regex's `.` matches any character. */
  predicate ProxyAt(name: string, j: int) {
    0 <= j && j + 10 <= |name| && name[j..j + 6] == "-proxy" && name[j + 7..j + 10] == "txt"
  }

  predicate Hyphen(name: string, i: int) {
    0 <= i < |name| && name[i] == '-'
  }

  /** The last place below `n` where `-proxy.txt` starts. */
  function LastProxy(name: string, n: nat): (r: Option<nat>)
    ensures r.Some? ==> r.value < n && ProxyAt(name, r.value)
    ensures r.Some? ==> forall j :: r.value < j < n ==> !ProxyAt(name, j)
    ensures r.None? ==> forall j :: 0 <= j < n ==> !ProxyAt(name, j)
  {
    if n == 0 then None
    else if ProxyAt(name, n - 1) then Some(n - 1)
    else LastProxy(name, n - 1)
  }

  /**
   * Where `re.match(r'.*-(.*)-proxy.txt', name)` puts its `-` and its suffix.
   * Both `.*` are greedy, so the suffix is the last `-proxy.txt` of the name and
   * the `-` is the last one before it; `None` is the failed match, which happens
   * exactly when no `-` precedes any `-proxy.txt`.
   */
  function ProxyMatch(name: string): (r: Option<(nat, nat)>)
    ensures r.Some? ==> Hyphen(name, r.value.0) && r.value.0 < r.value.1 && ProxyAt(name, r.value.1)
    ensures r.Some? ==> forall j :: ProxyAt(name, j) ==> j <= r.value.1
    ensures r.Some? ==> forall k :: r.value.0 < k < r.value.1 ==> name[k] != '-'
    ensures r.None? <==> !exists i, j :: Hyphen(name, i) && i < j && ProxyAt(name, j)
  {
    match LastProxy(name, |name|)
    case None => None
    case Some(j) =>
      assert forall i :: 0 <= i < j ==> name[..j][i] == name[i];
      match LastIndexOf(name[..j], '-')
      case None => None
      case Some(i) =>
        assert name[..j][i] == name[i];
        assert Hyphen(name, i) && i < j && ProxyAt(name, j);
        Some((i, j))
  }

  /** `re.match(r'.*-(.*)-proxy.txt', name).group(1)`, the split name of a proxy file. */
  function SplitName(name: string): (r: Option<string>)
    ensures r.Some? <==> ProxyMatch(name).Some?
    ensures r.Some? ==> forall k :: 0 <= k < |r.value| ==> r.value[k] != '-'
    ensures r.Some? ==>
      (&& name[ProxyMatch(name).value.0] == '-'
       && name[ProxyMatch(name).value.0 + 1..ProxyMatch(name).value.1] == r.value
       && ProxyAt(name, ProxyMatch(name).value.0 + 1 + |r.value|))
  {
    match ProxyMatch(name)
    case None => None
    case Some((i, j)) =>
      var g := name[i + 1..j];
      assert forall k :: 0 <= k < |g| ==> g[k] == name[i + 1 + k];
      Some(g)
  }
}
