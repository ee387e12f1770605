# AMR_CMAP core, modelled in Dafny

AMR_CMAP turns AMR (Abstract Meaning Representation) graphs into concept-map
triples `(agent, predicate, patient)`. It then writes each element of a triple
back as a small AMR fragment. This project models the in-memory core of that
pipeline and proves properties of it:

- **Role classification** (`RoleClassifier`). `is_agent` and `fixing_annotation` decide
  whether an `:ARGn` edge of a predicate fills the PropBank role tagged `pag`
  (prototypical agent). The roleset comes from the predicate's concept, such as
  `want-01`.
- **Linker selection and the two passes** (`TripleBuilder`). These are shared by
  `AMRtoTriples.convert` and `AMRtoCMap.convert`.
  - The linkers are the outgoing edge lists of the concept variables that have an `ARG` edge.
  - Pass 1 reads the forward `:ARGn` edges of each linker group. It builds one
    record `[agent, predicate, patients]` per predicate.
  - Pass 2 reads the inverse `:ARGn-of` edges. It merges them into records keyed by
    the edge's dependent. Its loop takes the verdict of `is_agent` as a function
    argument, so the lemmas about it hold for any classifier; pass 2 passes the
    `is_agent` verdict on the dependent's concept (`InverseVerdict`).
- **Serialization of a sub-graph** (`DepthFirst`, `Rebuild`). `get_all_amr_string`
  walks the graph depth-first from a variable with an explicit stack. A per-element
  counter limits how often a re-entrant element is expanded. The walk is then
  rebuilt into indented, parenthesised AMR text.
- **Row assembly** (`Assembly`).
  - For every record whose predicate has an `:instance-of` alignment, the assembly
    emits one row `(agent text, predicate concept, patient text)` per patient.
  - A one-word patient text is put in parentheses.
  - An empty dict gives `''`.
- **The two converter classes** (`TriplesConverter.AmrToTriples`, `CMapConverter.AmrToCMap`).
  They hold the dict that `convert` fills, and they turn it into rows.
- **The corpus-file reader** (`AmrReader`).
  - `extract_attr_file` maps each sentence id to its sentence type.
  - `load_amr` gathers the AMR text of every block into `corpus[document][sentence]`.
  - The split name of a proxy file comes from its file name.

The AMR object itself belongs to an external library. It is modelled as read-only
data (`AmrGraph.Graph`) holding:

- the concept variables;
- `var2concept()`;
- `triples(head=v)`;
- `triples(dep=v, rel=':ARG-of', normalize_inverses=True)`;
- `reentrancies()`;
- `alignments()`.

The PropBank table is a map from roleset id to its `(n, f)` role entries.

Python exceptions are values (`Wrappers.Error` inside `Result`). Every `KeyError`,
`IndexError`, `ValueError`, `AttributeError` and `NameError` the code can raise on
these inputs is a result, not a precondition. Python dicts whose iteration order
matters are `OrderedMap.OMap`: the keys in insertion order plus a map.

Code that changes state step by step is written as methods with loops, each proved
equal to a function that specifies it:

- the two passes;
- the traversal and the rebuild;
- the assembly;
- the two line parsers.

The properties are proved about those functions. The two converter classes keep
their dicts in fields that `Convert` reassigns.

## Model

| member | source | states |
|---|---|---|
| PyStr.RStrip | utils/AmrReader.py:34 | `rstrip()` returns a prefix of its input that does not end in whitespace, and only whitespace was removed |
| PyStr.IndexOf | amr_lib/AMRtoTriples.py:80 | `str.find`: the result is an occurrence, and no earlier one exists; `None` means there is no occurrence |
| PyStr.Split | utils/AmrReader.py:47 | `s.split(sep)`: joining the pieces with `sep` gives back `s`; no piece contains `sep`; there is one piece exactly when `sep` does not occur |
| PyStr.SplitLeftmost | utils/AmrReader.py:47 | every piece but the last ends at the leftmost occurrence of `sep` in the text that remains from it on, so the pieces are fixed by `s` |
| PyStr.SplitFirst | utils/AmrReader.py:47 | when `sep` occurs, the first piece ends at its leftmost occurrence in `s` |
| PyStr.SplitWs | utils/AmrReader.py:49 | `split()`: every token is a non-empty word without whitespace, and together the tokens hold exactly the non-whitespace characters, in order |
| PyStr.SplitWsWord | utils/AmrReader.py:49 | `split()` of a single whitespace-free word is that word alone |
| PyStr.SplitWsSpace | utils/AmrReader.py:49 | a whitespace character separates tokens: `split()` of `a + c + b` is `split()` of `a`, then of `b`; with `SplitWsWord` this fixes the tokens as the maximal runs |
| PyStr.TokenBeforeSpace | utils/AmrReader.py:49 | the first token of a text is unaffected by what follows the next whitespace |
| PyStr.SpaceBeforeSpace | utils/AmrReader.py:49 | leading whitespace adds no token, also in front of a separated text |
| PyStr.WordBeforeSpace | utils/AmrReader.py:49 | a leading word is the first token, also in front of a separated text |
| PyStr.LastIndexOf | amr_lib/AMRtoTriples.py:56 | the last position of a character: it holds the character and no later position does; `None` means it never occurs |
| PyStr.ReplaceChar | amr_lib/AMRtoTriples.py:48 | `replace('-', '_')` replaces exactly the matching characters and keeps the length |
| PyStr.LowerAscii | amr_lib/AMRtoTriples.py:72 | `lower()` keeps the length and lowers each character |
| OrderedMap.Empty | amr_lib/AMRtoTriples.py:16 | `{}` is a well-formed dict with no entries |
| OrderedMap.Put | amr_lib/AMRtoTriples.py:87 | `d[k] = v` updates the entry; an existing key keeps its place in iteration order and a new key goes last; the dict stays well formed |
| RoleClassifier.SplitSense | amr_lib/AMRtoTriples.py:56-58 | `(.*)-(\d*)$` splits at a hyphen followed only by digits; it fails (the source raises `AttributeError`) exactly when no such hyphen exists |
| RoleClassifier.ArgDigit | amr_lib/AMRtoTriples.py:67-68 | the character after `:ARG` is returned exactly when the role starts with `:ARG` followed by a digit; otherwise the source raises |
| RoleClassifier.HasPagRole | amr_lib/AMRtoTriples.py:69-74 | the early-return scan is true exactly when some role has the number and the function tag `pag` in any letter case |
| RoleClassifier.IsAgentSpec | amr_lib/AMRtoTriples.py:51-74 | `is_agent`: a malformed concept raises; sense `00` is never an agent; the roleset falls back to underscores once; a missing roleset raises `KeyError(roleset)`; otherwise the answer is "some `pag` role has the edge's digit" |
| TripleBuilder.LinkersOf | amr_lib/AMRtoTriples.py:25-39 | every linker group is non-empty and contains an `ARG` edge, and there are no more groups than variables |
| TripleBuilder.LinkersOfSound | amr_lib/AMRtoTriples.py:28-38 | every linker group is the outgoing edge list of one of the given variables |
| TripleBuilder.LinkersOfComplete | amr_lib/AMRtoTriples.py:28-38 | every given variable whose outgoing edge list has an `ARG` edge contributes that list as a group |
| TripleBuilder.LinkersOfConcat | amr_lib/AMRtoTriples.py:25-39 | the groups follow the order of the variables: those of `a + b` are those of `a`, then those of `b` |
| TripleBuilder.LinkersOfOne | amr_lib/AMRtoTriples.py:28-38 | one variable contributes one group, its outgoing edge list, exactly when that list has an `ARG` edge, and none otherwise |
| TripleBuilder.LastAgent | amr_lib/AMRtoTriples.py:80-83 | reference definition: the dependent of the last forward edge classified as agent, or `None` when there is none |
| TripleBuilder.ForwardFoldSpec | amr_lib/AMRtoTriples.py:78-85 | the forward loop fails exactly when some forward edge cannot be classified; otherwise the last agent edge wins the agent slot, non-agent dependents are appended in edge order, and other edges play no part |
| TripleBuilder.ForwardStepSpec | amr_lib/AMRtoTriples.py:80-85 | one edge of the forward loop: only a forward `ARG` edge is classified, and it can only raise there; an agent verdict overwrites the agent slot, a non-agent one appends the dependent |
| TripleBuilder.ClassifiableCons | amr_lib/AMRtoTriples.py:78-85 | every forward edge of a group is classifiable exactly when the first one and all the rest are |
| TripleBuilder.ForwardFoldOk | amr_lib/AMRtoTriples.py:78-85 | the forward loop completes exactly when every forward edge can be classified |
| TripleBuilder.ForwardFoldPatients | amr_lib/AMRtoTriples.py:78-85 | a completed forward loop keeps the predicate and appends exactly the non-agent dependents, in edge order |
| TripleBuilder.ForwardFoldAgent | amr_lib/AMRtoTriples.py:80-83 | a completed forward loop leaves the last agent edge's dependent in the agent slot, or the old agent when there is none |
| TripleBuilder.Pass1Good | amr_lib/AMRtoTriples.py:76-87 | pass 1 stores only records keyed by their own predicate that have an agent or a patient, even when it stops on an exception |
| TripleBuilder.Pass1Valid | amr_lib/AMRtoTriples.py:76-87 | pass 1 keeps the dict well formed |
| TripleBuilder.Pass1Keys | amr_lib/AMRtoTriples.py:76-87 | pass 1 never removes a key, and every key it adds is the head of a linker group's first edge |
| TripleBuilder.InverseStepGood | amr_lib/AMRtoTriples.py:92-98 | a completed inverse step keeps every record keyed by its predicate and non-empty |
| TripleBuilder.MergeGood | amr_lib/AMRtoTriples.py:92-98 | creating the dependent's record when absent and merging a verdict into it keeps every record keyed by its predicate and non-empty |
| TripleBuilder.InverseEdgesGood | amr_lib/AMRtoTriples.py:89-98 | a completed pass 2 keeps every record keyed by its predicate and non-empty |
| TripleBuilder.PassesGood | amr_lib/AMRtoTriples.py:76-99 | after both passes complete, each entry is the record of its own predicate and names an agent or a patient |
| TripleBuilder.ExtendsTrans | amr_lib/AMRtoTriples.py:89-98 | merging into a dict composes: a merge of a merge is a merge |
| TripleBuilder.EnsureExtend | amr_lib/AMRtoTriples.py:93-94 | creating an absent record `[None, dep, []]` extends the dict by that key alone |
| TripleBuilder.MergeExtend | amr_lib/AMRtoTriples.py:95-98 | filling the agent slot or appending a patient extends the dict and adds no key |
| TripleBuilder.InverseStepExtend | amr_lib/AMRtoTriples.py:92-98 | an inverse step merges rather than replaces: keys keep their order and predicates, old patients stay a prefix, and only the edge's dependent can be added |
| TripleBuilder.InverseEdgesExtend | amr_lib/AMRtoTriples.py:89-98 | pass 2 merges into what pass 1 built, also when it stops early, and adds only dependents of inverse `ARG` edges |
| TripleBuilder.InverseEdgesExtends | amr_lib/AMRtoTriples.py:89-98 | pass 2 merges into the dict it starts from, also when it stops early |
| TripleBuilder.InverseEdgesNewKeys | amr_lib/AMRtoTriples.py:89-98 | every key pass 2 adds is the dependent of one of its inverse `ARG` edges |
| TripleBuilder.LastInverseAgent | amr_lib/AMRtoTriples.py:92-96 | reference definition: the head of the last inverse edge into `k` classified as agent, or `None` when there is none |
| TripleBuilder.InverseEdgesSpec | amr_lib/AMRtoTriples.py:89-98 | pass 2 completes exactly when every inverse edge classifies; then each record keeps its predicate, gets the heads of the non-agent inverse edges into its key appended in edge order, and the last agent edge's head in the agent slot (or keeps its agent); every inverse edge's dependent has a record |
| TripleBuilder.InverseStepSpec | amr_lib/AMRtoTriples.py:92-98 | one inverse step raises only when classifying an inverse edge fails; otherwise it appends the head to, or puts it in the agent slot of, the record of the edge's dependent, created if absent, and leaves other records alone |
| TripleBuilder.InverseClassifiableCons | amr_lib/AMRtoTriples.py:89-98 | every inverse edge is classifiable exactly when the first one and all the rest are |
| TripleBuilder.InverseEdgesOk | amr_lib/AMRtoTriples.py:89-98 | the inverse loop completes exactly when every inverse edge can be classified |
| TripleBuilder.InverseEdgesPatients | amr_lib/AMRtoTriples.py:89-98 | a completed inverse loop keeps the predicate of the record of `k` and appends exactly the non-agent heads of the inverse edges into `k`, in edge order |
| TripleBuilder.InverseEdgesAgent | amr_lib/AMRtoTriples.py:89-98 | a completed inverse loop leaves the head of the last agent edge into `k` in its agent slot, or the earlier agent when there is none |
| TripleBuilder.InverseEdgesKeys | amr_lib/AMRtoTriples.py:89-98 | a completed inverse loop leaves a record for the dependent of every inverse edge |
| TripleBuilder.PassesValid | amr_lib/AMRtoTriples.py:76-98 | both passes keep the dict well formed from any start; pass 2 only extends pass 1's dict |
| TripleBuilder.BuildForwardRecord | amr_lib/AMRtoTriples.py:77-85 | the inner forward loop computes the record the forward fold specifies, or its exception |
| TripleBuilder.ForwardPass | amr_lib/AMRtoTriples.py:76-87 | the pass-1 loop leaves the dict and the exception that pass 1 specifies |
| TripleBuilder.ApplyInverse | amr_lib/AMRtoTriples.py:92-98 | one inverse edge: an absent record is created before the classifier runs, then the head fills the agent slot or joins the patients |
| TripleBuilder.InversePass | amr_lib/AMRtoTriples.py:89-98 | the nested pass-2 loops leave the dict and the exception that pass 2 specifies |
| TripleBuilder.GenerateTriples | amr_lib/AMRtoTriples.py:41-99 | `generate_triples`: pass 1, then pass 2 unless pass 1 raised |
| DepthFirst.AdmitSpec | amr_lib/AMRtoTriples.py:139-146 | the push loop always pushes a non-re-entrant child; each counter grows by the pushes of its element; a re-entrant element within `reentrancies[v] + 2` stays within it |
| DepthFirst.AdmitAll | amr_lib/AMRtoTriples.py:141-146 | a child whose element is not re-entrant is always pushed |
| DepthFirst.AdmitCounts | amr_lib/AMRtoTriples.py:141-146 | each counter grows by exactly the number of pushed children of its element |
| DepthFirst.AdmitBound | amr_lib/AMRtoTriples.py:142-146 | the guard `entry <= reentrancies + 1` keeps a re-entrant element's counter within `reentrancies[v] + 2` |
| DepthFirst.Run | amr_lib/AMRtoTriples.py:135-146 | the stack loop never gains fuel |
| DepthFirst.Traversal | amr_lib/AMRtoTriples.py:129-146 | a walk starts with the synthetic `(TOP, :top, root)` edge |
| DepthFirst.Visit | amr_lib/AMRtoTriples.py:135-146 | reference recursive preorder visit; each visit consumes fuel |
| DepthFirst.VisitAll | amr_lib/AMRtoTriples.py:135-146 | reference preorder over a list of subtrees; it never gains fuel |
| DepthFirst.RunPop | amr_lib/AMRtoTriples.py:135-146 | popping the top entry records it and pushes its admitted children |
| DepthFirst.StackIsPreorder | amr_lib/AMRtoTriples.py:135-146 | pushing children reversed makes the stack loop visit their subtrees in order before the rest of the stack |
| DepthFirst.StackPopIsPreorder | amr_lib/AMRtoTriples.py:135-146 | popping the first of the stacked subtrees visits it, with its admitted children, then the remaining subtrees in order |
| DepthFirst.StackPopSome | amr_lib/AMRtoTriples.py:135-146 | once the first subtree's walk finishes, the remaining subtrees are visited from the counter and fuel it left |
| DepthFirst.TraversalIsPreorder | amr_lib/AMRtoTriples.py:129-146 | the walk of `get_all_amr_string` equals the recursive depth-first preorder from the `:top` edge |
| DepthFirst.RunCounts | amr_lib/AMRtoTriples.py:135-146 | along the loop, each counter equals the recorded plus still-stacked entries to its element, and the re-entrancy bound is kept |
| DepthFirst.RunStep | amr_lib/AMRtoTriples.py:135-146 | a pop of a walk that ends records the top entry first, and the walk from the new stack ends too |
| DepthFirst.ReentrancyBound | amr_lib/AMRtoTriples.py:139-146 | a finished walk records each element exactly as often as its counter says, and each re-entrant element at most `reentrancies[v] + 2` times |
| DepthFirst.PushChildren | amr_lib/AMRtoTriples.py:139-146 | the push loop appends the admitted children to the stack and updates the counter as the admission function says |
| DepthFirst.Traverse | amr_lib/AMRtoTriples.py:129-146 | the traversal loop produces exactly the specified walk |
| Rebuild.CollapseDropsParen | amr_lib/AMRtoTriples.py:171-175 | closing a scope whose concept was never bound removes its `(` and keeps the name |
| Rebuild.Parens | amr_lib/AMRtoTriples.py:177 | `n` closing parentheses |
| Rebuild.CloseTo | amr_lib/AMRtoTriples.py:169-178 | closing scopes leaves the first `d` open scopes and the depths; if it closed any, the flag is reset; if there were at most `d`, nothing changes |
| Rebuild.CloseToText | amr_lib/AMRtoTriples.py:169-178 | closing `k` scopes appends `k` parentheses, except that an innermost unbound scope is collapsed to its name first |
| Rebuild.Finish | amr_lib/AMRtoTriples.py:153-178 | the end-of-input sentinel succeeds exactly when a scope is open (`stack[-1]` exists) |
| Rebuild.PolarityInline | amr_lib/AMRtoTriples.py:166-167 | a `:polarity` edge on the innermost scope is written on the same line and changes no scope |
| Rebuild.NewScope | amr_lib/AMRtoTriples.py:168-182 | any other edge raises `KeyError` if its head has no bound concept; otherwise it closes scopes down to that depth and opens a new line indented 4 spaces per open scope |
| Rebuild.DropWiki | amr_lib/AMRtoTriples.py:164-165 | the edges left have no `:wiki` role |
| Rebuild.WikiIgnored | amr_lib/AMRtoTriples.py:164-165 | `:wiki` edges never affect the text |
| Rebuild.LeafRoot | amr_lib/AMRtoTriples.py:156-178 | a root with no edges is written as its bare name |
| Rebuild.ConceptRoot | amr_lib/AMRtoTriples.py:156-163 | a root bound only to concept `c` is written `(root / c)` |
| Rebuild.StepRooted | amr_lib/AMRtoTriples.py:153-182 | once the `:top` scope is open it stays open, and a step can only raise `KeyError` |
| Rebuild.FoldRooted | amr_lib/AMRtoTriples.py:153-182 | the same over any sequence of edges |
| Rebuild.OnlyKeyError | amr_lib/AMRtoTriples.py:147-183 | rebuilding a walk that starts with its `:top` edge never indexes an empty stack; only `KeyError` can occur |
| Rebuild.Close | amr_lib/AMRtoTriples.py:169-178 | the scope-closing `while` loop computes what closing specifies |
| Rebuild.Rebuild | amr_lib/AMRtoTriples.py:147-183 | the rebuild loop computes the specified text or exception |
| Rebuild.AmrStringErrors | amr_lib/AMRtoTriples.py:116-183 | serializing a sub-graph fails only with `KeyError` |
| Rebuild.Serialize | amr_lib/AMRtoTriples.py:116-183 | `get_all_amr_string`: the walk, then the rebuild, as specified |
| Assembly.FirstAlignment | amr_lib/AMRtoTriples.py:112-113 | the first alignment whose triple is the `:instance-of` edge of the variable; `None` exactly when there is none |
| Assembly.ParseInt | amr_lib/AMRtoTriples.py:114 | `int()` succeeds exactly on digits with an optional sign, and the sign of the value follows the sign character |
| Assembly.ParseOffset | amr_lib/AMRtoTriples.py:114 | `int(a.split('.')[1].split(',')[0])` raises `IndexError` exactly when there is no `.`; otherwise it can only raise `ValueError` |
| Assembly.Wrap | amr_lib/AMRtoTriples.py:300-302 | the patient text is returned as-is if it has a space or starts with `(`, and is parenthesised otherwise |
| Assembly.WrapIdempotent | amr_lib/AMRtoTriples.py:300-302 | wrapping twice is wrapping once |
| Assembly.EmptyStringIffEmpty | amr_lib/AMRtoTriples.py:285-286 | the assembly returns `''` exactly for an empty dict |
| Assembly.PatientRowsCount | amr_lib/AMRtoTriples.py:297-303 | one row per emitted patient |
| Assembly.RecordRowsCount | amr_lib/AMRtoTriples.py:290-303 | one record gives no row when its predicate is unaligned, else one row per emitted patient |
| Assembly.KeyRowsCount | amr_lib/AMRtoTriples.py:289-303 | over several records, one row per emitted patient of each aligned record |
| Assembly.RowCount | amr_lib/AMRtoTriples.py:288-312 | a non-empty dict gives one row per emitted patient of every aligned record, and none for the others |
| Assembly.PatientRowsShape | amr_lib/AMRtoTriples.py:297-303 | every patient row repeats the agent text and the predicate's concept, and has a wrapped patient text |
| Assembly.RecordRowsContent | amr_lib/AMRtoTriples.py:290-303 | a record that gives rows has an aligned predicate with a concept, and each of its rows holds the agent's text (`''` without an agent), that predicate's concept and a wrapped patient text |
| Assembly.RecordRowsShape | amr_lib/AMRtoTriples.py:290-303 | the rows of one stored record have wrapped patient texts, and their middles are among the concepts of the stored predicates |
| Assembly.ShapedConcat | amr_lib/AMRtoTriples.py:289-303 | row shape is kept when rows of later records are appended |
| Assembly.KeyRowsWrapped | amr_lib/AMRtoTriples.py:289-303 | every row of the loop over records is shaped |
| Assembly.RowsShape | amr_lib/AMRtoTriples.py:288-312 | every row's patient text has a space or starts with `(`, and its middle is the concept of a stored record's predicate |
| Assembly.PatientRowsAgree | amr_lib/AMRtoTriples.py:298 | with no falsy patient, the truth test changes nothing for one record |
| Assembly.RecordRowsAgree | amr_lib/AMRtoTriples.py:290-303 | with no falsy patient, the truth test changes nothing for one whole record, agent and alignment included |
| Assembly.KeyRowsAgree | amr_lib/AMRtoTriples.py:289-303 | the same over several records |
| Assembly.VersionsAgree | amr_lib/AMRtoCMap.py:300-306 | the triples assembly (`if concept_var:`) and the CMap assembly (`concept_var != []`) agree when no patient is falsy |
| Assembly.GetAlignment | amr_lib/AMRtoTriples.py:108-114 | the `get_alignment` loop computes the specified first-match offset |
| Assembly.AppendPatientRows | amr_lib/AMRtoTriples.py:297-303 | the patient loop appends the specified rows |
| Assembly.PatientRowsStep | amr_lib/AMRtoTriples.py:297-303 | one patient of the inner loop: it is skipped, its text's exception or the predicate's `KeyError` ends the loop, or its row comes next |
| Assembly.KeyRowsStep | amr_lib/AMRtoTriples.py:289-303 | one record of the loop over the keys: its exception ends the loop, or its rows come next |
| Assembly.NextRecordRows | amr_lib/AMRtoTriples.py:289-303 | one pass of the loop over the keys: its exception is the loop's result, or its rows come before those of the later keys |
| Assembly.CollectRows | amr_lib/AMRtoTriples.py:289-303 | the loop over the dict's keys collects the specified rows or stops at the first exception |
| Assembly.BuildRecordRows | amr_lib/AMRtoTriples.py:290-303 | the loop body for one record computes the specified rows |
| Assembly.AssembleRows | amr_lib/AMRtoTriples.py:285-312 | the assembly loop computes the specified `''`, rows or exception |
| TriplesConverter.AmrToTriples.constructor | amr_lib/AMRtoTriples.py:12-18 | a new converter has no linkers and an empty dict |
| TriplesConverter.AmrToTriples.Convert | amr_lib/AMRtoTriples.py:21-102 | `convert` sets the linkers and runs both passes on the dict as it stands; the result is the dict or the exception; good records stay good |
| TriplesConverter.AmrToTriples.ConvertFresh | amr_lib/AMRtoCMap.py:75 | corrected `convert`: it resets the dict first, so the result depends only on the graph and the table |
| TriplesConverter.AmrToTriples.AmrStringFromTriples | amr_lib/AMRtoTriples.py:104-312 | `generate_amr_string_from_triples` is the specified assembly with the truth test on patients |
| TriplesConverter.ConvertTwiceAgrees | amr_lib/AMRtoCMap.py:75-100 | with the reset, two `convert` calls on one object give the same answer |
| TriplesConverter.ArgOfRole | amr_lib/AMRtoTriples.py:80-92 | `:ARG0-of` is an inverse argument role, not a forward one |
| TriplesConverter.SenseZero | amr_lib/AMRtoTriples.py:56-58 | `x-00` splits into stem `x` and sense `00` |
| TriplesConverter.DupLinkers | amr_lib/AMRtoTriples.py:25-87 | for the counterexample graph, the only linker group is `a`'s edge, and pass 1 leaves the dict as it was |
| TriplesConverter.DupStep | amr_lib/AMRtoTriples.py:92-98 | on any dict, the inverse step for `(a, :ARG0-of, b)` creates `b`'s record when absent and appends `a` to its patients |
| TriplesConverter.DupPasses | amr_lib/AMRtoTriples.py:41-99 | when pass 1 leaves the dict unchanged, both passes amount to that single inverse step |
| TriplesConverter.ConvertTwiceDuplicates | amr_lib/AMRtoTriples.py:16-98 | as written, a second `convert` appends the patients of a record made only by pass 2 again: `[a]` becomes `[a, a]` |
| CMapConverter.AmrToCMap.constructor | amr_lib/AMRtoCMap.py:13-17 | a new converter has neither linkers nor a `cmaps` attribute |
| CMapConverter.AmrToCMap.Convert | amr_lib/AMRtoCMap.py:19-100 | `convert` sets the linkers, resets the dict and runs both passes; the result is the dict or the exception; on success every record is good |
| CMapConverter.AmrToCMap.AmrStringFromCMap | amr_lib/AMRtoCMap.py:104-315 | before `convert` the source raises `AttributeError`; afterwards the result is the specified assembly with no truth test |
| CMapConverter.ConvertTwiceAgrees | amr_lib/AMRtoCMap.py:75-100 | two `convert` calls on one object give the same answer |
| AmrReader.Fields | utils/AmrReader.py:47-48 | the header fields, joined back after the text before the first `::`, give the line |
| AmrReader.AttrLinesConcat | utils/AmrReader.py:33-54 | reading two runs of lines one after the other is reading their concatenation |
| AmrReader.AttrFieldsWords | utils/AmrReader.py:48-53 | header fields set the id and type only to single tokens |
| AmrReader.AttrLinesWords | utils/AmrReader.py:33-54 | over any lines, the id, the type and the recorded entries stay single tokens |
| AmrReader.ExtractAttrWords | utils/AmrReader.py:24-55 | every recorded id, and the type recorded for it, is a non-empty whitespace-free token; the id `''` is never recorded |
| AmrReader.BlankLineRecords | utils/AmrReader.py:35-43 | a blank line records the current id with the current type, or `'body'`, unless it is the first blank line or no id has been read; nothing else changes |
| AmrReader.NoRecordBeforeBlank | utils/AmrReader.py:29-43 | before the first blank line nothing is recorded and `first_line` stays true |
| AmrReader.AttrFieldsKeep | utils/AmrReader.py:46-54 | header fields change only the id and the type |
| AmrReader.FirstBlankRecordsNothing | utils/AmrReader.py:29-43 | the first blank line records nothing, whatever precedes it |
| AmrReader.AttrFieldsType | utils/AmrReader.py:52-53 | fields without `snt-type` leave the type unchanged |
| AmrReader.TypeInherited | utils/AmrReader.py:31-53 | the type is never reset: lines without a `::snt-type` field keep the earlier type for the next block |
| AmrReader.ReadAttrHeader | utils/AmrReader.py:46-54 | the header-field loop computes the specified id, type or `IndexError` |
| AmrReader.ExtractAttrFile | utils/AmrReader.py:24-55 | `extract_attr_file` computes the specified map or exception |
| AmrReader.SentKeyIffDot | utils/AmrReader.py:78-84 | the regex `.*\.(.*)` matches an id exactly when it contains `.` |
| AmrReader.LastDotSkip | utils/AmrReader.py:78 | text without `.` after a prefix leaves the last `.` where it was |
| AmrReader.LastDot | utils/AmrReader.py:78 | the last `.` of `d + "." + l` is at `len(d)` when `l` has none |
| AmrReader.JoinLast | utils/AmrReader.py:76 | `sep.join(p)` is the join of all but the last piece, then `sep`, then the last piece |
| AmrReader.NoContainsNoDot | utils/AmrReader.py:76 | a text in which `.` does not occur has no `.` character |
| AmrReader.DocKeySplit | utils/AmrReader.py:76-84 | for an id with a `.`, the document id (`'.'.join(split('.')[:-1])`), `.` and the regex's sentence key give back the id, and the key has no `.` |
| AmrReader.LoadFieldsKeep | utils/AmrReader.py:91-99 | header fields never touch the buffer or the corpus |
| AmrReader.FinalBlockNotStored | utils/AmrReader.py:67-104 | lines after the last blank line are never stored |
| AmrReader.StoreFiled | utils/AmrReader.py:75-85 | storing a block puts it under the id's document and key, with the type from the attribute map |
| AmrReader.LoadLineInv | utils/AmrReader.py:67-102 | one line keeps the buffer made of whole lines and every stored entry filed under its id |
| AmrReader.LoadLinesInv | utils/AmrReader.py:67-102 | the same over any lines |
| AmrReader.LoadAmrFiled | utils/AmrReader.py:57-104 | every stored block sits at `corpus[doc][key]`; `doc.key` is an id of the attribute map; its type is the map's; its text is non-empty whole lines |
| AmrReader.ReadLoadHeader | utils/AmrReader.py:91-99 | the header-field loop computes the specified id, tokens or `IndexError` |
| AmrReader.FlushBlock | utils/AmrReader.py:70-88 | the end of a block computes the specified storage, `NameError` or `AttributeError` |
| AmrReader.LoadAmrFile | utils/AmrReader.py:57-104 | `load_amr` computes the specified corpus or exception |
| AmrReader.LastProxy | utils/AmrReader.py:114 | the last position below `n` where `-proxy.txt` starts, or none |
| AmrReader.ProxyMatch | utils/AmrReader.py:114-121 | `.*-(.*)-proxy.txt` uses the last `-proxy.txt` and the last `-` before it; it fails exactly when no `-` precedes any `-proxy.txt` |
| AmrReader.SplitName | utils/AmrReader.py:114-121 | the split name is the hyphen-free text between that `-` and that suffix |

## Left out

- The AMR library (`amr_hackathon.amr`) is not part of this model. String parsing,
  `concepts()`, `triples(...)`, `reentrancies()`, `alignments()` and
  `var2concept()` are inputs. An element's text is a plain string.
  `var2concept()[v]._name` and `var2c[v].__str__()` are taken to be the same text.
- `d(align_key)` is modelled as the element's text. The source always passes the
  key `''`, because `align = role_align = {}`.
- The PropBank XML loading is out: the table is given as a map. A role entry
  without an `n` or `f` attribute (a `KeyError` in the source) is not modelled.
- Python truthiness of graph elements is out: it is an input set (`Graph.falsy`).
- Excluded I/O and plumbing: file reading, pickle caching, every `write_*` method,
  the corpus drivers, the `os.walk` loops of `build_corpus`, the CLI, the logger and
  the commented-out spaCy code.
  - `build_corpus`'s lookup of an unknown split name is not modelled.
  - `load_amr`'s `amr_counter` is not modelled: it is counted but never read.
- `get_all_amr_string(concept_var, sep, left)` of the CMap version ignores `sep` and
  `left`, so they are not modelled.
- Aliasing of the record lists is not modelled. Records are values. The list a
  converter returns is the dict it holds, shown by the `Convert` contracts.
- DepthFirst.Traverse: the source loop can run forever when a cycle avoids every
  re-entrant element. The model carries a ghost bound on the number of pops and
  requires that the walk ends within it. Serialization and assembly inherit this
  requirement.
- Assembly.AssembleRows: `WalksEnd` asks that the walks from the agent and the
  emitted patients of every aligned record end. The source starts no walk after an
  exception in an earlier record or patient, so such later walks need not end in
  the source but must end in the model.
- DepthFirst.ReentrancyBound: the counter starts at 0 and pushing is allowed while
  `entry <= reentrancies + 1`. So the code allows `reentrancies[v] + 2` visits,
  and the model proves that bound, not `+ 1`.
- Assembly.ParseInt: `int()` is modelled on ASCII digits with an optional sign.
  Python also accepts surrounding whitespace, underscores between digits and
  non-ASCII digits. Such offsets are treated as `ValueError`.
- RoleClassifier.ArgDigit: only the ASCII digits `0`-`9` after `:ARG` are
  accepted. Python's `int()` also accepts any other Unicode decimal digit there
  (`:ARG٣` gives 3), which the model treats as `ValueError`.
- RoleClassifier.SplitSense: `\d` and `$` are modelled on ASCII digits and the end
  of the string. Python also accepts Unicode digits and a match before a final
  line break. Concept names are taken to hold no line break.
- AmrReader.SplitName: the regex `.` is modelled as matching every character.
  File names are taken to hold no line break.
- PyStr.LowerAscii: only ASCII letters are lowered. The one comparison made with
  it, against `pag`, comes out the same.

## Findings

| source | as written | input that shows it | evidently intended | confidence | as-written member | corrected member |
|---|---|---|---|---|---|---|
| amr_lib/AMRtoTriples.py:16-98 | `self.triples` is created in `__init__` and never reset, so a second `convert()` runs both passes over the previous result. A record made only by pass 2 gets its patients appended again. | one concept variable `a` with the single edge `(a, :ARG0-of, b)`, with `b` bound to `x-00`: `b`'s patients are `[a]` after one `convert` and `[a, a]` after two | reset the dict at the start of `convert`, as `AMRtoCMap.build_CMap` does at amr_lib/AMRtoCMap.py:75 | low; not executed | TriplesConverter.ConvertTwiceDuplicates | TriplesConverter.AmrToTriples.ConvertFresh |
