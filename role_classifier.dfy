/**
 * The role classifier (`is_agent` and `fixing_annotation`): does an argument
 * edge of a predicate fill the PropBank role marked as prototypical agent (`pag`)?
 */
module RoleClassifier {
  import opened Wrappers
  import opened PyStr
  import opened AmrGraph

  /** One `<role n=... f=...>` entry of a PropBank roleset. */
  datatype Role = Role(n: string, f: string)

  /** The PropBank table: roleset id (`stem.NN`) to the roleset's roles, in document order. */
  type RoleTable = map<string, seq<Role>>

  /** `(.*)-(\d*)$` matches `c` with the hyphen at position `i`. */
  predicate SenseSplitAt(c: string, i: int) {
    0 <= i < |c| && c[i] == '-' && AllDigits(c[i + 1..])
  }

  /**
   * `re.match(r'(.*)-(\d*)$', c)` as the pair (stem, sense number). The split
   * point is unique, because the digits after it contain no hyphen; when there is
   * none, `m.group` is called on `None` and raises.
   */
  function SplitSense(c: string): (r: Result<(string, string)>)
    ensures r.Ok? ==> exists i :: SenseSplitAt(c, i) && r.value == (c[..i], c[i + 1..])
    ensures r.Err? <==> forall i :: !SenseSplitAt(c, i)
  {
    match LastIndexOf(c, '-')
    case None => Err(AttributeError("re.match(r'(.*)-(\\d*)$') found no sense number"))
    case Some(i) =>
      if AllDigits(c[i + 1..]) then Ok((c[..i], c[i + 1..]))
      else
        assert forall j :: 0 <= j < i ==> !SenseSplitAt(c, j) by {
          forall j | 0 <= j < i ensures !SenseSplitAt(c, j) {
            assert c[j + 1..][i - j - 1] == '-';
          }
        }
        Err(AttributeError("re.match(r'(.*)-(\\d*)$') found no sense number"))
  }

  /**
   * `re.match(r':ARG(.).*', role)` followed by `int(m.group(1))`: the one
   * character after `:ARG`, which must be a digit.
   */
  function ArgDigit(role: string): (r: Result<char>)
    ensures r.Ok? <==> |role| >= 5 && role[..4] == ":ARG" && IsDigit(role[4])
    ensures r.Ok? ==> r.value == role[4]
  {
    if |role| < 5 || role[..4] != ":ARG" || role[4] == '\n' then
      Err(AttributeError("re.match(r':ARG(.).*') did not match"))
    else if !IsDigit(role[4]) then Err(ValueError("int() of a non-digit"))
    else Ok(role[4])
  }

  /** `fixing_annotation`: the roleset id, with `-` turned into `_` in the lemma when `stem.NN` is absent. */
  function FixingAnnotation(pb: RoleTable, stem: string, n: string): string {
    if stem + "." + n !in pb then ReplaceChar(stem, '-', '_') + "." + n else stem + "." + n
  }

  /** `f.lower() == 'pag'`. */
  predicate IsPag(f: string) {
    LowerAscii(f) == "pag"
  }

  /** The early-return scan over `roleset.getElementsByTagName('role')`. */
  function HasPagRole(roles: seq<Role>, n: string): (b: bool)
    ensures b <==> exists i :: 0 <= i < |roles| && roles[i].n == n && IsPag(roles[i].f)
  {
    if roles == [] then false
    else if roles[0].n == n && IsPag(roles[0].f) then true
    else
      var b := HasPagRole(roles[1..], n);
      assert forall i :: 1 <= i < |roles| ==> roles[i] == roles[1..][i - 1];
      b
  }

  /** `is_agent(rel, concept)`, where `concept` is the text of the concept bound to the predicate variable. */
  function IsAgent(pb: RoleTable, rel: Edge, concept: string): Result<bool> {
    match SplitSense(concept)
    case Err(e) => Err(e)
    case Ok((stem, n)) =>
      if n == "00" then Ok(false)
      else
        var key := FixingAnnotation(pb, stem, n);
        if key !in pb then Err(KeyError(key))
        else
          match ArgDigit(rel.role)
          case Err(e) => Err(e)
          case Ok(d) => Ok(HasPagRole(pb[key], [d]))
  }

  /**
   * What `is_agent` decides. A malformed concept raises; sense `00` is never an
   * agent and is decided before the table is consulted; otherwise the roleset is
   * `stem.NN`, or `stem` with hyphens made underscores when `stem.NN` is absent
   * (one fallback, not checked again), a roleset still missing raises `KeyError`,
   * and the edge is an agent exactly when some role has number equal to the digit
   * after `:ARG` and function tag `pag` in any letter case.
   */
  lemma IsAgentSpec(pb: RoleTable, rel: Edge, concept: string)
    ensures SplitSense(concept).Err? ==> IsAgent(pb, rel, concept).Err?
    ensures SplitSense(concept).Ok? && SplitSense(concept).value.1 == "00" ==> IsAgent(pb, rel, concept) == Ok(false)
    ensures var sp := SplitSense(concept);
      var r := IsAgent(pb, rel, concept);
      sp.Ok? && sp.value.1 != "00" ==>
        var plain := sp.value.0 + "." + sp.value.1;
        var key := if plain in pb then plain else ReplaceChar(sp.value.0, '-', '_') + "." + sp.value.1;
        && (key !in pb ==> r == Err(KeyError(key)))
        && (key in pb ==> (r.Ok? <==> ArgDigit(rel.role).Ok?))
        && (r.Ok? ==> (r.value <==> exists i :: 0 <= i < |pb[key]| && pb[key][i].n == [rel.role[4]] && IsPag(pb[key][i].f)))
  {
  }
}
