/**
 * The few Python string operations the core relies on, with the meaning Python
 * gives them: `str.isspace`, `rstrip()`, the `in` substring test, `split(sep)`,
 * `sep.join(...)`, the argument-less `split()`, `replace` of one character and
 * `lower()` restricted to the comparisons the core makes.
 */
module PyStr {
  import opened Wrappers

  /** Python's `str.isspace()` for a single character (the Unicode White_Space set Python uses). */
  predicate IsSpace(c: char) {
    var k := c as int;
    k == 32 || 9 <= k <= 13 || 28 <= k <= 31 || k == 0x85 || k == 0xA0 || k == 0x1680
    || 0x2000 <= k <= 0x200A || k == 0x2028 || k == 0x2029 || k == 0x202F || k == 0x205F
    || k == 0x3000
  }

  predicate IsDigit(c: char) {
    '0' <= c <= '9'
  }

  predicate AllDigits(s: string) {
    forall i :: 0 <= i < |s| ==> IsDigit(s[i])
  }

  /** A run of characters that `split()` returns as one token. */
  predicate IsWord(w: string) {
    w != [] && forall i :: 0 <= i < |w| ==> !IsSpace(w[i])
  }

  /** `s.rstrip()`: the longest prefix of `s` that does not end in whitespace. */
  function RStrip(s: string): (r: string)
    ensures r <= s
    ensures r == [] || !IsSpace(r[|r| - 1])
    ensures forall i :: |r| <= i < |s| ==> IsSpace(s[i])
    decreases |s|
  {
    if s != [] && IsSpace(s[|s| - 1]) then RStrip(s[..|s| - 1]) else s
  }

  /** `sep` occurs in `s` starting at position `i`. */
  predicate OccursAt(s: string, sep: string, i: int) {
    0 <= i && i + |sep| <= |s| && s[i..i + |sep|] == sep
  }

  /** The first position at or after `i` at which `sep` occurs in `s`. */
  function IndexFrom(s: string, sep: string, i: nat): (r: Option<nat>)
    requires sep != []
    ensures r.Some? ==> i <= r.value && OccursAt(s, sep, r.value)
    ensures r.Some? ==> forall j :: i <= j < r.value ==> !OccursAt(s, sep, j)
    ensures r.None? ==> forall j :: i <= j ==> !OccursAt(s, sep, j)
    decreases |s| - i
  {
    if i + |sep| > |s| then None
    else if OccursAt(s, sep, i) then Some(i)
    else IndexFrom(s, sep, i + 1)
  }

  /** The first position at which `sep` occurs in `s`, as `str.find` computes it. */
  function IndexOf(s: string, sep: string): (r: Option<nat>)
    requires sep != []
    ensures r.Some? ==> OccursAt(s, sep, r.value)
    ensures r.Some? ==> forall i :: 0 <= i < r.value ==> !OccursAt(s, sep, i)
    ensures r.None? ==> forall i :: !OccursAt(s, sep, i)
  {
    IndexFrom(s, sep, 0)
  }

  /** Python's `t in s` for a non-empty `t`. */
  predicate Contains(s: string, t: string)
    requires t != []
  {
    IndexOf(s, t).Some?
  }

  /** `sep.join(parts)`. */
  function Join(sep: string, parts: seq<string>): string {
    if parts == [] then ""
    else if |parts| == 1 then parts[0]
    else parts[0] + sep + Join(sep, parts[1..])
  }

  /**
   * `s.split(sep)` for a non-empty separator: the pieces between successive
   * left-to-right occurrences of `sep`. Joining them back gives `s`, and there is
   * exactly one piece precisely when `sep` does not occur in `s`.
   */
  function Split(s: string, sep: string): (r: seq<string>)
    requires sep != []
    ensures |r| >= 1
    ensures Join(sep, r) == s
    ensures |r| == 1 <==> !Contains(s, sep)
    ensures forall k :: 0 <= k < |r| ==> !Contains(r[k], sep)
    decreases |s|
  {
    match IndexOf(s, sep)
    case None => [s]
    case Some(i) =>
      var rest := Split(s[i + |sep|..], sep);
      assert s == s[..i] + sep + s[i + |sep|..];
      NoEarlierOccurrence(s, sep, i);
      [s[..i]] + rest
  }

  /**
   * Every piece but the last ends where the leftmost occurrence of `sep` in the
   * text that remains from that piece on starts.
   */
  lemma {:induction false} SplitLeftmost(s: string, sep: string, k: nat)
    requires sep != [] && k + 1 < |Split(s, sep)|
    ensures var r := Split(s, sep);
      IndexOf(Join(sep, r[k..]), sep) == Some(|r[k]|)
    decreases k
  {
    var r := Split(s, sep);
    if k == 0 {
      var i := IndexOf(s, sep).value;
      assert r == [s[..i]] + Split(s[i + |sep|..], sep);
      assert r[0..] == r;
    } else {
      var i := IndexOf(s, sep).value;
      var rest := s[i + |sep|..];
      assert r == [s[..i]] + Split(rest, sep);
      assert r[k..] == Split(rest, sep)[k - 1..];
      SplitLeftmost(rest, sep, k - 1);
    }
  }

  /** The first piece ends at the leftmost occurrence of `sep` in `s`, when there is one. */
  lemma SplitFirst(s: string, sep: string)
    requires sep != [] && |Split(s, sep)| > 1
    ensures IndexOf(s, sep) == Some(|Split(s, sep)[0]|)
  {
    SplitLeftmost(s, sep, 0);
    assert Split(s, sep)[0..] == Split(s, sep);
  }

  /** A prefix that ends before the first occurrence of `sep` does not contain it. */
  lemma NoEarlierOccurrence(s: string, sep: string, i: nat)
    requires sep != [] && IndexOf(s, sep) == Some(i)
    ensures !Contains(s[..i], sep)
  {
    var p := s[..i];
    forall k ensures !OccursAt(p, sep, k) {
      if 0 <= k && k + |sep| <= |p| {
        PrefixSlice(s, i, k, k + |sep|);
        assert !OccursAt(s, sep, k);
      }
    }
  }

  /** A slice of a prefix is the same slice of the whole. */
  lemma PrefixSlice(s: string, i: nat, a: nat, b: nat)
    requires a <= b <= i <= |s|
    ensures s[..i][a..b] == s[a..b]
  {
    assert |s[..i][a..b]| == |s[a..b]|;
    forall m | 0 <= m < b - a ensures s[..i][a..b][m] == s[a..b][m] {
      assert s[..i][a..b][m] == s[..i][a + m] == s[a + m];
    }
  }

  /** The end of the non-whitespace run that starts at `i`. */
  function TokenEnd(s: string, i: nat): (j: nat)
    requires i <= |s|
    ensures i <= j <= |s|
    ensures forall k :: i <= k < j ==> !IsSpace(s[k])
    ensures j == |s| || IsSpace(s[j])
    decreases |s| - i
  {
    if i < |s| && !IsSpace(s[i]) then TokenEnd(s, i + 1) else i
  }

  /** The characters of `s` that are not whitespace, in order. */
  function NonSpace(s: string): string {
    if s == [] then ""
    else if IsSpace(s[0]) then NonSpace(s[1..])
    else [s[0]] + NonSpace(s[1..])
  }

  function Concat(ws: seq<string>): string {
    if ws == [] then "" else ws[0] + Concat(ws[1..])
  }

  /**
   * `s.split()` with no argument: the maximal whitespace-free runs of `s`. Every
   * token is a non-empty word, and together the tokens hold exactly the
   * non-whitespace characters of `s`, in order.
   */
  function SplitWs(s: string): (r: seq<string>)
    ensures forall k :: 0 <= k < |r| ==> IsWord(r[k])
    ensures Concat(r) == NonSpace(s)
    decreases |s|
  {
    if s == [] then []
    else if IsSpace(s[0]) then SplitWs(s[1..])
    else
      var j := TokenEnd(s, 0);
      WordNonSpace(s, j);
      [s[..j]] + SplitWs(s[j..])
  }

  /** The run that starts at `i` ends at the first whitespace at or after `i`, or at the end. */
  lemma TokenEndAt(s: string, i: nat, j: nat)
    requires i <= j <= |s|
    requires forall k :: i <= k < j ==> !IsSpace(s[k])
    requires j == |s| || IsSpace(s[j])
    ensures TokenEnd(s, i) == j
  {
  }

  /** A word is a single token. */
  lemma SplitWsWord(w: string)
    requires IsWord(w)
    ensures SplitWs(w) == [w]
  {
    TokenEndAt(w, 0, |w|);
    assert w[..|w|] == w && w[|w|..] == [];
  }

  /** A whitespace character separates the tokens on its left from those on its right. */
  lemma {:induction false} SplitWsSpace(a: string, c: char, b: string)
    requires IsSpace(c)
    ensures SplitWs(a + [c] + b) == SplitWs(a) + SplitWs(b)
    decreases |a|
  {
    if a == [] {
      assert (a + [c] + b)[0] == c && (a + [c] + b)[1..] == b;
    } else if IsSpace(a[0]) {
      SplitWsSpace(a[1..], c, b);
      SpaceBeforeSpace(a, c, b);
    } else {
      SplitWsSpace(a[TokenEnd(a, 0)..], c, b);
      WordBeforeSpace(a, c, b);
    }
  }

  /** The induction step of `SplitWsSpace` when `a` starts with whitespace. */
  lemma SpaceBeforeSpace(a: string, c: char, b: string)
    requires a != [] && IsSpace(a[0])
    requires SplitWs(a[1..] + [c] + b) == SplitWs(a[1..]) + SplitWs(b)
    ensures SplitWs(a + [c] + b) == SplitWs(a) + SplitWs(b)
  {
    var s := a + [c] + b;
    assert s[0] == a[0] && s[1..] == a[1..] + [c] + b;
    assert SplitWs(s) == SplitWs(s[1..]);
    assert SplitWs(a) == SplitWs(a[1..]);
  }

  /** The induction step of `SplitWsSpace` when `a` starts with a word. */
  lemma WordBeforeSpace(a: string, c: char, b: string)
    requires IsSpace(c) && a != [] && !IsSpace(a[0])
    requires SplitWs(a[TokenEnd(a, 0)..] + [c] + b) == SplitWs(a[TokenEnd(a, 0)..]) + SplitWs(b)
    ensures SplitWs(a + [c] + b) == SplitWs(a) + SplitWs(b)
  {
    TokenBeforeSpace(a, c, b);
  }

  /** The first token of `a + [c] + b`, for a whitespace `c`, is the first token of `a`. */
  lemma TokenBeforeSpace(a: string, c: char, b: string)
    requires IsSpace(c) && a != [] && !IsSpace(a[0])
    ensures var s := a + [c] + b;
      var j := TokenEnd(a, 0);
      && 0 < j && s[0] == a[0] && TokenEnd(s, 0) == j && s[..j] == a[..j] && s[j..] == a[j..] + [c] + b
  {
    var s := a + [c] + b;
    var j := TokenEnd(a, 0);
    assert forall k :: 0 <= k < j ==> s[k] == a[k];
    assert j < |s| && s[j] == (if j < |a| then a[j] else c);
    TokenEndAt(s, 0, j);
    assert s[..j] == a[..j];
    assert s[j..] == a[j..] + [c] + b;
  }

  lemma {:induction false} WordNonSpace(s: string, j: nat)
    requires j <= |s|
    requires forall k :: 0 <= k < j ==> !IsSpace(s[k])
    ensures NonSpace(s) == s[..j] + NonSpace(s[j..])
    decreases j
  {
    if j > 0 {
      WordNonSpace(s[1..], j - 1);
      assert s[1..][j - 1..] == s[j..];
      assert [s[0]] + s[1..][..j - 1] == s[..j];
    }
  }

  /** `s.replace(a, b)` for single characters `a` and `b`. */
  function ReplaceChar(s: string, a: char, b: char): (r: string)
    ensures |r| == |s|
    ensures forall i :: 0 <= i < |s| ==> r[i] == (if s[i] == a then b else s[i])
  {
    if s == [] then "" else [if s[0] == a then b else s[0]] + ReplaceChar(s[1..], a, b)
  }

  function LowerChar(c: char): char {
    if 'A' <= c <= 'Z' then (c as int + 32) as char else c
  }

  /**
   * `s.lower()` on ASCII letters. Python lowers every cased Unicode letter, but no
   * letter outside ASCII lowers to `p`, `a` or `g`, so the one comparison the core
   * makes (`f.lower() == 'pag'`) comes out the same.
   */
  function LowerAscii(s: string): (r: string)
    ensures |r| == |s|
    ensures forall i :: 0 <= i < |s| ==> r[i] == LowerChar(s[i])
  {
    if s == [] then "" else [LowerChar(s[0])] + LowerAscii(s[1..])
  }

  /** `' ' * n`. */
  function Spaces(n: nat): (r: string)
    ensures |r| == n && forall i :: 0 <= i < n ==> r[i] == ' '
  {
    if n == 0 then "" else " " + Spaces(n - 1)
  }

  /** The last position of `c` in `s`, as `str.rfind` computes it. */
  function LastIndexOf(s: string, c: char): (r: Option<nat>)
    ensures r.Some? ==> r.value < |s| && s[r.value] == c
    ensures r.Some? ==> forall i :: r.value < i < |s| ==> s[i] != c
    ensures r.None? ==> forall i :: 0 <= i < |s| ==> s[i] != c
    decreases |s|
  {
    if s == [] then None
    else if s[|s| - 1] == c then Some(|s| - 1)
    else LastIndexOf(s[..|s| - 1], c)
  }
}
