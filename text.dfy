/**
 * The JavaScript string primitives the assistant is built on: `toLowerCase`,
 * `toUpperCase` on one character, the regular-expression class `\s`, `trim`,
 * `includes`, `startsWith`, and case-insensitive (`/i`) search and replace
 * with an alternation of literal words.
 *
 * Case mapping is restricted to ASCII and Latin-1. Every keyword the
 * assistant looks for is written in lower-case ASCII plus `é`/`è`, and for
 * such a keyword character `k` the `/i` flag accepts exactly the characters
 * `c` with `Lower(c) == k`; so a case-insensitive match is modelled as an
 * exact match against the lowered text.
 */
module Text {
  import opened Wrappers

  /** `toLowerCase` on one character: ASCII and Latin-1 capitals. */
  function Lower(c: char): (r: char)
    ensures !('A' <= r <= 'Z')
    ensures 'A' <= c <= 'Z' ==> 'a' <= r <= 'z'
    ensures r != c ==> 'a' <= r <= 'z' || ('\U{00E0}' <= r <= '\U{00FE}' && r != '\U{00F7}')
  {
    if 'A' <= c <= 'Z' || ('\U{00C0}' <= c <= '\U{00DE}' && c != '\U{00D7}') then
      (c as int + 32) as char
    else
      c
  }

  /** `toUpperCase` on one character, for ASCII and Latin-1 small letters. */
  function Upper(c: char): (r: char)
    ensures !('a' <= r <= 'z')
    ensures 'a' <= c <= 'z' ==> 'A' <= r <= 'Z'
  {
    if 'a' <= c <= 'z' || ('\U{00E0}' <= c <= '\U{00FE}' && c != '\U{00F7}') then
      (c as int - 32) as char
    else if c == '\U{00FF}' then '\U{0178}'
    else if c == '\U{00B5}' then '\U{039C}'
    else c
  }

  /** `String.prototype.toLowerCase`: character by character, length kept. */
  function LowerStr(s: string): (r: string)
    ensures |r| == |s|
    ensures forall i :: 0 <= i < |s| ==> r[i] == Lower(s[i])
  {
    seq(|s|, i requires 0 <= i < |s| => Lower(s[i]))
  }

  /** Lowering twice is lowering once. */
  lemma LowerIdempotent(c: char)
    ensures Lower(Lower(c)) == Lower(c)
  {
  }

  /** Upper-casing a small letter and lowering it again gives the letter back. */
  lemma LowerUndoesUpper(c: char)
    requires 'a' <= c <= 'z' || ('\U{00E0}' <= c <= '\U{00FE}' && c != '\U{00F7}')
    ensures Upper(c) != c && Lower(Upper(c)) == c
  {
  }

  /** The characters of the regular-expression class `\s` (also what `trim` removes). */
  predicate IsWhitespace(c: char)
  {
    || c == '\t' || c == '\n' || c == '\U{000B}' || c == '\U{000C}' || c == '\r'
    || c == ' ' || c == '\U{00A0}' || c == '\U{1680}'
    || ('\U{2000}' <= c <= '\U{200A}')
    || c == '\U{2028}' || c == '\U{2029}' || c == '\U{202F}' || c == '\U{205F}'
    || c == '\U{3000}' || c == '\U{FEFF}'
  }

  predicate IsDigit(c: char)
  {
    '0' <= c <= '9'
  }

  predicate NoWhitespace(s: string)
  {
    forall i :: 0 <= i < |s| ==> !IsWhitespace(s[i])
  }

  /** Drops the leading run of whitespace. */
  function TrimStart(s: string): (r: string)
    ensures |r| <= |s| && r == s[|s| - |r|..]
    ensures forall i :: 0 <= i < |s| - |r| ==> IsWhitespace(s[i])
    ensures r == [] || !IsWhitespace(r[0])
  {
    if s != [] && IsWhitespace(s[0]) then TrimStart(s[1..]) else s
  }

  /** Drops the trailing run of whitespace. */
  function TrimEnd(s: string): (r: string)
    ensures |r| <= |s| && r == s[..|r|]
    ensures forall i :: |r| <= i < |s| ==> IsWhitespace(s[i])
    ensures r == [] || !IsWhitespace(r[|r| - 1])
  {
    if s != [] && IsWhitespace(s[|s| - 1]) then TrimEnd(s[..|s| - 1]) else s
  }

  /**
   * `r` is what is left of `s` once `a` leading and some trailing
   * characters are cut off, and every character cut off is whitespace.
   */
  predicate TrimmedAt(s: string, r: string, a: int)
  {
    && 0 <= a && a + |r| <= |s| && r == s[a..a + |r|]
    && (forall i :: 0 <= i < a ==> IsWhitespace(s[i]))
    && (forall i :: a + |r| <= i < |s| ==> IsWhitespace(s[i]))
  }

  /**
   * `String.prototype.trim`: the result is a slice of `s` that neither
   * starts nor ends with whitespace, and everything cut off is whitespace.
   */
  function Trim(s: string): (r: string)
    ensures exists a :: TrimmedAt(s, r, a)
    ensures r == [] || (!IsWhitespace(r[0]) && !IsWhitespace(r[|r| - 1]))
  {
    var t := TrimStart(s);
    var r := TrimEnd(t);
    assert TrimmedAt(s, r, |s| - |t|);
    r
  }

  /** Trimming leaves nothing exactly when the text is all whitespace. */
  lemma TrimEmptyIffBlank(s: string)
    ensures Trim(s) == [] <==> forall i :: 0 <= i < |s| ==> IsWhitespace(s[i])
  {
    var t := TrimStart(s);
    if Trim(s) == [] {
      assert t == [];
    } else {
      var r := Trim(s);
      assert r == TrimEnd(t) && r == t[..|r|];
      assert s[|s| - |t|] == r[0];
    }
  }

  /** Text that neither starts nor ends with whitespace is left as it is. */
  lemma TrimKeepsUnpadded(s: string)
    requires s == [] || (!IsWhitespace(s[0]) && !IsWhitespace(s[|s| - 1]))
    ensures Trim(s) == s
  {
    assert TrimStart(s) == s;
  }

  /** One leading space is dropped from text that is otherwise trimmed. */
  lemma TrimLeadingSpace(t: string)
    requires t != [] && !IsWhitespace(t[0]) && !IsWhitespace(t[|t| - 1])
    ensures Trim(" " + t) == t
  {
    assert (" " + t)[0] == ' ' && (" " + t)[1..] == t;
    assert TrimStart(t) == t;
    TrimKeepsUnpadded(t);
  }

  /** `p` occurs in `s` starting at index `i`. */
  predicate OccursAt(s: string, p: string, i: int)
  {
    0 <= i && i + |p| <= |s| && s[i..i + |p|] == p
  }

  /** `String.prototype.includes`. */
  predicate Contains(s: string, p: string)
  {
    exists i | 0 <= i <= |s| :: OccursAt(s, p, i)
  }

  /** `String.prototype.startsWith`. */
  predicate StartsWith(s: string, p: string)
  {
    OccursAt(s, p, 0)
  }

  /**
   * The alternative that a regular expression `(p0|p1|...)` matches at index
   * `i` of the lowered text `l`: alternatives are tried in order and the
   * first that fits wins.
   */
  function AltAt(l: string, i: nat, alts: seq<string>): (r: Option<string>)
    ensures r.Some? ==> r.value in alts && OccursAt(l, r.value, i)
    ensures r.None? <==> forall p :: p in alts ==> !OccursAt(l, p, i)
  {
    if alts == [] then None
    else if OccursAt(l, alts[0], i) then Some(alts[0])
    else AltAt(l, i, alts[1..])
  }

  /**
   * The order of the alternatives decides: when alternative `j` fits at `i`
   * and none listed before it does, it is the one matched.
   */
  lemma {:induction false} AltAtIsFirst(l: string, i: nat, alts: seq<string>, j: nat)
    requires j < |alts| && OccursAt(l, alts[j], i)
    requires forall j' :: 0 <= j' < j ==> !OccursAt(l, alts[j'], i)
    ensures AltAt(l, i, alts) == Some(alts[j])
    decreases j
  {
    if j > 0 {
      assert !OccursAt(l, alts[0], i);
      AltAtIsFirst(l, i, alts[1..], j - 1);
    }
  }

  /** Every alternative is non-empty, as every pattern in the source is. */
  predicate NonEmptyWords(alts: seq<string>)
  {
    forall p :: p in alts ==> p != []
  }

  /**
   * The leftmost match at or after `i`: the index and the alternative that
   * matches there; no index between `i` and it has any match.
   */
  function FindFrom(l: string, i: nat, alts: seq<string>): (r: Option<(nat, string)>)
    requires i <= |l|
    decreases |l| - i
    ensures r.Some? ==> i <= r.value.0 <= |l| && AltAt(l, r.value.0, alts) == Some(r.value.1)
    ensures r.Some? ==> forall j :: i <= j < r.value.0 ==> AltAt(l, j, alts).None?
    ensures r.None? ==> forall j :: i <= j <= |l| ==> AltAt(l, j, alts).None?
  {
    var here := AltAt(l, i, alts);
    if here.Some? then Some((i, here.value))
    else if i == |l| then None
    else FindFrom(l, i + 1, alts)
  }

  /**
   * `s.replace(/p0|p1|.../i, rep)` with a non-global expression: only the
   * leftmost match is replaced; without a match `s` is returned unchanged.
   */
  function ReplaceFirst(s: string, alts: seq<string>, rep: string): (r: string)
  {
    var l := LowerStr(s);
    match FindFrom(l, 0, alts)
    case None => s
    case Some((i, p)) => s[..i] + rep + s[i + |p|..]
  }

  /**
   * `s.replace(/p0|p1|.../gi, rep)` from index `i` on: at each index the
   * first fitting alternative is replaced and the scan resumes after it;
   * otherwise the character is kept. Characters come from `s`, matching is
   * done on its lowered copy `l`.
   */
  function ReplaceAllFrom(s: string, l: string, i: nat, alts: seq<string>, rep: string): string
    requires |l| == |s| && i <= |s| && NonEmptyWords(alts)
    decreases |s| - i
  {
    if i == |s| then []
    else match AltAt(l, i, alts)
      case Some(p) => rep + ReplaceAllFrom(s, l, i + |p|, alts, rep)
      case None => [s[i]] + ReplaceAllFrom(s, l, i + 1, alts, rep)
  }

  function ReplaceAll(s: string, alts: seq<string>, rep: string): string
    requires NonEmptyWords(alts)
  {
    ReplaceAllFrom(s, LowerStr(s), 0, alts, rep)
  }

  /** A global replacement with nothing to match leaves the text as it is. */
  lemma {:induction false} ReplaceAllFromIdle(s: string, l: string, i: nat, alts: seq<string>, rep: string)
    requires |l| == |s| && i <= |s| && NonEmptyWords(alts)
    requires forall j :: i <= j < |s| ==> AltAt(l, j, alts).None?
    ensures ReplaceAllFrom(s, l, i, alts, rep) == s[i..]
    decreases |s| - i
  {
    if i < |s| {
      ReplaceAllFromIdle(s, l, i + 1, alts, rep);
      assert s[i..] == [s[i]] + s[i + 1..];
    }
  }

  /** A global replacement copies a stretch without matches as it is. */
  lemma {:induction false} ReplaceAllFromSkip(s: string, l: string, i: nat, k: nat, alts: seq<string>, rep: string)
    requires |l| == |s| && i <= k <= |s| && NonEmptyWords(alts)
    requires forall j :: i <= j < k ==> AltAt(l, j, alts).None?
    ensures ReplaceAllFrom(s, l, i, alts, rep) == s[i..k] + ReplaceAllFrom(s, l, k, alts, rep)
    decreases k - i
  {
    if i < k {
      assert ReplaceAllFrom(s, l, i, alts, rep) == [s[i]] + ReplaceAllFrom(s, l, i + 1, alts, rep);
      ReplaceAllFromSkip(s, l, i + 1, k, alts, rep);
      ConsSlice(s, i, k, ReplaceAllFrom(s, l, k, alts, rep));
    }
  }

  /** A slice is its first element followed by the rest of it. */
  lemma ConsSlice(s: string, i: nat, k: nat, rest: string)
    requires i < k <= |s|
    ensures [s[i]] + (s[i + 1..k] + rest) == s[i..k] + rest
  {
    assert s[i..k] == [s[i]] + s[i + 1..k];
  }

  /** Where an alternative matches, it is replaced and the scan resumes after it. */
  lemma ReplaceAllFromMatch(s: string, l: string, i: nat, alts: seq<string>, rep: string, p: string)
    requires |l| == |s| && i < |s| && NonEmptyWords(alts)
    requires AltAt(l, i, alts) == Some(p)
    ensures i + |p| <= |s|
    ensures ReplaceAllFrom(s, l, i, alts, rep) == rep + ReplaceAllFrom(s, l, i + |p|, alts, rep)
  {
  }

  /** The same, stated on whole texts: no occurrence, no change. */
  lemma ReplaceAllIdle(s: string, alts: seq<string>, rep: string)
    requires NonEmptyWords(alts)
    requires forall p, j :: p in alts && 0 <= j <= |s| ==> !OccursAt(LowerStr(s), p, j)
    ensures ReplaceAll(s, alts, rep) == s
  {
    ReplaceAllFromIdle(s, LowerStr(s), 0, alts, rep);
  }

  /**
   * One occurrence, at `k`, and none elsewhere: a global replacement
   * changes exactly that stretch.
   */
  lemma ReplaceAllSingle(s: string, k: nat, alts: seq<string>, rep: string, p: string)
    requires k < |s| && NonEmptyWords(alts)
    requires AltAt(LowerStr(s), k, alts) == Some(p)
    requires forall j :: 0 <= j < k ==> AltAt(LowerStr(s), j, alts).None?
    requires forall j :: k + |p| <= j < |s| ==> AltAt(LowerStr(s), j, alts).None?
    ensures k + |p| <= |s|
    ensures ReplaceAll(s, alts, rep) == s[..k] + rep + s[k + |p|..]
  {
    ReplaceAllFromSingle(s, LowerStr(s), k, alts, rep, p);
  }

  /** The same on a scan from the start over a given lowered copy. */
  lemma ReplaceAllFromSingle(s: string, l: string, k: nat, alts: seq<string>, rep: string, p: string)
    requires |l| == |s| && k < |s| && NonEmptyWords(alts)
    requires AltAt(l, k, alts) == Some(p)
    requires forall j :: 0 <= j < k ==> AltAt(l, j, alts).None?
    requires forall j :: k + |p| <= j < |s| ==> AltAt(l, j, alts).None?
    ensures k + |p| <= |s|
    ensures ReplaceAllFrom(s, l, 0, alts, rep) == s[..k] + rep + s[k + |p|..]
  {
    ReplaceAllFromMatch(s, l, k, alts, rep, p);
    assert ReplaceAllFrom(s, l, k + |p|, alts, rep) == s[k + |p|..] by {
      ReplaceAllFromIdle(s, l, k + |p|, alts, rep);
    }
    assert ReplaceAllFrom(s, l, 0, alts, rep) == s[..k] + ReplaceAllFrom(s, l, k, alts, rep) by {
      ReplaceAllFromSkip(s, l, 0, k, alts, rep);
      assert s[0..k] == s[..k];
    }
  }

  /**
   * A non-global replacement cuts the leftmost match out: the text before it
   * holds no match, and the replacement sits where the match was.
   */
  lemma ReplaceFirstFound(s: string, alts: seq<string>, rep: string, i: nat, p: string)
    requires i <= |s| && AltAt(LowerStr(s), i, alts) == Some(p)
    requires forall j :: 0 <= j < i ==> AltAt(LowerStr(s), j, alts).None?
    ensures i + |p| <= |s|
    ensures ReplaceFirst(s, alts, rep) == s[..i] + rep + s[i + |p|..]
  {
    var l := LowerStr(s);
    var r := FindFrom(l, 0, alts);
    assert r.Some? && r.value.0 == i;
  }
}
