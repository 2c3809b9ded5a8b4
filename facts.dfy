/**
 * The assistant's learned facts: how a key is derived from a fact, and the
 * `learnedFacts` object those keys index.
 *
 * A JavaScript object enumerates its own keys (`for...in`, `Object.keys`,
 * `JSON.stringify`) in a fixed order: first the keys that are array indices
 * (canonical decimal numerals below 2^32 - 1) in ascending numeric order,
 * then every other key in the order it was first assigned. The table below
 * is an association list kept in exactly that order, so listing it front to
 * back is what the source's `for...in` loops see.
 */
module Facts {
  import opened Wrappers
  import opened Text

  /**
   * `s.replace(/\s+/g, '_')`: every maximal run of whitespace becomes one
   * `_`. Read one character at a time, each character becomes `Lead` of the
   * text from it on.
   */
  function CollapseWhitespace(s: string): (r: string)
    ensures |r| <= |s|
    ensures r == [] <==> s == []
  {
    if s == [] then [] else Lead(s) + CollapseWhitespace(s[1..])
  }

  /**
   * What the first character of `s` becomes: a character that is not
   * whitespace is kept, whitespace followed by more whitespace is dropped,
   * and the last whitespace character of a run becomes `_`.
   */
  function Lead(s: string): (r: string)
    requires s != []
    ensures |r| <= 1
  {
    if !IsWhitespace(s[0]) then [s[0]]
    else if |s| > 1 && IsWhitespace(s[1]) then []
    else "_"
  }

  /** The collapsed text holds no whitespace. */
  lemma {:induction false} CollapseNoWhitespace(s: string)
    ensures NoWhitespace(CollapseWhitespace(s))
    decreases |s|
  {
    if s != [] {
      CollapseNoWhitespace(s[1..]);
      var lead, tail := Lead(s), CollapseWhitespace(s[1..]);
      forall i | 0 <= i < |lead + tail| ensures !IsWhitespace((lead + tail)[i]) {
        if i >= |lead| {
          assert (lead + tail)[i] == tail[i - |lead|];
        }
      }
    }
  }

  /** Every character of the collapsed text is `_` or a character of the text. */
  lemma {:induction false} CollapseChars(s: string)
    ensures forall c :: c in CollapseWhitespace(s) ==> c == '_' || c in s
    decreases |s|
  {
    if s != [] {
      CollapseChars(s[1..]);
      assert forall c :: c in s[1..] ==> c in s;
      assert forall c :: c in Lead(s) ==> c == '_' || c == s[0];
    }
  }

  /** Text without whitespace is left as it is. */
  lemma {:induction false} CollapseKeepsPlain(s: string)
    requires NoWhitespace(s)
    ensures CollapseWhitespace(s) == s
    decreases |s|
  {
    if s != [] {
      CollapseKeepsPlain(s[1..]);
      assert s == [s[0]] + s[1..];
    }
  }

  /** A run of whitespace alone becomes a single `_`. */
  lemma {:induction false} CollapseBlank(w: string)
    requires w != [] && forall i :: 0 <= i < |w| ==> IsWhitespace(w[i])
    ensures CollapseWhitespace(w) == "_"
    decreases |w|
  {
    if |w| > 1 {
      assert IsWhitespace(w[1]);
      CollapseBlank(w[1..]);
    }
  }

  /**
   * Collapsing works piece by piece when the cut does not fall inside a run
   * of whitespace: the left piece ends, or the right piece starts, with a
   * character that is not whitespace.
   */
  lemma {:induction false} CollapseConcat(a: string, b: string)
    requires (a != [] && !IsWhitespace(a[|a| - 1])) || (b != [] && !IsWhitespace(b[0]))
    ensures CollapseWhitespace(a + b) == CollapseWhitespace(a) + CollapseWhitespace(b)
    decreases |a|
  {
    if a == [] {
      assert a + b == b;
    } else {
      LeadOfConcat(a, b);
      if |a| == 1 {
        assert a[1..] + b == b;
      } else {
        assert a[1..][|a| - 2] == a[|a| - 1];
        CollapseConcat(a[1..], b);
      }
      ConcatAssociative(Lead(a), CollapseWhitespace(a[1..]), CollapseWhitespace(b));
    }
  }

  /** Away from a run that the cut splits, the first character of `a + b` becomes what it becomes in `a`. */
  lemma LeadOfConcat(a: string, b: string)
    requires a != []
    requires !IsWhitespace(a[|a| - 1]) || (b != [] && !IsWhitespace(b[0]))
    ensures (a + b)[1..] == a[1..] + b
    ensures Lead(a + b) == Lead(a)
  {
    assert (a + b)[0] == a[0];
    if |a| > 1 {
      assert (a + b)[1] == a[1];
    } else {
      assert b != [] ==> (a + b)[1] == b[0];
    }
  }

  lemma ConcatAssociative(x: string, y: string, z: string)
    ensures x + (y + z) == (x + y) + z
  {
  }

  /**
   * A word and the run of whitespace after it: the word is kept and the run
   * becomes one `_`, before the rest is collapsed in turn.
   */
  lemma CollapseWordThenBlank(word: string, blank: string, rest: string)
    requires word != [] && NoWhitespace(word)
    requires blank != [] && forall i :: 0 <= i < |blank| ==> IsWhitespace(blank[i])
    requires rest != [] && !IsWhitespace(rest[0])
    ensures CollapseWhitespace(word + blank + rest) == word + "_" + CollapseWhitespace(rest)
  {
    CollapseKeepsPlain(word);
    CollapseBlankThenRest(blank, rest);
    CollapseConcat(word, blank + rest);
    ConcatAssociative(word, blank, rest);
    ConcatAssociative(word, "_", CollapseWhitespace(rest));
  }

  /** A run of whitespace before a character that is kept becomes one `_`. */
  lemma CollapseBlankThenRest(blank: string, rest: string)
    requires blank != [] && forall i :: 0 <= i < |blank| ==> IsWhitespace(blank[i])
    requires rest != [] && !IsWhitespace(rest[0])
    ensures CollapseWhitespace(blank + rest) == "_" + CollapseWhitespace(rest)
  {
    CollapseConcat(blank, rest);
    CollapseBlank(blank);
  }

  /** The number of characters of a fact that make up its key. */
  const KeyWidth: nat := 30

  /**
   * `fact.substring(0, 30).toLowerCase().replace(/\s+/g, '_')`: the key a
   * fact is stored under. It is at most 30 characters long, holds no
   * whitespace, is already in lower case, and is empty only for an empty fact.
   */
  function FactKey(fact: string): (k: string)
    ensures |k| <= KeyWidth
    ensures NoWhitespace(k)
    ensures forall i :: 0 <= i < |k| ==> Lower(k[i]) == k[i]
    ensures k == [] <==> fact == []
  {
    var lowered := LowerStr(Head(fact));
    LoweredIsLower(Head(fact));
    CollapseNoWhitespace(lowered);
    CollapseChars(lowered);
    CollapseWhitespace(lowered)
  }

  /** `fact.substring(0, 30)`. */
  function Head(fact: string): (h: string)
    ensures |h| <= KeyWidth && |h| <= |fact| && h == fact[..|h|]
    ensures |h| == |fact| || |h| == KeyWidth
  {
    if |fact| <= KeyWidth then fact else fact[..KeyWidth]
  }

  /** Every character of a lowered text is its own lower case. */
  lemma LoweredIsLower(s: string)
    ensures forall c :: c in LowerStr(s) ==> Lower(c) == c
  {
    forall c | c in LowerStr(s) ensures Lower(c) == c {
      var i :| 0 <= i < |s| && LowerStr(s)[i] == c;
      LowerIdempotent(s[i]);
    }
  }

  /** Facts that agree on their first 30 characters share a key (the later one overwrites). */
  lemma FactKeyDependsOnHeadOnly(f: string, g: string)
    requires |f| >= KeyWidth && |g| >= KeyWidth && f[..KeyWidth] == g[..KeyWidth]
    ensures FactKey(f) == FactKey(g)
  {
  }

  /** A short fact without whitespace is its own key once lowered. */
  lemma ShortPlainFactKey(fact: string)
    requires |fact| <= KeyWidth && NoWhitespace(fact)
    ensures FactKey(fact) == LowerStr(fact)
  {
    assert NoWhitespace(LowerStr(fact)) by {
      forall i | 0 <= i < |fact| ensures !IsWhitespace(LowerStr(fact)[i]) {
        assert !IsWhitespace(fact[i]);
      }
    }
    CollapseKeepsPlain(LowerStr(fact));
  }

  /** Lowering neither creates nor removes whitespace. */
  lemma LowerKeepsWhitespace(c: char)
    ensures IsWhitespace(Lower(c)) <==> IsWhitespace(c)
  {
  }

  /**
   * Within the first 30 characters, a word followed by a run of whitespace
   * keys as the lowered word, one `_`, and then the key of what follows.
   */
  lemma FactKeyWordThenBlank(word: string, blank: string, rest: string)
    requires word != [] && NoWhitespace(word)
    requires blank != [] && forall i :: 0 <= i < |blank| ==> IsWhitespace(blank[i])
    requires rest != [] && !IsWhitespace(rest[0])
    requires |word| + |blank| + |rest| <= KeyWidth
    ensures FactKey(word + blank + rest) == LowerStr(word) + "_" + FactKey(rest)
  {
    var lw, lb, lr := LowerStr(word), LowerStr(blank), LowerStr(rest);
    assert LowerStr(word + blank + rest) == lw + lb + lr;
    assert NoWhitespace(lw) by {
      forall i | 0 <= i < |lw| ensures !IsWhitespace(lw[i]) {
        LowerKeepsWhitespace(word[i]);
      }
    }
    assert forall i :: 0 <= i < |lb| ==> IsWhitespace(lb[i]) by {
      forall i | 0 <= i < |lb| ensures IsWhitespace(lb[i]) {
        LowerKeepsWhitespace(blank[i]);
      }
    }
    assert !IsWhitespace(lr[0]) by {
      LowerKeepsWhitespace(rest[0]);
    }
    CollapseWordThenBlank(lw, lb, lr);
  }

  /** The words joined with `sep` between each two. */
  function JoinWords(words: seq<string>, sep: string): string
  {
    if words == [] then []
    else if |words| == 1 then words[0]
    else words[0] + sep + JoinWords(words[1..], sep)
  }

  /** Every word lowered. */
  function LowerEach(words: seq<string>): (r: seq<string>)
    ensures |r| == |words|
    ensures forall i :: 0 <= i < |words| ==> r[i] == LowerStr(words[i])
  {
    seq(|words|, i requires 0 <= i < |words| => LowerStr(words[i]))
  }

  /** Non-empty words without whitespace: what a fact typed with single spaces is made of. */
  predicate PlainWords(words: seq<string>)
  {
    forall i :: 0 <= i < |words| ==> words[i] != [] && NoWhitespace(words[i])
  }

  /**
   * A fact of plain words separated by single spaces, within the first 30
   * characters, is keyed by the lowered words joined with `_`; so
   * "le mot de passe wifi est solei" keys as "le_mot_de_passe_wifi_est_solei".
   */
  lemma {:induction false} FactKeyOfWords(words: seq<string>)
    requires words != [] && PlainWords(words)
    requires |JoinWords(words, " ")| <= KeyWidth
    ensures FactKey(JoinWords(words, " ")) == JoinWords(LowerEach(words), "_")
    decreases |words|
  {
    if |words| == 1 {
      ShortPlainFactKey(words[0]);
    } else {
      var rest := JoinWords(words[1..], " ");
      assert LowerEach(words)[1..] == LowerEach(words[1..]);
      JoinStartsWithFirst(words[1..], " ");
      FactKeyOfWords(words[1..]);
      FactKeyWordThenBlank(words[0], " ", rest);
    }
  }

  /**
   * A longer fact whose first 30 characters are plain words keys as those
   * words alone: "le mot de passe wifi est soleil2024" keys as
   * "le_mot_de_passe_wifi_est_solei", cut inside the password.
   */
  lemma FactKeyOfLongFact(fact: string, words: seq<string>)
    requires |fact| >= KeyWidth && fact[..KeyWidth] == JoinWords(words, " ")
    requires words != [] && PlainWords(words)
    ensures FactKey(fact) == JoinWords(LowerEach(words), "_")
  {
    FactKeyOfWords(words);
    assert Head(fact[..KeyWidth]) == Head(fact);
  }

  /** A join of plain words starts with the first word. */
  lemma JoinStartsWithFirst(words: seq<string>, sep: string)
    requires words != [] && PlainWords(words)
    ensures JoinWords(words, sep) != [] && JoinWords(words, sep)[0] == words[0][0]
  {
  }

  // ---------------------------------------------------------------------
  // The learnedFacts object

  predicate AllDigits(s: string)
  {
    forall i :: 0 <= i < |s| ==> IsDigit(s[i])
  }

  /** The value of a decimal numeral. */
  function NumeralValue(s: string): nat
    requires AllDigits(s)
  {
    if s == [] then 0
    else NumeralValue(s[..|s| - 1]) * 10 + (s[|s| - 1] as int - '0' as int)
  }

  /** The largest array index plus one: 2^32 - 1. */
  const ArrayIndexLimit: nat := 0xFFFF_FFFF

  /** A key that JavaScript treats as an array index: a canonical numeral below 2^32 - 1. */
  predicate IsArrayIndex(k: string)
  {
    && k != []
    && AllDigits(k)
    && (|k| == 1 || k[0] != '0')
    && NumeralValue(k) < ArrayIndexLimit
  }

  /** Where key `a` is enumerated relative to key `b`: array indices first, by value. */
  predicate EnumeratedNoLaterThan(a: string, b: string)
  {
    IsArrayIndex(b) ==> IsArrayIndex(a) && NumeralValue(a) <= NumeralValue(b)
  }

  /**
   * A table in enumeration order: keys are distinct, and every array-index
   * key is preceded only by array-index keys of no greater value.
   */
  ghost predicate InEnumerationOrder(t: seq<(string, string)>)
  {
    && (forall i, j :: 0 <= i < j < |t| ==> t[i].0 != t[j].0)
    && (forall i, j :: 0 <= i < j < |t| ==> EnumeratedNoLaterThan(t[i].0, t[j].0))
  }

  /** The `learnedFacts` object as its (key, value) pairs in enumeration order. */
  type FactTable = t: seq<(string, string)> | InEnumerationOrder(t) witness []

  /** The name JavaScript reserves for the prototype setter: assigning a string to it does nothing. */
  const ProtoKey: string := "__proto__"

  function Keys(t: seq<(string, string)>): (ks: seq<string>)
    ensures |ks| == |t| && forall i :: 0 <= i < |t| ==> ks[i] == t[i].0
  {
    seq(|t|, i requires 0 <= i < |t| => t[i].0)
  }

  /** The values in enumeration order: what `for (const key in learnedFacts)` visits. */
  function Values(t: seq<(string, string)>): (vs: seq<string>)
    ensures |vs| == |t| && forall i :: 0 <= i < |t| ==> vs[i] == t[i].1
  {
    seq(|t|, i requires 0 <= i < |t| => t[i].1)
  }

  /** The position of key `k`, if it is present. */
  function Find(t: seq<(string, string)>, k: string): (r: Option<nat>)
    ensures r.Some? ==> r.value < |t| && t[r.value].0 == k
    ensures r.None? <==> k !in Keys(t)
  {
    if t == [] then None
    else if t[0].0 == k then Some(0)
    else match Find(t[1..], k)
      case None => None
      case Some(i) => Some(i + 1)
  }

  /** `learnedFacts[k]`: the value stored under `k`, if any. */
  function Get(t: FactTable, k: string): (r: Option<string>)
    ensures r.Some? <==> k in Keys(t)
    ensures forall i :: 0 <= i < |t| && t[i].0 == k ==> r == Some(t[i].1)
  {
    match Find(t, k)
    case None => None
    case Some(i) => Some(t[i].1)
  }

  /** How many leading entries an array-index key `k` goes after. */
  function InsertionPoint(t: seq<(string, string)>, k: string): (p: nat)
    requires IsArrayIndex(k)
    ensures p <= |t|
    ensures forall i :: 0 <= i < p ==> IsArrayIndex(t[i].0) && NumeralValue(t[i].0) < NumeralValue(k)
    ensures p < |t| ==> !(IsArrayIndex(t[p].0) && NumeralValue(t[p].0) < NumeralValue(k))
  {
    if t != [] && IsArrayIndex(t[0].0) && NumeralValue(t[0].0) < NumeralValue(k) then
      1 + InsertionPoint(t[1..], k)
    else
      0
  }

  /**
   * `learnedFacts[k] = v`. An existing key keeps its place and takes the new
   * value; a new array-index key goes in its numeric place; any other new
   * key goes last; `__proto__` is left alone, as JavaScript's prototype
   * setter ignores a string.
   */
  function Put(t: FactTable, k: string, v: string): (r: FactTable)
    ensures k == ProtoKey ==> r == t
  {
    if k == ProtoKey then t
    else match Find(t, k)
      case Some(i) => PutExisting(t, i, v)
      case None =>
        if IsArrayIndex(k) then PutIndex(t, k, v) else PutLast(t, k, v)
  }

  function PutExisting(t: FactTable, i: nat, v: string): (r: FactTable)
    requires i < |t|
    ensures r == t[i := (t[i].0, v)]
  {
    var r := t[i := (t[i].0, v)];
    assert forall j :: 0 <= j < |t| ==> r[j].0 == t[j].0;
    r
  }

  /** Inserting an entry where it belongs in enumeration order keeps the table in order. */
  lemma InsertInOrder(t: FactTable, p: nat, e: (string, string))
    requires p <= |t| && e.0 !in Keys(t)
    requires forall i :: 0 <= i < p ==> EnumeratedNoLaterThan(t[i].0, e.0)
    requires forall j :: p <= j < |t| ==> EnumeratedNoLaterThan(e.0, t[j].0)
    ensures InEnumerationOrder(t[..p] + [e] + t[p..])
  {
    var r := t[..p] + [e] + t[p..];
    forall i, j | 0 <= i < j < |r| ensures r[i].0 != r[j].0 && EnumeratedNoLaterThan(r[i].0, r[j].0) {
      if j < p {
        assert r[i] == t[i] && r[j] == t[j];
      } else if j == p {
        assert r[i] == t[i] && Keys(t)[i] == t[i].0;
      } else if i < p {
        assert r[i] == t[i] && r[j] == t[j - 1];
      } else if i == p {
        assert r[j] == t[j - 1] && Keys(t)[j - 1] == t[j - 1].0;
      } else {
        assert r[i] == t[i - 1] && r[j] == t[j - 1];
      }
    }
  }

  /** A new array-index key goes after the smaller ones and before everything else. */
  function PutIndex(t: FactTable, k: string, v: string): (r: FactTable)
    requires IsArrayIndex(k) && k !in Keys(t)
    ensures var p := InsertionPoint(t, k); r == t[..p] + [(k, v)] + t[p..]
  {
    var p := InsertionPoint(t, k);
    forall j | p <= j < |t| ensures EnumeratedNoLaterThan(k, t[j].0) {
      if j > p {
        assert EnumeratedNoLaterThan(t[p].0, t[j].0);
      }
    }
    InsertInOrder(t, p, (k, v));
    t[..p] + [(k, v)] + t[p..]
  }

  /** A new key that is not an array index goes last. */
  function PutLast(t: FactTable, k: string, v: string): (r: FactTable)
    requires !IsArrayIndex(k) && k !in Keys(t)
    ensures r == t + [(k, v)]
  {
    InsertInOrder(t, |t|, (k, v));
    assert t[..|t|] + [(k, v)] + t[|t|..] == t + [(k, v)];
    t + [(k, v)]
  }

  /**
   * Storing a fact: afterwards `k` holds `v`, every other key holds what it
   * held, and the table grows by one exactly when `k` is new.
   */
  lemma PutSpec(t: FactTable, k: string, v: string, other: string)
    requires k != ProtoKey && other != k
    ensures Get(Put(t, k, v), k) == Some(v)
    ensures Get(Put(t, k, v), other) == Get(t, other)
    ensures |Put(t, k, v)| == if k in Keys(t) then |t| else |t| + 1
  {
    var f := Find(t, k);
    if f.Some? {
      PutExistingSpec(t, f.value, k, v, other);
    } else if IsArrayIndex(k) {
      PutIndexSpec(t, k, v, other);
    } else {
      PutLastSpec(t, k, v, other);
    }
  }

  lemma PutExistingSpec(t: FactTable, i: nat, k: string, v: string, other: string)
    requires i < |t| && t[i].0 == k && other != k
    ensures Get(PutExisting(t, i, v), k) == Some(v)
    ensures Get(PutExisting(t, i, v), other) == Get(t, other)
  {
    GetAround(t, PutExisting(t, i, v), i, 0, k, v, other);
  }

  lemma PutIndexSpec(t: FactTable, k: string, v: string, other: string)
    requires IsArrayIndex(k) && k !in Keys(t) && other != k
    ensures Get(PutIndex(t, k, v), k) == Some(v)
    ensures Get(PutIndex(t, k, v), other) == Get(t, other)
  {
    GetAround(t, PutIndex(t, k, v), InsertionPoint(t, k), 1, k, v, other);
  }

  lemma PutLastSpec(t: FactTable, k: string, v: string, other: string)
    requires !IsArrayIndex(k) && k !in Keys(t) && other != k
    ensures Get(PutLast(t, k, v), k) == Some(v)
    ensures Get(PutLast(t, k, v), other) == Get(t, other)
  {
    GetAround(t, PutLast(t, k, v), |t|, 1, k, v, other);
  }

  /**
   * `r` is `t` with entry `p` set to `(k, v)`: replaced in place (`shift`
   * 0) or inserted (`shift` 1).
   */
  lemma GetAround(t: FactTable, r: FactTable, p: nat, shift: nat, k: string, v: string, other: string)
    requires shift <= 1 && p < |r| == |t| + shift && other != k
    requires shift == 0 ==> t[p].0 == k
    requires r[p] == (k, v)
    requires forall j :: 0 <= j < p ==> r[j] == t[j]
    requires forall j :: p < j < |r| ==> r[j] == t[j - shift]
    ensures Get(r, k) == Some(v)
    ensures Get(r, other) == Get(t, other)
  {
    assert r[p].0 == k;
    if other in Keys(t) {
      var j :| 0 <= j < |t| && Keys(t)[j] == other;
      var jr := if j < p then j else j + shift;
      assert jr != p && r[jr] == t[j];
    } else {
      forall j | 0 <= j < |r| ensures Keys(r)[j] != other {
        if j < p {
          assert Keys(t)[j] == r[j].0;
        } else if j > p {
          assert Keys(t)[j - shift] == r[j].0;
        }
      }
    }
  }

  /** Existing keys keep their place; a new non-numeric key is enumerated last. */
  lemma PutKeepsOrder(t: FactTable, k: string, v: string)
    requires k != ProtoKey
    ensures k in Keys(t) ==> Keys(Put(t, k, v)) == Keys(t)
    ensures k !in Keys(t) && !IsArrayIndex(k) ==> Keys(Put(t, k, v)) == Keys(t) + [k]
  {
  }

  /** The second of two facts with the same key wins, in the first one's place. */
  lemma PutOverwrites(t: FactTable, k: string, v1: string, v2: string)
    ensures Put(Put(t, k, v1), k, v2) == Put(t, k, v2)
  {
    if k != ProtoKey {
      match Find(t, k)
      case Some(i) => OverwriteExisting(t, i, k, v1, v2);
      case None =>
        if IsArrayIndex(k) {
          OverwriteIndex(t, k, v1, v2);
        } else {
          OverwriteLast(t, k, v1, v2);
        }
    }
  }

  /** `PutOverwrites` for a key already in the table. */
  lemma OverwriteExisting(t: FactTable, i: nat, k: string, v1: string, v2: string)
    requires k != ProtoKey && Find(t, k) == Some(i)
    ensures Put(Put(t, k, v1), k, v2) == Put(t, k, v2)
  {
    var t1 := PutExisting(t, i, v1);
    FindFirst(t1, k, i);
    PutExistingTwice(t, i, v1, v2);
  }

  /** Writing the same entry twice leaves the second value. */
  lemma PutExistingTwice(t: FactTable, i: nat, v1: string, v2: string)
    requires i < |t|
    ensures PutExisting(PutExisting(t, i, v1), i, v2) == PutExisting(t, i, v2)
  {
  }

  /** `PutOverwrites` for a new array-index key. */
  lemma OverwriteIndex(t: FactTable, k: string, v1: string, v2: string)
    requires k != ProtoKey && Find(t, k).None? && IsArrayIndex(k)
    ensures Put(Put(t, k, v1), k, v2) == Put(t, k, v2)
  {
    var p := InsertionPoint(t, k);
    var t1 := PutIndex(t, k, v1);
    assert t1[p] == (k, v1);
    FindFirst(t1, k, p);
    PutIndexTwice(t, k, v1, v2);
  }

  /** Writing the entry just inserted leaves the second value in its place. */
  lemma PutIndexTwice(t: FactTable, k: string, v1: string, v2: string)
    requires IsArrayIndex(k) && k !in Keys(t)
    ensures InsertionPoint(t, k) < |PutIndex(t, k, v1)|
    ensures PutExisting(PutIndex(t, k, v1), InsertionPoint(t, k), v2) == PutIndex(t, k, v2)
  {
    var p := InsertionPoint(t, k);
    assert PutIndex(t, k, v1)[p := (k, v2)] == t[..p] + [(k, v2)] + t[p..];
  }

  /** `PutOverwrites` for a new key of any other kind. */
  lemma OverwriteLast(t: FactTable, k: string, v1: string, v2: string)
    requires k != ProtoKey && Find(t, k).None? && !IsArrayIndex(k)
    ensures Put(Put(t, k, v1), k, v2) == Put(t, k, v2)
  {
    var t1 := PutLast(t, k, v1);
    assert t1[|t|] == (k, v1);
    FindFirst(t1, k, |t|);
    assert Put(t1, k, v2) == t1[|t| := (k, v2)];
    assert t1[|t| := (k, v2)] == t + [(k, v2)];
  }

  /** In a table with distinct keys, `Find` returns the one position holding the key. */
  lemma FindFirst(t: FactTable, k: string, i: nat)
    requires i < |t| && t[i].0 == k
    ensures Find(t, k) == Some(i)
  {
    var r := Find(t, k);
    assert r.Some?;
  }

  /** Storing the same fact twice leaves one entry, holding it. */
  lemma PutIdempotent(t: FactTable, k: string, v: string)
    ensures Put(Put(t, k, v), k, v) == Put(t, k, v)
  {
    PutOverwrites(t, k, v, v);
  }
}
