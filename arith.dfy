/**
 * The calculation rule's text handling: how the expression is cut out of the
 * message (`mathExpr` in `generateGideonResponse`) and the character filter
 * `safeMathEval` applies before handing the text to `new Function`.
 *
 * The evaluation itself is JavaScript's own expression evaluator, with its
 * floating-point numbers, `Infinity` and `undefined`; it is not modelled. It
 * is a parameter: an `Evaluator` maps the filtered text to `Some` of the
 * value's printed form, or to `None` when evaluating throws (`safeMathEval`
 * then returns `null`).
 */
module Arithmetic {
  import opened Wrappers
  import opened Text

  type Evaluator = string -> Option<string>

  /** The characters the source's filter class admits: `-`, `(`, `)`, digits, `/`, `*`, `+`, `.`. */
  predicate IsExprChar(c: char)
  {
    c == '-' || c == '(' || c == ')' || ('0' <= c <= '9') || c == '/' || c == '*' || c == '+' || c == '.'
  }

  /** `a` can be obtained from `b` by deleting characters. */
  predicate IsSubsequence(a: string, b: string)
    decreases |b|
  {
    a == [] || (b != [] && ((a[0] == b[0] && IsSubsequence(a[1..], b[1..])) || IsSubsequence(a, b[1..])))
  }

  /**
   * The first replacement in `safeMathEval`, which deletes every character
   * outside that class: the result keeps exactly the expression characters
   * of the input, in order.
   */
  function KeepExprChars(s: string): (r: string)
    ensures forall i :: 0 <= i < |r| ==> IsExprChar(r[i])
    ensures IsSubsequence(r, s)
    ensures |r| <= |s|
    ensures (forall i :: 0 <= i < |s| ==> IsExprChar(s[i])) ==> r == s
  {
    if s == [] then []
    else if IsExprChar(s[0]) then [s[0]] + KeepExprChars(s[1..])
    else KeepExprChars(s[1..])
  }

  /** Filtering is idempotent. */
  lemma KeepExprCharsIdempotent(s: string)
    ensures KeepExprChars(KeepExprChars(s)) == KeepExprChars(s)
  {
  }

  /** Filtering distributes over concatenation. */
  lemma {:induction false} KeepExprCharsConcat(a: string, b: string)
    ensures KeepExprChars(a + b) == KeepExprChars(a) + KeepExprChars(b)
  {
    if a != [] {
      assert (a + b)[0] == a[0] && (a + b)[1..] == a[1..] + b;
      KeepExprCharsConcat(a[1..], b);
      if IsExprChar(a[0]) {
        assert [a[0]] + (KeepExprChars(a[1..]) + KeepExprChars(b)) == ([a[0]] + KeepExprChars(a[1..])) + KeepExprChars(b);
      }
    } else {
      assert a + b == b;
    }
  }

  /**
   * `s.replace(/(\d)\s+(\d)/g, '$1$2')`: a digit, a run of whitespace and a
   * digit lose the whitespace; the scan resumes after the second digit.
   */
  function JoinSpacedDigits(s: string): (r: string)
    decreases |s|
  {
    if s == [] then []
    else if IsDigit(s[0]) && |s| >= 2 && IsWhitespace(s[1]) then
      var rest := TrimStart(s[1..]);
      if rest != [] && IsDigit(rest[0]) then [s[0], rest[0]] + JoinSpacedDigits(rest[1..])
      else [s[0]] + JoinSpacedDigits(s[1..])
    else [s[0]] + JoinSpacedDigits(s[1..])
  }

  /** On text without whitespace the second replacement changes nothing. */
  lemma {:induction false} JoinSpacedDigitsIdle(s: string)
    requires NoWhitespace(s)
    ensures JoinSpacedDigits(s) == s
    decreases |s|
  {
    if s != [] {
      assert NoWhitespace(s[1..]) by {
        forall i | 0 <= i < |s| - 1 ensures !IsWhitespace(s[1..][i]) {
          assert s[1..][i] == s[i + 1];
        }
      }
      JoinSpacedDigitsIdle(s[1..]);
    }
  }

  /** The text `safeMathEval` hands to `new Function`. */
  function CleanExpression(expression: string): string
  {
    JoinSpacedDigits(KeepExprChars(expression))
  }

  /**
   * The first replacement already removes every whitespace character, so
   * the cleaned text is the filtered text: only expression characters, a
   * subsequence of the input.
   */
  lemma CleanIsFilter(expression: string)
    ensures CleanExpression(expression) == KeepExprChars(expression)
    ensures forall i :: 0 <= i < |CleanExpression(expression)| ==> IsExprChar(CleanExpression(expression)[i])
    ensures IsSubsequence(CleanExpression(expression), expression)
  {
    var f := KeepExprChars(expression);
    assert NoWhitespace(f) by {
      forall i | 0 <= i < |f| ensures !IsWhitespace(f[i]) {
        assert IsExprChar(f[i]);
      }
    }
    JoinSpacedDigitsIdle(f);
  }

  /** `safeMathEval`: filter, then evaluate; a thrown error becomes `None` (the source's `null`). */
  function SafeMathEval(expression: string, eval: Evaluator): Option<string>
  {
    eval(CleanExpression(expression))
  }

  /** Letters and spaces never reach the evaluator: only the expression characters matter. */
  lemma SafeMathEvalSeesOnlyExprChars(a: string, b: string, eval: Evaluator)
    requires KeepExprChars(a) == KeepExprChars(b)
    ensures SafeMathEval(a, eval) == SafeMathEval(b, eval)
  {
  }

  /** The words `calcul`/`calculate` that the rule strips (the first occurrence only). */
  const CalcWords: seq<string> := ["calcul", "calculate"]

  /**
   * `mathExpr`: the message with its first `calcul`/`calculate` removed,
   * spoken operators replaced by symbols, and the ends trimmed.
   */
  function MathExpression(msg: string): (r: string)
    ensures r == [] || (!IsWhitespace(r[0]) && !IsWhitespace(r[|r| - 1]))
  {
    var a := ReplaceFirst(msg, CalcWords, "");
    var b := ReplaceAll(a, ["plus"], "+");
    var c := ReplaceAll(b, ["moins"], "-");
    var d := ReplaceAll(c, ["fois", "multiplié par"], "*");
    var e := ReplaceAll(d, ["divisé par"], "/");
    Trim(e)
  }

  /**
   * In `/calcul|calculate/i` the first alternative is a prefix of the
   * second and is tried first, so `calculate` never matches: "calculate"
   * in a message loses only its first six letters.
   */
  lemma {:induction false} CalculateNeverMatches(l: string, i: nat)
    requires i <= |l|
    ensures AltAt(l, i, CalcWords) == AltAt(l, i, ["calcul"])
    ensures FindFrom(l, i, CalcWords) == FindFrom(l, i, ["calcul"])
    decreases |l| - i
  {
    if OccursAt(l, "calculate", i) {
      assert l[i..i + 6] == l[i..i + 9][..6];
      assert OccursAt(l, "calcul", i);
    }
    if i < |l| {
      CalculateNeverMatches(l, i + 1);
    }
  }

  /** Hence stripping the command word only ever removes "calcul". */
  lemma StripOnlyCalcul(msg: string)
    ensures ReplaceFirst(msg, CalcWords, "") == ReplaceFirst(msg, ["calcul"], "")
  {
    CalculateNeverMatches(LowerStr(msg), 0);
  }

  // ---------------------------------------------------------------------
  // A spoken sum: "calcul 12 plus 8" gives the expression "12 + 8".

  predicate Numeral(s: string)
  {
    s != [] && forall i :: 0 <= i < |s| ==> IsDigit(s[i])
  }

  /** Digits, spaces and `+`: what is left of a spoken sum once its words are replaced. */
  predicate SumChars(s: string)
  {
    forall i :: 0 <= i < |s| ==> IsDigit(s[i]) || s[i] == ' ' || s[i] == '+'
  }

  /** Text already in lower case. */
  predicate Lowered(s: string)
  {
    forall i :: 0 <= i < |s| ==> Lower(s[i]) == s[i]
  }

  lemma SumCharsLowered(s: string)
    requires SumChars(s)
    ensures Lowered(s) && LowerStr(s) == s
  {
  }

  /** No word starting with a letter occurs in such text. */
  lemma SumCharsHoldNoWord(s: string, p: string, j: int)
    requires SumChars(s) && p != [] && 'a' <= p[0] <= 'z'
    ensures !OccursAt(s, p, j)
  {
    if 0 <= j && j + |p| <= |s| {
      assert s[j..j + |p|][0] == s[j];
    }
  }

  /** A word cannot occur where the text holds another first letter. */
  lemma NoWordAt(s: string, p: string, j: nat)
    requires p != [] && j < |s| && s[j] != p[0]
    ensures !OccursAt(s, p, j)
  {
    if j + |p| <= |s| {
      assert s[j..j + |p|][0] == s[j];
    }
  }

  /** Stripping the command word from "calcul a plus b" leaves " a plus b". */
  lemma StripCalculFromSum(a: string, b: string)
    requires Numeral(a) && Numeral(b)
    ensures ReplaceFirst("calcul " + a + " plus " + b, CalcWords, "") == " " + a + " plus " + b
  {
    var x := " " + a + " plus " + b;
    var msg := "calcul " + a + " plus " + b;
    assert msg == "calcul" + x;
    assert LowerStr(msg) == msg by {
      forall i | 0 <= i < |msg| ensures Lower(msg[i]) == msg[i] {
        if i >= 6 {
          assert msg[i] == x[i - 6];
        }
      }
    }
    assert OccursAt(msg, "calcul", 0) by {
      assert msg[0..6] == "calcul";
    }
    ReplaceFirstFound(msg, CalcWords, "", 0, "calcul");
    assert msg[6..] == x;
  }

  /** " a plus b" is in lower case, and "plus" occurs in it only after `a` and a space. */
  lemma PlusOnlyAfterA(a: string, b: string)
    requires Numeral(a) && Numeral(b)
    ensures var x := " " + a + " plus " + b;
      && LowerStr(x) == x
      && (forall j :: 0 <= j < |a| + 2 ==> AltAt(x, j, ["plus"]).None?)
      && AltAt(x, |a| + 2, ["plus"]) == Some("plus")
      && (forall j :: |a| + 6 <= j < |x| ==> AltAt(x, j, ["plus"]).None?)
  {
    var x := " " + a + " plus " + b;
    var k := |a| + 2;
    assert x[k..k + 4] == "plus";
    forall i | 0 <= i < |x| ensures Lower(x[i]) == x[i] && (i < k || i >= k + 4 ==> x[i] != 'p') {
      if i == 0 {
      } else if i <= |a| {
        assert x[i] == a[i - 1];
      } else if k + 4 < i {
        assert x[i] == b[i - k - 5];
      }
    }
    forall j | 0 <= j < k ensures AltAt(x, j, ["plus"]).None? {
      NoWordAt(x, "plus", j);
    }
    forall j | k + 4 <= j < |x| ensures AltAt(x, j, ["plus"]).None? {
      NoWordAt(x, "plus", j);
    }
  }

  /** Replacing "plus" in " a plus b" gives " a + b". */
  lemma ReplacePlusInSum(a: string, b: string)
    requires Numeral(a) && Numeral(b)
    ensures ReplaceAll(" " + a + " plus " + b, ["plus"], "+") == " " + (a + " + " + b)
  {
    var x := " " + a + " plus " + b;
    var k := |a| + 2;
    assert ReplaceAll(x, ["plus"], "+") == x[..k] + "+" + x[k + 4..] by {
      PlusOnlyAfterA(a, b);
      ReplaceAllSingle(x, k, ["plus"], "+", "plus");
    }
    PlusAsSymbol(a, b);
  }

  /** Cutting "plus" out of " a plus b" and putting `+` in its place. */
  lemma PlusAsSymbol(a: string, b: string)
    ensures var x := " " + a + " plus " + b;
      x[..|a| + 2] + "+" + x[|a| + 6..] == " " + (a + " + " + b)
  {
    var x := " " + a + " plus " + b;
    assert x[..|a| + 2] == " " + a + " " && x[|a| + 6..] == " " + b;
  }

  /** " a + b" holds only digits, spaces and `+`. */
  lemma SumOfNumeralsChars(a: string, b: string)
    requires Numeral(a) && Numeral(b)
    ensures SumChars(" " + (a + " + " + b))
  {
    var x := " " + (a + " + " + b);
    forall i | 0 <= i < |x| ensures IsDigit(x[i]) || x[i] == ' ' || x[i] == '+' {
      if 0 < i <= |a| {
        assert x[i] == a[i - 1];
      } else if |a| + 3 < i {
        assert x[i] == b[i - |a| - 4];
      }
    }
  }

  /** Trimming " a + b" drops only the leading space. */
  lemma SumTrimmed(a: string, b: string)
    requires Numeral(a) && Numeral(b)
    ensures Trim(" " + (a + " + " + b)) == a + " + " + b
  {
    var t := a + " + " + b;
    assert t[0] == a[0] && IsDigit(a[0]);
    assert t[|t| - 1] == b[|b| - 1] && IsDigit(b[|b| - 1]);
    TrimLeadingSpace(t);
  }

  /** The remaining spoken operators do not occur in " a + b". */
  lemma OtherOperatorsIdle(x: string)
    requires SumChars(x)
    ensures ReplaceAll(x, ["moins"], "-") == x
    ensures ReplaceAll(x, ["fois", "multiplié par"], "*") == x
    ensures ReplaceAll(x, ["divisé par"], "/") == x
  {
    SumCharsLowered(x);
    forall p, j | p in ["moins", "fois", "multiplié par", "divisé par"] && 0 <= j <= |x|
      ensures !OccursAt(LowerStr(x), p, j)
    {
      SumCharsHoldNoWord(x, p, j);
    }
    ReplaceAllIdle(x, ["moins"], "-");
    ReplaceAllIdle(x, ["fois", "multiplié par"], "*");
    ReplaceAllIdle(x, ["divisé par"], "/");
  }

  /**
   * "calcul a plus b" for numerals `a` and `b` gives the expression
   * "a + b": the command word goes, "plus" becomes `+`, and the spaces
   * around it stay.
   */
  lemma SpokenSum(a: string, b: string)
    requires Numeral(a) && Numeral(b)
    ensures MathExpression("calcul " + a + " plus " + b) == a + " + " + b
  {
    var msg := "calcul " + a + " plus " + b;
    var x := " " + (a + " + " + b);
    assert ReplaceFirst(msg, CalcWords, "") == " " + a + " plus " + b by {
      StripCalculFromSum(a, b);
    }
    assert ReplaceAll(" " + a + " plus " + b, ["plus"], "+") == x by {
      ReplacePlusInSum(a, b);
    }
    assert ReplaceAll(x, ["moins"], "-") == x
      && ReplaceAll(x, ["fois", "multiplié par"], "*") == x
      && ReplaceAll(x, ["divisé par"], "/") == x by {
      SumOfNumeralsChars(a, b);
      OtherOperatorsIdle(x);
    }
    SumTrimmed(a, b);
  }
}
