/**
 * The name rule's capture:
 * `userMessage.match(/(?:mon nom est|je suis|je m['']appelle) ([^\s,.!?]+)/i)`.
 *
 * The expression is tried at each index from the left; at an index each
 * introduction is tried in order, and it must be followed by one space and
 * at least one character that is neither whitespace nor `, . ! ?`. The
 * capture is the longest such run, taken from the message as typed, so the
 * name keeps its case.
 */
module Identity {
  import opened Wrappers
  import opened Text

  /** The introductions, in the order the alternation tries them. */
  const Intros: seq<string> := ["mon nom est", "je suis", "je m'appelle"]

  /** The characters `[^\s,.!?]` rejects. */
  predicate EndsName(c: char)
  {
    IsWhitespace(c) || c == ',' || c == '.' || c == '!' || c == '?'
  }

  /** The longest leading run of name characters. */
  function NameRun(s: string): (r: string)
    ensures |r| <= |s| && r == s[..|r|]
    ensures forall i :: 0 <= i < |r| ==> !EndsName(r[i])
    ensures |r| == |s| || EndsName(s[|r|])
  {
    if s == [] || EndsName(s[0]) then [] else [s[0]] + NameRun(s[1..])
  }

  /**
   * What the expression captures when it starts at index `i` of `s` and
   * tries the introductions `alts` in order (`l` is `s` lowered).
   */
  function CaptureWith(s: string, l: string, i: nat, alts: seq<string>): (r: Option<string>)
    requires |l| == |s| && i <= |s|
    ensures r.Some? ==> exists p :: p in alts && IntroFollowedByName(s, l, i, p) && r.value == NameAfter(s, i, p)
    ensures r.None? ==> forall p :: p in alts ==> !IntroFollowedByName(s, l, i, p)
  {
    if alts == [] then None
    else if IntroFollowedByName(s, l, i, alts[0]) then Some(NameAfter(s, i, alts[0]))
    else CaptureWith(s, l, i, alts[1..])
  }

  /**
   * The introductions are tried in order: when introduction `j` is followed
   * by a name at `i` and none listed before it is, its name is captured.
   */
  lemma {:induction false} CaptureWithIsFirst(s: string, l: string, i: nat, alts: seq<string>, j: nat)
    requires |l| == |s| && i <= |s|
    requires j < |alts| && IntroFollowedByName(s, l, i, alts[j])
    requires forall j' :: 0 <= j' < j ==> !IntroFollowedByName(s, l, i, alts[j'])
    ensures CaptureWith(s, l, i, alts) == Some(NameAfter(s, i, alts[j]))
    decreases j
  {
    if j > 0 {
      assert !IntroFollowedByName(s, l, i, alts[0]);
      CaptureWithIsFirst(s, l, i, alts[1..], j - 1);
    }
  }

  /** At index `i`, introduction `p` is followed by a space and a name character. */
  predicate IntroFollowedByName(s: string, l: string, i: nat, p: string)
    requires |l| == |s|
  {
    OccursAt(l, p, i) && i + |p| < |s| && s[i + |p|] == ' ' && NameRun(s[i + |p| + 1..]) != []
  }

  /** The name run after introduction `p` at `i` and its space. */
  function NameAfter(s: string, i: nat, p: string): string
    requires i + |p| < |s|
  {
    NameRun(s[i + |p| + 1..])
  }

  function CaptureAt(s: string, l: string, i: nat): Option<string>
    requires |l| == |s| && i <= |s|
  {
    CaptureWith(s, l, i, Intros)
  }

  /** The leftmost index at or after `i` where the expression captures a name. */
  function ScanFrom(s: string, l: string, i: nat): (r: Option<nat>)
    requires |l| == |s| && i <= |s|
    decreases |s| - i
    ensures r.Some? ==> i <= r.value <= |s| && CaptureAt(s, l, r.value).Some?
    ensures r.Some? ==> forall j :: i <= j < r.value ==> CaptureAt(s, l, j).None?
    ensures r.None? ==> forall j :: i <= j <= |s| ==> CaptureAt(s, l, j).None?
  {
    if CaptureAt(s, l, i).Some? then Some(i)
    else if i == |s| then None
    else ScanFrom(s, l, i + 1)
  }

  /**
   * The name the rule learns from a message, if the expression matches:
   * the capture at the leftmost index where one exists.
   */
  function ExtractName(msg: string): (r: Option<string>)
    ensures r.Some? <==> exists i :: 0 <= i <= |msg| && CaptureAt(msg, LowerStr(msg), i).Some?
    ensures r.Some? ==> exists i :: (0 <= i <= |msg| && CaptureAt(msg, LowerStr(msg), i) == r
      && forall j :: 0 <= j < i ==> CaptureAt(msg, LowerStr(msg), j).None?)
  {
    var l := LowerStr(msg);
    match ScanFrom(msg, l, 0)
    case Some(i) => CaptureAt(msg, l, i)
    case None => None
  }

  /** `n` is typed in `msg` at index `k`, right after a space. */
  predicate TypedAfterSpace(msg: string, n: string, k: int)
  {
    0 < k && k + |n| <= |msg| && msg[k - 1] == ' ' && msg[k..k + |n|] == n
  }

  /** The run after an introduction and its space is typed right after that space. */
  lemma NameAfterShape(s: string, i: nat, p: string)
    requires i + |p| < |s|
    ensures TypedAfterSpace(s, NameAfter(s, i, p), i + |p| + 1) || s[i + |p|] != ' '
  {
    var k := i + |p| + 1;
    var n := NameAfter(s, i, p);
    assert s[k..][..|n|] == s[k..k + |n|];
  }

  /**
   * A learned name is not empty, holds none of the characters that end it,
   * and is typed in the message exactly as captured, right after a space.
   */
  lemma LearnedNameShape(msg: string)
    requires ExtractName(msg).Some?
    ensures var n := ExtractName(msg).value;
      && n != []
      && (forall i :: 0 <= i < |n| ==> !EndsName(n[i]))
      && exists k :: TypedAfterSpace(msg, n, k)
  {
    var l := LowerStr(msg);
    var n := ExtractName(msg).value;
    var i :| 0 <= i <= |msg| && CaptureAt(msg, l, i) == Some(n);
    var p :| p in Intros && IntroFollowedByName(msg, l, i, p) && n == NameAfter(msg, i, p);
    NameAfterShape(msg, i, p);
  }

  /** Lowered, "mon nom est Alice" starts with the first introduction. */
  lemma AliceIntroduced()
    ensures OccursAt(LowerStr("mon nom est Alice"), Intros[0], 0)
  {
    var l := LowerStr("mon nom est Alice");
    forall i | 0 <= i < 11 ensures l[i] == Intros[0][i] {
    }
    assert l[..11] == Intros[0];
  }

  /** "Alice" holds no character that ends a name. */
  lemma AliceIsAName()
    ensures NameRun("Alice") == "Alice"
  {
    assert NameRun("") == "";
    assert "Alice"[1..] == "lice" && "lice"[1..] == "ice" && "ice"[1..] == "ce" && "ce"[1..] == "e" && "e"[1..] == "";
  }

  /** At its first index, "mon nom est Alice" captures "Alice". */
  lemma AliceCapturedAtStart()
    ensures CaptureAt("mon nom est Alice", LowerStr("mon nom est Alice"), 0) == Some("Alice")
  {
    var s := "mon nom est Alice";
    AliceIntroduced();
    AliceIsAName();
    assert s[12..] == "Alice";
  }

  /** The declaration "mon nom est Alice" teaches the name "Alice", in its case. */
  lemma LearnsAlice()
    ensures ExtractName("mon nom est Alice") == Some("Alice")
  {
    AliceCapturedAtStart();
  }
}
