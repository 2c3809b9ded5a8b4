/**
 * `generateGideonResponse` as a function of the memory record, the message,
 * a telemetry snapshot, the arithmetic evaluator and the fallback draw.
 *
 * The message is lowered once and tested against an ordered chain of rules;
 * the first rule that fires gives the one reply. Only the name rule and the
 * fact rule change the memory. The reply is returned as a `Reply` value
 * carrying what the source interpolates into its HTML text; the HTML itself,
 * the number formatting (`toFixed`, `Math.round`) and the clock reading of
 * the time rule are presentation and are not modelled.
 */
module Responder {
  import opened Wrappers
  import opened Text
  import opened Facts
  import opened Arithmetic
  import opened Identity
  import opened MemoryModel

  /** The part of `systemData` the replies read. */
  datatype Telemetry = Telemetry(
    production: real,
    batteryLevel: real,
    waterLevel: real,
    pumpActive: bool,
    efficiency: real,
    systemHealth: real)

  datatype Reply =
    | ProductionReport(production: real, efficiency: real)
    | BatteryReport(level: real)
    | PumpReport(pumpActive: bool, reservoir: real)
    | Calculation(expression: string, result: string)
    | StatusReport(production: real, battery: real, efficiency: real, health: real)
    | NameLearned(name: string)
    | TimeReport
    | HelpText
    | FactStored
    | Recall(name: string, facts: seq<string>)
    | NoPersonalData
    | Fallback(text: string)

  /** A reply together with the memory record after it. */
  datatype Outcome = Outcome(reply: Reply, memory: Memory)

  /** `Math.floor(Math.random() * 4)`: which of the four fallback texts is used. */
  type FallbackIndex = i: int | 0 <= i < 4

  const ProductionWords: seq<string> := ["production", "énergie", "solaire"]
  const BatteryWords: seq<string> := ["batterie", "battery"]
  const PumpWords: seq<string> := ["pompe", "eau", "water"]
  const CalcTriggers: seq<string> := ["calcul", "calculate", "+", "-", "*", "/"]
  const StatusWords: seq<string> := ["système", "status", "diagnostic"]
  const NameWords: seq<string> := ["mon nom", "je suis ", "je m'appelle"]
  const TimeWords: seq<string> := ["heure", "date", "time"]
  const HelpWords: seq<string> := ["aide", "help", "que peux-tu faire"]
  const FactCommands: seq<string> := ["retiens que", "mémorise"]
  const RecallWords: seq<string> := ["que sais-tu", "données personnelles"]

  /** `l.includes(w0) || l.includes(w1) || ...` */
  predicate Mentions(l: string, words: seq<string>)
  {
    words != [] && (Contains(l, words[0]) || Mentions(l, words[1..]))
  }

  /** `l.startsWith('retiens que') || l.startsWith('mémorise')` */
  predicate IsFactCommand(l: string)
  {
    StartsWith(l, FactCommands[0]) || StartsWith(l, FactCommands[1])
  }

  /** `userMessage.replace(/retiens que|mémorise/i, '').trim()`: the fact to store. */
  function FactText(msg: string): (r: string)
    ensures Trim(r) == r
  {
    var r := Trim(ReplaceFirst(msg, FactCommands, ""));
    TrimKeepsUnpadded(r);
    r
  }

  /** The first three fallback texts, which do not depend on the user. */
  const NeutralFallbacks: seq<string> := [
    "Analyse en cours via les réseaux neuraux quantiques. Pouvez-vous préciser votre demande ?",
    "Mes processeurs contextuels nécessitent plus de données. Reformulez votre requête.",
    "Requête intéressante. Mes algorithmes adaptatifs suggèrent de consulter l'aide avec 'aide'."]

  /** The fourth text after its capital letter, shared by its two forms. */
  const ContextTail: string := "es algorithmes de réponse nécessitent plus de contexte pour générer une réponse optimale."

  /** `contextualResponses[pick]`: the fourth text addresses the user when a name is known. */
  function FallbackText(pick: FallbackIndex, userName: string): (r: string)
    ensures pick < 3 ==> r in NeutralFallbacks
    ensures pick == 3 && userName != "" ==> userName <= r
  {
    if pick < 3 then NeutralFallbacks[pick]
    else if userName != "" then userName + ", m" + ContextTail
    else "M" + ContextTail
  }

  // ---------------------------------------------------------------------
  // The chain of rules.

  datatype Rule =
    | ProductionRule | BatteryRule | PumpRule | CalcRule | StatusRule | NameRule
    | TimeRule | HelpRule | FactRule | RecallRule | FallbackRule

  /** The position of a rule in the chain. */
  function Rank(r: Rule): nat
  {
    match r
    case ProductionRule => 0
    case BatteryRule => 1
    case PumpRule => 2
    case CalcRule => 3
    case StatusRule => 4
    case NameRule => 5
    case TimeRule => 6
    case HelpRule => 7
    case FactRule => 8
    case RecallRule => 9
    case FallbackRule => 10
  }

  /**
   * Whether a rule takes the message: its test on the lowered text and, for
   * the calculation rule, an evaluation that succeeds.
   */
  predicate Fires(r: Rule, m: Memory, msg: string, eval: Evaluator)
  {
    Triggered(r, m, msg) && (r == CalcRule ==> SafeMathEval(MathExpression(msg), eval).Some?)
  }

  /**
   * A rule's test on the message, apart from the evaluation: its keywords
   * on the lowered text and, for two rules, the step that must also succeed
   * (the name capture with no name yet known, a non-empty fact).
   */
  predicate Triggered(r: Rule, m: Memory, msg: string)
  {
    var l := LowerStr(msg);
    match r
    case ProductionRule => Mentions(l, ProductionWords)
    case BatteryRule => Mentions(l, BatteryWords)
    case PumpRule => Mentions(l, PumpWords)
    case CalcRule => Mentions(l, CalcTriggers)
    case StatusRule => Mentions(l, StatusWords)
    case NameRule => Mentions(l, NameWords) && m.userName == "" && ExtractName(msg).Some?
    case TimeRule => Mentions(l, TimeWords)
    case HelpRule => Mentions(l, HelpWords)
    case FactRule => IsFactCommand(l) && FactText(msg) != []
    case RecallRule => Mentions(l, RecallWords)
    case FallbackRule => true
  }

  /**
   * The rule that answers: it fires, and no rule earlier in the chain does
   * (first match wins).
   */
  function FirstRule(m: Memory, msg: string, eval: Evaluator): (k: Rule)
    ensures Fires(k, m, msg, eval)
    ensures forall r :: Rank(r) < Rank(k) ==> !Fires(r, m, msg, eval)
  {
    if Fires(ProductionRule, m, msg, eval) then ProductionRule
    else if Fires(BatteryRule, m, msg, eval) then BatteryRule
    else if Fires(PumpRule, m, msg, eval) then PumpRule
    else if Fires(CalcRule, m, msg, eval) then CalcRule
    else if Fires(StatusRule, m, msg, eval) then StatusRule
    else if Fires(NameRule, m, msg, eval) then NameRule
    else if Fires(TimeRule, m, msg, eval) then TimeRule
    else if Fires(HelpRule, m, msg, eval) then HelpRule
    else if Fires(FactRule, m, msg, eval) then FactRule
    else if Fires(RecallRule, m, msg, eval) then RecallRule
    else FallbackRule
  }

  /** What a rule that fires answers. */
  function Answer(k: Rule, m: Memory, msg: string, t: Telemetry, eval: Evaluator, pick: FallbackIndex): (r: Reply)
    requires Fires(k, m, msg, eval)
    ensures r.Calculation? <==> k == CalcRule
    ensures r.NameLearned? <==> k == NameRule
    ensures r.FactStored? <==> k == FactRule
    ensures r.Fallback? <==> k == FallbackRule
  {
    match k
    case ProductionRule => ProductionReport(t.production, t.efficiency)
    case BatteryRule => BatteryReport(t.batteryLevel)
    case PumpRule => PumpReport(t.pumpActive, t.waterLevel)
    case CalcRule =>
      var expression := MathExpression(msg);
      Calculation(expression, SafeMathEval(expression, eval).value)
    case StatusRule => StatusReport(t.production, t.batteryLevel, t.efficiency, t.systemHealth)
    case NameRule => NameLearned(ExtractName(msg).value)
    case TimeRule => TimeReport
    case HelpRule => HelpText
    case FactRule => FactStored
    case RecallRule =>
      if m.userName != "" || |m.facts| > 0 then Recall(m.userName, Values(m.facts)) else NoPersonalData
    case FallbackRule => Fallback(FallbackText(pick, m.userName))
  }

  /**
   * The memory after a rule that fires: the name rule sets the name, the
   * fact rule stores the fact under its key, every other rule keeps it.
   */
  function Effect(k: Rule, m: Memory, msg: string, eval: Evaluator): (r: Memory)
    requires Fires(k, m, msg, eval)
    ensures r.history == m.history && r.preferences == m.preferences
    ensures r.userName != m.userName ==> k == NameRule && m.userName == ""
    ensures r.facts != m.facts ==> k == FactRule
  {
    match k
    case NameRule => m.(userName := ExtractName(msg).value)
    case FactRule =>
      var fact := FactText(msg);
      m.(facts := Put(m.facts, FactKey(fact), fact))
    case _ => m
  }

  /** `generateGideonResponse`: the first rule that fires answers. */
  function Respond(m: Memory, msg: string, t: Telemetry, eval: Evaluator, pick: FallbackIndex): Outcome
  {
    var k := FirstRule(m, msg, eval);
    Outcome(Answer(k, m, msg, t, eval, pick), Effect(k, m, msg, eval))
  }

  /** A topic keyword outranks the arithmetic trigger: "batterie + 2" gets the battery report. */
  lemma BatteryBeatsArithmetic(m: Memory, msg: string, t: Telemetry, eval: Evaluator, pick: FallbackIndex)
    requires Contains(LowerStr(msg), "batterie") && !Mentions(LowerStr(msg), ProductionWords)
    ensures Respond(m, msg, t, eval, pick).reply == BatteryReport(t.batteryLevel)
  {
    assert Triggered(BatteryRule, m, msg) by {
      assert "batterie" in BatteryWords;
    }
    assert FirstRule(m, msg, eval) == BatteryRule;
  }

  /** Any message naming a topic gets a topic report, never a calculation, and memory is kept. */
  lemma TopicsBeforeArithmetic(m: Memory, msg: string, t: Telemetry, eval: Evaluator, pick: FallbackIndex)
    requires var l := LowerStr(msg);
      Mentions(l, ProductionWords) || Mentions(l, BatteryWords) || Mentions(l, PumpWords)
    ensures var o := Respond(m, msg, t, eval, pick);
      (o.reply.ProductionReport? || o.reply.BatteryReport? || o.reply.PumpReport?) && o.memory == m
  {
    var k := FirstRule(m, msg, eval);
    assert Fires(ProductionRule, m, msg, eval) || Fires(BatteryRule, m, msg, eval) || Fires(PumpRule, m, msg, eval);
    assert k == ProductionRule || k == BatteryRule || k == PumpRule by {
      assert Rank(k) <= 2;
    }
  }

  /** The evaluator that always throws: with it the calculation rule never fires. */
  function Throwing(): Evaluator
  {
    s => None
  }

  /** When the evaluation fails, the same rule answers as if the calculation rule were not there. */
  lemma FailedEvaluationSkipsRule(m: Memory, msg: string, eval: Evaluator)
    requires SafeMathEval(MathExpression(msg), eval).None?
    ensures FirstRule(m, msg, eval) == FirstRule(m, msg, Throwing())
    ensures FirstRule(m, msg, eval) != CalcRule
  {
    var k1 := FirstRule(m, msg, eval);
    var k2 := FirstRule(m, msg, Throwing());
    FiresWithoutEvaluation(k1, m, msg, eval);
    FiresWithoutEvaluation(k2, m, msg, eval);
    RankInjective(k1, k2);
  }

  /** Apart from the calculation rule, whether a rule fires does not depend on the evaluator. */
  lemma FiresWithoutEvaluation(r: Rule, m: Memory, msg: string, eval: Evaluator)
    requires SafeMathEval(MathExpression(msg), eval).None?
    ensures Fires(r, m, msg, eval) == Fires(r, m, msg, Throwing())
    ensures !Fires(CalcRule, m, msg, eval)
  {
  }

  /** Each rule has its own place in the chain. */
  lemma RankInjective(a: Rule, b: Rule)
    requires Rank(a) == Rank(b)
    ensures a == b
  {
  }

  /**
   * A calculation whose evaluation fails is not an error reply: the message
   * is answered exactly as if the calculation rule were not there.
   */
  lemma FailedEvaluationFallsThrough(m: Memory, msg: string, t: Telemetry, eval: Evaluator, pick: FallbackIndex)
    requires SafeMathEval(MathExpression(msg), eval).None?
    ensures Respond(m, msg, t, eval, pick) == Respond(m, msg, t, Throwing(), pick)
    ensures !Respond(m, msg, t, eval, pick).reply.Calculation?
  {
    FailedEvaluationSkipsRule(m, msg, eval);
    var k := FirstRule(m, msg, eval);
    FiresWithoutEvaluation(k, m, msg, eval);
    AnswerWithoutEvaluation(k, m, msg, t, eval, pick);
  }

  /** Every rule but the calculation answers and acts without looking at the evaluator. */
  lemma AnswerWithoutEvaluation(k: Rule, m: Memory, msg: string, t: Telemetry, eval: Evaluator, pick: FallbackIndex)
    requires k != CalcRule && Fires(k, m, msg, eval) && Fires(k, m, msg, Throwing())
    ensures Answer(k, m, msg, t, eval, pick) == Answer(k, m, msg, t, Throwing(), pick)
    ensures Effect(k, m, msg, eval) == Effect(k, m, msg, Throwing())
    ensures !Answer(k, m, msg, t, eval, pick).Calculation?
  {
    match k
    case ProductionRule =>
    case BatteryRule =>
    case PumpRule =>
    case StatusRule =>
    case NameRule =>
    case TimeRule =>
    case HelpRule =>
    case FactRule =>
    case RecallRule =>
    case FallbackRule =>
  }

  /** A calculation shows the extracted expression and what the filtered text evaluated to. */
  lemma CalculationSpec(m: Memory, msg: string, t: Telemetry, eval: Evaluator, pick: FallbackIndex)
    requires Respond(m, msg, t, eval, pick).reply.Calculation?
    ensures var o := Respond(m, msg, t, eval, pick);
      && Mentions(LowerStr(msg), CalcTriggers)
      && o.reply.expression == MathExpression(msg)
      && eval(KeepExprChars(o.reply.expression)) == Some(o.reply.result)
      && IsSubsequence(KeepExprChars(o.reply.expression), o.reply.expression)
      && o.memory == m
  {
    assert FirstRule(m, msg, eval) == CalcRule;
    CleanIsFilter(MathExpression(msg));
  }

  /**
   * What a reply may change: the history and the preferences never; the
   * name only when it was unset and the name rule fired; the facts only when
   * the fact rule fired.
   */
  lemma RespondFrame(m: Memory, msg: string, t: Telemetry, eval: Evaluator, pick: FallbackIndex)
    ensures var o := Respond(m, msg, t, eval, pick);
      && o.memory.history == m.history
      && o.memory.preferences == m.preferences
      && (o.memory.userName != m.userName ==> m.userName == "" && o.reply.NameLearned?)
      && (o.memory.facts != m.facts ==> o.reply.FactStored?)
  {
  }

  /** Once a name is known no message changes it. */
  lemma NameNeverOverwritten(m: Memory, msg: string, t: Telemetry, eval: Evaluator, pick: FallbackIndex)
    requires m.userName != ""
    ensures Respond(m, msg, t, eval, pick).memory.userName == m.userName
    ensures !Respond(m, msg, t, eval, pick).reply.NameLearned?
  {
    assert FirstRule(m, msg, eval) != NameRule;
  }

  /** The name rule stores the captured name, non-empty and in the case it was typed. */
  lemma NameLearnedSpec(m: Memory, msg: string, t: Telemetry, eval: Evaluator, pick: FallbackIndex)
    requires Respond(m, msg, t, eval, pick).reply.NameLearned?
    ensures var o := Respond(m, msg, t, eval, pick);
      && m.userName == ""
      && Mentions(LowerStr(msg), NameWords)
      && ExtractName(msg) == Some(o.reply.name)
      && o.memory == m.(userName := o.reply.name)
      && o.reply.name != ""
  {
    assert FirstRule(m, msg, eval) == NameRule;
    LearnedNameShape(msg);
  }

  /**
   * The fact rule fires only on a message starting with "retiens que" or
   * "mémorise" and a non-empty fact; it stores the fact under its key and
   * the table grows by at most one entry.
   */
  lemma FactStoredSpec(m: Memory, msg: string, t: Telemetry, eval: Evaluator, pick: FallbackIndex)
    requires Respond(m, msg, t, eval, pick).reply.FactStored?
    ensures var o := Respond(m, msg, t, eval, pick);
      var fact := FactText(msg);
      && IsFactCommand(LowerStr(msg))
      && fact != []
      && o.memory == m.(facts := Put(m.facts, FactKey(fact), fact))
      && |o.memory.facts| <= |m.facts| + 1
  {
    assert FirstRule(m, msg, eval) == FactRule;
    var fact := FactText(msg);
    if FactKey(fact) != ProtoKey {
      PutSpec(m.facts, FactKey(fact), fact, []);
    }
  }

  /** The stored fact is the rest of the message after its command word, trimmed. */
  lemma FactTextAfterCommand(msg: string, c: nat)
    requires c < |FactCommands| && StartsWith(LowerStr(msg), FactCommands[c])
    ensures FactText(msg) == Trim(msg[|FactCommands[c]|..])
  {
    var l := LowerStr(msg);
    if c == 0 {
      assert AltAt(l, 0, FactCommands) == Some(FactCommands[0]);
    } else {
      assert l[0] == 'm' != 'r';
      assert !OccursAt(l, FactCommands[0], 0);
      assert AltAt(l, 0, FactCommands) == Some(FactCommands[1]);
    }
    ReplaceFirstFound(msg, FactCommands, "", 0, FactCommands[c]);
    assert msg[..0] + "" + msg[|FactCommands[c]|..] == msg[|FactCommands[c]|..];
  }

  /**
   * Recall: with no name and no facts the fixed "nothing stored" reply;
   * otherwise the name (empty when unset) and every fact value in
   * enumeration order.
   */
  lemma RecallSpec(m: Memory, msg: string, t: Telemetry, eval: Evaluator, pick: FallbackIndex)
    requires FirstRule(m, msg, eval) == RecallRule
    ensures var o := Respond(m, msg, t, eval, pick);
      && Mentions(LowerStr(msg), RecallWords)
      && o.memory == m
      && (o.reply.NoPersonalData? <==> m.userName == "" && m.facts == [])
      && (o.reply.Recall? <==> m.userName != "" || m.facts != [])
      && (o.reply.Recall? ==> o.reply.name == m.userName && o.reply.facts == Values(m.facts))
  {
  }

  /** The fallback answers only a message no other rule takes, and leaves memory alone. */
  lemma FallbackIsLastResort(m: Memory, msg: string, t: Telemetry, eval: Evaluator, pick: FallbackIndex)
    requires Respond(m, msg, t, eval, pick).reply.Fallback?
    ensures forall r :: r != FallbackRule ==> !Fires(r, m, msg, eval)
    ensures Respond(m, msg, t, eval, pick) == Outcome(Fallback(FallbackText(pick, m.userName)), m)
  {
    assert FirstRule(m, msg, eval) == FallbackRule;
    forall r | r != FallbackRule ensures !Fires(r, m, msg, eval) {
      assert Rank(r) < Rank(FallbackRule);
    }
  }

  /**
   * The fallback picks one of four texts; the first three ignore the name,
   * and the fourth names the user exactly when a name is known.
   */
  lemma FallbackPersonalisation(pick: FallbackIndex, name: string)
    ensures pick < 3 ==> FallbackText(pick, name) == FallbackText(pick, "")
    ensures pick == 3 ==> (FallbackText(pick, name) != FallbackText(pick, "") <==> name != "")
    ensures pick == 3 && name != "" ==> StartsWith(FallbackText(pick, name), name)
  {
    if pick == 3 && name != "" {
      assert |FallbackText(pick, name)| == |name| + 3 + |ContextTail|;
      assert (name + ", m" + ContextTail)[..|name|] == name;
    }
  }

  // ---------------------------------------------------------------------
  // A conversation: replies to a sequence of messages, one after the other.

  datatype Input = Input(msg: string, telemetry: Telemetry, pick: FallbackIndex)

  /** The memory record after the assistant has answered each input in turn. */
  function Converse(m: Memory, inputs: seq<Input>, eval: Evaluator): Memory
    decreases |inputs|
  {
    if inputs == [] then m
    else Converse(Respond(m, inputs[0].msg, inputs[0].telemetry, eval, inputs[0].pick).memory, inputs[1..], eval)
  }

  /** Across a whole conversation, a known name is never replaced. */
  lemma {:induction false} NameStaysOnceKnown(m: Memory, inputs: seq<Input>, eval: Evaluator)
    requires m.userName != ""
    ensures Converse(m, inputs, eval).userName == m.userName
    decreases |inputs|
  {
    if inputs != [] {
      var i := inputs[0];
      NameNeverOverwritten(m, i.msg, i.telemetry, eval, i.pick);
      NameStaysOnceKnown(Respond(m, i.msg, i.telemetry, eval, i.pick).memory, inputs[1..], eval);
    }
  }

  /** A stored key survives any one reply. */
  lemma RespondKeepsKeys(m: Memory, msg: string, t: Telemetry, eval: Evaluator, pick: FallbackIndex, k: string)
    requires k in Keys(m.facts)
    ensures k in Keys(Respond(m, msg, t, eval, pick).memory.facts)
  {
    var o := Respond(m, msg, t, eval, pick);
    RespondFrame(m, msg, t, eval, pick);
    if o.reply.FactStored? {
      FactStoredSpec(m, msg, t, eval, pick);
      var key := FactKey(FactText(msg));
      if key != ProtoKey && key != k {
        PutSpec(m.facts, key, FactText(msg), k);
      } else if key != ProtoKey {
        PutSpec(m.facts, key, FactText(msg), []);
      }
    }
  }

  /** Across a whole conversation, a stored fact key is never forgotten and the history is untouched. */
  lemma {:induction false} FactKeysOnlyGrow(m: Memory, inputs: seq<Input>, eval: Evaluator, k: string)
    requires k in Keys(m.facts)
    ensures k in Keys(Converse(m, inputs, eval).facts)
    ensures Converse(m, inputs, eval).history == m.history
    decreases |inputs|
  {
    if inputs != [] {
      var i := inputs[0];
      RespondFrame(m, i.msg, i.telemetry, eval, i.pick);
      RespondKeepsKeys(m, i.msg, i.telemetry, eval, i.pick, k);
      FactKeysOnlyGrow(Respond(m, i.msg, i.telemetry, eval, i.pick).memory, inputs[1..], eval, k);
    }
  }
}
