/**
 * The assistant's side of `SolarisProApp`: the `gideonMemory` record as
 * fields updated in place, the local-storage slot it is saved to, and the
 * methods that change them (`loadGideonMemory`, `saveGideonMemory`,
 * `addGideonMessage`, `handleGideonClear`, `generateGideonResponse`).
 *
 * Every method is proved against the value-level model: the record's state
 * is read off as a `Memory` with `Snapshot()`, and each method's new state is
 * stated as a function of the old one.
 */
module Gideon {
  import opened Wrappers
  import opened Text
  import opened Facts
  import opened Arithmetic
  import opened Identity
  import opened MemoryModel
  import opened Responder

  /** The three notices `handleGideonClear` posts, in order. */
  const PurgeRequested: string := "Commande de purge reçue. Confirmer effacement mémoire ?"
  const PurgeDone: string := "Purge mémoire terminée. Toutes les données de session effacées."
  const Restarted: string := "Système redémarré. Comment puis-je vous assister ?"

  /**
   * `for (const key in learnedFacts)` collecting each value: the values in
   * enumeration order.
   */
  method CollectValues(t: FactTable) returns (vs: seq<string>)
    ensures vs == Values(t)
  {
    vs := [];
    var i := 0;
    while i < |t|
      invariant 0 <= i <= |t|
      invariant |vs| == i && forall j :: 0 <= j < i ==> vs[j] == t[j].1
    {
      vs := vs + [t[i].1];
      i := i + 1;
    }
  }

  class Assistant {
    var userName: string
    var preferences: Preferences
    var history: seq<Turn>
    var facts: FactTable
    /** The `gideonQuantumMemory` local-storage entry: `None` while nothing is stored. */
    var storage: Option<SavedMemory>

    /** The memory record as a value. */
    function Snapshot(): Memory
      reads this
    {
      Memory(userName, preferences, history, facts)
    }

    /**
     * The constructor's default record followed by the load
     * `initializeApp` performs, given what local storage holds.
     */
    constructor (stored: Option<SavedMemory>)
      ensures storage == stored
      ensures stored.None? ==> Snapshot() == Defaults()
      ensures stored.Some? ==> Snapshot() == Merge(Defaults(), stored.value)
    {
      var d := Defaults();
      userName := d.userName;
      preferences := d.preferences;
      history := d.history;
      facts := d.facts;
      storage := stored;
      new;
      LoadMemory();
    }

    /** `loadGideonMemory`: when something is stored, overlay it field by field. */
    method LoadMemory()
      modifies this
      ensures storage == old(storage)
      ensures storage.None? ==> Snapshot() == old(Snapshot())
      ensures storage.Some? ==> Snapshot() == Merge(old(Snapshot()), storage.value)
    {
      if storage.Some? {
        var m := Merge(Snapshot(), storage.value);
        userName := m.userName;
        preferences := m.preferences;
        history := m.history;
        facts := m.facts;
      }
    }

    /** `saveGideonMemory`: the whole record is written; the record itself does not change. */
    method SaveMemory()
      modifies this
      ensures Snapshot() == old(Snapshot())
      ensures storage == Some(Saved(Snapshot()))
    {
      storage := Some(Saved(Snapshot()));
    }

    /**
     * `addGideonMessage`: one turn is appended to the history, the other
     * fields are kept, and the record is saved. `now` is the timestamp the
     * clock gives.
     */
    method AddMessage(text: string, isUser: bool, now: string)
      modifies this
      ensures history == old(history) + [Turn(text, isUser, now)]
      ensures userName == old(userName) && preferences == old(preferences) && facts == old(facts)
      ensures storage == Some(Saved(Snapshot()))
    {
      history := history + [Turn(text, isUser, now)];
      SaveMemory();
    }

    /** The deferred part of `handleGideonClear`: the history is emptied and the record saved. */
    method Purge()
      modifies this
      ensures history == []
      ensures userName == old(userName) && preferences == old(preferences) && facts == old(facts)
      ensures storage == Some(Saved(Snapshot()))
    {
      history := [];
      SaveMemory();
    }

    /**
     * `handleGideonClear` with its timer run: the request notice is posted,
     * then the history is purged and the two closing notices posted. Only
     * those two remain; the name, preferences and facts survive.
     */
    method HandleClear(requestedAt: string, doneAt: string, restartedAt: string)
      modifies this
      ensures history == [Turn(PurgeDone, false, doneAt), Turn(Restarted, false, restartedAt)]
      ensures userName == old(userName) && preferences == old(preferences) && facts == old(facts)
      ensures storage == Some(Saved(Snapshot()))
    {
      AddMessage(PurgeRequested, false, requestedAt);
      Purge();
      AddMessage(PurgeDone, false, doneAt);
      AddMessage(Restarted, false, restartedAt);
    }

    /**
     * `generateGideonResponse`: the rules are tried in order and the first
     * that fires answers. The reply and the new record are those of
     * `Respond`; the record is saved exactly when the name or a fact was
     * learned. The rules that only read the record answer with `Answer`.
     */
    method GenerateResponse(msg: string, t: Telemetry, eval: Evaluator, pick: FallbackIndex) returns (reply: Reply)
      modifies this
      ensures Outcome(reply, Snapshot()) == Respond(old(Snapshot()), msg, t, eval, pick)
      ensures (reply.NameLearned? || reply.FactStored?) ==> storage == Some(Saved(Snapshot()))
      ensures !(reply.NameLearned? || reply.FactStored?) ==> storage == old(storage)
    {
      var k := FirstRule(Snapshot(), msg, eval);
      match k
      case NameRule =>
        var name := ExtractName(msg).value;
        LearnName(name);
        reply := NameLearned(name);
      case FactRule =>
        var fact := FactText(msg);
        StoreFact(fact);
        reply := FactStored;
      case RecallRule =>
        reply := RecallMemory();
      case _ =>
        reply := Answer(k, Snapshot(), msg, t, eval, pick);
    }

    /** The name rule's effect: `userName` is set and the record saved. */
    method LearnName(name: string)
      modifies this
      ensures userName == name
      ensures preferences == old(preferences) && history == old(history) && facts == old(facts)
      ensures storage == Some(Saved(Snapshot()))
    {
      userName := name;
      SaveMemory();
    }

    /** The fact rule's effect: `learnedFacts[factKey] = fact` and the record saved. */
    method StoreFact(fact: string)
      modifies this
      ensures facts == Put(old(facts), FactKey(fact), fact)
      ensures userName == old(userName) && preferences == old(preferences) && history == old(history)
      ensures storage == Some(Saved(Snapshot()))
    {
      var factKey := FactKey(fact);
      facts := Put(facts, factKey, fact);
      SaveMemory();
    }

    /**
     * The recall rule's reply: the name and the fact values, listed by a
     * loop over the facts, or the fixed reply when nothing is stored.
     */
    method RecallMemory() returns (reply: Reply)
      ensures userName == "" && facts == [] ==> reply == NoPersonalData
      ensures userName != "" || facts != [] ==> reply == Recall(userName, Values(facts))
    {
      if userName != "" || |facts| > 0 {
        var values := CollectValues(facts);
        reply := Recall(userName, values);
      } else {
        reply := NoPersonalData;
      }
    }
  }
}
