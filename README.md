# Gideon, the assistant of Solaris Pro

`script.js` implements `SolarisProApp`, the single-page dashboard of a solar
installation. This project models the one part of it with precise logic:
the chat assistant "Gideon". It also models the few small lookups around
the assistant.

- **The memory record.** `gideonMemory` holds the user's name, the
  preferences, the conversation history and the learned facts. The project
  models:
  - its defaults;
  - the load-time overlay of what local storage holds;
  - saving;
  - appending a turn (`addGideonMessage`);
  - the purge (`handleGideonClear`).

  The record is the class `Gideon.Assistant`. Its fields change in place,
  and each method states its new state as a function of the old one, read
  through `Snapshot()` as a `MemoryModel.Memory` value.
- **The reply.** `generateGideonResponse` lowers the message and tries an
  ordered chain of substring tests. The first rule that fires gives the
  one reply. The rules are:
  1. production
  2. battery
  3. pump
  4. calculation
  5. status
  6. name
  7. time
  8. help
  9. fact
  10. recall
  11. fallback

  Only the name rule and the fact rule change the record. The module
  `Responder` states this as a pure function, `Respond`. The method
  `Gideon.Assistant.GenerateResponse` is proved to agree with it.
- **The string rules inside it:**
  - the name capture `/(?:mon nom est|je suis|je m['']appelle) ([^\s,.!?]+)/i` (`Identity`);
  - the fact key `fact.substring(0, 30).toLowerCase().replace(/\s+/g, '_')` (`Facts`);
  - the calculation text and the character filter of `safeMathEval` (`Arithmetic`);
  - the JavaScript primitives these use (`Text`).
- **`learnedFacts`** is an association list kept in JavaScript's
  enumeration order:
  - keys that are array indices come first, in ascending numeric order;
  - every other key follows, in the order it was first assigned;
  - assigning to an existing key keeps its place;
  - assigning a string to `__proto__` does nothing.

  So listing the table front to back is what the recall rule's `for...in`
  loop sees.
- **Around the assistant** (`Solaris`):
  - the `handleAuth` credential check against `usersDB`, with the signed-in
    user as state of a `Session` class;
  - `getSectionTitle`, `getToastIcon` and `capitalize`.

Things that are not logic become parameters:
- the telemetry snapshot the replies quote (`Telemetry`);
- the random fallback draw (`FallbackIndex`);
- the timestamps the clock gives;
- the JavaScript evaluator behind `new Function` (`Evaluator`, which maps
  the filtered text to `Some` of the printed value, or to `None` when it
  throws).

Replies are the `Reply` datatype, carrying what the source interpolates
into its HTML.

Four behaviours of the code are worth stating plainly, because a reader
might expect otherwise:
- **Rule order.** The topic rules (production, battery, pump) are tested
  before the arithmetic trigger, so "batterie + 2" gets the battery report
  (`TopicsBeforeArithmetic`, `BatteryBeatsArithmetic`).
- **Failed evaluation.** `safeMathEval` catches the evaluator's error and
  returns `null`. The calculation rule then does not answer and the message
  falls through to the later rules; no error message is given
  (`FailedEvaluationFallsThrough`).
- **Division by zero.** The filtered text goes to JavaScript as it is, and
  JavaScript gives `Infinity` for a division by zero. The model leaves this
  to the evaluator.
- **The displayed expression.** The calculation reply shows `mathExpr` as
  extracted, spaces included; only the filtered text is evaluated
  (`CalculationSpec`, `SpokenSum`).

## Model

| member | source | states |
|---|---|---|
| Text.LowerStr | script.js:331 | `toLowerCase` keeps the length and lowers each character by the Latin-1 mapping |
| Text.Lower | script.js:331 | a lowered character is never an ASCII capital; a capital becomes a small letter; a character that changes becomes an ASCII or Latin-1 small letter |
| Text.Upper | script.js:1522 | an upper-cased character is never an ASCII small letter, and an ASCII small letter becomes a capital |
| Text.LowerIdempotent | script.js:331 | lowering a lowered character changes nothing |
| Text.LowerUndoesUpper | script.js:1522 | a small letter upper-cased changes, and lowering gives it back |
| Text.TrimStart | script.js:887 | the result is a suffix; everything dropped is whitespace; it does not start with whitespace |
| Text.TrimEnd | script.js:887 | the result is a prefix; everything dropped is whitespace; it does not end with whitespace |
| Text.Trim | script.js:887 | `trim` returns a slice with only whitespace cut from both ends, and neither end of the result is whitespace |
| Text.TrimEmptyIffBlank | script.js:426-427 | trimming leaves nothing exactly when the text is all whitespace (an empty fact) |
| Text.TrimKeepsUnpadded | script.js:887 | text not starting or ending with whitespace is left unchanged by `trim` |
| Text.TrimLeadingSpace | script.js:368 | one leading space before otherwise trimmed text is all `trim` removes |
| Text.AltAt | script.js:394 | the alternative an alternation matches at an index occurs there and is one of the listed ones; none matches exactly when none occurs |
| Text.AltAtIsFirst | script.js:363-367 | the alternatives are tried in the order listed: when one occurs and none listed before it does, it is the one matched |
| Text.FindFrom | script.js:363 | a regex search returns the leftmost index with a match, and no earlier index matches |
| Text.ReplaceAllFromIdle | script.js:364-367 | a global replace with no match from an index on copies the rest unchanged |
| Text.ReplaceAllIdle | script.js:364-367 | a global replace with no occurrence leaves the text unchanged |
| Text.ReplaceAllFromSkip | script.js:364-367 | a global replace copies a stretch without matches unchanged and goes on after it |
| Text.ReplaceAllFromMatch | script.js:364-367 | where an alternative matches, it is replaced and the scan resumes after the matched text |
| Text.ReplaceAllFromSingle | script.js:364-367 | with one match and none elsewhere, a global replace changes exactly that stretch of the text |
| Text.ReplaceAllSingle | script.js:364-367 | the same stated on whole texts matched case-insensitively |
| Text.ReplaceFirstFound | script.js:426 | a non-global replace cuts out exactly the leftmost match and puts the replacement there |
| Facts.CollapseWhitespace | script.js:428 | `replace(/\s+/g, '_')` never lengthens the text and is empty only for empty text; the lemmas below fix what it does to each run |
| Facts.Lead | script.js:428 | each character contributes at most one character: itself when not whitespace, one `_` at the end of a whitespace run, nothing inside one |
| Facts.CollapseNoWhitespace | script.js:428 | the collapsed text holds no whitespace |
| Facts.CollapseChars | script.js:428 | every character of the collapsed text is `_` or a character of the text |
| Facts.CollapseKeepsPlain | script.js:428 | text without whitespace is left unchanged |
| Facts.CollapseBlank | script.js:428 | a non-empty run of whitespace alone becomes exactly one `_` |
| Facts.CollapseConcat | script.js:428 | collapsing distributes over a cut that does not split a whitespace run |
| Facts.LeadOfConcat | script.js:428 | away from a split run, the first character of a joined text contributes what it contributes alone |
| Facts.CollapseWordThenBlank | script.js:428 | a word, a whitespace run and a non-blank rest give the word, one `_`, and the collapsed rest |
| Facts.CollapseBlankThenRest | script.js:428 | a whitespace run before a kept character gives one `_` followed by the collapsed rest |
| Facts.FactKey | script.js:428 | a fact key has at most 30 characters and no whitespace, is already lower case, and is empty only for an empty fact |
| Facts.Head | script.js:428 | `substring(0, 30)` is the prefix of length min(30, length) |
| Facts.LoweredIsLower | script.js:428 | every character of a lowered text is its own lower case |
| Facts.FactKeyDependsOnHeadOnly | script.js:428-429 | facts that agree on their first 30 characters share a key, so the later one overwrites the earlier |
| Facts.ShortPlainFactKey | script.js:428 | a short fact without whitespace is its own key once lowered |
| Facts.LowerKeepsWhitespace | script.js:428 | lowering neither creates nor removes whitespace, so lowering and collapsing commute on runs |
| Facts.FactKeyWordThenBlank | script.js:428 | within 30 characters, the key of a word, a whitespace run and a rest is the lowered word, `_`, and the key of the rest |
| Facts.LowerEach | script.js:428 | every word lowered, one for one |
| Facts.FactKeyOfWords | script.js:428 | a fact of up to 30 characters typed as words with single spaces has as key the lowered words joined by `_` |
| Facts.FactKeyOfLongFact | script.js:428 | a longer fact whose first 30 characters are such words has as key those words lowered and joined by `_`, so "le mot de passe wifi est soleil2024" gives "le_mot_de_passe_wifi_est_solei" |
| Facts.JoinStartsWithFirst | script.js:428 | a join of plain words starts with the first letter of the first word |
| Facts.Keys | script.js:443 | the keys of the table, in enumeration order |
| Facts.Values | script.js:443-445 | the values in the order `for...in` visits them |
| Facts.Find | script.js:429 | the position of a key, or none exactly when the key is absent |
| Facts.Get | script.js:444 | `learnedFacts[k]` is present exactly when `k` is a key, and is the value stored beside it |
| Facts.InsertionPoint | script.js:429 | a new array-index key goes after exactly the smaller array-index keys |
| Facts.PutExisting | script.js:429 | assigning to an existing key replaces its value in place |
| Facts.InsertInOrder | script.js:429 | inserting a new key at its enumeration place keeps the table in enumeration order |
| Facts.PutIndex | script.js:429 | a new array-index key is inserted at its numeric place |
| Facts.PutLast | script.js:429 | a new non-index key is appended |
| Facts.Put | script.js:429 | assigning a string to `__proto__` leaves the table as it is; `PutSpec` states the other cases |
| Facts.PutSpec | script.js:429 | after `learnedFacts[k] = v` the key holds `v`, every other key holds what it held, and the table grows by one exactly when `k` was new |
| Facts.PutExistingSpec | script.js:429 | the overwrite case of that property |
| Facts.PutIndexSpec | script.js:429 | the new-array-index case of that property |
| Facts.PutLastSpec | script.js:429 | the new-other-key case of that property |
| Facts.GetAround | script.js:429 | a table equal to another except for one entry set or inserted at a position answers `Get` as the property says |
| Facts.PutKeepsOrder | script.js:429 | an existing key keeps its place; a new non-numeric key is enumerated last |
| Facts.PutOverwrites | script.js:429 | storing two values under one key leaves the second, where the first put it |
| Facts.OverwriteExisting | script.js:429 | the overwrite property for a key already present |
| Facts.OverwriteIndex | script.js:429 | the overwrite property for a new array-index key |
| Facts.OverwriteLast | script.js:429 | the overwrite property for a new key of any other kind |
| Facts.PutExistingTwice | script.js:429 | two assignments in place at one position leave the second value |
| Facts.PutIndexTwice | script.js:429 | overwriting a freshly inserted array-index key is inserting the second value there |
| Facts.FindFirst | script.js:429 | with distinct keys, the key's one position is found |
| Facts.PutIdempotent | script.js:429 | storing the same fact twice leaves one entry holding it |
| Arithmetic.KeepExprChars | script.js:474 | `replace(/[^-()\d/*+.]/g, '')` keeps only the characters `- ( ) 0-9 / * + .`, as a subsequence of the input, and keeps text made only of them unchanged |
| Arithmetic.KeepExprCharsIdempotent | script.js:474 | filtering twice is filtering once |
| Arithmetic.KeepExprCharsConcat | script.js:474 | filtering distributes over concatenation |
| Arithmetic.JoinSpacedDigitsIdle | script.js:475 | the digit-joining replace changes nothing on text without whitespace |
| Arithmetic.CleanIsFilter | script.js:473-475 | the text handed to `new Function` is exactly the filtered text: only expression characters, a subsequence of the input |
| Arithmetic.SafeMathEvalSeesOnlyExprChars | script.js:471-481 | expressions with the same expression characters evaluate alike |
| Arithmetic.CalculateNeverMatches | script.js:363 | in the alternation of `calcul` and `calculate`, tried in that order, `calculate` never wins |
| Arithmetic.StripOnlyCalcul | script.js:362-363 | stripping the command word removes only "calcul", so "calculate" leaves "ate" behind |
| Arithmetic.MathExpression | script.js:362-368 | the extracted expression neither starts nor ends with whitespace |
| Arithmetic.SumCharsLowered | script.js:363-367 | text of digits, spaces and `+` is its own lower case |
| Arithmetic.SumCharsHoldNoWord | script.js:365-367 | no spoken operator occurs in such text |
| Arithmetic.NoWordAt | script.js:364 | a word cannot occur where the text holds a different first letter |
| Arithmetic.StripCalculFromSum | script.js:363 | stripping the command word from "calcul a plus b" leaves " a plus b" |
| Arithmetic.PlusOnlyAfterA | script.js:364 | " a plus b" is lower case and "plus" occurs in it only after `a` and a space |
| Arithmetic.ReplacePlusInSum | script.js:364 | replacing "plus" in " a plus b" gives " a + b" |
| Arithmetic.PlusAsSymbol | script.js:364 | putting `+` in the place of "plus" in " a plus b" gives " a + b" |
| Arithmetic.SumOfNumeralsChars | script.js:364 | " a + b" holds only digits, spaces and `+` |
| Arithmetic.SumTrimmed | script.js:368 | trimming " a + b" drops only the leading space |
| Arithmetic.OtherOperatorsIdle | script.js:365-367 | "moins", "fois", "multiplié par" and "divisé par" leave such text unchanged |
| Arithmetic.SpokenSum | script.js:362-368 | for numerals `a` and `b`, "calcul a plus b" gives the expression "a + b", so "calcul 12 plus 8" gives "12 + 8" |
| Identity.NameRun | script.js:394 | `[^\s,.!?]+` takes the longest leading run of characters that are neither whitespace nor `, . ! ?` |
| Identity.CaptureWith | script.js:394 | at an index, a capture is the name after one of the introductions that is followed by a space and a name character; none exactly when no introduction is |
| Identity.CaptureWithIsFirst | script.js:394 | the introductions are tried in the order listed: the first one followed by a name gives the capture |
| Identity.ScanFrom | script.js:394 | the regex matches at the leftmost index where a capture exists |
| Identity.ExtractName | script.js:394-395 | a name is captured exactly when the expression matches somewhere, and it is the capture at the leftmost such index |
| Identity.NameAfterShape | script.js:394 | the run after an introduction and its space is typed right after that space |
| Identity.LearnedNameShape | script.js:394-396 | a learned name is non-empty, holds no ending character, and appears in the message exactly as typed, after a space |
| Identity.AliceIntroduced | script.js:394 | "mon nom est Alice" lowered starts with the first introduction |
| Identity.AliceIsAName | script.js:394 | "Alice" is one name run |
| Identity.AliceCapturedAtStart | script.js:394 | "mon nom est Alice" captures at its first index |
| Identity.LearnsAlice | script.js:394-396 | "mon nom est Alice" teaches "Alice", with its case kept |
| MemoryModel.Defaults | script.js:32-41 | the default record has no name, no history and no facts |
| MemoryModel.MergeOverlaysEachField | script.js:69 | a field the saved record carries wins, and a field it lacks keeps its current value |
| MemoryModel.RestartRestores | script.js:65-83 | loading what was saved restores that record whatever the defaults are |
| MemoryModel.MergeIdempotent | script.js:69 | loading the same record twice is loading it once |
| Responder.FirstRule | script.js:334-463 | the answering rule fires and no rule earlier in the chain fires (first match wins) |
| Responder.Answer | script.js:334-463 | the reply is a calculation, a learned name, a stored fact or a fallback exactly when that rule answers |
| Responder.Effect | script.js:393-433 | no rule changes the history or the preferences; only the name rule, with no name known, changes the name; only the fact rule changes the facts |
| Responder.BatteryBeatsArithmetic | script.js:342-348 | "batterie" in a message without a production keyword gives the battery report, even with an operator |
| Responder.TopicsBeforeArithmetic | script.js:334-360 | a production, battery or pump keyword gives that report, never a calculation, and keeps the memory |
| Responder.FailedEvaluationSkipsRule | script.js:370-375 | when evaluation fails the calculation rule does not answer, and the same rule answers as with an evaluator that always throws |
| Responder.FiresWithoutEvaluation | script.js:359-375 | apart from the calculation rule, whether a rule fires does not depend on the evaluator |
| Responder.RankInjective | script.js:334-463 | each rule has its own place in the chain |
| Responder.FailedEvaluationFallsThrough | script.js:370-379 | a failed evaluation is not an error reply: the reply and new memory are those with the calculation rule disabled |
| Responder.AnswerWithoutEvaluation | script.js:334-463 | every rule but the calculation answers and acts without the evaluator |
| Responder.CalculationSpec | script.js:359-375 | a calculation needs a trigger, shows the extracted expression, gives the evaluator's value for the filtered subsequence of it, and keeps the memory |
| Responder.RespondFrame | script.js:329-469 | a reply never changes history or preferences; the name changes only from unset with a learned-name reply; the facts change only with a fact-stored reply |
| Responder.NameNeverOverwritten | script.js:393 | once a name is known no message changes it or gets a learned-name reply |
| Responder.NameLearnedSpec | script.js:393-398 | learning a name needs a name keyword and no known name; the name is the capture, non-empty, and is the only change |
| Responder.FactStoredSpec | script.js:425-431 | storing needs a message starting with "retiens que" or "mémorise" and a non-empty fact; the fact is stored under its key, the only change, and the table grows by at most one |
| Responder.FactTextAfterCommand | script.js:426 | the fact is the rest of the message after its command word, trimmed |
| Responder.FactText | script.js:426 | the fact is already trimmed |
| Responder.FallbackText | script.js:454-461 | the first three fallbacks are the neutral texts; the fourth starts with the name when one is known |
| Responder.RecallSpec | script.js:436-451 | recall gives the fixed no-data reply exactly when there is no name and no fact; otherwise the name and every fact value in enumeration order; memory is kept |
| Responder.FallbackIsLastResort | script.js:454-463 | the fallback answers only when no other rule fires, with the drawn text, and keeps the memory |
| Responder.FallbackPersonalisation | script.js:454-461 | the first three fallbacks ignore the name; the fourth differs from the neutral text exactly when a name is known, and then starts with it |
| Responder.NameStaysOnceKnown | script.js:393 | across any conversation a known name is never replaced |
| Responder.RespondKeepsKeys | script.js:429 | a stored key survives any one reply |
| Responder.FactKeysOnlyGrow | script.js:425-433 | across any conversation of replies a stored key is never lost and the history is untouched |
| Gideon.CollectValues | script.js:443-445 | the loop over the facts collects every value in enumeration order |
| Gideon.Assistant.constructor | script.js:32-74 | the record starts at the defaults, overlaid with what storage holds when something is stored |
| Gideon.Assistant.LoadMemory | script.js:65-74 | with nothing stored the record is kept; otherwise it becomes the saved fields overlaid on it |
| Gideon.Assistant.SaveMemory | script.js:76-83 | the stored record becomes the current one, which does not change |
| Gideon.Assistant.AddMessage | script.js:316-322 | exactly one turn with the given text, flag and time is appended; earlier turns and other fields are kept; the record is saved |
| Gideon.Assistant.Purge | script.js:540-541 | the history is emptied, the name, preferences and facts are kept, and the record is saved |
| Gideon.Assistant.HandleClear | script.js:532-549 | after a clear the history is exactly the two closing notices; name, preferences and facts survive |
| Gideon.Assistant.GenerateResponse | script.js:329-469 | the reply and new record are those `Respond` gives; the record is saved exactly when a name or fact was learned |
| Gideon.Assistant.LearnName | script.js:396-397 | the name is set, nothing else changes, and the record is saved |
| Gideon.Assistant.StoreFact | script.js:428-430 | the fact is stored under its key, nothing else changes, and the record is saved |
| Gideon.Assistant.RecallMemory | script.js:437-449 | no-data reply with no name and no facts; otherwise the name and the values the loop collects |
| Solaris.FindUser | script.js:890 | `find` gives the first entry matching both user name and password, or none when no entry matches |
| Solaris.Authenticate | script.js:887-892 | login succeeds exactly when some entry matches the trimmed user name and the untrimmed password, and gives that entry |
| Solaris.UsernamesDistinct | script.js:24-29 | no two built-in accounts share a user name |
| Solaris.AuthenticatedIsNamedUser | script.js:887-892 | for a user name in the table, login succeeds exactly with that entry's password, and gives that entry |
| Solaris.TrimDemo | script.js:887 | " demo " trims to "demo" |
| Solaris.PaddedNameAccepted | script.js:887-892 | spaces around the user name are forgiven |
| Solaris.PaddedPasswordRejected | script.js:888-892 | spaces around the password are not |
| Solaris.Lookup | script.js:1103 | an object-literal lookup finds nothing exactly when the key is absent, and otherwise a value stored under the key |
| Solaris.LookupOr | script.js:1103 | the lookup with a default gives the fallback for an absent key or an empty value, and with distinct keys gives the non-empty value stored beside the key |
| Solaris.LookupDistinct | script.js:1103 | with distinct keys, a lookup finds the value stored beside the key |
| Solaris.LookupFindsStored | script.js:1103 | with distinct keys, looking up any key stored in the table finds the value beside it |
| Solaris.SectionKeysDistinct | script.js:1093-1102 | the section keys are distinct and every title is non-empty |
| Solaris.SectionTitleSpec | script.js:1092-1104 | an unknown section gets "Système Intelligent", a known one its own title, and no title is empty |
| Solaris.ToastIconSpec | script.js:1511-1519 | a known toast type gets its own icon, an unknown one the `info` icon, and every type gets one of the four icons |
| Solaris.ToastKeysDistinct | script.js:1512-1517 | the toast types are distinct and every icon is non-empty |
| Solaris.Capitalize | script.js:1521-1523 | `capitalize` keeps the length, upper-cases the first character and keeps the rest |
| Solaris.CapitalizeOnlyChangesCase | script.js:1521-1523 | capitalising changes no letter except in case |
| Solaris.CapitalizeIdempotent | script.js:1521-1523 | capitalising twice is capitalising once |
| Solaris.Session.constructor | script.js:879-916 | nobody is signed in at first |
| Solaris.Session.HandleAuth | script.js:879-916 | on a successful login the user is signed in and greeted by the capitalised user name; otherwise nothing changes and no greeting is given |

## Left out

- DOM work:
  - the chat panel, styling and scrolling;
  - the early `return` of `addGideonMessage` and `handleAuth` when their elements are missing (the model assumes the page is complete);
  - the modal and toast display;
  - `updateUserUI` and `initMainApp`.
- Timers:
  - `handleGideonClear`'s two-second delay is modelled by running the deferred part at once;
  - the reply delay of `sendGideonMessage` is event-loop timing.
- `sendGideonMessage` is not modelled. It is glue: it trims the input, appends it, and later appends the reply. Its parts are `AddMessage` and `GenerateResponse`.
- `handleGideonMemory` is not modelled. It only formats the record into a message. Its fact loop is the same as the recall loop, which `CollectValues` models.
- Local storage:
  - it is modelled as one `Option<SavedMemory>` field;
  - `JSON.stringify`/`JSON.parse` are not modelled;
  - write failures, corrupt saved text and the logged errors are not modelled;
  - a saved record is assumed well formed (its fact table already in enumeration order).
- `lastSession` and the time rule's clock reading are not modelled. They come from the clock.
- `toFixed`, `Math.round` and the HTML text of every reply are not modelled; they are presentation.
- The evaluation in `safeMathEval` (`new Function`) is a parameter. It is JavaScript's own evaluator, with floating point, `Infinity` and `undefined`.
- The inner `catch` of the calculation rule and the outer `catch` of `generateGideonResponse` are not modelled. With the evaluator's errors caught inside `safeMathEval`, neither can run.
- Text.LowerStr: lowering covers ASCII and Latin-1 only, not full Unicode case mapping. All keywords are ASCII plus `é`/`è`, so keyword tests are exact. Names and facts with other letters are lowered as given.
- Solaris.Capitalize: upper-casing covers ASCII and Latin-1 only. `ß`, which JavaScript turns into "SS", is left unchanged, so the model's result keeps the input's length.
- Strings are sequences of code points, not UTF-16 units. `substring(0, 30)` on text with characters beyond the Basic Multilingual Plane counts differently.
- Solaris.LookupOr: the title and icon tables are plain object literals. Keys inherited from `Object.prototype`, such as `constructor`, would return a function; the model treats them as absent.
- `usersDB`: the `color`, `role_color` and `role_badge` fields are left out. They are only used for styling.
- The preferences are carried and saved but never read by the modelled code.

