# Aura Replies: the covert petition field

"Aura Replies" is a one-component React mentalism toy. The petition field
looks as if the user were typing the decoy phrase
`Aura please answer the following question.`, while the component secretly
records what was actually typed. A second field holds a public question.
"Ask Aura" starts a thinking delay, then picks the answer. The answer is the
secret if one was captured, otherwise one of eleven filler answers. The answer is
revealed one character per tick. "Ask Another" resets the form.

This project models the `App` component's state and event handlers in
`App.tsx`:

- `aura_session.dfy` (module `AuraSession`) holds the constants, the eight
  state fields as the `Session` datatype, and one pure transition per handler.
  `PetitionChange` is `handlePetitionChange`, with `AppendBatch` for its loop
  over appended characters. `PetitionKeyDown`, `QuestionChange`, `AskAura`,
  `AnswerTimeout`, `TypewriterStart`, `Tick` and `Reset` follow. `Valid` is
  the invariant every reachable state keeps.
- `petition_properties.dfy` (module `PetitionProperties`) holds the lemmas
  about the petition field.
- `reveal_properties.dfy` (module `RevealProperties`) holds the lemmas about
  asking, the typewriter reveal and reset.
- `aura_app.dfy` (module `AuraApp`) holds the class `App`. It has the eight
  fields and one method per handler. Each handler method is proved to keep
  `Valid` and to leave the fields as its `AuraSession` transition says.
  `App.AppendCharacters`, the handler's inner loop, is proved equal to
  `AppendBatch`.

React's setter semantics are modelled: every read in a handler sees the
state as it was when the event arrived, and the last write to a field wins.
Strings are sequences of Unicode scalar values (see "## Left out").
`App.PetitionChange` copies the fields into locals first. Its loop,
`App.AppendCharacters`, reads only those copies.

Two behaviours of `App.tsx` are worth stating plainly. The model follows the
code in both:

- **Batched input.** The handler's banner (App.tsx:150, "MOBILE & DESKTOP
  COMPATIBLE PETITION HANDLING") and the comment on its loop (App.tsx:189,
  "Process each added character") suggest that a batch such as `"xyz"` in one event should end like
  three single keystrokes. But every iteration extends
  the secret as it was *before* the event (App.tsx:200). So a batch leaves the
  old secret plus only the last non-sentinel character processed. Appending
  `"hi"` to the field showing `"A"` gives the secret `"i"` and the display
  `"Au"`, not `"hi"` and `"Aur"`. `BatchOutcome` states the whole batch
  behaviour. `BatchMatchesSequentialOnlyForOneCharacter` proves that, while capturing,
  for characters other than `.`, batched and one-at-a-time typing agree exactly when one
  character is added, below the cap and at it alike.
  `OneCharacterBatchIsSequential` gives the "if" half for every state. The
  "only if" half fails once `.` is allowed: `TrailingSentinelBatchExample`
  shows the batch `"x."` ending like `x` then `.` typed separately.
  Outside capture the field only mirrors its input, so there a non-`.` batch
  of any length ends like one-at-a-time typing (`OutsideCaptureAnyBatch`).
  `BatchedHiExample` is the worked example.
- **Reset.** `handleReset` (App.tsx:252-260) never writes `isThinking`. `Valid` includes "the answer view
  is never open while `isThinking` is set". So from the answer view, the only place the
  reset button appears, reset still gives the initial state (`ResetOutcome`).

## Model

| member | source | states |
|---|---|---|
| AuraSession.PetitionPhrase | App.tsx:128 | the 42-character decoy phrase shown while the secret is typed; its length sets the cap on the secret |
| AuraSession.Sentinel | App.tsx:160-193 | the `.` that starts capture when typed into the empty field (App.tsx:160) and ends it when appended while hiding (App.tsx:193) |
| AuraSession.EscapeKey | App.tsx:224 | the key name `"Escape"` that cancels capture |
| AuraSession.RandomAnswers | App.tsx:4-16 | the eleven filler answers, in source order, given when no secret was captured |
| AuraSession.Initial | App.tsx:118-126 | the `useState` initial values; `App.constructor` establishes it and `ResetOutcome` returns to it |
| AuraSession.Valid | App.tsx:163-209 | the invariant of reachable states; `PetitionChangePreservesValid`, `KeyDownOutcome`, `SubmitOutcome`, `TypewriterKeepsSession` and `ResetOutcome` prove that it is kept |
| AuraSession.AppendBatch | App.tsx:190-212 | the append loop over the pre-event secret; `BatchOutcome` gives its closed form |
| AuraSession.PetitionChange | App.tsx:151-214 | `handlePetitionChange`; its lemmas are `NormalModeChange`, `ShrinkOrSameLength`, `SingleAppend`, `PetitionChangePreservesValid`, `AnswerShownFreezesPetition` and `PetitionFrame` |
| AuraSession.PetitionKeyDown | App.tsx:216-234 | `handlePetitionKeyDown`; `KeyDownOutcome` states its result |
| AuraSession.TypeSequentially | App.tsx:151-214 | one change event per character, each carrying the display plus that character; `TypingBelowCap` and `CovertEntryThenTyping` state the result |
| AuraSession.QuestionChange | App.tsx:72 | the question field takes the raw value; `SecretFortyTwoScenario` uses it |
| AuraSession.AskAura | App.tsx:236-237 | the thinking flag is set; `SubmitOutcome` states the result with the timeout |
| AuraSession.AnswerTimeout | App.tsx:238-249 | the timeout body; `SubmitOutcome` states its result |
| AuraSession.TypewriterStart | App.tsx:131-134 | the effect body clears the typed text; `TypewriterKeepsSession` states it |
| AuraSession.TypewriterStep | App.tsx:136-142 | the tick updater; `TickStep` states its result |
| AuraSession.Tick | App.tsx:136-142 | one tick on the session; `TypewriterKeepsSession` states that it touches only the typed text |
| AuraSession.Ticks | App.tsx:135-143 | repeated ticks; `TicksReveal` and `RevealCompletes` state the result |
| AuraSession.Reset | App.tsx:252-260 | `handleReset`; `ResetOutcome` states its result |
| AuraSession.Prefix | App.tsx:163 | JavaScript `substring(0, n)`: the first `n` characters, or the whole string when it is shorter |
| AuraSession.FirstSentinel | App.tsx:190-197 | the index of the first `.` among the appended characters (or their count), with no `.` before it |
| AuraSession.ChooseAnswer | App.tsx:239-245 | the chosen answer is the secret when it is non-empty, otherwise one of the filler answers; never empty |
| PetitionProperties.NormalModeChange | App.tsx:158-168 | outside capture: capture starts iff the input is exactly `.` on an empty field (secret `""`, display `"A"`); otherwise the display mirrors the input and nothing else changes, a stale secret included |
| PetitionProperties.ShrinkOrSameLength | App.tsx:172-185 | while hiding: a shorter input drops exactly one trailing secret character and shows the matching phrase prefix; with an empty secret, capture ends and the field clears; an input of the expected length changes nothing |
| PetitionProperties.SingleAppend | App.tsx:190-211 | one appended `.` ends capture with the full phrase and keeps the secret; another character `c` gives secret `old + c` and one more phrase character, or at the cap ends capture with the full phrase |
| PetitionProperties.BatchOutcome | App.tsx:190-214 | closed form of the append loop: the first `.` or the cap ends capture with the full phrase and drops later characters; the secret becomes the pre-event secret plus the last non-`.` character processed |
| PetitionProperties.PetitionChangePreservesValid | App.tsx:151-214 | every change event keeps the invariant: while hiding, the display is the phrase prefix one character longer than the secret, and the secret plus one stays below the phrase length 42 |
| PetitionProperties.KeyDownOutcome | App.tsx:216-234 | Escape while hiding clears capture, display and secret; any other key, Escape outside capture, or any key in the answer view changes nothing; the invariant is kept |
| PetitionProperties.AnswerShownFreezesPetition | App.tsx:152-219 | while the answer is shown, change and key events leave every field unchanged |
| PetitionProperties.PetitionFrame | App.tsx:151-234 | the petition handlers write only the display, the secret and the hiding flag |
| PetitionProperties.TypingBelowCap | App.tsx:172-210 | non-`.` characters typed one event at a time below the cap are captured exactly, with the phrase shown to one character past them |
| PetitionProperties.CovertEntryThenTyping | App.tsx:158-210 | from the empty field outside capture, `.` followed by characters typed one at a time, none of them `.` and at most 40 of them (so the secret plus one stays below 42), leaves capture on with exactly those characters as the secret |
| PetitionProperties.NonSentinelTyping | App.tsx:151-211 | typing non-`.` characters one event at a time never shortens the secret; outside capture it only extends the display by those characters |
| PetitionProperties.BatchMatchesSequentialOnlyForOneCharacter | App.tsx:190-214 | while hiding, for non-`.` characters, below or at the cap, a batched append equals the same characters typed one at a time if and only if exactly one character was added |
| PetitionProperties.OutsideCaptureAnyBatch | App.tsx:157-168 | outside capture, a batch of non-`.` characters of any length gives the same state as typing them one at a time: the display extended by them, nothing else changed |
| PetitionProperties.OneCharacterBatchIsSequential | App.tsx:185-211 | in every state, a one-character batch is the same as one single-character event |
| PetitionProperties.TrailingSentinelBatchExample | App.tsx:190-211 | with `"A"` shown and no secret, the batch `"x."` gives secret `"x"`, the full phrase and capture off, the same state as typing `x` then `.` separately |
| PetitionProperties.BatchedHiExample | App.tsx:190-234 | `.` then `"hi"` in one event gives secret `"i"` and display `"Au"` (one at a time: `"hi"`, `"Aur"`); Escape then restores the initial state |
| RevealProperties.SubmitOutcome | App.tsx:236-250 | with both fields non-empty: the answer is the captured secret if non-empty, else the filler answer at the given index; thinking off, answer view on, nothing else changed |
| RevealProperties.TickStep | App.tsx:136-142 | a tick keeps the typed text a prefix of the answer, adds exactly the next character while shorter, and changes nothing once equal |
| RevealProperties.TicksReveal | App.tsx:135-143 | `n` ticks from a prefix of the answer show the answer up to `n` more characters, capped at its length |
| RevealProperties.RevealCompletes | App.tsx:131-143 | as many ticks as the answer has characters, from `""`, reveal the whole answer, and further ticks keep it |
| RevealProperties.TypewriterKeepsSession | App.tsx:131-143 | starting the typewriter in the answer view with a non-empty answer clears the typed text; start and tick touch only the typed text and keep the invariant |
| RevealProperties.ResetOutcome | App.tsx:252-260 | reset sets its seven fields to their initial values and keeps `isThinking`; from the answer view it yields the initial state |
| RevealProperties.SecretFortyTwoScenario | App.tsx:151-250 | `.42` typed, a question, ask, the delay and two ticks: the secret is `"42"`, the display `"Aur"`, the answer and typed text `"42"` |
| AuraApp.App.constructor | App.tsx:118-126 | all eight fields start at their initial values |
| AuraApp.App.PetitionChange | App.tsx:151-214 | the handler with a snapshot of the old fields and a loop over the appended characters; the new state is `PetitionChange(old state, input)` and the invariant is kept |
| AuraApp.App.AppendCharacters | App.tsx:186-212 | the `while` loop over the appended characters, reading only the pre-event secret; the new state is `AppendBatch(pre-event secret, appended characters, old state)` |
| AuraApp.App.PetitionKeyDown | App.tsx:216-234 | the new state is `PetitionKeyDown(old state, key)` and the invariant is kept |
| AuraApp.App.QuestionChange | App.tsx:72-73 | the question field takes the raw input while the form is shown |
| AuraApp.App.AskAura | App.tsx:236-238 | enabled only with both fields non-empty and the form shown; sets the thinking flag and hands the timeout the secret it captures |
| AuraApp.App.AnswerTimeout | App.tsx:238-249 | the new state is `AnswerTimeout(old state, captured secret, idx)` |
| AuraApp.App.TypewriterStart | App.tsx:131-134 | in the answer view with a non-empty answer, the typed text is cleared |
| AuraApp.App.TypewriterTick | App.tsx:136-142 | the typed text grows by one character while shorter than the answer, and is left unchanged otherwise |
| AuraApp.App.Reset | App.tsx:252-260 | the new state is `Reset(old state)`, and it is the initial state when reset is pressed from the answer view |

## Left out

- The JSX components (`Header`, `AuraCoreAnimation`, the markup of `AuraForm`, `AuraResponse`, `Footer`) and all styling are left out: they only render. The two render guards are kept as preconditions. The "Ask Aura" button is enabled only with both fields non-empty (App.tsx:80). The form is shown only while the answer is not (App.tsx:269).
- `setTimeout`, `setInterval`, their delays (2500 ms, 50 ms) and `clearInterval` are left out as timer plumbing. The timeout body is `App.AnswerTimeout` and one interval tick is `App.TypewriterTick`. The caller decides when they fire. The timeout closure's captured secret is passed explicitly as `pending`.
- `Math.random` is left out as nondeterministic floating point. The filler answer is chosen by a caller-supplied index `idx < 11`.
- `e.preventDefault()` and the `useCallback`/`useEffect` dependency mechanics are left out as framework behaviour. The model keeps their effect on state: reads see the state from before the event, and the typewriter effect restarts when the answer changes (`App.TypewriterStart`, to be called after such a change).
- PetitionProperties.TypingBelowCap: stated only for non-`.` characters below the cap. The cap and `.` exits are stated for one event by `SingleAppend`.
- PetitionProperties.BatchMatchesSequentialOnlyForOneCharacter: stated only for non-`.` characters, because with `.` allowed the "only if" half is false. A trailing `.` can make a longer batch agree with one-at-a-time typing (`TrailingSentinelBatchExample`). The "if" half holds everywhere (`OneCharacterBatchIsSequential`).
- Strings are modelled as sequences of Unicode scalar values, not UTF-16 code units. JavaScript's `length` and `newValue[i]` (App.tsx:172-191) count code units, so input outside the Basic Multilingual Plane behaves differently. Consider capture with `"A"` shown, no secret, and the change to `"A😀"`. The code sees two added code units and extends the empty secret with each in turn. It ends with a lone low surrogate as the secret and `"Au"` shown. The model sees one added character and keeps `"😀"` as the secret, with `"Au"` shown.
