/** The session state of the "Aura Replies" form and the transition that each
    event handler of the App component performs on it.

    React state setters do not take effect inside the running handler: every
    read sees the state as it was when the event arrived, and when a field is
    set twice the last write wins. Each function below therefore maps the state
    before an event to the state after it. */
module AuraSession {

  /** The decoy phrase the petition field shows while the secret is typed. */
  const PetitionPhrase: string := "Aura please answer the following question."

  /** Typed into an empty field it starts covert capture; typed while
      capturing it ends capture. */
  const Sentinel: char := '.'

  /** The key identifier that cancels covert capture. */
  const EscapeKey: string := "Escape"

  /** The filler answers given when no secret was captured. */
  const RandomAnswers: seq<string> := [
    "Aura answers only to its master.",
    "Not in the mood to answer.",
    "The ether is silent on this matter...",
    "The stars do not align for such a query.",
    "That is a question for another time.",
    "Seek the answer within yourself.",
    "The future is clouded, ask again later.",
    "Consult the void, for it holds what you seek.",
    "Energy signatures are unclear. Rephrase your petition.",
    "The path you walk is your own to discover.",
    "A whisper on the cosmic wind is your only reply."
  ]

  /** The eight state fields of the App component. */
  datatype Session = Session(
    petitionDisplay: string,
    question: string,
    hiddenAnswer: string,
    isHiding: bool,
    finalAnswer: string,
    typedAnswer: string,
    isThinking: bool,
    showAnswer: bool)

  /** The initial value of every field. */
  function Initial(): Session {
    Session("", "", "", false, "", "", false, false)
  }

  /** JavaScript's `s.substring(0, n)` for `n >= 0`: the first `n` characters,
      or the whole string when it is shorter. */
  function Prefix(s: string, n: nat): (r: string)
    ensures |r| == if n <= |s| then n else |s|
    ensures r == s[..|r|]
  {
    if n <= |s| then s[..n] else s
  }

  /** Every state the handlers can reach: while hiding, the field shows the
      phrase up to one character past the secret, and the secret stays two
      characters short of the phrase; the answer view is never shown while
      `isThinking` is set. */
  predicate Valid(s: Session) {
    (s.isHiding ==>
       |s.hiddenAnswer| + 1 < |PetitionPhrase| &&
       s.petitionDisplay == PetitionPhrase[..|s.hiddenAnswer| + 1]) &&
    (s.showAnswer ==> !s.isThinking)
  }

  /** Index of the first sentinel in `a`, or `|a|` when there is none. */
  function FirstSentinel(a: string): (k: nat)
    ensures k <= |a|
    ensures k < |a| ==> a[k] == Sentinel
    ensures forall j :: 0 <= j < k ==> a[j] != Sentinel
  {
    if a == [] then 0
    else if a[0] == Sentinel then 0
    else 1 + FirstSentinel(a[1..])
  }

  // ---------------------------------------------------------------------
  // Petition field: handlePetitionChange and handlePetitionKeyDown
  // ---------------------------------------------------------------------

  /** The loop over the characters appended while hiding. `hidden0` is the
      secret as it was before the event: every iteration extends that value,
      not the one written by the previous iteration. `cur` holds what the
      iterations so far have written. */
  function AppendBatch(hidden0: string, added: string, cur: Session): Session
    decreases |added|
  {
    if added == [] then cur
    else if added[0] == Sentinel then
      cur.(isHiding := false, petitionDisplay := PetitionPhrase)
    else
      var newHidden := hidden0 + [added[0]];
      if |newHidden| + 1 >= |PetitionPhrase| then
        cur.(hiddenAnswer := newHidden, isHiding := false, petitionDisplay := PetitionPhrase)
      else
        AppendBatch(hidden0, added[1..],
          cur.(hiddenAnswer := newHidden, petitionDisplay := Prefix(PetitionPhrase, |newHidden| + 1)))
  }

  /** A change event carrying the field's new full value. */
  function PetitionChange(s: Session, newValue: string): Session {
    if s.showAnswer then s
    else if !s.isHiding then
      if newValue == [Sentinel] && s.petitionDisplay == "" then
        s.(isHiding := true, hiddenAnswer := "", petitionDisplay := Prefix(PetitionPhrase, 1))
      else
        s.(petitionDisplay := newValue)
    else
      var expected := |s.hiddenAnswer| + 1;
      if |newValue| < expected then
        if |s.hiddenAnswer| > 0 then
          var newHidden := s.hiddenAnswer[..|s.hiddenAnswer| - 1];
          s.(hiddenAnswer := newHidden, petitionDisplay := Prefix(PetitionPhrase, |newHidden| + 1))
        else
          s.(isHiding := false, petitionDisplay := "")
      else if |newValue| > expected then
        AppendBatch(s.hiddenAnswer, newValue[expected..], s)
      else
        s
  }

  /** A key-down event on the petition field. */
  function PetitionKeyDown(s: Session, key: string): Session {
    if s.showAnswer then s
    else if s.isHiding && key == EscapeKey then
      s.(isHiding := false, petitionDisplay := "", hiddenAnswer := "")
    else s
  }

  /** Typing the characters of `cs` one event at a time: each event carries
      what the field shows plus one character. */
  function TypeSequentially(s: Session, cs: string): Session
    decreases |cs|
  {
    if cs == [] then s
    else TypeSequentially(PetitionChange(s, s.petitionDisplay + [cs[0]]), cs[1..])
  }

  /** A change event on the question field. */
  function QuestionChange(s: Session, value: string): Session {
    s.(question := value)
  }

  // ---------------------------------------------------------------------
  // Asking, the typewriter reveal and reset
  // ---------------------------------------------------------------------

  /** The answer the thinking timeout picks: the captured secret when there
      is one, otherwise the filler answer at `idx`. */
  function ChooseAnswer(hidden: string, idx: nat): (r: string)
    requires idx < |RandomAnswers|
    ensures r != ""
    ensures hidden != "" ==> r == hidden
    ensures hidden == "" ==> r in RandomAnswers
  {
    if hidden != "" then hidden else RandomAnswers[idx]
  }

  /** The synchronous part of handleAskAura: the thinking animation starts. */
  function AskAura(s: Session): Session {
    s.(isThinking := true)
  }

  /** The body of the thinking timeout. `pending` is the secret the timeout
      closure captured when the button was pressed. */
  function AnswerTimeout(s: Session, pending: string, idx: nat): Session
    requires idx < |RandomAnswers|
  {
    s.(finalAnswer := ChooseAnswer(pending, idx), isThinking := false, showAnswer := true)
  }

  /** The typewriter effect's body when it (re)starts. */
  function TypewriterStart(s: Session): Session {
    if s.showAnswer && s.finalAnswer != "" then s.(typedAnswer := "") else s
  }

  /** The updater each interval tick passes to setTypedAnswer. */
  function TypewriterStep(prev: string, target: string): string {
    if |prev| < |target| then target[..|prev| + 1] else prev
  }

  /** One interval tick of the typewriter effect. */
  function Tick(s: Session): Session {
    s.(typedAnswer := TypewriterStep(s.typedAnswer, s.finalAnswer))
  }

  /** `n` interval ticks applied to a typed prefix. */
  function Ticks(prev: string, target: string, n: nat): string
    decreases n
  {
    if n == 0 then prev else Ticks(TypewriterStep(prev, target), target, n - 1)
  }

  /** handleReset: seven fields back to their initial values; isThinking is
      not written. */
  function Reset(s: Session): Session {
    s.(petitionDisplay := "", question := "", hiddenAnswer := "", finalAnswer := "",
       typedAnswer := "", isHiding := false, showAnswer := false)
  }
}
