/** What asking, the typewriter reveal and reset guarantee. */
module RevealProperties {
  import opened AuraSession
  import PetitionProperties

  /** Pressing the enabled button and letting the thinking delay run: the
      answer is the secret captured at the press when there is one, and
      otherwise the filler answer at `idx`, whatever the petition field
      shows; the thinking animation stops and the answer view opens. No
      other field changes. */
  lemma SubmitOutcome(s: Session, idx: nat)
    requires Valid(s) && s.question != "" && s.petitionDisplay != "" && !s.showAnswer
    requires idx < |RandomAnswers|
    ensures var r := AnswerTimeout(AskAura(s), s.hiddenAnswer, idx);
      Valid(AskAura(s)) && Valid(r) &&
      (s.hiddenAnswer != "" ==> r.finalAnswer == s.hiddenAnswer) &&
      (s.hiddenAnswer == "" ==> r.finalAnswer == RandomAnswers[idx]) &&
      !r.isThinking && r.showAnswer &&
      r == s.(finalAnswer := r.finalAnswer, isThinking := false, showAnswer := true)
  {
  }

  /** One tick either grows the typed text by the next character of the
      answer or, once the typed text is as long as the answer, leaves it
      alone; a typed prefix of the answer stays a prefix. */
  lemma TickStep(prev: string, target: string)
    requires |prev| <= |target| && prev == target[..|prev|]
    ensures var r := TypewriterStep(prev, target);
      |r| <= |target| && r == target[..|r|] &&
      (|prev| < |target| ==> r == prev + [target[|prev|]]) &&
      (|prev| == |target| ==> r == prev)
  {
    if |prev| < |target| {
      assert target[..|prev| + 1] == target[..|prev|] + [target[|prev|]];
    }
  }

  /** `n` ticks from a prefix of the answer show the answer up to `n` more
      characters, never past its end. */
  lemma {:induction false} TicksReveal(prev: string, target: string, n: nat)
    requires |prev| <= |target| && prev == target[..|prev|]
    ensures Ticks(prev, target, n) ==
      target[..if |prev| + n <= |target| then |prev| + n else |target|]
    decreases n
  {
    if n > 0 {
      var next := TypewriterStep(prev, target);
      TickStep(prev, target);
      TicksReveal(next, target, n - 1);
    }
  }

  /** From the cleared typed text, as many ticks as the answer has
      characters reveal the whole answer, and further ticks keep it. */
  lemma RevealCompletes(target: string, extra: nat)
    ensures Ticks("", target, |target|) == target
    ensures Ticks("", target, |target| + extra) == target
  {
    TicksReveal("", target, |target|);
    TicksReveal("", target, |target| + extra);
  }

  /** Starting the typewriter once the answer is shown clears the typed text,
      and each tick then keeps Valid and touches nothing but the typed text. */
  lemma TypewriterKeepsSession(s: Session)
    requires Valid(s)
    ensures var t := TypewriterStart(s);
      Valid(t) && Valid(Tick(s)) &&
      (s.showAnswer && s.finalAnswer != "" ==> t.typedAnswer == "") &&
      t == s.(typedAnswer := t.typedAnswer) &&
      Tick(s) == s.(typedAnswer := Tick(s).typedAnswer)
  {
  }

  /** Reset returns every field it writes to its initial value, keeps the
      thinking flag, and from the answer view, the only place its button is
      shown, yields the initial session exactly. */
  lemma ResetOutcome(s: Session)
    ensures Reset(s) == Initial().(isThinking := s.isThinking)
    ensures Valid(Reset(s))
    ensures Valid(s) && s.showAnswer ==> Reset(s) == Initial()
  {
  }

  /** A worked secret scenario: a sentinel then "42" typed into the
      empty field, a question, the button, the thinking delay and two ticks
      show "42" as the answer, whatever filler index the delay would have
      used. */
  lemma SecretFortyTwoScenario(idx: nat)
    requires idx < |RandomAnswers|
    ensures var typed := TypeSequentially(Initial(), ".42");
      var asked := QuestionChange(typed, "Will it rain?");
      var answered := AnswerTimeout(AskAura(asked), asked.hiddenAnswer, idx);
      var started := TypewriterStart(answered);
      typed.hiddenAnswer == "42" && typed.petitionDisplay == "Aur" && typed.isHiding &&
      answered.finalAnswer == "42" && answered.showAnswer &&
      Tick(Tick(started)).typedAnswer == "42"
  {
    assert ".42" == [Sentinel] + "42";
    PetitionProperties.CovertEntryThenTyping(Initial(), "42");
    PetitionProperties.PhraseStart();
    RevealCompletes("42", 0);
  }
}
