/** The App component as an object: its eight state fields and one method per
    event handler. Each method reads the fields as they were when the event
    arrived and leaves them as the matching transition of AuraSession says. */
module AuraApp {
  import opened AuraSession
  import PetitionProperties
  import RevealProperties

  class App {
    var petitionDisplay: string
    var question: string
    var hiddenAnswer: string
    var isHiding: bool
    var finalAnswer: string
    var typedAnswer: string
    var isThinking: bool
    var showAnswer: bool

    /** The current values of the eight fields. */
    function Snapshot(): Session
      reads this
    {
      Session(petitionDisplay, question, hiddenAnswer, isHiding,
              finalAnswer, typedAnswer, isThinking, showAnswer)
    }

    ghost predicate Valid()
      reads this
    {
      AuraSession.Valid(Snapshot())
    }

    constructor ()
      ensures Valid() && Snapshot() == Initial()
    {
      petitionDisplay, question, hiddenAnswer, isHiding := "", "", "", false;
      finalAnswer, typedAnswer, isThinking, showAnswer := "", "", false, false;
    }

    /** handlePetitionChange. The loop over the appended characters reads
        only the copies taken on entry, so each iteration extends the secret
        as it was before the event. */
    method PetitionChange(newValue: string)
      requires Valid()
      modifies this
      ensures Valid()
      ensures Snapshot() == AuraSession.PetitionChange(old(Snapshot()), newValue)
    {
      ghost var before := Snapshot();
      PetitionProperties.PetitionChangePreservesValid(before, newValue);
      if showAnswer {
        return;
      }
      var oldValue := petitionDisplay;
      var hidingBefore := isHiding;
      var hiddenBefore := hiddenAnswer;

      if !hidingBefore {
        if newValue == [Sentinel] && oldValue == "" {
          isHiding := true;
          hiddenAnswer := "";
          petitionDisplay := Prefix(PetitionPhrase, 1);
          return;
        }
        petitionDisplay := newValue;
        return;
      }

      var expected := |hiddenBefore| + 1;
      if |newValue| < expected {
        if |hiddenBefore| > 0 {
          var newHidden := hiddenBefore[..|hiddenBefore| - 1];
          hiddenAnswer := newHidden;
          petitionDisplay := Prefix(PetitionPhrase, |newHidden| + 1);
        } else {
          isHiding := false;
          petitionDisplay := "";
        }
      } else if |newValue| > expected {
        AppendCharacters(newValue, expected, hiddenBefore);
      }
    }

    /** The loop of handlePetitionChange over the characters appended while
        hiding. It reads only `hiddenBefore`, the secret as it was before the
        event; a sentinel or the cap ends capture and skips the rest. */
    method AppendCharacters(newValue: string, expected: nat, hiddenBefore: string)
      requires expected < |newValue|
      modifies this
      ensures Snapshot() == AppendBatch(hiddenBefore, newValue[expected..], old(Snapshot()))
    {
      ghost var after := AppendBatch(hiddenBefore, newValue[expected..], Snapshot());
      var added := |newValue| - expected;
      var i := 0;
      while i < added
        invariant 0 <= i <= added
        invariant AppendBatch(hiddenBefore, newValue[expected + i..], Snapshot()) == after
      {
        ghost var cur := Snapshot();
        ghost var rest := newValue[expected + i..];
        var newChar := newValue[expected + i];
        assert rest[0] == newChar && rest[1..] == newValue[expected + i + 1..];
        if newChar == Sentinel {
          isHiding := false;
          petitionDisplay := PetitionPhrase;
          return;
        }
        var newHidden := hiddenBefore + [newChar];
        hiddenAnswer := newHidden;
        if |newHidden| + 1 >= |PetitionPhrase| {
          isHiding := false;
          petitionDisplay := PetitionPhrase;
          return;
        }
        petitionDisplay := Prefix(PetitionPhrase, |newHidden| + 1);
        assert AppendBatch(hiddenBefore, rest, cur) ==
               AppendBatch(hiddenBefore, rest[1..], Snapshot());
        i := i + 1;
      }
    }

    /** handlePetitionKeyDown. */
    method PetitionKeyDown(key: string)
      requires Valid()
      modifies this
      ensures Valid()
      ensures Snapshot() == AuraSession.PetitionKeyDown(old(Snapshot()), key)
    {
      PetitionProperties.KeyDownOutcome(Snapshot(), key);
      if showAnswer {
        return;
      }
      if isHiding {
        if key == EscapeKey {
          isHiding := false;
          petitionDisplay := "";
          hiddenAnswer := "";
        }
      }
    }

    /** The question field's change handler; the field is disabled, and not
        rendered, while the answer is shown. */
    method QuestionChange(value: string)
      requires Valid() && !showAnswer
      modifies this
      ensures Valid()
      ensures Snapshot() == AuraSession.QuestionChange(old(Snapshot()), value)
    {
      question := value;
    }

    /** handleAskAura, synchronous part. The button is enabled only when both
        fields are non-empty and is shown only while the answer is not.
        `pending` is the secret the timeout closure captures. */
    method AskAura() returns (pending: string)
      requires Valid() && question != "" && petitionDisplay != "" && !showAnswer
      modifies this
      ensures Valid()
      ensures pending == old(hiddenAnswer)
      ensures Snapshot() == AuraSession.AskAura(old(Snapshot()))
    {
      pending := hiddenAnswer;
      isThinking := true;
    }

    /** The body of handleAskAura's timeout; `idx` stands for the random
        index into the filler answers. */
    method AnswerTimeout(pending: string, idx: nat)
      requires Valid() && idx < |RandomAnswers|
      modifies this
      ensures Valid()
      ensures Snapshot() == AuraSession.AnswerTimeout(old(Snapshot()), pending, idx)
    {
      var answerToSet := "";
      if pending != "" {
        answerToSet := pending;
      } else {
        answerToSet := RandomAnswers[idx];
      }
      finalAnswer := answerToSet;
      isThinking := false;
      showAnswer := true;
    }

    /** The typewriter effect's body when it (re)starts. */
    method TypewriterStart()
      requires Valid()
      modifies this
      ensures Valid()
      ensures Snapshot() == AuraSession.TypewriterStart(old(Snapshot()))
    {
      if showAnswer && finalAnswer != "" {
        typedAnswer := "";
      }
    }

    /** One interval tick of the typewriter effect. */
    method TypewriterTick()
      requires Valid()
      modifies this
      ensures Valid()
      ensures Snapshot() == Tick(old(Snapshot()))
      ensures |old(typedAnswer)| < |finalAnswer| ==> |typedAnswer| == |old(typedAnswer)| + 1
      ensures |old(typedAnswer)| >= |finalAnswer| ==> typedAnswer == old(typedAnswer)
    {
      if |typedAnswer| < |finalAnswer| {
        typedAnswer := finalAnswer[..|typedAnswer| + 1];
      }
    }

    /** handleReset. */
    method Reset()
      requires Valid()
      modifies this
      ensures Valid()
      ensures Snapshot() == AuraSession.Reset(old(Snapshot()))
      ensures old(showAnswer) ==> Snapshot() == Initial()
    {
      RevealProperties.ResetOutcome(Snapshot());
      petitionDisplay := "";
      question := "";
      hiddenAnswer := "";
      finalAnswer := "";
      typedAnswer := "";
      isHiding := false;
      showAnswer := false;
    }
  }
}
