/** What the petition field's change and key handlers guarantee. */
module PetitionProperties {
  import opened AuraSession

  /** Outside covert capture the field mirrors the raw input, except that a
      lone sentinel typed into the empty field starts capture with the first
      phrase character shown. A secret left over from an earlier capture is
      not touched. */
  lemma NormalModeChange(s: Session, newValue: string)
    requires !s.showAnswer && !s.isHiding
    ensures var r := PetitionChange(s, newValue);
      (r.isHiding <==> newValue == [Sentinel] && s.petitionDisplay == "") &&
      (r.isHiding ==> r == s.(isHiding := true, hiddenAnswer := "", petitionDisplay := "A")) &&
      (!r.isHiding ==> r == s.(petitionDisplay := newValue))
  {
    PhraseStart();
  }

  /** A shorter input while hiding drops exactly one trailing character of
      the secret, however many characters were deleted; with no secret left
      it ends capture and clears the field. An input of the expected length
      changes nothing. */
  lemma ShrinkOrSameLength(s: Session, newValue: string)
    requires Valid(s) && !s.showAnswer && s.isHiding
    requires |newValue| <= |s.hiddenAnswer| + 1
    ensures var r := PetitionChange(s, newValue); var h := s.hiddenAnswer;
      (|newValue| == |h| + 1 ==> r == s) &&
      (|newValue| < |h| + 1 && h != "" ==>
         r == s.(hiddenAnswer := h[..|h| - 1], petitionDisplay := PetitionPhrase[..|h|])) &&
      (|newValue| < |h| + 1 && h == "" ==>
         r == s.(isHiding := false, petitionDisplay := ""))
  {
  }

  /** One appended character while hiding. A sentinel ends capture with the
      whole phrase shown and the secret unchanged; any other character is
      added to the secret and shows one more phrase character, unless the
      secret then reaches the cap, which ends capture with the whole phrase
      shown. */
  lemma SingleAppend(s: Session, c: char)
    requires Valid(s) && !s.showAnswer && s.isHiding
    ensures var r := PetitionChange(s, s.petitionDisplay + [c]); var h := s.hiddenAnswer;
      (c == Sentinel ==> r == s.(isHiding := false, petitionDisplay := PetitionPhrase)) &&
      (c != Sentinel && |h| + 2 < |PetitionPhrase| ==>
         r == s.(hiddenAnswer := h + [c], petitionDisplay := PetitionPhrase[..|h| + 2])) &&
      (c != Sentinel && |h| + 2 >= |PetitionPhrase| ==>
         r == s.(hiddenAnswer := h + [c], isHiding := false, petitionDisplay := PetitionPhrase))
  {
    var v := s.petitionDisplay + [c];
    assert v[|s.hiddenAnswer| + 1..] == [c];
    BatchOutcome(s.hiddenAnswer, [c], s);
  }

  /** The batch loop in closed form. Every iteration extends the secret as
      it was before the event, so the secret ends up as the old secret plus
      the last non-sentinel character processed; the first sentinel, or the
      cap, ends capture and discards the rest of the batch. */
  lemma {:induction false} BatchOutcome(hidden0: string, added: string, cur: Session)
    ensures added == [] ==> AppendBatch(hidden0, added, cur) == cur
    ensures added != [] && added[0] == Sentinel ==>
      AppendBatch(hidden0, added, cur) == cur.(isHiding := false, petitionDisplay := PetitionPhrase)
    ensures added != [] && added[0] != Sentinel && |hidden0| + 2 >= |PetitionPhrase| ==>
      AppendBatch(hidden0, added, cur) ==
        cur.(hiddenAnswer := hidden0 + [added[0]], isHiding := false, petitionDisplay := PetitionPhrase)
    ensures added != [] && added[0] != Sentinel && |hidden0| + 2 < |PetitionPhrase| ==>
      var k := FirstSentinel(added);
      0 < k &&
      AppendBatch(hidden0, added, cur) ==
        if k < |added| then
          cur.(hiddenAnswer := hidden0 + [added[k - 1]], isHiding := false, petitionDisplay := PetitionPhrase)
        else
          cur.(hiddenAnswer := hidden0 + [added[k - 1]], petitionDisplay := PetitionPhrase[..|hidden0| + 2])
    decreases |added|
  {
    if added != [] && added[0] != Sentinel && |hidden0| + 2 < |PetitionPhrase| {
      var next := cur.(hiddenAnswer := hidden0 + [added[0]],
                       petitionDisplay := Prefix(PetitionPhrase, |hidden0| + 2));
      var rest := added[1..];
      assert AppendBatch(hidden0, added, cur) == AppendBatch(hidden0, rest, next);
      if rest != [] && rest[0] != Sentinel {
        BatchOutcome(hidden0, rest, next);
        assert FirstSentinel(added) == 1 + FirstSentinel(rest);
      }
    }
  }

  /** The first characters of the phrase, as the examples below need them. */
  lemma PhraseStart()
    ensures PetitionPhrase[..1] == "A" && PetitionPhrase[..2] == "Au" && PetitionPhrase[..3] == "Aur"
  {
    assert PetitionPhrase[0] == 'A' && PetitionPhrase[1] == 'u' && PetitionPhrase[2] == 'r';
  }

  /** Valid is preserved by every change event. */
  lemma PetitionChangePreservesValid(s: Session, newValue: string)
    requires Valid(s)
    ensures Valid(PetitionChange(s, newValue))
  {
    if !s.showAnswer && s.isHiding && |newValue| > |s.hiddenAnswer| + 1 {
      BatchOutcome(s.hiddenAnswer, newValue[|s.hiddenAnswer| + 1..], s);
    }
  }

  /** Valid is preserved by every key event; Escape while hiding clears the
      capture, and any other key, Escape outside capture, or any key while
      the answer is shown changes nothing. */
  lemma KeyDownOutcome(s: Session, key: string)
    requires Valid(s)
    ensures var r := PetitionKeyDown(s, key);
      Valid(r) &&
      (!s.showAnswer && s.isHiding && key == EscapeKey ==>
         r == s.(isHiding := false, petitionDisplay := "", hiddenAnswer := "")) &&
      (s.showAnswer || !s.isHiding || key != EscapeKey ==> r == s)
  {
  }

  /** While the answer is shown, the petition field ignores every event. */
  lemma AnswerShownFreezesPetition(s: Session, newValue: string, key: string)
    requires s.showAnswer
    ensures PetitionChange(s, newValue) == s && PetitionKeyDown(s, key) == s
  {
  }

  /** The petition handlers write only the three petition fields. */
  lemma PetitionFrame(s: Session, newValue: string, key: string)
    ensures var r := PetitionChange(s, newValue);
      r.question == s.question && r.finalAnswer == s.finalAnswer &&
      r.typedAnswer == s.typedAnswer && r.isThinking == s.isThinking &&
      r.showAnswer == s.showAnswer
    ensures var r := PetitionKeyDown(s, key);
      r.question == s.question && r.finalAnswer == s.finalAnswer &&
      r.typedAnswer == s.typedAnswer && r.isThinking == s.isThinking &&
      r.showAnswer == s.showAnswer
  {
    if !s.showAnswer && s.isHiding && |newValue| > |s.hiddenAnswer| + 1 {
      BatchOutcome(s.hiddenAnswer, newValue[|s.hiddenAnswer| + 1..], s);
    }
  }

  /** Typing non-sentinel characters one event at a time while hiding and
      below the cap captures exactly those characters and shows the phrase
      up to one character past them. */
  lemma {:induction false} TypingBelowCap(s: Session, cs: string)
    requires Valid(s) && !s.showAnswer && s.isHiding
    requires forall j :: 0 <= j < |cs| ==> cs[j] != Sentinel
    requires |s.hiddenAnswer| + |cs| + 1 < |PetitionPhrase|
    ensures TypeSequentially(s, cs) ==
      s.(hiddenAnswer := s.hiddenAnswer + cs,
         petitionDisplay := PetitionPhrase[..|s.hiddenAnswer| + |cs| + 1])
    decreases |cs|
  {
    if cs == [] {
      assert s.hiddenAnswer + cs == s.hiddenAnswer;
    } else {
      var h := s.hiddenAnswer;
      SingleAppend(s, cs[0]);
      var next := PetitionChange(s, s.petitionDisplay + [cs[0]]);
      assert next == s.(hiddenAnswer := h + [cs[0]], petitionDisplay := PetitionPhrase[..|h| + 2]);
      TypingBelowCap(next, cs[1..]);
      assert (h + [cs[0]]) + cs[1..] == h + cs;
    }
  }

  /** From an empty field outside capture, a sentinel followed by
      non-sentinel characters below the cap, typed one event at a time,
      leaves capture on with exactly those characters as the secret. */
  lemma CovertEntryThenTyping(s: Session, cs: string)
    requires Valid(s) && !s.showAnswer && !s.isHiding && s.petitionDisplay == ""
    requires forall j :: 0 <= j < |cs| ==> cs[j] != Sentinel
    requires |cs| + 1 < |PetitionPhrase|
    ensures TypeSequentially(s, [Sentinel] + cs) ==
      s.(isHiding := true, hiddenAnswer := cs, petitionDisplay := PetitionPhrase[..|cs| + 1])
  {
    var entered := PetitionChange(s, s.petitionDisplay + [Sentinel]);
    assert entered == s.(isHiding := true, hiddenAnswer := "", petitionDisplay := PetitionPhrase[..1]);
    assert ([Sentinel] + cs)[1..] == cs;
    TypingBelowCap(entered, cs);
    assert "" + cs == cs;
  }

  /** Typing non-sentinel characters one event at a time never shortens the
      secret. Outside capture it never re-enters capture: the field only
      grows by the typed characters and the secret stays as it was. */
  lemma {:induction false} NonSentinelTyping(s: Session, cs: string)
    requires Valid(s) && !s.showAnswer
    requires forall j :: 0 <= j < |cs| ==> cs[j] != Sentinel
    ensures var r := TypeSequentially(s, cs);
      |r.hiddenAnswer| >= |s.hiddenAnswer| &&
      (!s.isHiding ==>
         r == s.(petitionDisplay := s.petitionDisplay + cs))
    decreases |cs|
  {
    if cs == [] {
      assert s.petitionDisplay + cs == s.petitionDisplay;
    } else {
      var next := PetitionChange(s, s.petitionDisplay + [cs[0]]);
      PetitionChangePreservesValid(s, s.petitionDisplay + [cs[0]]);
      PetitionFrame(s, s.petitionDisplay + [cs[0]], EscapeKey);
      if s.isHiding {
        SingleAppend(s, cs[0]);
      } else {
        assert (s.petitionDisplay + [cs[0]])[|s.petitionDisplay|] != Sentinel;
        NormalModeChange(s, s.petitionDisplay + [cs[0]]);
      }
      NonSentinelTyping(next, cs[1..]);
      assert (s.petitionDisplay + [cs[0]]) + cs[1..] == s.petitionDisplay + cs;
    }
  }

  /** While capturing, a batch of non-sentinel characters in one event and
      the same characters typed one event at a time agree exactly when the
      batch has one character, at the cap as well as below it. */
  lemma BatchMatchesSequentialOnlyForOneCharacter(s: Session, cs: string)
    requires Valid(s) && !s.showAnswer && s.isHiding
    requires cs != []
    requires forall j :: 0 <= j < |cs| ==> cs[j] != Sentinel
    ensures PetitionChange(s, s.petitionDisplay + cs) == TypeSequentially(s, cs) <==> |cs| == 1
  {
    var h := s.hiddenAnswer;
    var d := s.petitionDisplay;
    if |cs| == 1 {
      assert cs == [cs[0]];
      OneCharacterBatchIsSequential(s, cs[0]);
    } else {
      assert (d + cs)[|h| + 1..] == cs;
      BatchOutcome(h, cs, s);
      var batched := PetitionChange(s, d + cs);
      var s1 := PetitionChange(s, d + [cs[0]]);
      var s2 := PetitionChange(s1, s1.petitionDisplay + [cs[1]]);
      assert cs[1..][0] == cs[1] && cs[1..][1..] == cs[2..];
      assert TypeSequentially(s, cs) == TypeSequentially(s2, cs[2..]);
      SingleAppend(s, cs[0]);
      PetitionChangePreservesValid(s, d + [cs[0]]);
      PetitionChangePreservesValid(s1, s1.petitionDisplay + [cs[1]]);
      PetitionFrame(s1, s1.petitionDisplay + [cs[1]], EscapeKey);
      if |h| + 2 < |PetitionPhrase| {
        // Below the cap the batch keeps one new character; typing keeps two or more.
        assert FirstSentinel(cs) == |cs|;
        assert |batched.hiddenAnswer| == |h| + 1;
        SingleAppend(s1, cs[1]);
        assert |s2.hiddenAnswer| == |h| + 2;
        NonSentinelTyping(s2, cs[2..]);
      } else {
        // At the cap both leave capture on the first character, but typing
        // then mirrors the rest after the full phrase.
        assert batched.petitionDisplay == PetitionPhrase;
        assert (s1.petitionDisplay + [cs[1]])[|s1.petitionDisplay|] != Sentinel;
        NormalModeChange(s1, s1.petitionDisplay + [cs[1]]);
        assert s2.petitionDisplay == PetitionPhrase + [cs[1]];
        NonSentinelTyping(s2, cs[2..]);
        assert |TypeSequentially(s2, cs[2..]).petitionDisplay| > |PetitionPhrase|;
      }
    }
  }

  /** Outside capture the field only mirrors its input, so a batch of
      non-sentinel characters of any length ends like the same characters
      typed one event at a time. */
  lemma OutsideCaptureAnyBatch(s: Session, cs: string)
    requires Valid(s) && !s.showAnswer && !s.isHiding
    requires cs != []
    requires forall j :: 0 <= j < |cs| ==> cs[j] != Sentinel
    ensures PetitionChange(s, s.petitionDisplay + cs) == TypeSequentially(s, cs)
    ensures TypeSequentially(s, cs) == s.(petitionDisplay := s.petitionDisplay + cs)
  {
    NonSentinelTyping(s, cs);
    assert (s.petitionDisplay + cs)[|s.petitionDisplay|] != Sentinel;
    NormalModeChange(s, s.petitionDisplay + cs);
  }

  /** The "if" half for every state and character: a batch of one
      character is exactly one single-character event. */
  lemma OneCharacterBatchIsSequential(s: Session, c: char)
    ensures PetitionChange(s, s.petitionDisplay + [c]) == TypeSequentially(s, [c])
  {
    assert [c][1..] == [];
  }

  /** Why BatchMatchesSequentialOnlyForOneCharacter excludes the sentinel:
      with "A" shown and no secret, the two-character batch "x." ends in the
      same state as typing "x" and then "." separately. */
  lemma TrailingSentinelBatchExample()
    ensures var entered := PetitionChange(Initial(), ".");
      var batched := PetitionChange(entered, "Ax.");
      batched == TypeSequentially(entered, "x.") &&
      batched.hiddenAnswer == "x" && batched.petitionDisplay == PetitionPhrase && !batched.isHiding
  {
    PhraseStart();
    var entered := PetitionChange(Initial(), ".");
    assert entered == Initial().(isHiding := true, petitionDisplay := "A");
    assert "Ax."[1..] == "x.";
    BatchOutcome("", "x.", entered);
    assert FirstSentinel("x.") == 1;
    var first := PetitionChange(entered, "Ax");
    SingleAppend(entered, 'x');
    assert first == entered.(hiddenAnswer := "x", petitionDisplay := PetitionPhrase[..2]);
    assert first.petitionDisplay + ['.'] == "Au.";
    SingleAppend(first, '.');
    assert "x."[1..] == ".";
    assert "."[1..] == [];
  }

  /** A worked two-character example: capture is on with "A" shown and
      "hi" arrives in one event. The handler leaves "i" as the secret and
      "Au" in the field, where typing the two characters separately leaves
      "hi" and "Aur"; Escape then clears the capture. */
  lemma BatchedHiExample()
    ensures var entered := PetitionChange(Initial(), ".");
      var batched := PetitionChange(entered, "Ahi");
      var sequential := TypeSequentially(entered, "hi");
      entered.isHiding && entered.petitionDisplay == "A" && entered.hiddenAnswer == "" &&
      batched.hiddenAnswer == "i" && batched.petitionDisplay == "Au" && batched.isHiding &&
      sequential.hiddenAnswer == "hi" && sequential.petitionDisplay == "Aur" &&
      PetitionKeyDown(batched, EscapeKey) == Initial()
  {
    PhraseStart();
    var entered := PetitionChange(Initial(), ".");
    assert entered == Initial().(isHiding := true, petitionDisplay := "A");
    assert "Ahi"[1..] == "hi";
    TypingBelowCap(entered, "hi");
  }
}
