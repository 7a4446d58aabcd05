/**
 * Concrete classifications: the empty query, letter case, whole-word
 * matching, the spellings of thanks, and the priority between families.
 */
module IntentExamples {
  import opened IntentHandler

  /** No keyword fits in the empty query, so it is a legal query. */
  lemma EmptyQueryIsLegal()
    ensures Classify("") == LegalQuery
  {
    NoInitialNoMatch(GreetingFamily, "");
    NoInitialNoMatch(ClosingFamily, "");
    NoInitialNoMatch(ThanksFamily, "");
  }

  /** `re.IGNORECASE`: "hello" is a greeting in any letter case. */
  lemma HelloInAnyCase()
    ensures Classify("HELLO") == Greeting
    ensures Classify("hello") == Greeting
    ensures Classify("HeLLo") == Greeting
  {
    assert OccursAt("HELLO", Alternatives(GreetingFamily)[0], 0, 5);
    assert OccursAt("hello", Alternatives(GreetingFamily)[0], 0, 5);
    assert OccursAt("HeLLo", Alternatives(GreetingFamily)[0], 0, 5);
  }

  /** No keyword of any family occurs as a whole word in "this". */
  lemma ThisHasNoKeyword()
    ensures !Matches(GreetingFamily, "this")
    ensures !Matches(ClosingFamily, "this")
    ensures !Matches(ThanksFamily, "this")
  {
    assert WordInitials("this", 0) == {'t'};
    NoInitialNoMatch(GreetingFamily, "this");
    NoInitialNoMatch(ClosingFamily, "this");
    if Matches(ThanksFamily, "this") {
      SingleWordMatchesWhole(ThanksFamily, "this");
    }
  }

  /** "hi" inside "this" is not a whole word. */
  lemma HiInsideThisIsNotGreeting()
    ensures Classify("this") == LegalQuery
  {
    ThisHasNoKeyword();
  }

  /** No keyword of any family occurs as a whole word in "history". */
  lemma HistoryHasNoKeyword()
    ensures !Matches(GreetingFamily, "history")
    ensures !Matches(ClosingFamily, "history")
    ensures !Matches(ThanksFamily, "history")
  {
    assert WordInitials("history", 0) == {'h'};
    if Matches(GreetingFamily, "history") {
      SingleWordMatchesWhole(GreetingFamily, "history");
    }
    NoInitialNoMatch(ClosingFamily, "history");
    NoInitialNoMatch(ThanksFamily, "history");
  }

  /** "hi" at the start of "history" is followed by a word character, so it is not a whole word. */
  lemma HiStartingHistoryIsNotGreeting()
    ensures Classify("history") == LegalQuery
  {
    HistoryHasNoKeyword();
  }

  /** `thanks?`: "thanks" is thanks. */
  lemma ThanksIsThanks()
    ensures Classify("thanks") == Thanks
  {
    assert WordInitials("thanks", 0) == {'t'};
    NoInitialNoMatch(GreetingFamily, "thanks");
    NoInitialNoMatch(ClosingFamily, "thanks");
    assert OccursAt("thanks", Alternatives(ThanksFamily)[1], 0, 6);
  }

  /** "thank you" is thanks. */
  lemma ThankYouIsThanks()
    ensures Classify("thank you") == Thanks
  {
    assert StartsWord("thank you", 6);
    assert WordInitials("thank you", 0) == {'t', 'y'};
    NoInitialNoMatch(GreetingFamily, "thank you");
    NoInitialNoMatch(ClosingFamily, "thank you");
    assert OccursAt("thank you", Alternatives(ThanksFamily)[0], 0, 5);
  }

  /** `thank\s*you` with no space: "thankyou" is thanks. */
  lemma ThankyouIsThanks()
    ensures Classify("thankyou") == Thanks
  {
    assert WordInitials("thankyou", 0) == {'t'};
    NoInitialNoMatch(GreetingFamily, "thankyou");
    NoInitialNoMatch(ClosingFamily, "thankyou");
    assert SkipSpaces("thankyou", 5) == 5;
    assert OccursAt("thankyou", Alternatives(ThanksFamily)[2], 0, 8);
  }

  /** "hello, thanks" holds both a greeting and thanks. */
  lemma HelloThanksHasBoth()
    ensures Matches(GreetingFamily, "hello, thanks")
    ensures Matches(ThanksFamily, "hello, thanks")
  {
    assert OccursAt("hello, thanks", Alternatives(GreetingFamily)[0], 0, 5);
    assert OccursAt("hello, thanks", Alternatives(ThanksFamily)[1], 7, 13);
  }

  /** Greeting is tested first: a text with both a greeting and thanks is a greeting. */
  lemma GreetingBeatsThanks()
    ensures Classify("hello, thanks") == Greeting
  {
    HelloThanksHasBoth();
  }

  /** "bye, thanks" holds no greeting. */
  lemma ByeThanksHasNoGreeting()
    ensures !Matches(GreetingFamily, "bye, thanks")
  {
    assert StartsWord("bye, thanks", 5);
    assert WordInitials("bye, thanks", 0) == {'b', 't'};
    NoInitialNoMatch(GreetingFamily, "bye, thanks");
  }

  /** "bye, thanks" holds a closing and thanks. */
  lemma ByeThanksHasClosingAndThanks()
    ensures Matches(ClosingFamily, "bye, thanks")
    ensures Matches(ThanksFamily, "bye, thanks")
  {
    assert OccursAt("bye, thanks", Alternatives(ClosingFamily)[0], 0, 3);
    assert OccursAt("bye, thanks", Alternatives(ThanksFamily)[1], 5, 11);
  }

  /** Closing is tested before thanks. */
  lemma ClosingBeatsThanks()
    ensures Classify("bye, thanks") == Closing
  {
    ByeThanksHasNoGreeting();
    ByeThanksHasClosingAndThanks();
  }
}
