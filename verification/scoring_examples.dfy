/** The scorer on whole words: scoring a word against itself, and the
    scenarios the repository's tests describe. */
module ScoringExamples {
  import opened Text
  import opened Scoring

  /** Scoring a word against itself marks every position Exact and reports no
      absent letter. */
  lemma SelfScoreAllExact(w: string)
    ensures forall i :: 0 <= i < |w| ==> GetFeedback(w, w).marks[i] == Exact
    ensures GetFeedback(w, w).used == {}
    ensures GetFeedback(w, w).correct == LettersOf(Upper(Normalize(w)))
  {
    var fb := GetFeedback(w, w);
    assert forall i :: 0 <= i < |w| ==> fb.marks[i] == Exact;
    assert forall x :: x in fb.correct <==> x in LettersOf(Upper(Normalize(w)));
  }

  /** The test's exact-match case: "слово" against itself reads back "СЛОВО". */
  lemma ExactMatchExample()
    ensures GetFeedback("слово", "слово").result == "СЛОВО"
    ensures GetFeedback("слово", "слово").marks == [Exact, Exact, Exact, Exact, Exact]
  {
    SelfScoreAllExact("слово");
  }

  /** A guess letter that the secret lacks has no unmatched copy. */
  lemma {:induction false} NotInSecretCount(ns: string, ng: string, c: char, n: nat)
    requires n <= |ns| && forall k :: 0 <= k < n ==> ns[k] != c
    ensures Unmatched(ns, ng, c, n) == 0
  {
    if n > 0 {
      NotInSecretCount(ns, ng, c, n - 1);
    }
  }

  /** A guess letter that the secret lacks is Absent. */
  lemma NotInSecret(ns: string, ng: string, i: nat)
    requires i < |ng| && ng[i] !in ns
    ensures ReferenceMark(ns, ng, i) == Absent
  {
    NotInSecretCount(ns, ng, ng[i], |ns|);
  }

  /** Scoring words without ё is scoring them by the reference as they are. */
  lemma PlainWordsMatchReference(secret: string, guess: string)
    requires CyrIo !in secret && CyrCapIo !in secret && CyrIo !in guess && CyrCapIo !in guess
    ensures GetFeedback(secret, guess).marks == ReferenceMarks(secret, guess)
  {
    FeedbackMatchesReference(secret, guess);
    assert Normalize(secret) == secret;
    assert Normalize(guess) == guess;
  }

  lemma NoSharedLetterReference()
    ensures ReferenceMarks("слово", "книга") == [Absent, Absent, Absent, Absent, Absent]
  {
    var ns, ng := "слово", "книга";
    forall i | 0 <= i < 5
      ensures ReferenceMark(ns, ng, i) == Absent
    {
      NotInSecret(ns, ng, i);
    }
  }

  /** "книга" shares no letter with "слово": every position is Absent. */
  lemma NoSharedLetterExample()
    ensures GetFeedback("слово", "книга").marks == [Absent, Absent, Absent, Absent, Absent]
  {
    PlainWordsMatchReference("слово", "книга");
    NoSharedLetterReference();
  }

  lemma PartialReference()
    ensures ReferenceMarks("слово", "солнц") == [Exact, Partial, Partial, Absent, Absent]
  {
    var ns, ng := "слово", "солнц";
    assert Unmatched(ns, ng, 'о', 5) == 2;
    assert Unmatched(ns, ng, 'л', 5) == 1;
    NotInSecret(ns, ng, 3);
    NotInSecret(ns, ng, 4);
  }

  /** "солнц" against "слово": с matches, о and л occur elsewhere, н and ц not at all. */
  lemma PartialExample()
    ensures GetFeedback("слово", "солнц").marks == [Exact, Partial, Partial, Absent, Absent]
  {
    PlainWordsMatchReference("слово", "солнц");
    PartialReference();
  }

  lemma RepeatedLetterReference()
    ensures ReferenceMarks("слон", "оооо") == [Absent, Absent, Exact, Absent]
  {
    var ns, ng := "слон", "оооо";
    assert Unmatched(ns, ng, 'о', 2) == 0;
    assert Unmatched(ns, ng, 'о', 4) == 0;
  }

  /** "оооо" against "слон": only the position holding the secret's one о is
      marked, as Exact. */
  lemma RepeatedLetterExample()
    ensures GetFeedback("слон", "оооо").marks == [Absent, Absent, Exact, Absent]
  {
    PlainWordsMatchReference("слон", "оооо");
    RepeatedLetterReference();
  }

  /** Within one call the two letter sets may share a letter: a repeated guess
      letter can be marked at one position and Absent at another. */
  lemma RepeatedLetterInBothSets()
    ensures 'О' in GetFeedback("слон", "оооо").correct
    ensures 'О' in GetFeedback("слон", "оооо").used
  {
    var fb := GetFeedback("слон", "оооо");
    RepeatedLetterExample();
    assert Normalize("оооо") == "оооо";
    assert fb.result[0] == 'О' && fb.result[2] == 'О';
  }
}
