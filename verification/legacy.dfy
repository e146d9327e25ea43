/**
  The legacy single-file core (game.py): a one-pass scorer that normalises
  only the lower-case ё and marks a letter Partial whenever it occurs anywhere
  in the secret, and its own dictionary of games.
*/
module Legacy {
  import opened Wrappers
  import opened Text
  import opened OrderedDict
  import opened Scoring
  import Sessions
  import opened ScoringExamples

  /** The legacy normalisation: only `ё` becomes `е`; every other character,
      the capital `Ё` included, is kept. */
  function LegacyNormalize(s: string): (r: string)
    ensures |r| == |s| && CyrIo !in r
    ensures forall i :: 0 <= i < |s| ==> r[i] == if s[i] == CyrIo then CyrIe else s[i]
    ensures CyrCapIo in s ==> CyrCapIo in r
  {
    ReplaceChar(s, CyrIo, CyrIe)
  }

  /** The legacy rule for one position of the zipped words. */
  function LegacyMark(ns: string, ng: string, i: nat): Mark
    requires i < |ns| && i < |ng|
  {
    if ng[i] == ns[i] then Exact else if ng[i] in ns then Partial else Absent
  }

  /** One iteration of the zip loop. */
  function LegacyStep(ns: string, ng: string, i: nat, acc: Feedback): (r: Feedback)
    requires i < |ns| && i < |ng|
  {
    var up := UpperChar(ng[i]);
    var m := LegacyMark(ns, ng, i);
    Feedback(acc.result + [up], acc.marks + [m],
             if m != Absent then acc.correct + {up} else acc.correct,
             if m == Absent then acc.used + {up} else acc.used)
  }

  /** The zip loop from position i on; the earlier output is kept. */
  function LegacyLoop(ns: string, ng: string, i: nat, acc: Feedback): (r: Feedback)
    requires i <= |ns| && i <= |ng|
    requires |acc.result| == i && |acc.marks| == i
    ensures |r.result| == Min(|ns|, |ng|) && |r.marks| == Min(|ns|, |ng|)
    ensures r.result[..i] == acc.result && r.marks[..i] == acc.marks
    ensures forall j :: i <= j < |r.marks| ==>
              r.result[j] == UpperChar(ng[j]) && r.marks[j] == LegacyMark(ns, ng, j)
    decreases |ns| - i
  {
    if i == |ns| || i == |ng| then acc
    else LegacyLoop(ns, ng, i + 1, LegacyStep(ns, ng, i, acc))
  }

  ghost function MarkedFrom(i: nat, r: Feedback): set<char>
    requires |r.result| == |r.marks|
  {
    set j | i <= j < |r.marks| && r.marks[j] != Absent :: r.result[j]
  }

  ghost function AbsentFrom(i: nat, r: Feedback): set<char>
    requires |r.result| == |r.marks|
  {
    set j | i <= j < |r.marks| && r.marks[j] == Absent :: r.result[j]
  }

  lemma MarkedFromStep(i: nat, r: Feedback)
    requires |r.result| == |r.marks| && i < |r.marks|
    ensures MarkedFrom(i, r) == MarkedFrom(i + 1, r) + (if r.marks[i] != Absent then {r.result[i]} else {})
    ensures AbsentFrom(i, r) == AbsentFrom(i + 1, r) + (if r.marks[i] == Absent then {r.result[i]} else {})
  {
  }

  /** The letter sets collect the letters of the positions the loop marks. */
  lemma {:induction false} LegacyLoopLetters(ns: string, ng: string, i: nat, acc: Feedback)
    requires i <= |ns| && i <= |ng|
    requires |acc.result| == i && |acc.marks| == i
    ensures var r := LegacyLoop(ns, ng, i, acc);
            && r.correct == acc.correct + MarkedFrom(i, r)
            && r.used == acc.used + AbsentFrom(i, r)
    decreases |ns| - i
  {
    var r := LegacyLoop(ns, ng, i, acc);
    if i == |ns| || i == |ng| {
      assert MarkedFrom(i, r) == {} && AbsentFrom(i, r) == {};
    } else {
      var acc' := LegacyStep(ns, ng, i, acc);
      LegacyLoopLetters(ns, ng, i + 1, acc');
      MarkedFromStep(i, r);
      assert r.result[..i + 1] == acc'.result && r.marks[..i + 1] == acc'.marks;
      assert r.result[i] == acc'.result[i] && r.marks[i] == acc'.marks[i];
    }
  }

  /** Legacy `get_feedback`: one pass over the zipped normalised words, as
      long as the shorter one; Exact where the letters agree, Partial where
      they differ but the letter occurs anywhere in the secret, Absent
      otherwise; the letter sets hold the marked and the Absent letters. */
  function LegacyFeedback(secret: string, guess: string): (r: Feedback)
    ensures |r.marks| == Min(|secret|, |guess|) && |r.result| == |r.marks|
    ensures forall i :: 0 <= i < |r.marks| ==> r.result[i] == UpperChar(LegacyNormalize(guess)[i])
    ensures forall i :: 0 <= i < |r.marks| ==>
              var ns, ng := LegacyNormalize(secret), LegacyNormalize(guess);
              && (r.marks[i] == Exact <==> ng[i] == ns[i])
              && (r.marks[i] == Partial <==> ng[i] != ns[i] && ng[i] in ns)
    ensures r.correct == set i | 0 <= i < |r.marks| && r.marks[i] != Absent :: r.result[i]
    ensures r.used == set i | 0 <= i < |r.marks| && r.marks[i] == Absent :: r.result[i]
  {
    var ns, ng := LegacyNormalize(secret), LegacyNormalize(guess);
    var r := LegacyLoop(ns, ng, 0, Feedback([], [], {}, {}));
    LegacyLoopLetters(ns, ng, 0, Feedback([], [], {}, {}));
    r
  }

  /** For lower-case words the legacy sets split the guess letters cleanly: a
      guess letter is reported correct exactly when it occurs in the secret,
      and no letter is reported both ways. */
  lemma LegacyLettersExact(secret: string, guess: string)
    requires forall i :: 0 <= i < |guess| ==> IsLowerLetter(guess[i])
    ensures var r, ns, ng := LegacyFeedback(secret, guess), LegacyNormalize(secret), LegacyNormalize(guess);
            forall i :: 0 <= i < |r.marks| ==> (r.result[i] in r.correct <==> ng[i] in ns)
    ensures var r := LegacyFeedback(secret, guess); r.correct !! r.used
  {
    var r, ns, ng := LegacyFeedback(secret, guess), LegacyNormalize(secret), LegacyNormalize(guess);
    assert forall i :: 0 <= i < |ng| ==> IsLowerLetter(ng[i]);
    forall i | 0 <= i < |r.marks| && r.result[i] in r.correct
      ensures ng[i] in ns
    {
      var j :| 0 <= j < |r.marks| && r.marks[j] != Absent && r.result[j] == r.result[i];
      UpperInjective(ng[i], ng[j]);
      assert ns[j] in ns;
    }
    forall i, j | 0 <= i < |r.marks| && 0 <= j < |r.marks| && r.marks[i] != Absent && r.marks[j] == Absent
      ensures r.result[i] != r.result[j]
    {
      assert ns[i] in ns;
      assert ng[i] != ng[j];
    }
  }

  lemma LegacyNormalizeAgrees(s: string)
    requires CyrCapIo !in s
    ensures LegacyNormalize(s) == Normalize(s)
  {
    assert forall i :: 0 <= i < |s| ==> LegacyNormalize(s)[i] == Normalize(s)[i];
  }

  /** Without capital Ё the legacy scorer and the two-pass scorer agree on the
      positions both score: the legacy result is the start of the two-pass
      result, and all of it when the guess is no longer than the secret (the
      legacy loop stops at the shorter word, the two-pass scorer does not).
      There they agree on the Exact positions, and every Partial of the
      two-pass scorer is a legacy Partial too; the converse fails
      (`LegacyOverCounts`). */
  lemma LegacyRefinesExact(secret: string, guess: string)
    requires CyrCapIo !in secret && CyrCapIo !in guess
    ensures var lf, tf := LegacyFeedback(secret, guess), GetFeedback(secret, guess);
            |lf.result| <= |tf.result| && lf.result == tf.result[..|lf.result|]
    ensures |guess| <= |secret| ==> LegacyFeedback(secret, guess).result == GetFeedback(secret, guess).result
    ensures var lf, tf := LegacyFeedback(secret, guess), GetFeedback(secret, guess);
            forall i :: 0 <= i < |lf.marks| ==>
              && lf.result[i] == tf.result[i]
              && (lf.marks[i] == Exact <==> tf.marks[i] == Exact)
              && (tf.marks[i] == Partial ==> lf.marks[i] == Partial)
  {
    var lf, tf := LegacyFeedback(secret, guess), GetFeedback(secret, guess);
    var ns, ng := Normalize(secret), Normalize(guess);
    LegacyNormalizeAgrees(secret);
    LegacyNormalizeAgrees(guess);
    FeedbackMatchesReference(secret, guess);
    forall i | 0 <= i < |lf.marks| && tf.marks[i] == Partial
      ensures ng[i] in ns
    {
      assert ReferenceMark(ns, ng, i) == Partial;
      MarkedLetterInSecret(ns, ng, i);
    }
  }

  // ---------------------------------------------------------------------
  // The over-count on one worked input: secret "слон", guess "оооо". The
  // helpers below compute that example only; they state nothing general.
  // ---------------------------------------------------------------------

  /** Example helper: the legacy marks of "оооо" against "слон". */
  lemma LegacyOverCountMarks()
    ensures LegacyFeedback("слон", "оооо").marks == [Partial, Partial, Exact, Partial]
  {
    var ns, ng := "слон", "оооо";
    assert LegacyNormalize(ns) == ns && LegacyNormalize(ng) == ng;
    assert ns[2] == 'о';
  }

  /** The legacy over-count: against "слон", the guess "оооо" gets four marked
      о's although the secret holds one; the two-pass scorer marks only the
      exact one. */
  lemma LegacyOverCounts()
    ensures MarkedCount("оооо", LegacyFeedback("слон", "оооо").marks, 'о', 4) == 4
    ensures multiset("слон")['о'] == 1
    ensures MarkedCount("оооо", GetFeedback("слон", "оооо").marks, 'о', 4) == 1
  {
    var lm := LegacyFeedback("слон", "оооо").marks;
    var tm := GetFeedback("слон", "оооо").marks;
    LegacyOverCountMarks();
    RepeatedLetterExample();
    CountO(lm);
    CountO(tm);
    SlonHasOneO();
  }

  /** Example helper: "слон" holds one о. */
  lemma SlonHasOneO()
    ensures multiset("слон")['о'] == 1
  {
    assert "слон" == ['с'] + ['л'] + ['о'] + ['н'];
  }

  /** Example helper: for the guess "оооо", the marked о's are the non-Absent
      marks among its four. */
  lemma CountO(m: seq<Mark>)
    requires |m| == 4
    ensures MarkedCount("оооо", m, 'о', 4) ==
            (if m[0] != Absent then 1 else 0) + (if m[1] != Absent then 1 else 0) +
            (if m[2] != Absent then 1 else 0) + (if m[3] != Absent then 1 else 0)
  {
    var ng := "оооо";
    assert ng[0] == 'о' && ng[1] == 'о' && ng[2] == 'о' && ng[3] == 'о';
    assert MarkedCount(ng, m, 'о', 1) == (if m[0] != Absent then 1 else 0);
    assert MarkedCount(ng, m, 'о', 2) == MarkedCount(ng, m, 'о', 1) + (if m[1] != Absent then 1 else 0);
    assert MarkedCount(ng, m, 'о', 3) == MarkedCount(ng, m, 'о', 2) + (if m[2] != Absent then 1 else 0);
  }

  // ---------------------------------------------------------------------
  // The legacy games dictionary.
  // ---------------------------------------------------------------------

  /** The legacy game record; the state field only ever holds the first state. */
  datatype LegacyGame = LegacyGame(
    state: Sessions.State,
    secret: string,
    attempts: seq<Sessions.Attempt>,
    setterChat: int,
    guesserChat: int,
    setter: string,
    guesser: string,
    maxAttempts: int)

  type LegacyGames = Dict<Sessions.Key, LegacyGame>

  /** Legacy `create_game`: a fresh record under the ordered key. */
  function LegacyCreateGame(games: LegacyGames, setter: string, guesser: string, setterChat: int, guesserChat: int)
    : (r: LegacyGames)
    ensures var k := Sessions.Key(setter, guesser);
            && k in View(r)
            && View(r)[k] == LegacyGame(Sessions.WaitingForWord, "", [], setterChat, guesserChat, setter, guesser, 6)
            && (forall k' :: k' != k ==> Get(r, k') == Get(games, k'))
  {
    Set(games, Sessions.Key(setter, guesser),
        LegacyGame(Sessions.WaitingForWord, "", [], setterChat, guesserChat, setter, guesser, 6))
  }

  /** Legacy `get_game`. */
  function LegacyGetGame(games: LegacyGames, setter: string, guesser: string): (r: Option<LegacyGame>)
    ensures r.Some? <==> Sessions.Key(setter, guesser) in View(games)
    ensures r.Some? ==> r.value == View(games)[Sessions.Key(setter, guesser)]
  {
    Get(games, Sessions.Key(setter, guesser))
  }

  /** Legacy `delete_game`: a no-op for an absent key. */
  function LegacyDeleteGame(games: LegacyGames, setter: string, guesser: string): (r: LegacyGames)
    ensures View(r) == View(games) - {Sessions.Key(setter, guesser)}
    ensures Sessions.Key(setter, guesser) !in View(games) ==> r == games
  {
    Remove(games, Sessions.Key(setter, guesser))
  }
}
