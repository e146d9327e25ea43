/**
  The two-pass feedback scorer of the bot (`get_feedback` in src/core/game.py).
  The first pass marks the exact matches and strikes those secret letters out;
  the second pass walks the guess left to right, marking a position Partial
  while an unconsumed copy of its letter remains (and consuming the first such
  copy), Absent otherwise.
*/
module Scoring {
  import opened Wrappers
  import opened Text

  datatype Mark = Exact | Partial | Absent

  /** One slot of the feedback string while it is built: the first pass leaves
      a blank wherever it found no exact match. */
  datatype Cell = Blank | Marked(mark: Mark)

  /** What the scorer returns: the upper-cased guess, one mark per position,
      the letters found (exact or partial) and the letters found absent. */
  datatype Feedback = Feedback(result: string, marks: seq<Mark>, correct: set<char>, used: set<char>)

  /** The scorer's working state: result and feedback under construction, the
      secret letters not yet consumed (`secret_chars`, `None` for struck ones),
      and the two letter sets. */
  datatype Scan = Scan(result: string, cells: seq<Cell>, pool: seq<Option<char>>,
                       correct: set<char>, used: set<char>)

  function Min(a: int, b: int): int { if a < b then a else b }

  function Max(a: int, b: int): int { if a < b then b else a }

  /** Position i holds the same letter in the (normalised) secret and guess. */
  predicate IsExact(ns: string, ng: string, i: int) {
    0 <= i < |ns| && i < |ng| && ns[i] == ng[i]
  }

  /** `list(secret)` with the exactly matched positions set to `None`. */
  function Strike(ns: string, ng: string): (pool: seq<Option<char>>)
    ensures |pool| == |ns|
  {
    seq(|ns|, k requires 0 <= k < |ns| => if IsExact(ns, ng, k) then None else Some(ns[k]))
  }

  /** Python's `result[:i] + x + result[i+1:]` for `i <= len(result)`. */
  function Put<T>(s: seq<T>, i: nat, x: T): (r: seq<T>)
    requires i <= |s|
    ensures |r| == Max(|s|, i + 1)
    ensures r[i] == x
    ensures forall j :: 0 <= j < |s| && j != i ==> r[j] == s[j]
  {
    if i < |s| then s[i := x] else s + [x]
  }

  /** How many times x occurs in s (Python's `s.count(x)`). */
  function Count<T(==)>(s: seq<T>, x: T): nat
  {
    if |s| == 0 then 0 else (if s[0] == x then 1 else 0) + Count(s[1..], x)
  }

  lemma {:induction false} CountSnoc<T>(s: seq<T>, x: T, y: T)
    ensures Count(s + [x], y) == Count(s, y) + (if x == y then 1 else 0)
  {
    if |s| > 0 {
      assert (s + [x])[1..] == s[1..] + [x];
      CountSnoc(s[1..], x, y);
    }
  }

  /** Python's `x in s` is a positive count. */
  lemma {:induction false} CountPositive<T>(s: seq<T>, x: T)
    ensures x in s <==> Count(s, x) > 0
  {
    if |s| > 0 {
      CountPositive(s[1..], x);
      assert s == [s[0]] + s[1..];
    }
  }

  /** Python's `list.remove(x)`: drops the first occurrence of `x`. */
  function RemoveFirst<T(==)>(s: seq<T>, x: T): (r: seq<T>)
    requires x in s
    ensures |r| == |s| - 1
  {
    if s[0] == x then
      s[1..]
    else
      assert s == [s[0]] + s[1..];
      [s[0]] + RemoveFirst(s[1..], x)
  }

  /** `list.remove(x)` takes away one copy of x and nothing else. */
  lemma {:induction false} RemoveFirstCount<T>(s: seq<T>, x: T, y: T)
    requires x in s
    ensures Count(RemoveFirst(s, x), y) == if y == x then Count(s, y) - 1 else Count(s, y)
  {
    if s[0] != x {
      assert s == [s[0]] + s[1..];
      RemoveFirstCount(s[1..], x, y);
      assert ([s[0]] + RemoveFirst(s[1..], x))[1..] == RemoveFirst(s[1..], x);
    }
  }

  /** `list.remove(x)` deletes the first occurrence of x: the element at the
      first index holding x goes, and the rest keep their order. */
  lemma {:induction false} RemoveFirstAt<T>(s: seq<T>, x: T, k: nat)
    requires k < |s| && s[k] == x && x !in s[..k]
    ensures RemoveFirst(s, x) == s[..k] + s[k + 1..]
  {
    if k > 0 {
      assert s[0] == s[..k][0];
      assert s[1..][k - 1] == x;
      assert s[1..][..k - 1] == s[..k][1..];
      RemoveFirstAt(s[1..], x, k - 1);
      assert s[..k] + s[k + 1..] == [s[0]] + (s[1..][..k - 1] + s[1..][k..]);
    }
  }

  /** One consumption step on the pool: `if c in secret_chars:
      secret_chars.remove(c)`. */
  function ListStep(pool: seq<Option<char>>, c: char): seq<Option<char>>
  {
    if Some(c) in pool then RemoveFirst(pool, Some(c)) else pool
  }

  /** A step takes one copy of its own letter if any is left, and leaves every
      other letter's count alone. */
  lemma ListStepCount(pool: seq<Option<char>>, d: char, c: char)
    ensures Count(ListStep(pool, d), Some(c)) == if d == c then Max(0, Count(pool, Some(c)) - 1) else Count(pool, Some(c))
  {
    CountPositive(pool, Some(d));
    if Some(d) in pool {
      RemoveFirstCount(pool, Some(d), Some(c));
    }
  }

  /** The first pass over `zip(secret, guess)`. */
  function FirstPass(ns: string, ng: string): (st: Scan)
    ensures |st.result| == |st.cells| == Min(|ns|, |ng|)
    ensures forall i :: 0 <= i < |st.cells| ==>
              st.cells[i] == (if IsExact(ns, ng, i) then Marked(Exact) else Blank)
    ensures forall i :: 0 <= i < |st.result| && IsExact(ns, ng, i) ==> st.result[i] == UpperChar(ng[i])
  {
    var n := Min(|ns|, |ng|);
    Scan(seq(n, i requires 0 <= i < n => if IsExact(ns, ng, i) then UpperChar(ng[i]) else ' '),
         seq(n, i requires 0 <= i < n => if IsExact(ns, ng, i) then Marked(Exact) else Blank),
         Strike(ns, ng),
         set i | 0 <= i < n && IsExact(ns, ng, i) :: UpperChar(ng[i]),
         {})
  }

  /** One non-exact position of the second pass: write the upper-cased letter,
      then mark it Partial and consume the first unconsumed copy of the letter
      if one remains, or mark it Absent. */
  function Visit(ng: string, i: nat, st: Scan): (r: Scan)
    requires i < |ng| && i <= |st.result| == |st.cells|
    ensures |r.result| == |r.cells| == Max(|st.cells|, i + 1)
    ensures r.result[i] == UpperChar(ng[i])
    ensures r.cells[i] == if Some(ng[i]) in st.pool then Marked(Partial) else Marked(Absent)
    ensures r.correct == if Some(ng[i]) in st.pool then st.correct + {UpperChar(ng[i])} else st.correct
    ensures r.used == if Some(ng[i]) in st.pool then st.used else st.used + {UpperChar(ng[i])}
    ensures r.pool == ListStep(st.pool, ng[i])
  {
    var c := ng[i];
    var up := UpperChar(c);
    if Some(c) in st.pool then
      Scan(Put(st.result, i, up), Put(st.cells, i, Marked(Partial)),
           RemoveFirst(st.pool, Some(c)), st.correct + {up}, st.used)
    else
      Scan(Put(st.result, i, up), Put(st.cells, i, Marked(Absent)),
           st.pool, st.correct, st.used + {up})
  }

  /** The second pass over `enumerate(guess)`, from position i on. Exact
      positions are skipped; every other position gets its upper-cased letter
      and a Partial or Absent mark. */
  function SecondPass(ns: string, ng: string, i: nat, st: Scan): (r: Scan)
    requires i <= |ng|
    requires |st.result| == |st.cells| == Max(i, Min(|ns|, |ng|))
    ensures |r.result| == |r.cells| == |ng|
    decreases |ng| - i
  {
    if i == |ng| then st
    else if IsExact(ns, ng, i) then SecondPass(ns, ng, i + 1, st)
    else SecondPass(ns, ng, i + 1, Visit(ng, i, st))
  }

  /** A visit changes position i only. */
  lemma VisitFrame(ng: string, i: nat, st: Scan)
    requires i < |ng| && i <= |st.result| == |st.cells|
    ensures forall j :: 0 <= j < |st.cells| && j != i ==>
              Visit(ng, i, st).result[j] == st.result[j] && Visit(ng, i, st).cells[j] == st.cells[j]
  {
  }

  /** A visit in terms of letter counts: the position is marked Partial, and
      its letter joins the correct set, exactly when an unconsumed copy of the
      letter is left; otherwise it is marked Absent and its letter joins the
      used set. The visit consumes one such copy and no other letter. */
  lemma VisitCount(ng: string, i: nat, st: Scan, c: char)
    requires i < |ng| && i <= |st.result| == |st.cells|
    ensures var r, left := Visit(ng, i, st), Count(st.pool, Some(ng[i]));
            && (r.cells[i] == Marked(Partial) <==> left > 0)
            && (r.cells[i] == Marked(Absent) <==> left == 0)
            && (left > 0 ==> r.correct == st.correct + {UpperChar(ng[i])} && r.used == st.used)
            && (left == 0 ==> r.correct == st.correct && r.used == st.used + {UpperChar(ng[i])})
    ensures Count(Visit(ng, i, st).pool, Some(c)) ==
              if c == ng[i] then Max(0, Count(st.pool, Some(c)) - 1) else Count(st.pool, Some(c))
  {
    CountPositive(st.pool, Some(ng[i]));
    ListStepCount(st.pool, ng[i], c);
  }

  /** The second pass keeps the positions before i and the exact positions,
      and gives every other position its upper-cased letter and a Partial or
      Absent mark. */
  lemma {:induction false} SecondPassShape(ns: string, ng: string, i: nat, st: Scan)
    requires i <= |ng|
    requires |st.result| == |st.cells| == Max(i, Min(|ns|, |ng|))
    ensures var r := SecondPass(ns, ng, i, st);
            && (forall j :: 0 <= j < i ==> r.result[j] == st.result[j] && r.cells[j] == st.cells[j])
            && (forall j :: i <= j < |ng| && IsExact(ns, ng, j) ==>
                  r.result[j] == st.result[j] && r.cells[j] == st.cells[j])
            && (forall j :: i <= j < |ng| && !IsExact(ns, ng, j) ==>
                  r.result[j] == UpperChar(ng[j]) && r.cells[j].Marked? && r.cells[j].mark != Exact)
    decreases |ng| - i
  {
    if i < |ng| {
      if IsExact(ns, ng, i) {
        SecondPassShape(ns, ng, i + 1, st);
      } else {
        VisitFrame(ng, i, st);
        SecondPassShape(ns, ng, i + 1, Visit(ng, i, st));
      }
    }
  }

  /** Letters at Partial positions from i on. */
  ghost function PartialLetters(ns: string, ng: string, i: nat, cells: seq<Cell>): set<char>
    requires |cells| == |ng|
  {
    set j | i <= j < |ng| && !IsExact(ns, ng, j) && cells[j] == Marked(Partial) :: UpperChar(ng[j])
  }

  /** Letters at Absent positions from i on. */
  ghost function AbsentLetters(ns: string, ng: string, i: nat, cells: seq<Cell>): set<char>
    requires |cells| == |ng|
  {
    set j | i <= j < |ng| && !IsExact(ns, ng, j) && cells[j] == Marked(Absent) :: UpperChar(ng[j])
  }

  lemma PartialLettersStep(ns: string, ng: string, i: nat, cells: seq<Cell>)
    requires i < |ng| == |cells|
    ensures PartialLetters(ns, ng, i, cells) == PartialLetters(ns, ng, i + 1, cells) +
              (if !IsExact(ns, ng, i) && cells[i] == Marked(Partial) then {UpperChar(ng[i])} else {})
  {
  }

  lemma AbsentLettersStep(ns: string, ng: string, i: nat, cells: seq<Cell>)
    requires i < |ng| == |cells|
    ensures AbsentLetters(ns, ng, i, cells) == AbsentLetters(ns, ng, i + 1, cells) +
              (if !IsExact(ns, ng, i) && cells[i] == Marked(Absent) then {UpperChar(ng[i])} else {})
  {
  }

  /** The second pass adds exactly the letters of its Partial positions to the
      correct set and those of its Absent positions to the used set. */
  lemma {:induction false} SecondPassLetters(ns: string, ng: string, i: nat, st: Scan)
    requires i <= |ng|
    requires |st.result| == |st.cells| == Max(i, Min(|ns|, |ng|))
    ensures var r := SecondPass(ns, ng, i, st);
            && r.correct == st.correct + PartialLetters(ns, ng, i, r.cells)
            && r.used == st.used + AbsentLetters(ns, ng, i, r.cells)
    decreases |ng| - i
  {
    if i < |ng| {
      var r := SecondPass(ns, ng, i, st);
      PartialLettersStep(ns, ng, i, r.cells);
      AbsentLettersStep(ns, ng, i, r.cells);
      if IsExact(ns, ng, i) {
        SecondPassLetters(ns, ng, i + 1, st);
        assert r == SecondPass(ns, ng, i + 1, st);
      } else {
        var st' := Visit(ng, i, st);
        SecondPassLetters(ns, ng, i + 1, st');
        VisitKept(ns, ng, i, st);
      }
    }
  }

  /** The marks of a fully marked feedback string. */
  function MarksOf(cells: seq<Cell>): (ms: seq<Mark>)
    requires forall j :: 0 <= j < |cells| ==> cells[j].Marked?
    ensures |ms| == |cells|
    ensures forall j :: 0 <= j < |cells| ==> cells[j] == Marked(ms[j])
  {
    seq(|cells|, j requires 0 <= j < |cells| => cells[j].mark)
  }

  /** The whole scan: first pass, then the second pass from position 0. */
  function Scanned(ns: string, ng: string): (st: Scan)
    ensures |st.result| == |st.cells| == |ng|
    ensures forall i :: 0 <= i < |ng| ==> st.result[i] == UpperChar(ng[i])
    ensures forall i :: 0 <= i < |ng| ==> st.cells[i].Marked?
    ensures forall i :: 0 <= i < |ng| ==> (st.cells[i] == Marked(Exact) <==> IsExact(ns, ng, i))
  {
    SecondPassShape(ns, ng, 0, FirstPass(ns, ng));
    SecondPass(ns, ng, 0, FirstPass(ns, ng))
  }

  lemma ScannedLetters(ns: string, ng: string)
    ensures var st := Scanned(ns, ng);
            && st.correct == (set i | 0 <= i < |ng| && st.cells[i] != Marked(Absent) :: UpperChar(ng[i]))
            && st.used == (set i | 0 <= i < |ng| && st.cells[i] == Marked(Absent) :: UpperChar(ng[i]))
  {
    ScannedCorrect(ns, ng);
    ScannedUsed(ns, ng);
  }

  lemma ScannedCorrect(ns: string, ng: string)
    ensures var st := Scanned(ns, ng);
            st.correct == (set i | 0 <= i < |ng| && st.cells[i] != Marked(Absent) :: UpperChar(ng[i]))
  {
    CorrectFromMarked(ns, ng);
    CorrectIsMarked(ns, ng);
  }

  /** The scan's correct set is exactly the exact letters and the Partial ones. */
  lemma ScannedCorrectSplit(ns: string, ng: string)
    ensures Scanned(ns, ng).correct ==
              (set i | 0 <= i < Min(|ns|, |ng|) && IsExact(ns, ng, i) :: UpperChar(ng[i]))
              + PartialLetters(ns, ng, 0, Scanned(ns, ng).cells)
  {
    var st0 := FirstPass(ns, ng);
    SecondPassLetters(ns, ng, 0, st0);
  }

  lemma CorrectIsMarked(ns: string, ng: string)
    ensures var st := Scanned(ns, ng);
            forall x :: x in st.correct ==>
              x in set i | 0 <= i < |ng| && st.cells[i] != Marked(Absent) :: UpperChar(ng[i])
  {
    var st := Scanned(ns, ng);
    ScannedCorrectSplit(ns, ng);
    forall x | x in st.correct
      ensures x in set i | 0 <= i < |ng| && st.cells[i] != Marked(Absent) :: UpperChar(ng[i])
    {
      if x !in PartialLetters(ns, ng, 0, st.cells) {
        var j :| 0 <= j < Min(|ns|, |ng|) && IsExact(ns, ng, j) && UpperChar(ng[j]) == x;
        assert st.cells[j] == Marked(Exact);
      } else {
        var j :| 0 <= j < |ng| && !IsExact(ns, ng, j) && st.cells[j] == Marked(Partial) && UpperChar(ng[j]) == x;
      }
    }
  }

  lemma CorrectFromMarked(ns: string, ng: string)
    ensures var st := Scanned(ns, ng);
            forall x :: x in (set i | 0 <= i < |ng| && st.cells[i] != Marked(Absent) :: UpperChar(ng[i])) ==>
              x in st.correct
  {
    var st := Scanned(ns, ng);
    ScannedCorrectSplit(ns, ng);
    forall x | x in set i | 0 <= i < |ng| && st.cells[i] != Marked(Absent) :: UpperChar(ng[i])
      ensures x in st.correct
    {
      var j :| 0 <= j < |ng| && st.cells[j] != Marked(Absent) && UpperChar(ng[j]) == x;
      if IsExact(ns, ng, j) {
        assert j < Min(|ns|, |ng|);
      } else {
        assert st.cells[j] == Marked(st.cells[j].mark);
        assert st.cells[j].mark == Partial;
        assert x in PartialLetters(ns, ng, 0, st.cells);
      }
    }
  }

  lemma ScannedUsed(ns: string, ng: string)
    ensures var st := Scanned(ns, ng);
            st.used == (set i | 0 <= i < |ng| && st.cells[i] == Marked(Absent) :: UpperChar(ng[i]))
  {
    var st0 := FirstPass(ns, ng);
    var st := Scanned(ns, ng);
    SecondPassLetters(ns, ng, 0, st0);
    assert st0.used == {};
    assert forall j :: 0 <= j < |ng| && st.cells[j] == Marked(Absent) ==> !IsExact(ns, ng, j);
  }

  /** The letters of a scored guess at the positions marked Exact or Partial. */
  function MarkedLetters(result: string, marks: seq<Mark>): set<char>
    requires |marks| <= |result|
  {
    set i | 0 <= i < |marks| && marks[i] != Absent :: result[i]
  }

  /** The letters of a scored guess at the positions marked Absent. */
  function AbsentMarkedLetters(result: string, marks: seq<Mark>): set<char>
    requires |marks| <= |result|
  {
    set i | 0 <= i < |marks| && marks[i] == Absent :: result[i]
  }

  /** `get_feedback(secret_word, guess)`: both words are normalised (ё -> е),
      the result is the upper-cased normalised guess, each position is Exact
      exactly when the normalised letters agree there, and the two letter sets
      are the letters of the marked and of the Absent positions. */
  function GetFeedback(secret: string, guess: string): (r: Feedback)
    ensures r.result == Upper(Normalize(guess))
    ensures |r.marks| == |guess|
    ensures forall i :: 0 <= i < |guess| ==>
              (r.marks[i] == Exact <==> i < |secret| && NormalizeChar(guess[i]) == NormalizeChar(secret[i]))
    ensures r.correct == MarkedLetters(r.result, r.marks)
    ensures r.used == AbsentMarkedLetters(r.result, r.marks)
  {
    var ns := Normalize(secret);
    var ng := Normalize(guess);
    var st := Scanned(ns, ng);
    ScannedLetters(ns, ng);
    var r := Feedback(st.result, MarksOf(st.cells), st.correct, st.used);
    assert forall i :: 0 <= i < |guess| ==> (r.marks[i] != Absent <==> st.cells[i] != Marked(Absent));
    r
  }

  // ---------------------------------------------------------------------
  // An independent reference definition of the marks, and the counting
  // facts that follow from it.
  // ---------------------------------------------------------------------

  /** Guess positions below i that hold c without an exact match there. */
  function NonExactBefore(ns: string, ng: string, c: char, i: nat): nat
    requires i <= |ng|
  {
    if i == 0 then 0
    else NonExactBefore(ns, ng, c, i - 1) + (if ng[i - 1] == c && !IsExact(ns, ng, i - 1) then 1 else 0)
  }

  /** Secret positions below n that hold c and no exact match consumed. */
  function Unmatched(ns: string, ng: string, c: char, n: nat): nat
    requires n <= |ns|
  {
    if n == 0 then 0
    else Unmatched(ns, ng, c, n - 1) + (if ns[n - 1] == c && !IsExact(ns, ng, n - 1) then 1 else 0)
  }

  /** Positions below n where the letters agree and equal c. */
  function ExactCount(ns: string, ng: string, c: char, n: nat): nat
  {
    if n == 0 then 0
    else ExactCount(ns, ng, c, n - 1) + (if IsExact(ns, ng, n - 1) && ns[n - 1] == c then 1 else 0)
  }

  /** Reference scoring: a position is Exact when the letters agree; otherwise
      it is Partial exactly when fewer earlier non-exact positions hold the same
      letter than there are unmatched copies of it in the secret. */
  function ReferenceMark(ns: string, ng: string, i: nat): Mark
    requires i < |ng|
  {
    if IsExact(ns, ng, i) then Exact
    else if NonExactBefore(ns, ng, ng[i], i) < Unmatched(ns, ng, ng[i], |ns|) then Partial
    else Absent
  }

  function ReferenceMarks(ns: string, ng: string): (ms: seq<Mark>)
    ensures |ms| == |ng|
  {
    seq(|ng|, i requires 0 <= i < |ng| => ReferenceMark(ns, ng, i))
  }

  /** Positions below n that hold c and carry a mark other than Absent. */
  function MarkedCount(ng: string, marks: seq<Mark>, c: char, n: nat): nat
    requires n <= |ng| && n <= |marks|
  {
    if n == 0 then 0
    else MarkedCount(ng, marks, c, n - 1) + (if ng[n - 1] == c && marks[n - 1] != Absent then 1 else 0)
  }

  /** After the first pass the pool holds, of every letter, exactly the copies
      in the secret that no exact match consumed. */
  lemma FirstPassPool(ns: string, ng: string, c: char)
    ensures Count(FirstPass(ns, ng).pool, Some(c)) == Unmatched(ns, ng, c, |ns|)
  {
    assert Strike(ns, ng)[..|ns|] == Strike(ns, ng);
    StrikeCount(ns, ng, c, |ns|);
  }

  /** The unconsumed secret letters after the first pass are the unmatched ones. */
  lemma {:induction false} StrikeCount(ns: string, ng: string, c: char, n: nat)
    requires n <= |ns|
    ensures Count(Strike(ns, ng)[..n], Some(c)) == Unmatched(ns, ng, c, n)
  {
    if n > 0 {
      StrikeCount(ns, ng, c, n - 1);
      assert Strike(ns, ng)[..n] == Strike(ns, ng)[..n - 1] + [Strike(ns, ng)[n - 1]];
      CountSnoc(Strike(ns, ng)[..n - 1], Strike(ns, ng)[n - 1], Some(c));
    }
  }

  /** The copies of c the second pass still holds on reaching position i: the
      unmatched ones less those handed to earlier non-exact positions. */
  function Left(ns: string, ng: string, c: char, i: nat): int
    requires i <= |ng|
  {
    Max(0, Unmatched(ns, ng, c, |ns|) - NonExactBefore(ns, ng, c, i))
  }

  /** While the second pass runs, its pool holds the copies left of every
      letter, so every non-exact position gets its reference mark. */
  lemma SecondPassReference(ns: string, ng: string, i: nat, st: Scan)
    requires i <= |ng|
    requires |st.result| == |st.cells| == Max(i, Min(|ns|, |ng|))
    requires forall c :: Count(st.pool, Some(c)) == Left(ns, ng, c, i)
    ensures forall j :: i <= j < |ng| && !IsExact(ns, ng, j) ==>
              SecondPass(ns, ng, i, st).cells[j] == Marked(ReferenceMark(ns, ng, j))
  {
    forall j | i <= j < |ng| && !IsExact(ns, ng, j)
      ensures SecondPass(ns, ng, i, st).cells[j] == Marked(ReferenceMark(ns, ng, j))
    {
      ReferenceAt(ns, ng, i, st, j);
    }
  }

  /** Position j is visited in the state the pass reaches it in, which still
      holds the copies left of its letter. */
  lemma ReferenceAt(ns: string, ng: string, i: nat, st: Scan, j: nat)
    requires i <= j < |ng| && !IsExact(ns, ng, j)
    requires |st.result| == |st.cells| == Max(i, Min(|ns|, |ng|))
    requires Count(st.pool, Some(ng[j])) == Left(ns, ng, ng[j], i)
    ensures SecondPass(ns, ng, i, st).cells[j] == Marked(ReferenceMark(ns, ng, j))
  {
    var sj := StateAt(ns, ng, i, st, j);
    PassThrough(ns, ng, i, st, j);
    StatePool(ns, ng, i, st, j);
    PoolReference(ns, ng, i, st.pool, j);
    VisitKept(ns, ng, j, sj);
  }

  /** A pool holding the copies left at i still holds a copy of the letter at
      a later non-exact position j exactly when the reference marks j Partial. */
  lemma PoolReference(ns: string, ng: string, i: nat, pool: seq<Option<char>>, j: nat)
    requires i <= j < |ng| && !IsExact(ns, ng, j)
    requires Count(pool, Some(ng[j])) == Left(ns, ng, ng[j], i)
    ensures Some(ng[j]) in PoolAt(ns, ng, i, pool, j) <==> ReferenceMark(ns, ng, j) == Partial
  {
    var c := ng[j];
    PoolCount(ns, ng, i, pool, j, c);
    DrainCompose(Unmatched(ns, ng, c, |ns|), 0, NonExactBefore(ns, ng, c, i), NonExactBefore(ns, ng, c, j),
                 Count(pool, Some(c)), Count(PoolAt(ns, ng, i, pool, j), Some(c)));
    CountPositive(PoolAt(ns, ng, i, pool, j), Some(c));
  }

  /** The state the second pass, started at position i in state st, holds on
      reaching position j. */
  function StateAt(ns: string, ng: string, i: nat, st: Scan, j: nat): (r: Scan)
    requires i <= j <= |ng|
    requires |st.result| == |st.cells| == Max(i, Min(|ns|, |ng|))
    ensures |r.result| == |r.cells| == Max(j, Min(|ns|, |ng|))
    decreases j - i
  {
    if i == j then st
    else if IsExact(ns, ng, i) then StateAt(ns, ng, i + 1, st, j)
    else StateAt(ns, ng, i + 1, Visit(ng, i, st), j)
  }

  /** Running the pass from i is running it from j in the state reached there. */
  lemma {:induction false} PassThrough(ns: string, ng: string, i: nat, st: Scan, j: nat)
    requires i <= j <= |ng|
    requires |st.result| == |st.cells| == Max(i, Min(|ns|, |ng|))
    ensures SecondPass(ns, ng, i, st) == SecondPass(ns, ng, j, StateAt(ns, ng, i, st, j))
    decreases j - i
  {
    if i < j {
      if IsExact(ns, ng, i) {
        PassThrough(ns, ng, i + 1, st, j);
      } else {
        PassThrough(ns, ng, i + 1, Visit(ng, i, st), j);
      }
    }
  }

  /** The pool alone, carried from position i to position j. */
  function PoolAt(ns: string, ng: string, i: nat, pool: seq<Option<char>>, j: nat): seq<Option<char>>
    requires i <= j <= |ng|
    decreases j - i
  {
    if i == j then pool
    else if IsExact(ns, ng, i) then PoolAt(ns, ng, i + 1, pool, j)
    else PoolAt(ns, ng, i + 1, ListStep(pool, ng[i]), j)
  }

  /** The state reached at j holds the pool carried there. */
  lemma {:induction false} StatePool(ns: string, ng: string, i: nat, st: Scan, j: nat)
    requires i <= j <= |ng|
    requires |st.result| == |st.cells| == Max(i, Min(|ns|, |ng|))
    ensures StateAt(ns, ng, i, st, j).pool == PoolAt(ns, ng, i, st.pool, j)
    decreases j - i
  {
    if i < j {
      if IsExact(ns, ng, i) {
        StatePool(ns, ng, i + 1, st, j);
      } else {
        StatePool(ns, ng, i + 1, Visit(ng, i, st), j);
      }
    }
  }

  /** Between i and j the pool gives up one copy of c for every non-exact
      position holding c, as long as it has one. */
  lemma {:induction false} PoolCount(ns: string, ng: string, i: nat, pool: seq<Option<char>>, j: nat, c: char)
    requires i <= j <= |ng|
    ensures NonExactBefore(ns, ng, c, i) <= NonExactBefore(ns, ng, c, j)
    ensures Count(PoolAt(ns, ng, i, pool, j), Some(c))
            == Max(0, Count(pool, Some(c)) - (NonExactBefore(ns, ng, c, j) - NonExactBefore(ns, ng, c, i)))
    decreases j - i
  {
    if i < j {
      var next := if IsExact(ns, ng, i) then pool else ListStep(pool, ng[i]);
      if !IsExact(ns, ng, i) {
        ListStepCount(pool, ng[i], c);
      }
      PoolCount(ns, ng, i + 1, next, j, c);
      DrainCompose(Count(pool, Some(c)), NonExactBefore(ns, ng, c, i), NonExactBefore(ns, ng, c, i + 1),
                   NonExactBefore(ns, ng, c, j), Count(next, Some(c)), Count(PoolAt(ns, ng, i, pool, j), Some(c)));
    }
  }

  /** Draining y - x copies and then z - y more is draining z - x. */
  lemma DrainCompose(a: int, x: int, y: int, z: int, p1: int, p2: int)
    requires x <= y <= z
    requires p1 == Max(0, a - (y - x))
    requires p2 == Max(0, p1 - (z - y))
    ensures p2 == Max(0, a - (z - x))
  {
  }

  /** A visited position keeps the cell the visit gave it. */
  lemma VisitKept(ns: string, ng: string, i: nat, st: Scan)
    requires i < |ng| && !IsExact(ns, ng, i)
    requires |st.result| == |st.cells| == Max(i, Min(|ns|, |ng|))
    ensures SecondPass(ns, ng, i, st) == SecondPass(ns, ng, i + 1, Visit(ng, i, st))
    ensures SecondPass(ns, ng, i, st).cells[i] == Visit(ng, i, st).cells[i]
    ensures |Visit(ng, i, st).result| == |Visit(ng, i, st).cells| == Max(i + 1, Min(|ns|, |ng|))
  {
    SecondPassShape(ns, ng, i + 1, Visit(ng, i, st));
  }

  lemma ScannedReference(ns: string, ng: string)
    ensures forall j :: 0 <= j < |ng| ==> Scanned(ns, ng).cells[j] == Marked(ReferenceMark(ns, ng, j))
  {
    var st := FirstPass(ns, ng);
    forall c ensures Count(st.pool, Some(c)) == Left(ns, ng, c, 0) {
      FirstPassPool(ns, ng, c);
    }
    SecondPassReference(ns, ng, 0, st);
  }

  /** The scorer agrees with the reference definition at every position. */
  lemma FeedbackMatchesReference(secret: string, guess: string)
    ensures GetFeedback(secret, guess).marks == ReferenceMarks(Normalize(secret), Normalize(guess))
  {
    var ns := Normalize(secret);
    var ng := Normalize(guess);
    ScannedReference(ns, ng);
    var fb := GetFeedback(secret, guess);
    assert forall j :: 0 <= j < |ng| ==> Scanned(ns, ng).cells[j] == Marked(fb.marks[j]);
  }

  /** Under the reference marks, the marked copies of c are its exact matches
      plus as many partial ones as there are unmatched secret copies, at most. */
  lemma {:induction false} ReferenceCount(ns: string, ng: string, c: char, n: nat)
    requires n <= |ng|
    ensures MarkedCount(ng, ReferenceMarks(ns, ng), c, n) ==
            ExactCount(ns, ng, c, n) + Min(NonExactBefore(ns, ng, c, n), Unmatched(ns, ng, c, |ns|))
  {
    if n > 0 {
      ReferenceCount(ns, ng, c, n - 1);
    }
  }

  /** Every copy of c in the secret is either matched exactly or unmatched. */
  lemma {:induction false} SecretSplit(ns: string, ng: string, c: char, n: nat)
    requires n <= |ns|
    ensures multiset(ns[..n])[c] == ExactCount(ns, ng, c, n) + Unmatched(ns, ng, c, n)
  {
    if n > 0 {
      SecretSplit(ns, ng, c, n - 1);
      assert ns[..n] == ns[..n - 1] + [ns[n - 1]];
    }
  }

  /** No exact match lies beyond the shorter word. */
  lemma {:induction false} ExactCountStable(ns: string, ng: string, c: char, n: nat)
    requires n >= Min(|ns|, |ng|)
    ensures ExactCount(ns, ng, c, n) == ExactCount(ns, ng, c, Min(|ns|, |ng|))
  {
    if n > Min(|ns|, |ng|) {
      ExactCountStable(ns, ng, c, n - 1);
    }
  }

  /** Multiplicity: for every letter, the positions holding it that are marked
      Exact or Partial are no more than its copies in the secret. */
  lemma MultiplicityBound(secret: string, guess: string, c: char)
    ensures MarkedCount(Normalize(guess), GetFeedback(secret, guess).marks, c, |guess|)
            <= multiset(Normalize(secret))[c]
  {
    FeedbackMatchesReference(secret, guess);
    ReferenceBound(Normalize(secret), Normalize(guess), c);
  }

  /** The multiplicity bound for the reference marks. */
  lemma ReferenceBound(ns: string, ng: string, c: char)
    ensures MarkedCount(ng, ReferenceMarks(ns, ng), c, |ng|) <= multiset(ns)[c]
  {
    ReferenceCount(ns, ng, c, |ng|);
    SecretSplit(ns, ng, c, |ns|);
    assert ns[..|ns|] == ns;
    ExactCountStable(ns, ng, c, |ng|);
    ExactCountStable(ns, ng, c, |ns|);
  }

  // ---------------------------------------------------------------------
  // What the letter sets tell the guesser.
  // ---------------------------------------------------------------------

  /** The upper-cased letters of the normalised secret. */
  function SecretLetters(secret: string): set<char>
  {
    set i | 0 <= i < |secret| :: UpperChar(NormalizeChar(secret[i]))
  }

  /** Every normalised letter of the word is a lower-case letter. */
  predicate LowerWord(w: string) {
    forall i :: 0 <= i < |w| ==> IsLowerLetter(NormalizeChar(w[i]))
  }

  lemma {:induction false} UnmatchedWitness(ns: string, ng: string, c: char, n: nat)
    requires n <= |ns| && Unmatched(ns, ng, c, n) > 0
    ensures exists k :: 0 <= k < n && ns[k] == c
  {
    if ns[n - 1] != c || IsExact(ns, ng, n - 1) {
      UnmatchedWitness(ns, ng, c, n - 1);
    }
  }

  lemma {:induction false} MarkedWitness(ng: string, marks: seq<Mark>, c: char, n: nat)
    requires n <= |ng| && n <= |marks| && MarkedCount(ng, marks, c, n) > 0
    ensures exists j :: 0 <= j < n && ng[j] == c && marks[j] != Absent
  {
    if !(ng[n - 1] == c && marks[n - 1] != Absent) {
      MarkedWitness(ng, marks, c, n - 1);
    }
  }

  lemma {:induction false} NonExactPositive(ns: string, ng: string, i: nat, n: nat)
    requires i < n <= |ng| && !IsExact(ns, ng, i)
    ensures NonExactBefore(ns, ng, ng[i], n) >= 1
  {
    if n > i + 1 {
      NonExactPositive(ns, ng, i, n - 1);
    }
  }

  lemma {:induction false} ExactPositive(ns: string, ng: string, i: nat, n: nat)
    requires i < n && IsExact(ns, ng, i)
    ensures ExactCount(ns, ng, ns[i], n) >= 1
  {
    if n > i + 1 {
      ExactPositive(ns, ng, i, n - 1);
    }
  }

  /** If a letter of the guess occurs in the secret, at least one position of
      the guess holding it is marked Exact or Partial. */
  lemma SharedLetterIsMarked(ns: string, ng: string, i: nat, k: nat)
    requires i < |ng| && k < |ns| && ng[i] == ns[k]
    ensures exists j :: 0 <= j < |ng| && ng[j] == ng[i] && ReferenceMarks(ns, ng)[j] != Absent
  {
    var c := ng[i];
    ReferenceCount(ns, ng, c, |ng|);
    if IsExact(ns, ng, i) {
      ExactPositive(ns, ng, i, |ng|);
    } else {
      NonExactPositive(ns, ng, i, |ng|);
      if Unmatched(ns, ng, c, |ns|) == 0 {
        SecretSplit(ns, ng, c, |ns|);
        assert ns[..|ns|] == ns;
        assert ns[k] in multiset(ns);
        ExactCountStable(ns, ng, c, |ng|);
        ExactCountStable(ns, ng, c, |ns|);
      }
    }
    MarkedWitness(ng, ReferenceMarks(ns, ng), c, |ng|);
  }

  /** A position marked Exact or Partial by the reference holds a secret letter. */
  lemma MarkedLetterInSecret(ns: string, ng: string, i: nat)
    requires i < |ng| && ReferenceMark(ns, ng, i) != Absent
    ensures exists k :: 0 <= k < |ns| && ns[k] == ng[i]
  {
    if !IsExact(ns, ng, i) {
      UnmatchedWitness(ns, ng, ng[i], |ns|);
    }
  }

  /** The upper-cased letters of an already normalised word. */
  ghost function LettersOf(w: string): set<char>
  {
    set k | 0 <= k < |w| :: UpperChar(w[k])
  }

  lemma ScanCorrectSound(ns: string, ng: string)
    ensures Scanned(ns, ng).correct <= LettersOf(ns)
  {
    var st := Scanned(ns, ng);
    ScannedLetters(ns, ng);
    ScannedReference(ns, ng);
    forall x | x in st.correct
      ensures x in LettersOf(ns)
    {
      var i :| 0 <= i < |ng| && st.cells[i] != Marked(Absent) && UpperChar(ng[i]) == x;
      MarkedLetterInSecret(ns, ng, i);
      var k :| 0 <= k < |ns| && ns[k] == ng[i];
      assert UpperChar(ns[k]) == x;
    }
  }

  lemma SecretLettersOfNormalized(secret: string)
    ensures SecretLetters(secret) == LettersOf(Normalize(secret))
  {
    var ns := Normalize(secret);
    assert forall k :: 0 <= k < |secret| ==> UpperChar(NormalizeChar(secret[k])) == UpperChar(ns[k]);
  }

  /** Every letter reported correct occurs in the secret. */
  lemma CorrectLettersSound(secret: string, guess: string)
    ensures GetFeedback(secret, guess).correct <= SecretLetters(secret)
  {
    ScanCorrectSound(Normalize(secret), Normalize(guess));
    SecretLettersOfNormalized(secret);
  }

  /** A letter reported absent and not also reported correct does not occur in
      the secret. Needs upper-casing to be one-to-one on both words, which holds
      for lower-case letters. */
  lemma AbsentLettersSound(secret: string, guess: string)
    requires LowerWord(secret) && LowerWord(guess)
    ensures (GetFeedback(secret, guess).used - GetFeedback(secret, guess).correct) !! SecretLetters(secret)
  {
    var ns := Normalize(secret);
    var ng := Normalize(guess);
    var fb := GetFeedback(secret, guess);
    FeedbackMatchesReference(secret, guess);
    forall x | x in fb.used && x in SecretLetters(secret)
      ensures x in fb.correct
    {
      var i :| 0 <= i < |guess| && fb.marks[i] == Absent && fb.result[i] == x;
      var k :| 0 <= k < |secret| && UpperChar(NormalizeChar(secret[k])) == x;
      UpperInjective(ng[i], ns[k]);
      SharedLetterIsMarked(ns, ng, i, k);
      var j :| 0 <= j < |ng| && ng[j] == ng[i] && ReferenceMarks(ns, ng)[j] != Absent;
      assert fb.marks[j] != Absent && fb.result[j] == x;
    }
  }
}
