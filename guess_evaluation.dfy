/**
 * Guess evaluation of the daily word puzzle (GameService.validateGuess).
 *
 * The secret word and the guess are upper-cased, compared for length, and then
 * every guessed letter is classified in two passes over a multiset of the
 * secret word's letters: exact positions first, then the remaining letters
 * from left to right while copies of them are left.
 *
 * The first half of the module states the classification as a closed-form
 * reference (StateAt); ValidateGuess is the two-pass algorithm proved to
 * produce it; the lemmas at the end prove what the classification promises.
 */
module GuessEvaluation {
  import opened Wrappers

  /** Classification of one guessed letter ('correct', 'present', 'absent' on the wire). */
  datatype LetterState = Correct | Present | Absent

  datatype LetterResult = LetterResult(letter: char, state: LetterState)

  /** What a guess submission answers: the normalised guess, one entry per position, and the exact-match flag. */
  datatype GuessResult = GuessResult(guess: string, result: seq<LetterResult>, isCorrect: bool)

  datatype GuessError = LengthMismatch

  // ---------------------------------------------------------------------------
  // Normalisation
  // ---------------------------------------------------------------------------

  /** String.prototype.toUpperCase restricted to ASCII letters. */
  function UpperChar(c: char): char
  {
    if 'a' <= c <= 'z' then (c as int - 'a' as int + 'A' as int) as char else c
  }

  function ToUpper(s: string): string
  {
    seq(|s|, i requires 0 <= i < |s| => UpperChar(s[i]))
  }

  // ---------------------------------------------------------------------------
  // Reference definition of the classification
  // ---------------------------------------------------------------------------

  /** Number of positions j < i at which guess and word both hold letter c. */
  function ExactBefore(word: string, guess: string, i: nat, c: char): nat
    requires |guess| == |word| && i <= |word|
  {
    if i == 0 then 0
    else ExactBefore(word, guess, i - 1, c) + (if guess[i - 1] == c && word[i - 1] == c then 1 else 0)
  }

  /** Number of positions j < i at which the guess holds letter c but the word holds another letter. */
  function MissesBefore(word: string, guess: string, i: nat, c: char): nat
    requires |guess| == |word| && i <= |word|
  {
    if i == 0 then 0
    else MissesBefore(word, guess, i - 1, c) + (if guess[i - 1] == c && word[i - 1] != c then 1 else 0)
  }

  /** Copies of c in the secret word that are not used up by exact matches. */
  function Remaining(word: string, guess: string, c: char): int
    requires |guess| == |word|
  {
    multiset(word)[c] - ExactBefore(word, guess, |word|, c)
  }

  /**
   * The classification of position i: Correct on an exact match; otherwise
   * Present exactly when fewer earlier non-exact positions carry the same
   * letter than there are copies of it left after the exact matches.
   */
  function StateAt(word: string, guess: string, i: nat): LetterState
    requires |guess| == |word| && i < |word|
  {
    if guess[i] == word[i] then Correct
    else if MissesBefore(word, guess, i, guess[i]) < Remaining(word, guess, guess[i]) then Present
    else Absent
  }

  /** The expected per-letter result of evaluating guess against word. */
  function Expected(word: string, guess: string): seq<LetterResult>
    requires |guess| == |word|
  {
    seq(|guess|, i requires 0 <= i < |guess| => LetterResult(guess[i], StateAt(word, guess, i)))
  }

  /** Number of entries of a result that credit letter c, as Correct or as Present. */
  function Credited(result: seq<LetterResult>, c: char): nat
  {
    if result == [] then 0
    else
      var last := result[|result| - 1];
      Credited(result[..|result| - 1], c) + (if last.letter == c && last.state != Absent then 1 else 0)
  }

  /** The letter counts of the algorithm: a Map lookup that defaults to 0. */
  function Get(counts: map<char, int>, c: char): int
  {
    if c in counts then counts[c] else 0
  }

  function Min(a: int, b: int): int
  {
    if a <= b then a else b
  }

  // ---------------------------------------------------------------------------
  // The algorithm
  // ---------------------------------------------------------------------------

  /**
   * Evaluates a guess against the secret word of the requested puzzle.
   * A length mismatch is rejected; otherwise the result has one entry per
   * position, carries the guessed letter, and classifies it as StateAt does.
   */
  method ValidateGuess(secret: string, rawGuess: string) returns (r: Result<GuessResult, GuessError>)
    ensures r.Err? <==> |rawGuess| != |secret|
    ensures r.Err? ==> r.error == LengthMismatch
    ensures r.Ok? ==>
              var guess, word := ToUpper(rawGuess), ToUpper(secret);
              && |guess| == |word|
              && r.value.guess == guess
              && r.value.result == Expected(word, guess)
              && (forall i :: 0 <= i < |guess| ==> (r.value.result[i].state == Correct <==> guess[i] == word[i]))
              && (r.value.isCorrect <==> guess == word)
              && (r.value.isCorrect <==> forall i :: 0 <= i < |guess| ==> r.value.result[i].state == Correct)
  {
    var guess := ToUpper(rawGuess);
    var word := ToUpper(secret);
    if |guess| != |word| {
      return Err(LengthMismatch);
    }
    var n := |word|;
    var letterCounts := CountLetters(word);
    var states := new LetterState[n](_ => Absent);
    letterCounts := MarkExactPositions(word, guess, states, letterCounts);
    MarkPresentLetters(word, guess, states, letterCounts);

    // Build the result.
    var result: seq<LetterResult> := [];
    for i := 0 to n
      invariant result == Expected(word, guess)[..i]
    {
      result := result + [LetterResult(guess[i], states[i])];
    }
    assert Expected(word, guess)[..n] == Expected(word, guess);

    var isCorrect := guess == word;
    if forall i :: 0 <= i < n ==> result[i].state == Correct {
      forall i | 0 <= i < n
        ensures guess[i] == word[i]
      {
        assert result[i].state == StateAt(word, guess, i);
      }
      assert guess == word;
    }
    r := Ok(GuessResult(guess, result, isCorrect));
  }

  /** The letter multiset of the word as a map with default 0 (lines 281-286). */
  method CountLetters(word: string) returns (letterCounts: map<char, int>)
    ensures forall c :: Get(letterCounts, c) == multiset(word)[c]
    ensures forall j :: 0 <= j < |word| ==> word[j] in letterCounts
  {
    letterCounts := map[];
    for i := 0 to |word|
      invariant forall c :: Get(letterCounts, c) == multiset(word[..i])[c]
      invariant forall j :: 0 <= j < i ==> word[j] in letterCounts
    {
      assert word[..i + 1] == word[..i] + [word[i]];
      letterCounts := letterCounts[word[i] := Get(letterCounts, word[i]) + 1];
    }
    assert word[..|word|] == word;
  }

  /** First pass: marks exact positions Correct and takes them out of the letter counts. */
  method MarkExactPositions(word: string, guess: string, states: array<LetterState>, counts: map<char, int>)
    returns (letterCounts: map<char, int>)
    requires |guess| == |word| == states.Length
    requires forall j :: 0 <= j < states.Length ==> states[j] == Absent
    requires forall c :: Get(counts, c) == multiset(word)[c]
    requires forall j :: 0 <= j < |word| ==> word[j] in counts
    modifies states
    ensures forall c :: Get(letterCounts, c) == Remaining(word, guess, c)
    ensures forall j :: 0 <= j < states.Length ==> states[j] == if guess[j] == word[j] then Correct else Absent
  {
    letterCounts := counts;
    for i := 0 to states.Length
      invariant forall c :: Get(letterCounts, c) == multiset(word)[c] - ExactBefore(word, guess, i, c)
      invariant forall j :: 0 <= j < |word| ==> word[j] in letterCounts
      invariant forall j :: 0 <= j < states.Length ==> states[j] == if j < i && guess[j] == word[j] then Correct else Absent
    {
      if guess[i] == word[i] {
        states[i] := Correct;
        letterCounts := letterCounts[guess[i] := letterCounts[guess[i]] - 1];
      }
    }
  }

  /** Second pass: left to right, marks a non-exact position Present while copies of its letter are left. */
  method MarkPresentLetters(word: string, guess: string, states: array<LetterState>, counts: map<char, int>)
    requires |guess| == |word| == states.Length
    requires forall j :: 0 <= j < states.Length ==> states[j] == if guess[j] == word[j] then Correct else Absent
    requires forall c :: Get(counts, c) == Remaining(word, guess, c)
    modifies states
    ensures forall j :: 0 <= j < states.Length ==> states[j] == StateAt(word, guess, j)
  {
    forall c ensures Remaining(word, guess, c) >= 0 {
      ExactAtMostOccurrences(word, guess, c);
    }
    var letterCounts := counts;
    for i := 0 to states.Length
      invariant CountsLeft(word, guess, i, letterCounts)
      invariant forall j :: 0 <= j < i ==> states[j] == StateAt(word, guess, j)
      invariant forall j :: i <= j < states.Length ==> states[j] == if guess[j] == word[j] then Correct else Absent
    {
      SecondPassStep(word, guess, i, letterCounts);
      if states[i] == Absent && Get(letterCounts, guess[i]) > 0 {
        states[i] := Present;
        letterCounts := letterCounts[guess[i] := Get(letterCounts, guess[i]) - 1];
      }
      assert states[i] == StateAt(word, guess, i);
    }
  }

  /** The letter counts during the second pass, before position i: remaining copies less those already credited. */
  ghost predicate CountsLeft(word: string, guess: string, i: nat, counts: map<char, int>)
    requires |guess| == |word| && i <= |word|
  {
    forall c :: Get(counts, c) == Remaining(word, guess, c) - Min(MissesBefore(word, guess, i, c), Remaining(word, guess, c))
  }

  /** One position of the second pass: its test agrees with StateAt, and its update keeps CountsLeft. */
  lemma SecondPassStep(word: string, guess: string, i: nat, counts: map<char, int>)
    requires |guess| == |word| && i < |word|
    requires forall c :: Remaining(word, guess, c) >= 0
    requires CountsLeft(word, guess, i, counts)
    ensures StateAt(word, guess, i) == if guess[i] == word[i] then Correct
                                       else if Get(counts, guess[i]) > 0 then Present else Absent
    ensures CountsLeft(word, guess, i + 1,
                       if guess[i] != word[i] && Get(counts, guess[i]) > 0
                       then counts[guess[i] := Get(counts, guess[i]) - 1] else counts)
  {
  }

  // ---------------------------------------------------------------------------
  // Properties of the classification
  // ---------------------------------------------------------------------------

  /** Exact matches of c never outnumber the copies of c in the word: the letter counts never go negative. */
  lemma {:induction false} ExactAtMostOccurrences(word: string, guess: string, c: char)
    requires |guess| == |word|
    ensures ExactBefore(word, guess, |word|, c) <= multiset(word)[c]
    ensures Remaining(word, guess, c) >= 0
  {
    ExactPrefixAtMostOccurrences(word, guess, |word|, c);
    assert word[..|word|] == word;
  }

  lemma {:induction false} ExactPrefixAtMostOccurrences(word: string, guess: string, i: nat, c: char)
    requires |guess| == |word| && i <= |word|
    ensures ExactBefore(word, guess, i, c) <= multiset(word[..i])[c]
  {
    if i > 0 {
      ExactPrefixAtMostOccurrences(word, guess, i - 1, c);
      assert word[..i] == word[..i - 1] + [word[i - 1]];
    }
  }

  /**
   * Among the first i positions, the credited copies of c are the exact
   * matches plus as many misses as there are copies left after the exact pass.
   */
  lemma {:induction false} CreditedPrefix(word: string, guess: string, i: nat, c: char)
    requires |guess| == |word| && i <= |word|
    ensures Credited(Expected(word, guess)[..i], c)
            == ExactBefore(word, guess, i, c) + Min(MissesBefore(word, guess, i, c), Remaining(word, guess, c))
  {
    ExactAtMostOccurrences(word, guess, c);
    if i > 0 {
      CreditedPrefix(word, guess, i - 1, c);
      var e := Expected(word, guess);
      assert e[..i][..i - 1] == e[..i - 1];
      assert e[..i][i - 1] == LetterResult(guess[i - 1], StateAt(word, guess, i - 1));
    }
  }

  /**
   * No over-crediting: for every letter, the positions marked Correct or
   * Present with that letter are at most its occurrences in the word.
   */
  lemma NoOverCrediting(word: string, guess: string, c: char)
    requires |guess| == |word|
    ensures Credited(Expected(word, guess), c) <= multiset(word)[c]
  {
    CreditedPrefix(word, guess, |word|, c);
    assert Expected(word, guess)[..|word|] == Expected(word, guess);
  }

  /** Misses of c strictly accumulate past a position that is itself a miss of c. */
  lemma {:induction false} MissesGrow(word: string, guess: string, i: nat, j: nat)
    requires |guess| == |word| && i < j <= |word|
    requires guess[i] != word[i]
    ensures MissesBefore(word, guess, i, guess[i]) < MissesBefore(word, guess, j, guess[i])
  {
    if j > i + 1 {
      MissesGrow(word, guess, i, j - 1);
    }
  }

  /**
   * Present letters are assigned left to right: when a later non-exact
   * position is Present, so is every earlier non-exact position with the
   * same letter.
   */
  lemma PresentLeftToRight(word: string, guess: string, i: nat, j: nat)
    requires |guess| == |word| && i < j < |word|
    requires guess[i] == guess[j] && guess[i] != word[i]
    requires StateAt(word, guess, j) == Present
    ensures StateAt(word, guess, i) == Present
  {
    MissesGrow(word, guess, i, j);
  }

  /** Evaluating a guess that shares no letter with the word classifies every position Absent. */
  lemma NoSharedLettersAllAbsent(word: string, guess: string)
    requires |guess| == |word|
    requires forall i :: 0 <= i < |guess| ==> guess[i] !in word
    ensures forall i :: 0 <= i < |guess| ==> StateAt(word, guess, i) == Absent
  {
    forall i | 0 <= i < |guess|
      ensures StateAt(word, guess, i) == Absent
    {
      assert word[i] in word;
      assert multiset(word)[guess[i]] == 0;
    }
  }

  /** A word evaluated against itself is an exact match at every position. */
  lemma SameWordAllCorrect(word: string)
    ensures forall i :: 0 <= i < |word| ==> StateAt(word, word, i) == Correct
  {
  }

  /** Without exact matches no copy of a letter is used up by the first pass. */
  lemma {:induction false} NoExactMatchesBefore(word: string, guess: string, i: nat, c: char)
    requires |guess| == |word| && i <= |word|
    requires forall j :: 0 <= j < i ==> guess[j] != word[j]
    ensures ExactBefore(word, guess, i, c) == 0
  {
    if i > 0 {
      NoExactMatchesBefore(word, guess, i - 1, c);
    }
  }

  /** Copies left after the (empty) exact pass of guess ERASE against word SPEED. */
  lemma SpeedEraseRemaining()
    ensures Remaining("SPEED", "ERASE", 'E') == 2 && Remaining("SPEED", "ERASE", 'S') == 1
    ensures Remaining("SPEED", "ERASE", 'R') == 0 && Remaining("SPEED", "ERASE", 'A') == 0
  {
    var word, guess := "SPEED", "ERASE";
    assert forall j :: 0 <= j < 5 ==> guess[j] != word[j];
    NoExactMatchesBefore(word, guess, 5, 'E');
    NoExactMatchesBefore(word, guess, 5, 'S');
    NoExactMatchesBefore(word, guess, 5, 'R');
    NoExactMatchesBefore(word, guess, 5, 'A');
    assert word == ['S', 'P'] + ['E', 'E'] + ['D'];
  }

  /** Duplicate letters of the guess are credited only up to the copies the word has left. */
  lemma SpeedEraseExample()
    ensures Expected("SPEED", "ERASE") ==
      [LetterResult('E', Present), LetterResult('R', Absent), LetterResult('A', Absent),
       LetterResult('S', Present), LetterResult('E', Present)]
  {
    var word, guess := "SPEED", "ERASE";
    SpeedEraseRemaining();
    assert MissesBefore(word, guess, 3, 'S') == 0;
    assert MissesBefore(word, guess, 4, 'E') == 1;
  }
}
