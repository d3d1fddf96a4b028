/** `WordleViewModel`: a fixed solution, a six-row board of five-letter rows,
    guess evaluation and guess submission. */
module Wordle {

  datatype LetterState = Correct | Present | Absent | Empty

  datatype Letter = Letter(ch: char, state: LetterState)

  datatype Guess = Guess(letters: seq<Letter>)

  datatype State = State(guesses: seq<Guess>, solution: string, currentGuessIndex: int)

  const Solution: string := "COMPOSE"
  const ValidWords: seq<string> := ["HELLO", "WORLD", "COMPOSE", "ANDROID"]
  const MaxGuesses: nat := 6
  const WordLength: nat := 5

  function BlankRow(): (g: Guess)
    ensures |g.letters| == WordLength
    ensures forall i :: 0 <= i < |g.letters| ==> g.letters[i] == Letter(' ', Empty)
  {
    Guess(seq(WordLength, _ => Letter(' ', Empty)))
  }

  /** The rows before the current index hold evaluated five-letter guesses;
      there are always six rows and the index never passes six. */
  ghost predicate Valid(s: State)
  {
    && |s.guesses| == MaxGuesses
    && 0 <= s.currentGuessIndex <= MaxGuesses
    && s.solution == Solution
    && forall k :: 0 <= k < s.currentGuessIndex ==>
         |s.guesses[k].letters| == WordLength && Evaluated(s.guesses[k])
  }

  ghost predicate Evaluated(g: Guess)
  {
    forall i :: 0 <= i < |g.letters| ==> g.letters[i].state != Empty
  }

  /** `startNewGame`: six blank rows of five EMPTY letters, index 0. */
  function StartNewGame(): (s: State)
    ensures Valid(s)
    ensures |s.guesses| == 6 && s.currentGuessIndex == 0 && s.solution == Solution
    ensures forall k, i :: 0 <= k < 6 && 0 <= i < |s.guesses[k].letters| ==>
      |s.guesses[k].letters| == 5 && s.guesses[k].letters[i] == Letter(' ', Empty)
  {
    State(seq(MaxGuesses, _ => BlankRow()), Solution, 0)
  }

  /** The state of the letter at `i`, by the rule of `evaluateGuess`. */
  function Judge(guess: string, i: nat): LetterState
    requires i < |guess| && i < |Solution|
  {
    if guess[i] == Solution[i] then Correct
    else if guess[i] in Solution then Present
    else Absent
  }

  /** `evaluateGuess`: one letter per guess character, in order, characters
      kept. CORRECT exactly at positions where guess and solution agree,
      PRESENT exactly where they differ but the solution holds the letter
      somewhere (with no accounting for how often), ABSENT exactly where the
      solution lacks the letter. */
  function EvaluateGuess(guess: string): (r: seq<Letter>)
    requires |guess| <= |Solution|
    ensures |r| == |guess|
    ensures forall i :: 0 <= i < |r| ==> r[i].ch == guess[i]
    ensures forall i :: 0 <= i < |r| ==> (r[i].state == Correct <==> guess[i] == Solution[i])
    ensures forall i :: 0 <= i < |r| ==> (r[i].state == Present <==> guess[i] != Solution[i] && guess[i] in Solution)
    ensures forall i :: 0 <= i < |r| ==> (r[i].state == Absent <==> guess[i] !in Solution)
  {
    if |guess| == 0 then []
    else
      var n := |guess| - 1;
      EvaluateGuess(guess[..n]) + [Letter(guess[n], Judge(guess, n))]
  }

  /** The word typed into a row: `letters.joinToString("") { it.char.toString() }`. */
  function Word(g: Guess): (w: string)
    ensures |w| == |g.letters|
  {
    seq(|g.letters|, i requires 0 <= i < |g.letters| => g.letters[i].ch)
  }

  predicate Accepted(w: string)
  {
    |w| == WordLength && w in ValidWords
  }

  /** `onSubmitGuess`: nothing happens once six guesses are used or when the
      typed row is not an accepted five-letter word; otherwise only the
      current row is replaced by its evaluation and the index advances by one. */
  function SubmitGuess(s: State): (r: State)
    requires Valid(s)
    ensures Valid(r)
    ensures s.currentGuessIndex >= MaxGuesses ==> r == s
    ensures s.currentGuessIndex < MaxGuesses ==>
      var w := Word(s.guesses[s.currentGuessIndex]);
      if Accepted(w) then
        && r.currentGuessIndex == s.currentGuessIndex + 1
        && |r.guesses| == |s.guesses|
        && (forall k :: 0 <= k < |s.guesses| && k != s.currentGuessIndex ==> r.guesses[k] == s.guesses[k])
        && r.guesses[s.currentGuessIndex] == Guess(EvaluateGuess(w))
        && r.solution == s.solution
      else r == s
  {
    if s.currentGuessIndex >= MaxGuesses then s
    else
      var w := Word(s.guesses[s.currentGuessIndex]);
      if Accepted(w) then
        s.(guesses := s.guesses[s.currentGuessIndex := Guess(EvaluateGuess(w))],
           currentGuessIndex := s.currentGuessIndex + 1)
      else s
  }

  // ---------------------------------------------------------------------------

  /** Evaluation never leaves a letter EMPTY, and its three states partition
      the positions. */
  lemma EvaluationTotal(guess: string, i: int)
    requires |guess| <= |Solution| && 0 <= i < |guess|
    ensures EvaluateGuess(guess)[i].state in {Correct, Present, Absent}
  {
  }

  /** Letters are judged one at a time: a repeated letter is PRESENT at every
      wrong position, however often the solution holds it. */
  lemma HelloAgainstCompose()
    ensures EvaluateGuess("HELLO") ==
      [Letter('H', Absent), Letter('E', Present), Letter('L', Absent), Letter('L', Absent), Letter('O', Correct)]
    ensures EvaluateGuess("OOOOO") ==
      [Letter('O', Present), Letter('O', Correct), Letter('O', Present), Letter('O', Present), Letter('O', Correct)]
  {
  }

  /** No acceptable guess is all CORRECT: the solution has seven letters while
      a guess must have five and be in the word list, whose five-letter words
      differ from the solution's first five letters. */
  lemma NoAcceptedGuessWins(w: string)
    requires Accepted(w)
    ensures exists i :: 0 <= i < |w| && EvaluateGuess(w)[i].state != Correct
  {
    assert w == "HELLO" || w == "WORLD";
    if w == "HELLO" {
      assert EvaluateGuess(w)[0].state != Correct;
    } else {
      assert EvaluateGuess(w)[0].state != Correct;
    }
  }

  /** Typing is not wired up, so a fresh game's rows are blank and submitting
      leaves it unchanged. */
  lemma FreshSubmitIsNoOp()
    ensures SubmitGuess(StartNewGame()) == StartNewGame()
  {
    var s := StartNewGame();
    var w := Word(s.guesses[0]);
    assert w[0] == ' ';
    assert w !in ValidWords;
  }

  /** Submitting is a no-op exactly when the index is used up or the row's word
      is not accepted; otherwise one more row is evaluated. */
  lemma SubmitAdvancesIffAccepted(s: State)
    requires Valid(s)
    ensures SubmitGuess(s).currentGuessIndex == s.currentGuessIndex + 1 <==>
      s.currentGuessIndex < MaxGuesses && Accepted(Word(s.guesses[s.currentGuessIndex]))
    ensures SubmitGuess(s).currentGuessIndex != s.currentGuessIndex + 1 ==> SubmitGuess(s) == s
  {
  }
}
