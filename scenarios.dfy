/** Concrete key presses and submissions for the secret "apple" and the word
    list ["apple", "angle"], with the states the page reaches. */
module Scenarios {
  import opened JsBuiltins
  import opened Hamming
  import opened GuessBuffer
  import opened Home

  const SECRET: string := "apple"
  const WORDS: seq<string> := ["apple", "angle"]
  const R: string := "     "

  /** The initial state, written out. */
  lemma InitialState()
    ensures Initial() == Session([R, R, R, R, R], [], R, -1, true, [-1, -1, -1, -1, -1, -1])
  {
    assert BLANK_ROW == R;
    assert seq(PENDING_ROWS, _ => BLANK_ROW) == [R, R, R, R, R];
    assert seq(MAX_GUESSES, _ => UNSET) == [-1, -1, -1, -1, -1, -1];
  }

  /** Typing a-N-g-l-e fills the buffer left to right. */
  lemma TypingFillsLeftToRight()
    ensures AfterLetter(R, 'a') == "a    "
    ensures AfterLetter("a    ", 'N') == "an   "
  {
    IndexOfFirst(R, ' ', 0);
  }

  lemma TypingFillsToTheEnd()
    ensures AfterLetter("ang  ", 'l') == "angl "
    ensures AfterLetter("angl ", 'e') == "angle"
  {
  }

  /** A sixth letter is ignored. */
  lemma TypingOnFullBuffer()
    ensures AfterLetter("angle", 'x') == "angle"
  {
  }

  /** Backspace clears the last slot of a full buffer, then the one before it;
      on an empty buffer it does nothing. */
  lemma BackspaceSteps()
    ensures AfterBackspace("angle") == "angl "
    ensures AfterBackspace("angl ") == "ang  "
    ensures AfterBackspace(R) == R
  {
    IndexOfFirst(R, ' ', 0);
  }

  /** "angle" and "apple" differ at positions 1 and 2. */
  lemma AngleAgainstApple()
    ensures HammingDistance("angle", SECRET) == 2
  {
    assert MismatchIndices("angle", SECRET) == {1, 2};
  }

  /** "angle" against "apple": listed, two positions differ, so it is recorded
      with distance 2 and the buffer is cleared. */
  lemma NonWinningGuess()
    ensures Submitted(Session([R, R, R, R, R], [], "angle", -1, true, [-1, -1, -1, -1, -1, -1]), SECRET, WORDS)
            == Session([R, R, R, R], ["angle"], R, 2, true, [2, -1, -1, -1, -1, -1])
  {
    AngleAgainstApple();
  }

  /** "apple" wins: distance 0 goes into the first slot, the history and the
      buffer stay. */
  lemma WinningGuess()
    ensures Submitted(Session([R, R, R, R, R], [], "apple", -1, true, [-1, -1, -1, -1, -1, -1]), SECRET, WORDS)
            == Session([R, R, R, R, R], [], "apple", 0, true, [0, -1, -1, -1, -1, -1])
  {
    assert HammingDistance(SECRET, SECRET) == 0;
    assert Fill([-1, -1, -1, -1, -1, -1], 0) == [0, -1, -1, -1, -1, -1];
  }

  /** Enter again after the win scores "apple" once more and records a second 0. */
  lemma WinningGuessAgain()
    ensures Submitted(Session([R, R, R, R, R], [], "apple", 0, true, [0, -1, -1, -1, -1, -1]), SECRET, WORDS)
            == Session([R, R, R, R, R], [], "apple", 0, true, [0, 0, -1, -1, -1, -1])
  {
    assert HammingDistance(SECRET, SECRET) == 0;
    assert Fill([-1, -1, -1, -1, -1], 0) == [0, -1, -1, -1, -1];
    assert Fill([0, -1, -1, -1, -1, -1], 0) == [0, 0, -1, -1, -1, -1];
  }

  /** A win and then a non-winning guess: the history holds only "angle", but
      slot 0 holds the win's 0 and the 2 of "angle" lands in slot 1, so the
      board colours the "angle" row by the win. */
  lemma WinThenGuessMisaligns(won: Session, t: Session)
    requires won == Submitted(Typing("apple"), SECRET, WORDS)
    requires t == Submitted(won.(currentGuess := "angle"), SECRET, WORDS)
    ensures t == Session([R, R, R, R], ["angle"], R, 2, true, [0, 2, -1, -1, -1, -1])
    ensures !Aligned(t, SECRET)
  {
    WinningGuess();
    AngleAgainstApple();
    assert Fill([-1, -1, -1, -1, -1], 2) == [2, -1, -1, -1, -1];
    assert Fill([0, -1, -1, -1, -1, -1], 2) == [0, 2, -1, -1, -1, -1];
    assert t.guessDistances[0] != HammingDistance(t.guessState[0], SECRET);
  }

  /** "zzzzz" is not listed: only the flag changes and the buffer keeps the word. */
  lemma UnknownWord()
    ensures Submitted(Session([R, R, R, R, R], [], "zzzzz", -1, true, [-1, -1, -1, -1, -1, -1]), SECRET, WORDS)
            == Session([R, R, R, R, R], [], "zzzzz", -1, false, [-1, -1, -1, -1, -1, -1])
  {
  }

  /** The sixth non-winning guess is still recorded (the guard is on six
      entries, not five); a seventh changes nothing. */
  lemma SixthAndSeventhGuess()
    ensures var fiveDone := Session([], ["angle", "angle", "angle", "angle", "angle"], "angle", 2, true, [2, 2, 2, 2, 2, -1]);
            var sixDone := Session([], ["angle", "angle", "angle", "angle", "angle", "angle"], R, 2, true, [2, 2, 2, 2, 2, 2]);
            && Submitted(fiveDone, SECRET, WORDS) == sixDone
            && Submitted(sixDone.(currentGuess := "angle"), SECRET, WORDS) == sixDone.(currentGuess := "angle")
  {
    AngleAgainstApple();
  }

  /** The initial state with `g` in the buffer. */
  function Typing(g: string): Session {
    Session([R, R, R, R, R], [], g, -1, true, [-1, -1, -1, -1, -1, -1])
  }

  /** A one-letter key on a state that differs from the start only in its
      buffer writes the letter into the buffer. */
  lemma LetterKey(g: string, key: string, g': string)
    requires |g| == WIDTH && |key| == 1 && key != "Enter" && key != "Backspace"
    requires AfterLetter(g, key[0]) == g'
    ensures Pressed(Typing(g), key, SECRET, WORDS) == Typing(g')
  {
  }

  /** Each of the keys a, n, g, l, e writes the next slot. */
  lemma KeyA(s: Session, t: Session)
    requires s == Typing(R) && t == Typing("a    ")
    ensures Run(s, ["a", "n", "g", "l", "e", "Enter"], SECRET, WORDS) == Run(t, ["n", "g", "l", "e", "Enter"], SECRET, WORDS)
  {
    TypingFillsLeftToRight();
    LetterKey(R, "a", "a    ");
    RunStep(s, "a", ["n", "g", "l", "e", "Enter"], t, SECRET, WORDS);
  }

  lemma KeyN(s: Session, t: Session)
    requires s == Typing("a    ") && t == Typing("an   ")
    ensures Run(s, ["n", "g", "l", "e", "Enter"], SECRET, WORDS) == Run(t, ["g", "l", "e", "Enter"], SECRET, WORDS)
  {
    assert AfterLetter("a    ", 'n') == "an   " by {
      IndexOfFirst("a    ", ' ', 1);
      assert ToLower('n') == 'n';
      assert "a    "[1 := 'n'] == "an   ";
    }
    LetterKey("a    ", "n", "an   ");
    RunStep(s, "n", ["g", "l", "e", "Enter"], t, SECRET, WORDS);
  }

  lemma KeyG(s: Session, t: Session)
    requires s == Typing("an   ") && t == Typing("ang  ")
    ensures Run(s, ["g", "l", "e", "Enter"], SECRET, WORDS) == Run(t, ["l", "e", "Enter"], SECRET, WORDS)
  {
    assert AfterLetter("an   ", 'g') == "ang  " by {
      IndexOfFirst("an   ", ' ', 2);
      assert ToLower('g') == 'g';
      assert "an   "[2 := 'g'] == "ang  ";
    }
    LetterKey("an   ", "g", "ang  ");
    RunStep(s, "g", ["l", "e", "Enter"], t, SECRET, WORDS);
  }

  lemma KeyL(s: Session, t: Session)
    requires s == Typing("ang  ") && t == Typing("angl ")
    ensures Run(s, ["l", "e", "Enter"], SECRET, WORDS) == Run(t, ["e", "Enter"], SECRET, WORDS)
  {
    TypingFillsToTheEnd();
    LetterKey("ang  ", "l", "angl ");
    RunStep(s, "l", ["e", "Enter"], t, SECRET, WORDS);
  }

  lemma KeyE(s: Session, t: Session)
    requires s == Typing("angl ") && t == Typing("angle")
    ensures Run(s, ["e", "Enter"], SECRET, WORDS) == Run(t, ["Enter"], SECRET, WORDS)
  {
    TypingFillsToTheEnd();
    LetterKey("angl ", "e", "angle");
    RunStep(s, "e", ["Enter"], t, SECRET, WORDS);
  }

  /** Enter on "angle" submits it. */
  lemma KeyEnter(s: Session, t: Session)
    requires s == Typing("angle")
    requires t == Session([R, R, R, R], ["angle"], R, 2, true, [2, -1, -1, -1, -1, -1])
    ensures Run(s, ["Enter"], SECRET, WORDS) == t
  {
    NonWinningGuess();
    RunStep(s, "Enter", [], t, SECRET, WORDS);
  }

  /** From the initial state, the keys a, n, g, l, e, Enter record "angle"
      with distance 2 and leave a blank buffer for the next guess. */
  lemma TypeAndSubmitAngle(s: Session)
    requires s == Initial()
    ensures Run(s, ["a", "n", "g", "l", "e", "Enter"], SECRET, WORDS)
            == Session([R, R, R, R], ["angle"], R, 2, true, [2, -1, -1, -1, -1, -1])
  {
    InitialState();
    assert s == Typing(R);
    var t1, t2, t3 := Typing("a    "), Typing("an   "), Typing("ang  ");
    var t4, t5 := Typing("angl "), Typing("angle");
    KeyA(s, t1);
    KeyN(t1, t2);
    KeyG(t2, t3);
    KeyL(t3, t4);
    KeyE(t4, t5);
    KeyEnter(t5, Session([R, R, R, R], ["angle"], R, 2, true, [2, -1, -1, -1, -1, -1]));
  }
}
