/** The game state of the Home page and the two event handlers that change it:
    `handleSubmit` and `onKeyPress`. The state is first described as a value
    (`Session`) with one pure transition per event; class `Game` then holds the
    same state in fields and its methods follow the handlers statement by
    statement, each proved to perform the pure transition. */
module Home {
  import opened JsBuiltins
  import opened Hamming
  import opened GuessBuffer

  /** The sentinel of an unset `guessDistances` slot. */
  const UNSET: int := -1
  /** `guessDistances` has one slot per allowed guess. */
  const MAX_GUESSES: nat := 6
  /** The empty rows shown below the current one at the start. */
  const PENDING_ROWS: nat := 5
  /** A buffer or board row with nothing typed: `"     "`. */
  const BLANK_ROW: string := Blanks(WIDTH)

  /** The page's state variables, as one value. */
  datatype Session = Session(
    pendingBoard: seq<string>,
    guessState: seq<string>,
    currentGuess: string,
    hammingDistance: int,
    wordInList: bool,
    guessDistances: seq<int>)

  /** The `useState` initial values: nothing typed, no slot set, five
      pending rows. */
  function Initial(): (i: Session)
    ensures Typed(i.currentGuess) == [] && SetCount(i.guessDistances) == 0
    ensures i.guessState == [] && |i.pendingBoard| == PENDING_ROWS
  {
    IndexOfFirst(BLANK_ROW, ' ', 0);
    IndexOfFirst(seq(MAX_GUESSES, _ => UNSET), UNSET, 0);
    Session(seq(PENDING_ROWS, _ => BLANK_ROW), [], BLANK_ROW, UNSET, true, seq(MAX_GUESSES, _ => UNSET))
  }

  // ---------------------------------------------------------------------------
  // Distance slots

  /** The set slots come first: no unset slot is followed by a set one. */
  predicate SetSlotsFirst(d: seq<int>) {
    forall i, j :: 0 <= i < j < |d| && d[i] == UNSET ==> d[j] == UNSET
  }

  /** How many slots are set (the leading ones, when SetSlotsFirst holds). */
  function SetCount(d: seq<int>): (n: nat)
    ensures n <= |d|
    ensures forall i :: 0 <= i < n ==> d[i] != UNSET
    ensures n < |d| ==> d[n] == UNSET
  {
    var i := IndexOf(d, UNSET);
    if i == -1 then |d| else i
  }

  /** The distance history after recording `v`: the leftmost unset slot gets
      `v`; when no slot is unset nothing changes. */
  function Fill(d: seq<int>, v: int): (r: seq<int>)
    ensures |r| == |d|
    decreases |d|
  {
    if |d| == 0 then []
    else if d[0] == UNSET then [v] + d[1..]
    else [d[0]] + Fill(d[1..], v)
  }

  /** Fill writes exactly where `indexOf(-1)` points, and nowhere when it is -1:
      the source's `next[index] = distance` with `index == -1` sets a property
      of the array object, not an element. */
  lemma {:induction false} FillAtFirstUnset(d: seq<int>, v: int)
    ensures Fill(d, v) == var i := IndexOf(d, UNSET); if i == -1 then d else d[i := v]
    decreases |d|
  {
    if |d| > 0 {
      if d[0] == UNSET {
        assert IndexOf(d, UNSET) == 0;
        assert d[0 := v] == [v] + d[1..];
      } else {
        var tail := d[1..];
        FillAtFirstUnset(tail, v);
        var j := IndexOf(tail, UNSET);
        assert IndexOf(d, UNSET) == if j == -1 then -1 else j + 1;
        if j == -1 {
          assert [d[0]] + tail == d;
        } else {
          assert [d[0]] + tail[j := v] == d[j + 1 := v];
        }
      }
    }
  }

  /** Recording a distance keeps the set slots first, sets one more slot unless
      all are set, and never overwrites a set slot. */
  lemma FillKeepsSetSlotsFirst(d: seq<int>, v: int)
    requires SetSlotsFirst(d) && v != UNSET
    ensures SetSlotsFirst(Fill(d, v))
    ensures SetCount(Fill(d, v)) == if SetCount(d) < |d| then SetCount(d) + 1 else |d|
    ensures forall i :: 0 <= i < |d| && d[i] != UNSET ==> Fill(d, v)[i] == d[i]
  {
    FillAtFirstUnset(d, v);
    var r, n := Fill(d, v), SetCount(d);
    if n < |d| {
      forall i | 0 <= i < n ensures d[i] != UNSET {
        assert d[..n][i] == d[i];
      }
      if n + 1 < |d| {
        assert r[n + 1] == UNSET;
        IndexOfFirst(r, UNSET, n + 1);
      }
    }
  }

  // ---------------------------------------------------------------------------
  // The state invariant

  /** `pendingBoard` rows left after `n` appended guesses. */
  function PendingRows(n: nat): nat {
    if n >= PENDING_ROWS then 0 else PENDING_ROWS - n
  }

  /** The history: at most six full, listed guesses. */
  predicate HistoryOk(guessState: seq<string>, wordList: seq<string>) {
    && |guessState| <= MAX_GUESSES
    && forall i :: 0 <= i < |guessState| ==>
         |guessState[i]| == WIDTH && ' ' !in guessState[i] && guessState[i] in wordList
  }

  /** The distance slots: six of them, set slots first, each unset or a distance
      between two five-letter words. */
  predicate DistancesOk(d: seq<int>) {
    && |d| == MAX_GUESSES
    && SetSlotsFirst(d)
    && forall i :: 0 <= i < |d| ==> UNSET <= d[i] <= WIDTH
  }

  /** The pending rows: blank, one fewer per appended guess, never below none. */
  predicate BoardOk(pendingBoard: seq<string>, guesses: nat) {
    && |pendingBoard| == PendingRows(guesses)
    && forall i :: 0 <= i < |pendingBoard| ==> pendingBoard[i] == BLANK_ROW
  }

  /** The last distance is unset exactly until the first slot is set. */
  predicate ScoreOk(hammingDistance: int, d: seq<int>)
    requires |d| > 0
  {
    && UNSET <= hammingDistance <= WIDTH
    && (hammingDistance == UNSET <==> d[0] == UNSET)
  }

  /** What every reachable state satisfies. Every appended guess also set a
      slot (unless all six were set already), so the history is never longer
      than the set slots. */
  predicate Inv(s: Session, wordList: seq<string>) {
    && IsBuffer(s.currentGuess)
    && HistoryOk(s.guessState, wordList)
    && DistancesOk(s.guessDistances)
    && |s.guessState| <= SetCount(s.guessDistances)
    && BoardOk(s.pendingBoard, |s.guessState|)
    && ScoreOk(s.hammingDistance, s.guessDistances)
  }

  lemma InitialInv(wordList: seq<string>)
    ensures Inv(Initial(), wordList)
  {
    var s := Initial();
    TypedPad([], WIDTH);
    assert BLANK_ROW == Pad([], WIDTH);
    assert IsBuffer(s.currentGuess);
    IndexOfFirst(s.guessDistances, UNSET, 0);
    assert SetCount(s.guessDistances) == 0;
    assert DistancesOk(s.guessDistances);
    assert BoardOk(s.pendingBoard, 0);
  }

  // ---------------------------------------------------------------------------
  // handleSubmit

  /** `handleSubmit` on a state value. */
  function Submitted(s: Session, word: string, wordList: seq<string>): (t: Session)
    ensures s.guessState <= t.guessState && |t.guessState| <= |s.guessState| + 1
    ensures |t.guessDistances| == |s.guessDistances|
  {
    if |s.guessState| == MAX_GUESSES || ' ' in s.currentGuess then s
    else if s.currentGuess !in wordList then s.(wordInList := false)
    else
      var distance := HammingDistance(s.currentGuess, word);
      if distance == 0 then
        s.(wordInList := true, hammingDistance := 0, guessDistances := Fill(s.guessDistances, 0))
      else
        s.(wordInList := true,
           guessState := s.guessState + [s.currentGuess],
           hammingDistance := distance,
           guessDistances := Fill(s.guessDistances, distance),
           pendingBoard := DropLast(s.pendingBoard),
           currentGuess := BLANK_ROW)
  }

  /** A submission keeps the invariant. */
  lemma SubmitKeepsInv(s: Session, word: string, wordList: seq<string>)
    requires Inv(s, wordList)
    ensures Inv(Submitted(s, word, wordList), wordList)
  {
    if |s.guessState| < MAX_GUESSES && ' ' !in s.currentGuess && s.currentGuess in wordList {
      var distance := HammingDistance(s.currentGuess, word);
      RecordKeepsInv(s, distance, wordList);
      if distance != 0 {
        AppendKeepsInv(s, wordList);
      }
    }
  }

  /** Recording a distance of at most five in the slots keeps their part of the invariant. */
  lemma RecordKeepsInv(s: Session, distance: nat, wordList: seq<string>)
    requires Inv(s, wordList) && distance <= WIDTH
    ensures var d := Fill(s.guessDistances, distance);
            && DistancesOk(d)
            && ScoreOk(distance, d)
            && SetCount(d) == if SetCount(s.guessDistances) < MAX_GUESSES then SetCount(s.guessDistances) + 1 else MAX_GUESSES
  {
    var d := Fill(s.guessDistances, distance);
    FillKeepsSetSlotsFirst(s.guessDistances, distance);
    FillAtFirstUnset(s.guessDistances, distance);
  }

  /** Appending a full listed guess, dropping a pending row and blanking the
      buffer keeps the buffer, history and board parts of the invariant. */
  lemma AppendKeepsInv(s: Session, wordList: seq<string>)
    requires Inv(s, wordList) && |s.guessState| < MAX_GUESSES
    requires ' ' !in s.currentGuess && s.currentGuess in wordList
    ensures IsBuffer(BLANK_ROW)
    ensures HistoryOk(s.guessState + [s.currentGuess], wordList)
    ensures BoardOk(DropLast(s.pendingBoard), |s.guessState| + 1)
  {
    TypedPad([], WIDTH);
    assert BLANK_ROW == Pad([], WIDTH);
  }

  /** With six guesses recorded, or a blank left in the buffer, a submission
      changes nothing. */
  lemma SubmitGuard(s: Session, word: string, wordList: seq<string>)
    requires |s.guessState| == MAX_GUESSES || ' ' in s.currentGuess
    ensures Submitted(s, word, wordList) == s
  {
  }

  /** A full guess missing from the word list only clears `wordInList`. */
  lemma SubmitUnknownWord(s: Session, word: string, wordList: seq<string>)
    requires |s.guessState| < MAX_GUESSES && ' ' !in s.currentGuess
    requires s.currentGuess !in wordList
    ensures Submitted(s, word, wordList) == s.(wordInList := false)
  {
  }

  /** A listed guess is scored: the flag is set, the distance is the number of
      positions where guess and word differ, it goes into the leftmost unset
      slot (nowhere if none is left), and set slots keep their values. */
  lemma SubmitScores(s: Session, word: string, wordList: seq<string>)
    requires Inv(s, wordList) && |word| == WIDTH
    requires |s.guessState| < MAX_GUESSES && ' ' !in s.currentGuess && s.currentGuess in wordList
    ensures var t := Submitted(s, word, wordList);
            && t.wordInList
            && t.hammingDistance == |MismatchIndices(s.currentGuess, word)|
            && t.guessDistances ==
               (var n := SetCount(s.guessDistances);
                if n < MAX_GUESSES then s.guessDistances[n := t.hammingDistance] else s.guessDistances)
  {
    FillAtFirstUnset(s.guessDistances, HammingDistance(s.currentGuess, word));
  }

  /** A listed guess other than the word is appended to the history, takes one
      pending row away and blanks the buffer; the word itself (a win) leaves
      history, pending rows and buffer as they were. */
  lemma SubmitWinOrAppend(s: Session, word: string, wordList: seq<string>)
    requires Inv(s, wordList) && |word| == WIDTH
    requires |s.guessState| < MAX_GUESSES && ' ' !in s.currentGuess && s.currentGuess in wordList
    ensures var t := Submitted(s, word, wordList);
            if s.currentGuess == word then
              && t.hammingDistance == 0
              && t.guessState == s.guessState && t.pendingBoard == s.pendingBoard
              && t.currentGuess == s.currentGuess
            else
              && t.hammingDistance > 0
              && t.guessState == s.guessState + [s.currentGuess]
              && |t.pendingBoard| == PendingRows(|t.guessState|)
              && t.currentGuess == BLANK_ROW
  {
    ZeroIffEqual(s.currentGuess, word);
  }

  /** A win is not terminal: the winning word stays in the buffer, so a second
      Enter scores it again and records one more 0, changing nothing else. */
  lemma WinIsNotTerminal(s: Session, word: string, wordList: seq<string>)
    requires |s.guessState| < MAX_GUESSES && ' ' !in s.currentGuess && s.currentGuess in wordList
    requires s.currentGuess == word
    ensures var t := Submitted(s, word, wordList);
            && t.currentGuess == word
            && Submitted(t, word, wordList) == t.(guessDistances := Fill(t.guessDistances, 0))
  {
    ZeroIffEqual(word, word);
  }

  // ---------------------------------------------------------------------------
  // onKeyPress

  /** `onKeyPress` on a state value. Enter submits a full buffer, Backspace
      and one-character keys edit the buffer, every other key is ignored.
      This is the handler's transition on left-packed buffers (`IsBuffer`),
      the only ones Inv admits. On a buffer with a blank before a letter,
      such as "a b  ", the edits keep the letters after the first blank,
      where the source's `slice`/`repeat` expressions would drop them. */
  function Pressed(s: Session, key: string, word: string, wordList: seq<string>): (t: Session)
    requires |s.currentGuess| == WIDTH && |key| >= 1
    ensures |t.currentGuess| == WIDTH
    ensures s.guessState <= t.guessState && |t.guessDistances| == |s.guessDistances|
  {
    if key == "Enter" then
      if ' ' in s.currentGuess then s else Submitted(s, word, wordList)
    else if key == "Backspace" then s.(currentGuess := AfterBackspace(s.currentGuess))
    else if |key| == 1 then s.(currentGuess := AfterLetter(s.currentGuess, key[0]))
    else s
  }

  /** Replacing only the buffer by another five-slot left-packed buffer keeps
      the invariant. */
  lemma BufferEditKeepsInv(s: Session, g: string, wordList: seq<string>)
    requires Inv(s, wordList) && IsBuffer(g)
    ensures Inv(s.(currentGuess := g), wordList)
  {
  }

  /** A key press keeps the invariant; in particular the buffer stays five
      slots long and left-packed. */
  lemma PressKeepsInv(s: Session, key: string, word: string, wordList: seq<string>)
    requires Inv(s, wordList) && |key| >= 1
    ensures Inv(Pressed(s, key, word, wordList), wordList)
  {
    if key == "Enter" {
      SubmitKeepsInv(s, word, wordList);
    } else if key == "Backspace" {
      BackspaceDropsLast(s.currentGuess);
    } else if |key| == 1 {
      LetterAppends(s.currentGuess, key[0]);
    }
  }

  /** Every key but Enter changes the buffer only: a letter appends its
      lowercase form to the typed letters unless five are typed, Backspace
      removes the last one, other keys do nothing. */
  lemma EditKeysTouchOnlyBuffer(s: Session, key: string, word: string, wordList: seq<string>)
    requires Inv(s, wordList) && |key| >= 1 && key != "Enter"
    ensures var t := Pressed(s, key, word, wordList);
            && t == s.(currentGuess := t.currentGuess)
            && var typed := Typed(s.currentGuess);
               Typed(t.currentGuess) ==
               if key == "Backspace" then DropLast(typed)
               else if |key| == 1 && |typed| < WIDTH && key[0] != ' ' then typed + [ToLower(key[0])]
               else typed
  {
    if key == "Backspace" {
      BackspaceDropsLast(s.currentGuess);
    } else if |key| == 1 {
      LetterAppends(s.currentGuess, key[0]);
    }
  }

  /** Enter with a blank left in the buffer does nothing. */
  lemma EnterNeedsFullBuffer(s: Session, word: string, wordList: seq<string>)
    requires |s.currentGuess| == WIDTH && ' ' in s.currentGuess
    ensures Pressed(s, "Enter", word, wordList) == s
  {
  }

  // ---------------------------------------------------------------------------
  // Sequences of key presses

  /** Each key of a sequence is a non-empty string, as a browser reports it. */
  predicate KeysOk(keys: seq<string>) {
    forall i :: 0 <= i < |keys| ==> |keys[i]| >= 1
  }

  /** The state after a sequence of key presses. From a state that keeps the
      invariant, every state on the way keeps it. */
  function Run(s: Session, keys: seq<string>, word: string, wordList: seq<string>): (t: Session)
    requires |s.currentGuess| == WIDTH && KeysOk(keys)
    ensures |t.currentGuess| == WIDTH
    ensures Inv(s, wordList) ==> Inv(t, wordList)
    decreases |keys|
  {
    if |keys| == 0 then s
    else
      var next := Pressed(s, keys[0], word, wordList);
      assert Inv(s, wordList) ==> Inv(next, wordList) by {
        if Inv(s, wordList) {
          PressKeepsInv(s, keys[0], word, wordList);
        }
      }
      Run(next, keys[1..], word, wordList)
  }

  /** Run takes one key at a time: a run starting with key `k` is the run of
      the remaining keys from the state `k` leads to. */
  lemma RunStep(s: Session, k: string, rest: seq<string>, s': Session, word: string, wordList: seq<string>)
    requires |s.currentGuess| == WIDTH && |k| >= 1 && KeysOk(rest)
    requires Pressed(s, k, word, wordList) == s'
    ensures |s'.currentGuess| == WIDTH && KeysOk([k] + rest)
    ensures Run(s, [k] + rest, word, wordList) == Run(s', rest, word, wordList)
  {
    assert ([k] + rest)[1..] == rest;
  }

  /** One key press only appends to the history and never changes a set
      distance slot. */
  lemma PressAppendsOnly(s: Session, key: string, word: string, wordList: seq<string>)
    requires Inv(s, wordList) && |key| >= 1
    ensures var t := Pressed(s, key, word, wordList);
            && s.guessState <= t.guessState
            && forall i :: 0 <= i < |s.guessDistances| && s.guessDistances[i] != UNSET ==>
                 t.guessDistances[i] == s.guessDistances[i]
  {
    if key == "Enter" && ' ' !in s.currentGuess && |s.guessState| < MAX_GUESSES
       && s.currentGuess in wordList {
      FillKeepsSetSlotsFirst(s.guessDistances, HammingDistance(s.currentGuess, word));
    }
  }

  /** Over any key sequence the history only grows at its end, and a set
      distance slot never changes. */
  lemma {:induction false} RunAppendsOnly(s: Session, keys: seq<string>, word: string, wordList: seq<string>)
    requires Inv(s, wordList) && KeysOk(keys)
    ensures var t := Run(s, keys, word, wordList);
            && s.guessState <= t.guessState
            && forall i :: 0 <= i < |s.guessDistances| && s.guessDistances[i] != UNSET ==>
                 t.guessDistances[i] == s.guessDistances[i]
    decreases |keys|
  {
    if |keys| > 0 {
      var s' := Pressed(s, keys[0], word, wordList);
      PressKeepsInv(s, keys[0], word, wordList);
      PressAppendsOnly(s, keys[0], word, wordList);
      RunAppendsOnly(s', keys[1..], word, wordList);
      assert |s'.guessDistances| == |s.guessDistances|;
    }
  }

  /** Once six guesses are recorded, key presses edit the buffer and nothing else. */
  lemma {:induction false} ExhaustedFreezes(s: Session, keys: seq<string>, word: string, wordList: seq<string>)
    requires Inv(s, wordList) && KeysOk(keys) && |s.guessState| == MAX_GUESSES
    ensures var t := Run(s, keys, word, wordList);
            t == s.(currentGuess := t.currentGuess)
    decreases |keys|
  {
    if |keys| > 0 {
      PressKeepsInv(s, keys[0], word, wordList);
      ExhaustedFreezes(Pressed(s, keys[0], word, wordList), keys[1..], word, wordList);
    }
  }

  // ---------------------------------------------------------------------------
  // Distance slots against the history

  /** A submission that scores 0: the guard passes, the guess is listed and its
      distance to the word is 0. */
  predicate Wins(s: Session, word: string, wordList: seq<string>) {
    && |s.guessState| < MAX_GUESSES && ' ' !in s.currentGuess && s.currentGuess in wordList
    && HammingDistance(s.currentGuess, word) == 0
  }

  /** The distance slots line up with the history: one set slot per recorded
      guess, holding that guess's distance to the word. The board colours
      history row `i` by slot `i`, so this is the pairing it relies on. */
  predicate Aligned(s: Session, word: string) {
    && SetCount(s.guessDistances) == |s.guessState|
    && forall i :: 0 <= i < |s.guessState| ==> s.guessDistances[i] == HammingDistance(s.guessState[i], word)
  }

  lemma InitialAligned(word: string)
    ensures Aligned(Initial(), word)
  {
  }

  /** From an aligned state, a submission keeps the slots aligned exactly when
      it is not a win: a win fills a slot but appends nothing. */
  lemma SubmitAligned(s: Session, word: string, wordList: seq<string>)
    requires Inv(s, wordList) && Aligned(s, word)
    ensures Aligned(Submitted(s, word, wordList), word) <==> !Wins(s, word, wordList)
  {
    if |s.guessState| < MAX_GUESSES && ' ' !in s.currentGuess && s.currentGuess in wordList {
      var distance := HammingDistance(s.currentGuess, word);
      var t := Submitted(s, word, wordList);
      RecordKeepsInv(s, distance, wordList);
      FillAtFirstUnset(s.guessDistances, distance);
      assert IndexOf(s.guessDistances, UNSET) == |s.guessState|;
      assert SetCount(t.guessDistances) == |s.guessState| + 1;
      if distance != 0 {
        AppendAligned(s, s.currentGuess, distance, t.guessDistances, word);
      }
    }
  }

  /** Appending a guess whose distance goes into the slot right after the
      aligned ones keeps every history row paired with its own distance. */
  lemma AppendAligned(s: Session, g: string, distance: int, d: seq<int>, word: string)
    requires Aligned(s, word) && distance == HammingDistance(g, word)
    requires |s.guessState| < |s.guessDistances| && d == s.guessDistances[|s.guessState| := distance]
    ensures forall i :: 0 <= i < |s.guessState| + 1 ==> d[i] == HammingDistance((s.guessState + [g])[i], word)
  {
  }

  /** From an aligned state, every key press keeps the slots aligned except an
      Enter that wins, and that one always breaks the alignment. */
  lemma PressAligned(s: Session, key: string, word: string, wordList: seq<string>)
    requires Inv(s, wordList) && Aligned(s, word) && |key| >= 1
    ensures Aligned(Pressed(s, key, word, wordList), word) <==> !(key == "Enter" && Wins(s, word, wordList))
  {
    if key == "Enter" && ' ' !in s.currentGuess {
      SubmitAligned(s, word, wordList);
    }
  }

  /** After a win the slots run one ahead of the history, so with five guesses
      recorded all six slots can be set: a sixth non-winning guess is then
      appended and its distance is recorded nowhere (`indexOf(-1)` is -1). */
  lemma SixthGuessAfterWinUnscored(s: Session, word: string, wordList: seq<string>)
    requires Inv(s, wordList) && |s.guessState| == MAX_GUESSES - 1 && SetCount(s.guessDistances) == MAX_GUESSES
    requires ' ' !in s.currentGuess && s.currentGuess in wordList && HammingDistance(s.currentGuess, word) != 0
    ensures var t := Submitted(s, word, wordList);
            && t.guessState == s.guessState + [s.currentGuess]
            && t.guessDistances == s.guessDistances
            && SetCount(t.guessDistances) == |t.guessState|
  {
    FillAtFirstUnset(s.guessDistances, HammingDistance(s.currentGuess, word));
  }

  // ---------------------------------------------------------------------------
  // The page's state, held in fields

  class Game {
    /** The secret word and the word list: props, fixed for the session. */
    const word: string
    const wordList: seq<string>

    var pendingBoard: seq<string>
    var guessState: seq<string>
    var currentGuess: string
    var hammingDistance: int
    var wordInList: bool
    var guessDistances: seq<int>

    ghost function State(): Session
      reads this
    {
      Session(pendingBoard, guessState, currentGuess, hammingDistance, wordInList, guessDistances)
    }

    ghost predicate Valid()
      reads this
    {
      Inv(State(), wordList)
    }

    constructor (word: string, wordList: seq<string>)
      ensures this.word == word && this.wordList == wordList
      ensures State() == Initial() && Valid()
    {
      this.word := word;
      this.wordList := wordList;
      pendingBoard := seq(PENDING_ROWS, _ => BLANK_ROW);
      guessState := [];
      currentGuess := BLANK_ROW;
      hammingDistance := UNSET;
      wordInList := true;
      guessDistances := seq(MAX_GUESSES, _ => UNSET);
      new;
      InitialInv(wordList);
    }

    /** `handleSubmit`. */
    method Submit()
      requires Valid()
      modifies this
      ensures Valid()
      ensures State() == Submitted(old(State()), word, wordList)
    {
      ghost var s := State();
      if |guessState| == MAX_GUESSES || ' ' in currentGuess {
        return;
      }
      if currentGuess !in wordList {
        wordInList := false;
        assert State() == s.(wordInList := false) == Submitted(s, word, wordList);
        assert Valid() by { SubmitKeepsInv(s, word, wordList); }
        return;
      }
      wordInList := true;
      var distance := GetHammingDistance(currentGuess, word);
      ghost var filled := Fill(guessDistances, distance);
      assert filled == var i := IndexOf(guessDistances, UNSET); if i == -1 then guessDistances else guessDistances[i := distance]
        by { FillAtFirstUnset(guessDistances, distance); }
      if distance == 0 {
        hammingDistance := 0;
        var index := IndexOf(guessDistances, UNSET);
        var nextGuessDistances := guessDistances;
        if index != -1 {
          nextGuessDistances := nextGuessDistances[index := distance];
        }
        guessDistances := nextGuessDistances;
        assert State() == s.(wordInList := true, hammingDistance := 0, guessDistances := filled);
        assert State() == Submitted(s, word, wordList);
        assert Valid() by { SubmitKeepsInv(s, word, wordList); }
        return;
      }
      var index := IndexOf(guessDistances, UNSET);
      var nextGuessDistances := guessDistances;
      if index != -1 {
        nextGuessDistances := nextGuessDistances[index := distance];
      }
      var nextPendingBoard := SliceTo(pendingBoard, |pendingBoard| - 1);
      assert nextPendingBoard == DropLast(s.pendingBoard) by { SliceToDropsLast(s.pendingBoard); }
      ghost var t := Submitted(s, word, wordList);
      assert t == s.(wordInList := true, guessState := s.guessState + [s.currentGuess],
                     hammingDistance := distance, guessDistances := filled,
                     pendingBoard := DropLast(s.pendingBoard), currentGuess := BLANK_ROW);
      guessState, hammingDistance, guessDistances := guessState + [currentGuess], distance, nextGuessDistances;
      pendingBoard, currentGuess := nextPendingBoard, BLANK_ROW;
      assert guessDistances == t.guessDistances && pendingBoard == t.pendingBoard;
      assert guessState == t.guessState && currentGuess == t.currentGuess;
      assert State() == t;
      assert Valid() by { SubmitKeepsInv(s, word, wordList); }
    }

    /** `onKeyPress` for the key `key` (a browser never reports an empty key). */
    method HandleKey(key: string)
      requires Valid() && |key| >= 1
      modifies this
      ensures Valid()
      ensures State() == Pressed(old(State()), key, word, wordList)
    {
      ghost var s := State();
      var guess := currentGuess;
      var firstSpaceLocation := IndexOf(guess, ' ');
      if key == "Enter" && firstSpaceLocation == -1 {
        Submit();
        assert Pressed(s, key, word, wordList) == Submitted(s, word, wordList);
      }
      if key == "Backspace" {
        assert Pressed(s, key, word, wordList) == s.(currentGuess := AfterBackspace(guess));
        if firstSpaceLocation == 0 {
          return;
        }
        if firstSpaceLocation == -1 {
          currentGuess := guess[..WIDTH - 1] + " ";
        } else {
          currentGuess := guess[..firstSpaceLocation - 1] + Blanks(WIDTH + 1 - firstSpaceLocation);
        }
        assert currentGuess == AfterBackspace(guess) by { BackspaceExpression(guess); }
        assert State() == s.(currentGuess := AfterBackspace(guess));
        assert Valid() by {
          BackspaceDropsLast(guess);
          BufferEditKeepsInv(s, AfterBackspace(guess), wordList);
        }
        if firstSpaceLocation == -1 {
          return;
        }
      }
      if firstSpaceLocation == WIDTH || firstSpaceLocation == -1 || |key| > 1 {
        if key != "Enter" && key != "Backspace" && |key| == 1 {
          assert Pressed(s, key, word, wordList) == s.(currentGuess := AfterLetter(guess, key[0]));
          assert AfterLetter(guess, key[0]) == guess;
        }
        return;
      }
      assert Pressed(s, key, word, wordList) == s.(currentGuess := AfterLetter(guess, key[0]));
      currentGuess := guess[..firstSpaceLocation] + [ToLower(key[0])] + Blanks(WIDTH - 1 - firstSpaceLocation);
      assert currentGuess == AfterLetter(guess, key[0]) by { InsertExpression(guess, key[0]); }
      assert State() == s.(currentGuess := AfterLetter(guess, key[0]));
      assert Valid() by {
        LetterAppends(guess, key[0]);
        BufferEditKeepsInv(s, AfterLetter(guess, key[0]), wordList);
      }
    }
  }
}
