/**
  The Classic game panel: the round state machine that types letters into the
  current row of tiles, submits a complete row, colours it, and ends the game
  with a "Win" or "Lose" event: five-letter words, six guesses. The
  dictionary lookup and the random hidden word are supplied by the caller.
*/
module ClassicGame {
  import opened GuessEvaluation
  import opened LetterTiles
  import opened Listeners

  const WinCommand: string := "Win"
  const LoseCommand: string := "Lose"

  class GamePanel {
    /** `_WORD_SIZE` */
    const wordSize: nat
    /** `_GUESS_LIMIT` */
    const guessLimit: nat

    var hiddenWord: string
    var field: WordTextField?
    var actionListeners: array<ActionListener>
    var keyListeners: array<KeyListener>
    var currentWordIndex: int
    var currentLetterIndex: int
    var gameIsRunning: bool
    /** Whether the "That's not a word!" label is shown. */
    var notAWordVisible: bool
    /** Whether the label revealing the hidden word is shown. */
    var hiddenWordVisible: bool

    /** The letters typed into the current row so far. */
    ghost var Typed: string

    /** The tile array of the current text field, if there is one. */
    ghost function Grid(): set<object>
      reads this
    {
      if field == null then {} else {field.tiles}
    }

    /**
      The panel's invariant: the indices stay within the grid, a running game
      has a text field and a hidden word of the right length, the current row
      shows the typed letters followed by empty tiles, and later rows are blank.
    */
    ghost predicate Valid()
      reads this, Grid()
    {
      1 <= wordSize && 1 <= guessLimit &&
      0 <= currentWordIndex < guessLimit &&
      0 <= currentLetterIndex <= wordSize &&
      |Typed| == currentLetterIndex &&
      (gameIsRunning ==> field != null) &&
      (field != null ==>
        |hiddenWord| == wordSize &&
        field.tiles.Length0 == guessLimit && field.tiles.Length1 == wordSize &&
        forall r, c :: 0 <= r < guessLimit && 0 <= c < wordSize ==>
          (r == currentWordIndex && c < currentLetterIndex ==> field.tiles[r, c].text == [UpperChar(Typed[c])]) &&
          (r == currentWordIndex && currentLetterIndex <= c ==> field.tiles[r, c].text == "") &&
          (currentWordIndex < r ==> field.tiles[r, c] == Blank))
    }

    /** The guard under which Enter submits the current row. */
    predicate RowSubmittable()
      reads this
    {
      gameIsRunning && currentWordIndex < guessLimit && currentLetterIndex == wordSize
    }

    /** The panel as `_initialize` leaves it: no text field, no hidden word, no listeners, not running. */
    constructor ()
      ensures Valid()
      ensures wordSize == 5 && guessLimit == 6
      ensures field == null && hiddenWord == "" && !gameIsRunning
      ensures currentWordIndex == 0 && currentLetterIndex == 0
      ensures fresh(actionListeners) && actionListeners.Length == 0
      ensures fresh(keyListeners) && keyListeners.Length == 0
      ensures !notAWordVisible && !hiddenWordVisible
    {
      wordSize, guessLimit := 5, 6;
      hiddenWord := "";
      field := null;
      actionListeners := new ActionListener[0];
      keyListeners := new KeyListener[0];
      currentWordIndex := 0;
      currentLetterIndex := 0;
      gameIsRunning := false;
      notAWordVisible := false;
      hiddenWordVisible := false;
      Typed := [];
    }

    /**
      `start`: a fresh blank text field, the hidden word drawn by the word
      store (a word of `wordSize` letters), the game running from the first
      tile of the first row.
    */
    method Start(randomWord: string)
      requires Valid()
      requires |randomWord| == wordSize
      modifies this`field, this`hiddenWord, this`hiddenWordVisible, this`gameIsRunning
      modifies this`currentWordIndex, this`currentLetterIndex, this`Typed
      ensures Valid()
      ensures field != null && fresh(field) && fresh(field.tiles)
      ensures forall r, c :: 0 <= r < guessLimit && 0 <= c < wordSize ==> field.tiles[r, c] == Blank
      ensures hiddenWord == randomWord && !hiddenWordVisible
      ensures gameIsRunning && currentWordIndex == 0 && currentLetterIndex == 0 && Typed == []
    {
      field := new WordTextField(guessLimit, wordSize);
      hiddenWord := randomWord;
      hiddenWordVisible := false;
      gameIsRunning := true;
      currentWordIndex := 0;
      currentLetterIndex := 0;
      Typed := [];
    }

    /** `pause`: event handling stops. */
    method Pause()
      requires Valid()
      modifies this`gameIsRunning
      ensures Valid() && !gameIsRunning
    {
      gameIsRunning := false;
    }

    /**
      `resume`: event handling restarts. Without a text field (after `quit`)
      the focus request fails before anything changes, reported as `ok == false`.
    */
    method Resume() returns (ok: bool)
      requires Valid()
      modifies this`gameIsRunning
      ensures Valid()
      ensures ok == (field != null)
      ensures gameIsRunning == ok
    {
      if field == null {
        return false;
      }
      gameIsRunning := true;
      ok := true;
    }

    /** `quit`: the text field is dropped and event handling stops. */
    method Quit()
      requires Valid()
      modifies this`field, this`gameIsRunning
      ensures Valid() && field == null && !gameIsRunning
    {
      field := null;
      gameIsRunning := false;
    }

    /** `addActionListener`: the listener is appended to the action listeners. */
    method AddActionListener(listener: ActionListener)
      modifies this`actionListeners
      ensures fresh(actionListeners)
      ensures actionListeners[..] == old(actionListeners[..]) + [listener]
    {
      actionListeners := Appended(actionListeners, listener);
    }

    /** `addKeyListener`: the listener is appended to the key listeners. */
    method AddKeyListener(listener: KeyListener)
      modifies this`keyListeners
      ensures fresh(keyListeners)
      ensures keyListeners[..] == old(keyListeners[..]) + [listener]
    {
      keyListeners := Appended(keyListeners, listener);
    }

    /**
      `_handleCharacter`: while the game runs and the row is not full, the
      tiles from the current letter on are reset, the letter is shown
      upper-case on the current tile, and the letter index advances.
    */
    method HandleCharacter(character: char)
      requires Valid()
      modifies this`currentLetterIndex, this`Typed, Grid()
      ensures Valid()
      ensures var w, l := currentWordIndex, old(currentLetterIndex);
        if old(gameIsRunning) && w < guessLimit && l < wordSize then
          currentLetterIndex == l + 1 && Typed == old(Typed) + [character] &&
          field.tiles[w, l] == Tile([UpperChar(character)], White) &&
          (forall c :: l < c < wordSize ==> field.tiles[w, c] == Blank) &&
          (forall r, c :: 0 <= r < guessLimit && 0 <= c < wordSize && (r != w || c < l) ==>
            field.tiles[r, c] == old(field.tiles[r, c]))
        else
          currentLetterIndex == l && Typed == old(Typed) && unchanged(Grid())
    {
      if gameIsRunning && currentWordIndex < guessLimit && currentLetterIndex < wordSize {
        var w, l := currentWordIndex, currentLetterIndex;
        for letterIndex := l to wordSize
          modifies field.tiles
          invariant forall r, c :: 0 <= r < guessLimit && 0 <= c < wordSize ==>
            field.tiles[r, c] == if r == w && l <= c < letterIndex then Blank else old(field.tiles[r, c])
        {
          field.ResetTile(w, letterIndex);
        }
        field.SetTile(character, w, l);
        currentLetterIndex := l + 1;
        Typed := Typed + [character];
      }
    }

    /**
      `_handleBackspace`: while the game runs and the row is not empty, the
      "not a word" label is hidden, the last typed tile and those after it are
      reset, and the letter index goes back by one.
    */
    method HandleBackspace()
      requires Valid()
      modifies this`currentLetterIndex, this`Typed, this`notAWordVisible, Grid()
      ensures Valid()
      ensures var w, l := currentWordIndex, old(currentLetterIndex);
        if old(gameIsRunning) && w < guessLimit && 0 < l then
          !notAWordVisible && currentLetterIndex == l - 1 && Typed == old(Typed)[..l - 1] &&
          (forall r, c :: 0 <= r < guessLimit && 0 <= c < wordSize ==>
            field.tiles[r, c] == if r == w && l - 1 <= c then Blank else old(field.tiles[r, c]))
        else
          currentLetterIndex == l && Typed == old(Typed) && notAWordVisible == old(notAWordVisible) &&
          unchanged(Grid())
    {
      if gameIsRunning && currentWordIndex < guessLimit && currentLetterIndex > 0 {
        var w, l := currentWordIndex, currentLetterIndex;
        notAWordVisible := false;
        for letterIndex := l to wordSize
          modifies field.tiles
          invariant forall r, c :: 0 <= r < guessLimit && 0 <= c < wordSize ==>
            field.tiles[r, c] == if r == w && l <= c < letterIndex then Blank else old(field.tiles[r, c])
        {
          field.ResetTile(w, letterIndex);
        }
        field.ResetTile(w, l - 1);
        currentLetterIndex := l - 1;
        Typed := Typed[..l - 1];
      }
    }

    /**
      `_handleGuessedWord`: colours the current row for `guess` and reports
      whether it is the hidden word. The row ends as `PaintedRow` describes,
      and, when the markers cannot be confused with letters, as the reference
      Wordle rule describes. Texts and other rows do not change.
    */
    method HandleGuessedWord(guess: string) returns (isCorrectWord: bool)
      requires Valid() && field != null && |guess| == wordSize
      modifies Grid()
      ensures Valid()
      ensures isCorrectWord == (guess == hiddenWord)
      ensures field.Colours(currentWordIndex)
           == PaintedRow(old(field.Colours(currentWordIndex)), hiddenWord, guess)
      ensures MarkerFree(hiddenWord, guess) ==> field.Colours(currentWordIndex) == Reference(hiddenWord, guess)
      ensures forall r, c :: 0 <= r < guessLimit && 0 <= c < wordSize ==>
        field.tiles[r, c].text == old(field.tiles[r, c].text) &&
        (r != currentWordIndex ==> field.tiles[r, c] == old(field.tiles[r, c]))
    {
      ghost var prior := field.Colours(currentWordIndex);
      if guess == hiddenWord {
        PaintAllGreen();
        assert field.Colours(currentWordIndex) == PaintedRow(prior, hiddenWord, guess);
        isCorrectWord := true;
      } else {
        PaintMismatch(guess);
        isCorrectWord := false;
      }
      if MarkerFree(hiddenWord, guess) {
        PaintedMatchesReference(prior, hiddenWord, guess);
      }
    }

    /** A guess other than the hidden word: the exact, present and absent passes in turn. */
    method PaintMismatch(guess: string)
      requires Valid() && field != null && |guess| == wordSize && guess != hiddenWord
      modifies Grid()
      ensures Valid()
      ensures field.Colours(currentWordIndex)
           == PaintedRow(old(field.Colours(currentWordIndex)), hiddenWord, guess)
      ensures forall r, c :: 0 <= r < guessLimit && 0 <= c < wordSize ==>
        field.tiles[r, c].text == old(field.tiles[r, c].text) &&
        (r != currentWordIndex ==> field.tiles[r, c] == old(field.tiles[r, c]))
    {
      var w := currentWordIndex;
      ghost var prior := field.Colours(w);
      var h1, g1 := ExactPass(guess);
      ghost var afterExact := field.Colours(w);
      var hiddenWordTemp, guessedWord, yellow := PresentPassRow(h1, g1);
      ghost var afterPresent := field.Colours(w);
      AbsentPassRow(guessedWord);
      assert forall c :: 0 <= c < wordSize ==> afterExact[c] == if hiddenWord[c] == guess[c] then Green else prior[c];
      assert forall c :: 0 <= c < wordSize ==> afterPresent[c] == if yellow[c] then Yellow else afterExact[c];
    }

    /** The shortcut for a correct guess: every tile of the current row turns green. */
    method PaintAllGreen()
      requires Valid() && field != null
      modifies Grid()
      ensures Valid()
      ensures forall r, c :: 0 <= r < guessLimit && 0 <= c < wordSize ==>
        field.tiles[r, c] == if r == currentWordIndex then old(field.tiles[r, c]).(background := Green)
                             else old(field.tiles[r, c])
    {
      var w := currentWordIndex;
      for letterIndex := 0 to wordSize
        invariant forall r, c :: 0 <= r < guessLimit && 0 <= c < wordSize ==>
          field.tiles[r, c] == if r == w && c < letterIndex then old(field.tiles[r, c]).(background := Green)
                               else old(field.tiles[r, c])
      {
        field.ColorTile(w, letterIndex, Green);
      }
    }

    /**
      The exact pass: every position where the guess has the hidden word's
      letter turns green, and is struck out of the working copies of both words.
    */
    method ExactPass(guess: string) returns (hiddenWordTemp: string, guessedWord: string)
      requires Valid() && field != null && |guess| == wordSize
      modifies Grid()
      ensures Valid()
      ensures hiddenWordTemp == ExactHidden(hiddenWord, guess)
      ensures guessedWord == ExactGuess(hiddenWord, guess)
      ensures forall r, c :: 0 <= r < guessLimit && 0 <= c < wordSize ==>
        field.tiles[r, c] == if r == currentWordIndex && hiddenWord[c] == guess[c]
                             then old(field.tiles[r, c]).(background := Green)
                             else old(field.tiles[r, c])
    {
      var w := currentWordIndex;
      hiddenWordTemp, guessedWord := hiddenWord, guess;
      for letterIndex := 0 to wordSize
        invariant |hiddenWordTemp| == wordSize && |guessedWord| == wordSize
        invariant forall i :: 0 <= i < wordSize ==>
          hiddenWordTemp[i] == if i < letterIndex && hiddenWord[i] == guess[i] then HiddenMark else hiddenWord[i]
        invariant forall i :: 0 <= i < wordSize ==>
          guessedWord[i] == if i < letterIndex && hiddenWord[i] == guess[i] then GuessMark else guess[i]
        invariant forall r, c :: 0 <= r < guessLimit && 0 <= c < wordSize ==>
          field.tiles[r, c] == if r == w && c < letterIndex && hiddenWord[c] == guess[c]
                               then old(field.tiles[r, c]).(background := Green)
                               else old(field.tiles[r, c])
      {
        var guessedLetter, hiddenLetter := guessedWord[letterIndex], hiddenWordTemp[letterIndex];
        if hiddenLetter == guessedLetter {
          field.ColorTile(w, letterIndex, Green);
          hiddenWordTemp := Mark(hiddenWordTemp, letterIndex, HiddenMark);
          guessedWord := Mark(guessedWord, letterIndex, GuessMark);
        }
      }
    }

    /**
      The present pass over the copies `h1` and `g1` left by the exact pass:
      the tiles `PresentPass` marks turn yellow, and the copies end as it
      leaves them.
    */
    method PresentPassRow(h1: string, g1: string) returns (hiddenWordTemp: string, guessedWord: string, ghost yellow: seq<bool>)
      requires Valid() && field != null && |h1| == wordSize && |g1| == wordSize
      modifies Grid()
      ensures Valid()
      ensures Scan(hiddenWordTemp, guessedWord, yellow) == PresentPass(h1, g1, wordSize)
      ensures forall r, c :: 0 <= r < guessLimit && 0 <= c < wordSize ==>
        field.tiles[r, c] == if r == currentWordIndex && yellow[c]
                             then old(field.tiles[r, c]).(background := Yellow)
                             else old(field.tiles[r, c])
    {
      var w := currentWordIndex;
      hiddenWordTemp, guessedWord, yellow := h1, g1, [];
      for letterIndex := 0 to wordSize
        invariant PresentPass(h1, g1, letterIndex) == Scan(hiddenWordTemp, guessedWord, yellow)
        invariant forall r, c :: 0 <= r < guessLimit && 0 <= c < wordSize ==>
          field.tiles[r, c] == if r == w && c < letterIndex && yellow[c]
                               then old(field.tiles[r, c]).(background := Yellow)
                               else old(field.tiles[r, c])
      {
        var guessedLetter := guessedWord[letterIndex];
        if guessedLetter in hiddenWordTemp {
          field.ColorTile(w, letterIndex, Yellow);
          var index := IndexOf(hiddenWordTemp, guessedLetter);
          hiddenWordTemp := Mark(hiddenWordTemp, index, HiddenMark);
          guessedWord := Mark(guessedWord, letterIndex, GuessMark);
          yellow := yellow + [true];
        } else {
          yellow := yellow + [false];
        }
      }
    }

    /** The absent pass: every position of the guess copy not struck out turns gray. */
    method AbsentPassRow(guessedWord: string)
      requires Valid() && field != null && |guessedWord| == wordSize
      modifies Grid()
      ensures Valid()
      ensures forall r, c :: 0 <= r < guessLimit && 0 <= c < wordSize ==>
        field.tiles[r, c] == if r == currentWordIndex && guessedWord[c] != GuessMark
                             then old(field.tiles[r, c]).(background := Gray)
                             else old(field.tiles[r, c])
    {
      var w := currentWordIndex;
      for letterIndex := 0 to wordSize
        invariant forall r, c :: 0 <= r < guessLimit && 0 <= c < wordSize ==>
          field.tiles[r, c] == if r == w && c < letterIndex && guessedWord[c] != GuessMark
                               then old(field.tiles[r, c]).(background := Gray)
                               else old(field.tiles[r, c])
      {
        if guessedWord[letterIndex] != GuessMark {
          field.ColorTile(w, letterIndex, Gray);
        }
      }
    }

    /**
      `_endGame`: event handling stops, the hidden word is revealed, and a
      "Win" or "Lose" event goes to every action listener in array order.
    */
    method EndGame(isCorrectWord: bool) returns (notified: seq<Delivery>)
      requires Valid()
      modifies this`gameIsRunning, this`hiddenWordVisible
      ensures Valid() && !gameIsRunning && hiddenWordVisible
      ensures |notified| == actionListeners.Length
      ensures forall i :: 0 <= i < actionListeners.Length ==>
        notified[i] == Delivery(actionListeners[i], ActionEvent(if isCorrectWord then WinCommand else LoseCommand))
    {
      gameIsRunning := false;
      hiddenWordVisible := true;
      var eventForward := if isCorrectWord then ActionEvent(WinCommand) else ActionEvent(LoseCommand);
      notified := Broadcast(actionListeners, eventForward);
    }

    /**
      What Enter does to a complete row of a running game: the row is read
      back as a word and looked up with `isWord`. A rejected word only shows
      the "not a word" label. An accepted one colours the row, then ends the
      game with "Win" or "Lose" when it is the hidden word or the last row,
      and otherwise moves to the start of the next row.
    */
    twostate predicate RowSubmitted(isWord: string -> bool, notified: seq<Delivery>)
      reads this, Grid(), actionListeners
    {
      var w, guess := old(currentWordIndex), Folded(old(Typed));
      field == old(field) && field != null && |old(Typed)| == wordSize && |hiddenWord| == wordSize &&
      field.tiles.Length0 == guessLimit && field.tiles.Length1 == wordSize && 0 <= w < guessLimit &&
      if !isWord(guess) then
        notAWordVisible && unchanged(field.tiles) &&
        currentWordIndex == w && currentLetterIndex == old(currentLetterIndex) &&
        Typed == old(Typed) && gameIsRunning && hiddenWordVisible == old(hiddenWordVisible) &&
        notified == []
      else
        notAWordVisible == old(notAWordVisible) &&
        field.Colours(w) == PaintedRow(old(field.Colours(w)), hiddenWord, guess) &&
        (MarkerFree(hiddenWord, guess) ==> field.Colours(w) == Reference(hiddenWord, guess)) &&
        (forall r, c :: 0 <= r < guessLimit && 0 <= c < wordSize ==>
          field.tiles[r, c].text == old(field.tiles[r, c].text) &&
          (r != w ==> field.tiles[r, c] == old(field.tiles[r, c]))) &&
        if guess == hiddenWord || w == guessLimit - 1 then
          !gameIsRunning && hiddenWordVisible &&
          currentWordIndex == w && currentLetterIndex == wordSize && Typed == old(Typed) &&
          |notified| == actionListeners.Length &&
          forall i :: 0 <= i < actionListeners.Length ==>
            notified[i] == Delivery(actionListeners[i],
                                    ActionEvent(if guess == hiddenWord then WinCommand else LoseCommand))
        else
          gameIsRunning && hiddenWordVisible == old(hiddenWordVisible) &&
          currentWordIndex == w + 1 && currentLetterIndex == 0 && Typed == [] && notified == []
    }

    /**
      `_handleEnter`: on a complete row of a running game, `RowSubmitted`. In
      any other state (an incomplete row, a paused or ended game) the indices,
      the running flag and the labels do not change, nobody is notified, and
      the tiles of the current row from the current letter on turn red.
    */
    method HandleEnter(isWord: string -> bool) returns (notified: seq<Delivery>)
      requires Valid()
      modifies this`currentWordIndex, this`currentLetterIndex, this`Typed, this`gameIsRunning
      modifies this`notAWordVisible, this`hiddenWordVisible, Grid()
      ensures Valid()
      ensures old(RowSubmittable()) ==> RowSubmitted(isWord, notified)
      ensures !old(RowSubmittable()) ==>
        currentWordIndex == old(currentWordIndex) && currentLetterIndex == old(currentLetterIndex) &&
        Typed == old(Typed) && gameIsRunning == old(gameIsRunning) &&
        notAWordVisible == old(notAWordVisible) && hiddenWordVisible == old(hiddenWordVisible) &&
        notified == []
      ensures !old(RowSubmittable()) && field != null ==>
        forall r, c :: 0 <= r < guessLimit && 0 <= c < wordSize ==>
          field.tiles[r, c] == if r == currentWordIndex && currentLetterIndex <= c
                               then old(field.tiles[r, c]).(background := Red)
                               else old(field.tiles[r, c])
    {
      if gameIsRunning && currentWordIndex < guessLimit && currentLetterIndex == wordSize {
        notified := SubmitRow(isWord);
      } else {
        notified := [];
        if field != null {
          ColorRestRed();
        }
      }
    }

    /** The submitting branch of `_handleEnter`. */
    method SubmitRow(isWord: string -> bool) returns (notified: seq<Delivery>)
      requires Valid() && RowSubmittable()
      modifies this`currentWordIndex, this`currentLetterIndex, this`Typed, this`gameIsRunning
      modifies this`notAWordVisible, this`hiddenWordVisible, Grid()
      ensures Valid()
      ensures RowSubmitted(isWord, notified)
    {
      notified := [];
      var guessedWord := field.ExtractWord(currentWordIndex);
      TypedRowWord(field.Row(currentWordIndex), Typed);
      if isWord(guessedWord) {
        var isCorrectWord := HandleGuessedWord(guessedWord);
        if isCorrectWord || currentWordIndex == guessLimit - 1 {
          notified := EndGame(isCorrectWord);
        } else {
          NextRow();
        }
      } else {
        notAWordVisible := true;
      }
    }

    /** The tiles of the current row from the current letter on turn red. */
    method ColorRestRed()
      requires Valid() && field != null
      modifies Grid()
      ensures Valid()
      ensures forall r, c :: 0 <= r < guessLimit && 0 <= c < wordSize ==>
        field.tiles[r, c] == if r == currentWordIndex && currentLetterIndex <= c
                             then old(field.tiles[r, c]).(background := Red)
                             else old(field.tiles[r, c])
    {
      var w, l := currentWordIndex, currentLetterIndex;
      for letterIndex := l to wordSize
        invariant forall r, c :: 0 <= r < guessLimit && 0 <= c < wordSize ==>
          field.tiles[r, c] == if r == w && l <= c < letterIndex then old(field.tiles[r, c]).(background := Red)
                               else old(field.tiles[r, c])
      {
        field.ColorTile(w, letterIndex, Red);
      }
    }

    /** Moves to the first tile of the next row, which is still blank. */
    method NextRow()
      requires Valid() && field != null && currentWordIndex < guessLimit - 1
      requires forall r, c :: 0 <= r < guessLimit && 0 <= c < wordSize && currentWordIndex < r ==>
        field.tiles[r, c] == Blank
      modifies this`currentWordIndex, this`currentLetterIndex, this`Typed
      ensures Valid()
      ensures currentWordIndex == old(currentWordIndex) + 1 && currentLetterIndex == 0 && Typed == []
    {
      currentWordIndex := currentWordIndex + 1;
      currentLetterIndex := 0;
      Typed := [];
    }
  }
}
