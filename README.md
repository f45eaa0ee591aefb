# WordEm Classic game panel, in Dafny

WordEm is a Wordle-style desktop game. In its Classic mode the player has six
tries to guess a hidden five-letter word. Letters are typed into a grid of
tiles, one row per guess. Backspace erases the last letter. Enter submits a
complete row. An accepted guess is coloured tile by tile:

- green for the right letter in the right place;
- yellow for a letter of the hidden word in the wrong place;
- gray for a letter the hidden word does not have, or whose copies are used up.

A correct guess, or a wrong one on the last row, ends the game. The panel then
sends a "Win" or "Lose" action event to its listeners.

This project models `ClassicGamePanel` in four modules.

- `GuessEvaluation` (`evaluation.dfy`) describes the colouring of a row.
  - `PaintedRow` follows the three passes of `_handleGuessedWord` literally. The exact pass writes the in-band markers `'-'` into the hidden copy and `'+'` into the guess copy. The present pass looks the letter up with `contains`/`indexOf`, taking the leftmost occurrence. The gray pass colours whatever is not `'+'`. A tile no pass touches keeps its previous colour.
  - `Reference` is an independent, counting statement of the Wordle rule. A non-exact guessed letter is yellow when fewer copies of it occur unmatched earlier in the guess than occur unmatched in the hidden word.
  - `PaintedMatchesReference` proves the two agree whenever the markers cannot be confused with letters. Win detection, green positions, multiplicity and leftmost priority are then proved about `Reference`.
- `LetterTiles` (`tiles.dfy`) models the `_WordTextField` grid as a class over an `array2` of tiles. Each tile has a text and a background colour. `_validateTileIndex` becomes the preconditions of the tile operations.
- `Listeners` (`listeners.dfy`) models the grow-by-copy listener arrays and the in-order delivery of an action event.
- `ClassicGame` (`game_panel.dfy`) models the panel as a class with these fields:
  - the hidden word and the text field;
  - the listener arrays;
  - `currentWordIndex`, `currentLetterIndex` and `gameIsRunning`;
  - the visibility of the "not a word" and hidden-word labels.

  Its handlers are methods whose loops are those of the source.
  - `Valid()` is the invariant every handler keeps. The indices stay within the grid. The current row shows the typed letters upper-cased, followed by empty tiles. Later rows are blank.
  - The three passes of `_handleGuessedWord` are one method each, and each is proved against the passes of `PaintedRow`.
  - The constructor fixes `_WORD_SIZE` = 5 and `_GUESS_LIMIT` = 6. Every handler is proved for any sizes of at least 1.

The dictionary lookup (`isWord`) and the store's random word are inputs. Enter takes the lookup as a function parameter. `Start` takes the drawn word as an argument.

Two behaviours of the code are kept as written and stated as lemmas.

- The markers are ordinary characters, so they can be confused with letters. Typed rows can contain them, since every printable key other than space is typed in.
  - A guessed `'-'` matches the mark left by an exact match and turns yellow (`HyphenQuirk`).
  - A guessed `'+'` that matches nothing is neither yellow nor gray, so its tile keeps its old colour (`PlusQuirk`).
  - A `'+'` in the hidden word is found by the present pass at an exactly matched position, whose guess copy already holds `'+'`. That green tile is repainted yellow (`HiddenPlusQuirk`).
- Against hidden "crane", the guess "trace" comes out as gray, green, green, yellow, green (`CraneTrace`). Position 2 holds `'a'` in both words, so the exact pass (lines 458-460 of `ClassicGamePanel.java`) makes it green.

## Model

| member | source | states |
|---|---|---|
| GuessEvaluation.PaintedRow | src/wordem/ClassicGamePanel.java:435-496 | The colours the row ends with: all green for the hidden word, otherwise the gray, yellow and green passes over the marker copies, and the previous colour where no pass paints. One colour per position. Its meaning is stated by `PaintedMatchesReference`. |
| GuessEvaluation.Reference | src/wordem/ClassicGamePanel.java:445-496 | The counting Wordle rule. One colour per position, always green, yellow or gray. A position is green if and only if guess and hidden word have the same letter there. |
| GuessEvaluation.ExactHidden | src/wordem/ClassicGamePanel.java:453-465 | The hidden copy after the exact pass: `'-'` at every exact match, and elsewhere the hidden letter of a non-matching position or `'-'`. |
| GuessEvaluation.ExactGuess | src/wordem/ClassicGamePanel.java:453-465 | The guess copy after the exact pass: `'+'` at every exact match, and elsewhere the guessed letter of a non-matching position or `'+'`. |
| GuessEvaluation.PresentStep | src/wordem/ClassicGamePanel.java:472-482 | One iteration of the present pass keeps both copies' lengths and decides one more tile. |
| GuessEvaluation.PresentPass | src/wordem/ClassicGamePanel.java:470-483 | The present pass after k positions keeps both copies' lengths and has decided exactly k tiles. Its meaning is stated by `PresentPassInvariant`. |
| GuessEvaluation.PaintedMatchesReference | src/wordem/ClassicGamePanel.java:445-496 | When neither word contains `'+'` and the guess contains no `'-'`, the three marker passes colour every position exactly as the counting Wordle rule does, and every tile ends green, yellow or gray. |
| GuessEvaluation.PresentPassInvariant | src/wordem/ClassicGamePanel.java:470-483 | After the first k steps of the present pass, the yellows so far are the reference yellows. The guess copy is `'+'` exactly at the greens and those yellows. The hidden copy holds, of each letter, the unmatched copies less the ones yellows consumed. |
| GuessEvaluation.ScanInvariantInit | src/wordem/ClassicGamePanel.java:453-465 | The copies left by the exact pass satisfy the present-pass invariant with no position scanned. |
| GuessEvaluation.PresentStepKeepsInvariant | src/wordem/ClassicGamePanel.java:470-483 | One step of the present pass keeps the invariant. |
| GuessEvaluation.ScanLetter | src/wordem/ClassicGamePanel.java:472-474 | At an exact position the looked-up letter is `'+'`, which the hidden copy lacks. At any other position it is the guessed letter, and it is still in the hidden copy iff an unmatched copy remains for it. |
| GuessEvaluation.ExactHiddenCount | src/wordem/ClassicGamePanel.java:453-465 | After the exact pass, the hidden copy holds each letter as often as the hidden word has it at positions the guess does not match. |
| GuessEvaluation.WinIffAllGreen | src/wordem/ClassicGamePanel.java:435-443 | A row is all green if and only if the guess equals the hidden word. |
| GuessEvaluation.Multiplicity | src/wordem/ClassicGamePanel.java:453-483 | For every letter, the green-plus-yellow positions holding it number min(copies in the guess, copies in the hidden word), so never more than the hidden word has. |
| GuessEvaluation.CreditedPrefix | src/wordem/ClassicGamePanel.java:453-483 | Over the first n positions, a letter is credited for its exact matches plus as many non-exact ones as unmatched hidden copies allow. |
| GuessEvaluation.LeftmostPriority | src/wordem/ClassicGamePanel.java:470-483 | If a later non-exact copy of a letter is yellow, every earlier non-exact copy of it is yellow too. |
| GuessEvaluation.AbsentLetterIsGray | src/wordem/ClassicGamePanel.java:488-495 | A guessed letter the hidden word lacks is gray. |
| GuessEvaluation.DistinctGuessLetters | src/wordem/ClassicGamePanel.java:470-495 | With no repeated letter in the guess, a non-exact position is yellow iff its letter occurs in the hidden word, and gray iff it does not. |
| GuessEvaluation.UnmatchedAtMostCount | src/wordem/ClassicGamePanel.java:462 | Unmatched copies of a letter never outnumber its copies. |
| GuessEvaluation.CountUpdate | src/wordem/ClassicGamePanel.java:480 | Overwriting one character with a marker changes each letter's count by exactly the letter removed and the marker written. |
| GuessEvaluation.IndexOf | src/wordem/ClassicGamePanel.java:474-478 | `indexOf` yields -1 exactly when the letter is absent, and otherwise its leftmost position. |
| GuessEvaluation.Mark | src/wordem/ClassicGamePanel.java:462-463 | The substring splice replaces exactly one character. |
| GuessEvaluation.CraneTrace | src/wordem/ClassicGamePanel.java:445-496 | Hidden "crane", guess "trace" colours gray, green, green, yellow, green. |
| GuessEvaluation.CraneTracePainted | src/wordem/ClassicGamePanel.java:445-496 | The same row as the marker passes paint it, whatever the tiles' earlier colours. |
| GuessEvaluation.SpeedErase | src/wordem/ClassicGamePanel.java:445-496 | Hidden "speed", guess "erase" colours yellow, gray, gray, yellow, yellow. |
| GuessEvaluation.SpeedEerie | src/wordem/ClassicGamePanel.java:445-496 | Hidden "speed", guess "eerie": two of the three e's are credited, so the row is yellow, yellow, gray, gray, gray. |
| GuessEvaluation.SpeedEeriePainted | src/wordem/ClassicGamePanel.java:445-496 | The same row as the marker passes paint it. |
| GuessEvaluation.HyphenQuirk | src/wordem/ClassicGamePanel.java:462-483 | A guessed `'-'` after an exact match is painted yellow although the hidden word has no `'-'`. |
| GuessEvaluation.PlusQuirk | src/wordem/ClassicGamePanel.java:488-495 | A guessed `'+'` that matches nothing is neither yellow nor gray, and keeps the tile's previous colour. |
| GuessEvaluation.HiddenPlusQuirk | src/wordem/ClassicGamePanel.java:470-483 | A `'+'` in the hidden word turns an exactly matched tile yellow. |
| LetterTiles.UpperChar | src/wordem/ClassicGamePanel.java:634 | Upper-casing keeps a character's lower-case form, and changes only letters, into A-Z or À-Þ. |
| LetterTiles.LowerChar | src/wordem/ClassicGamePanel.java:702 | Lower-casing changes only letters, into a-z or à-þ. |
| LetterTiles.TypedRowWord | src/wordem/ClassicGamePanel.java:692-709 | A row whose tiles show the typed letters upper-cased reads back as the typed word lower-cased. |
| LetterTiles.Folded | src/wordem/ClassicGamePanel.java:634 | The word read back has the typed length, and each letter is the lower-case form of the typed one. |
| LetterTiles.WordTextField.constructor | src/wordem/ClassicGamePanel.java:577-613 | A fresh grid of `_GUESS_LIMIT` rows by `_WORD_SIZE` columns of blank white tiles. |
| LetterTiles.WordTextField.ResetTile | src/wordem/ClassicGamePanel.java:618-625 | The tile becomes blank and white. No other tile changes. |
| LetterTiles.WordTextField.SetTile | src/wordem/ClassicGamePanel.java:630-639 | The tile shows the letter upper-cased and keeps its colour. No other tile changes. |
| LetterTiles.WordTextField.ColorTile | src/wordem/ClassicGamePanel.java:644-687 | The tile takes the colour and keeps its text. No other tile changes. |
| LetterTiles.WordTextField.ExtractWord | src/wordem/ClassicGamePanel.java:692-709 | The row's texts lower-cased and concatenated. Row 0 must have a column. |
| Listeners.Appended | src/wordem/ClassicGamePanel.java:122-134 | A fresh array one longer, holding the old listeners in order and the new one last. |
| Listeners.Broadcast | src/wordem/ClassicGamePanel.java:536-542 | One delivery per listener, in array order, each carrying the event. |
| ClassicGame.GamePanel.constructor | src/wordem/ClassicGamePanel.java:258-275 | Five letters and six guesses. No text field, empty hidden word, no listeners. Not running, at row 0 and letter 0, both labels hidden. |
| ClassicGame.GamePanel.Start | src/wordem/ClassicGamePanel.java:63-82 | A fresh blank grid. The drawn hidden word is kept hidden. Running, at row 0 and letter 0. |
| ClassicGame.GamePanel.Pause | src/wordem/ClassicGamePanel.java:87-90 | Stops event handling and keeps the invariant. |
| ClassicGame.GamePanel.Resume | src/wordem/ClassicGamePanel.java:95-99 | With a text field, handling restarts. Without one (after quit), it reports failure and nothing changes. |
| ClassicGame.GamePanel.Quit | src/wordem/ClassicGamePanel.java:104-108 | Drops the text field and stops handling. |
| ClassicGame.GamePanel.AddActionListener | src/wordem/ClassicGamePanel.java:122-134 | The action listeners become the old ones followed by the new one. |
| ClassicGame.GamePanel.AddKeyListener | src/wordem/ClassicGamePanel.java:139-151 | The key listeners become the old ones followed by the new one. |
| ClassicGame.GamePanel.HandleCharacter | src/wordem/ClassicGamePanel.java:402-423 | While running with room in the row, the tiles from the current letter on are reset, the letter is shown upper-case, and the letter index goes up by one. Otherwise nothing changes. |
| ClassicGame.GamePanel.HandleBackspace | src/wordem/ClassicGamePanel.java:326-349 | While running with a typed letter, the "not a word" label is hidden, the last letter's tile and those after it become blank, and the letter index goes down by one. Otherwise nothing changes. |
| ClassicGame.GamePanel.HandleGuessedWord | src/wordem/ClassicGamePanel.java:429-506 | Returns true exactly when the guess is the hidden word. The current row is coloured as `PaintedRow` says, and as the Wordle rule says when no marker character occurs. Texts and other rows do not change. |
| ClassicGame.GamePanel.PaintAllGreen | src/wordem/ClassicGamePanel.java:435-443 | Every tile of the current row turns green. |
| ClassicGame.GamePanel.PaintMismatch | src/wordem/ClassicGamePanel.java:444-496 | For a wrong guess, the three passes leave the row as `PaintedRow` describes. |
| ClassicGame.GamePanel.ExactPass | src/wordem/ClassicGamePanel.java:453-465 | The exact positions turn green. The copies come out with `'-'`/`'+'` at those positions. |
| ClassicGame.GamePanel.PresentPassRow | src/wordem/ClassicGamePanel.java:470-483 | The positions the present pass selects turn yellow. The copies end as the present pass leaves them. |
| ClassicGame.GamePanel.AbsentPassRow | src/wordem/ClassicGamePanel.java:488-496 | Every position whose guess copy is not `'+'` turns gray. |
| ClassicGame.GamePanel.EndGame | src/wordem/ClassicGamePanel.java:514-543 | Handling stops and the hidden word is shown. "Win" or "Lose" goes to every action listener in order. |
| ClassicGame.GamePanel.HandleEnter | src/wordem/ClassicGamePanel.java:354-397 | On a complete row of a running game, `RowSubmitted`. Otherwise no index, flag or label changes, nobody is notified, and the row's tiles from the current letter on turn red. |
| ClassicGame.GamePanel.SubmitRow | src/wordem/ClassicGamePanel.java:358-383 | A rejected word only shows the label. An accepted one colours the row. A correct guess or the last row then ends the game with "Win" or "Lose"; otherwise play moves to the first letter of the next row. |
| ClassicGame.GamePanel.ColorRestRed | src/wordem/ClassicGamePanel.java:384-390 | The current row's tiles from the current letter on turn red. Nothing else changes. |
| ClassicGame.GamePanel.NextRow | src/wordem/ClassicGamePanel.java:373-377 | The word index goes up by one and the letter index returns to 0. |

## Left out

- Swing rendering is not modelled: painting, layout, fonts, borders, foreground colours, and the RGB values of the tile colours. A tile is its text and one of five background colours.
- `keyTyped` dispatch is not modelled: the "∞" reveal key, the ignored space and delete keys, and forwarding Escape to the key listeners. Each handler is modelled as the method that dispatch calls. `keyPressed`, `keyReleased` and `actionPerformed` do nothing in the source.
- Exceptions from the tile grid's index checks cannot happen under the handlers' guards. They become preconditions of the tile operations.
- The printing of caught exceptions is left out.
- `DatabaseManager` is left out (connection, word lookup, random word draw).
  - Enter takes the lookup as a function `isWord`, and `Start` takes the drawn word as an argument.
  - A failing connection or query is not modelled.
- ClassicGame.GamePanel.Start: requires the drawn word to have `_WORD_SIZE` letters. This is what the store is asked for, but the source does not check it.
- ClassicGame.GamePanel.Resume: without a text field the source throws a NullPointerException to its caller before changing anything. The model reports this as `ok == false`.
- Focus requests (`requestFocusInWindow`) and adding or removing components are left out.
- The two labels are modelled only by whether they are visible. The hidden-word label's text is the hidden word itself.
- LetterTiles.UpperChar: maps exactly a-z to A-Z and à-þ (without ÷) to À-Þ. `Character.toUpperCase` also maps 'ÿ' to U+0178 and 'µ' to U+039C, which reads back as 'μ' (U+03BC). These two and every other Unicode case mapping are not modelled, so `Folded` can differ from the program for them.
- LetterTiles.LowerChar: maps exactly A-Z to a-z and À-Þ (without ×) to à-þ. `String.toLowerCase()` in `extractWord` uses the default locale: under a Turkish locale "I" lowers to "ı". Locale-dependent lowering is not modelled.
- ClassicGame.GamePanel.EndGame: listener callbacks are assumed not to re-enter the panel, and the ensures describe the panel as the broadcast leaves it. In the program the main frame registers itself as an action listener, and its "Win"/"Lose" handler calls `start` or `quit` on the panel while the broadcast loop is still running. So `_handleEnter` really returns with a fresh running game or with no text field, not with a stopped game showing the hidden word. A `null` listener, which `addActionListener` accepts, would throw inside the loop and skip the later listeners. Listeners are values here and cannot be `null`.
- `MainFrame`, the other panels, `GamePanelFactory`, `DatabaseConstructor` and the statistics are not part of this model. `getGameMode` and `getComponent` return constants.
