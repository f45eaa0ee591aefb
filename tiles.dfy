/**
  The panel's word text field: a grid of letter tiles, one row per guess and
  one column per letter. Index validation becomes the preconditions of the
  tile operations; fonts, borders and foreground colours are not modelled.
*/
module LetterTiles {
  import opened GuessEvaluation

  /** A letter tile: the text it shows and its background colour. */
  datatype Tile = Tile(text: string, background: TileColor)

  /** A tile as created, or as reset: no text, white background. */
  const Blank: Tile := Tile("", White)

  /**
    `Character.toUpperCase` on the letters a-z and à-þ (without ÷); every
    other character is left as it is.
  */
  function UpperChar(c: char): (r: char)
    ensures LowerChar(r) == LowerChar(c)
    ensures r != c ==> 'A' <= r <= 'Z' || ('À' <= r <= 'Þ' && r != '×')
  {
    if 'a' <= c <= 'z' || ('à' <= c <= 'þ' && c != '÷') then (c as int - 32) as char else c
  }

  /**
    `Character.toLowerCase` on the letters A-Z and À-Þ (without ×); every
    other character is left as it is.
  */
  function LowerChar(c: char): (r: char)
    ensures r != c ==> 'a' <= r <= 'z' || ('à' <= r <= 'þ' && r != '÷')
  {
    if 'A' <= c <= 'Z' || ('À' <= c <= 'Þ' && c != '×') then (c as int + 32) as char else c
  }

  /** `String.toLowerCase`, letter by letter. */
  function LowerCase(s: string): string
  {
    seq(|s|, i requires 0 <= i < |s| => LowerChar(s[i]))
  }

  /** What a typed letter reads as once it has been shown upper-case and read back lower-case. */
  function Folded(typed: string): (r: string)
    ensures |r| == |typed|
    ensures forall i :: 0 <= i < |typed| ==> r[i] == LowerChar(typed[i])
  {
    seq(|typed|, i requires 0 <= i < |typed| => LowerChar(UpperChar(typed[i])))
  }

  /** The word a row spells: its tiles' texts, lower-cased and concatenated. */
  function RowWord(row: seq<Tile>): string
  {
    if |row| == 0 then "" else RowWord(row[..|row| - 1]) + LowerCase(row[|row| - 1].text)
  }

  /** A row whose tiles show the typed letters spells the typed word, case-folded. */
  lemma {:induction false} TypedRowWord(row: seq<Tile>, typed: string)
    requires |row| == |typed|
    requires forall i :: 0 <= i < |row| ==> row[i].text == [UpperChar(typed[i])]
    ensures RowWord(row) == Folded(typed)
  {
    if |row| > 0 {
      var n := |row| - 1;
      TypedRowWord(row[..n], typed[..n]);
      assert Folded(typed) == Folded(typed[..n]) + [LowerChar(UpperChar(typed[n]))];
    }
  }

  /** `_WordTextField`: the tile grid of one game. */
  class WordTextField {
    const tiles: array2<Tile>

    /** Builds a grid of `guessLimit` rows of `wordSize` blank tiles. */
    constructor (guessLimit: nat, wordSize: nat)
      ensures fresh(tiles) && tiles.Length0 == guessLimit && tiles.Length1 == wordSize
      ensures forall r, c :: 0 <= r < guessLimit && 0 <= c < wordSize ==> tiles[r, c] == Blank
    {
      tiles := new Tile[guessLimit, wordSize]((_, _) => Blank);
    }

    /** The tiles of row `w`. */
    ghost function Row(w: int): (row: seq<Tile>)
      requires 0 <= w < tiles.Length0
      reads tiles
      ensures |row| == tiles.Length1
      ensures forall c :: 0 <= c < tiles.Length1 ==> row[c] == tiles[w, c]
    {
      seq(tiles.Length1, c requires 0 <= c < tiles.Length1 reads tiles => tiles[w, c])
    }

    /** The background colours of row `w`. */
    ghost function Colours(w: int): (cs: seq<TileColor>)
      requires 0 <= w < tiles.Length0
      reads tiles
      ensures |cs| == tiles.Length1
      ensures forall c :: 0 <= c < tiles.Length1 ==> cs[c] == tiles[w, c].background
    {
      seq(tiles.Length1, c requires 0 <= c < tiles.Length1 reads tiles => tiles[w, c].background)
    }

    /** `resetTile`: the tile goes back to blank; no other tile changes. */
    method ResetTile(w: int, l: int)
      requires 0 <= w < tiles.Length0 && 0 <= l < tiles.Length1
      modifies tiles
      ensures tiles[w, l] == Blank
      ensures forall r, c :: 0 <= r < tiles.Length0 && 0 <= c < tiles.Length1 && (r != w || c != l) ==>
        tiles[r, c] == old(tiles[r, c])
    {
      tiles[w, l] := Blank;
    }

    /** `setTile`: the tile shows the letter upper-cased and keeps its colour; no other tile changes. */
    method SetTile(character: char, w: int, l: int)
      requires 0 <= w < tiles.Length0 && 0 <= l < tiles.Length1
      modifies tiles
      ensures tiles[w, l] == old(tiles[w, l]).(text := [UpperChar(character)])
      ensures forall r, c :: 0 <= r < tiles.Length0 && 0 <= c < tiles.Length1 && (r != w || c != l) ==>
        tiles[r, c] == old(tiles[r, c])
    {
      tiles[w, l] := tiles[w, l].(text := [UpperChar(character)]);
    }

    /**
      `colorTileRed`, `colorTileGreen`, `colorTileYellow` and `colorTileGray`:
      the tile takes the colour and keeps its text; no other tile changes.
    */
    method ColorTile(w: int, l: int, colour: TileColor)
      requires 0 <= w < tiles.Length0 && 0 <= l < tiles.Length1
      modifies tiles
      ensures tiles[w, l] == old(tiles[w, l]).(background := colour)
      ensures forall r, c :: 0 <= r < tiles.Length0 && 0 <= c < tiles.Length1 && (r != w || c != l) ==>
        tiles[r, c] == old(tiles[r, c])
    {
      tiles[w, l] := tiles[w, l].(background := colour);
    }

    /** `extractWord`: the word row `w` spells, read back lower-case. */
    method ExtractWord(w: int) returns (word: string)
      requires 0 <= w < tiles.Length0 && 0 < tiles.Length1
      ensures word == RowWord(Row(w))
    {
      word := "";
      for letterIndex := 0 to tiles.Length1
        invariant word == RowWord(Row(w)[..letterIndex])
      {
        assert Row(w)[..letterIndex + 1][..letterIndex] == Row(w)[..letterIndex];
        word := word + LowerCase(tiles[w, letterIndex].text);
      }
      assert Row(w)[..tiles.Length1] == Row(w);
    }
  }
}
