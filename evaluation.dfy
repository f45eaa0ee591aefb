/**
  The guess evaluator of the Classic game panel: how a guessed word is coloured
  against the hidden word.

  `PaintedRow` follows the panel's three passes literally (the exact pass, the
  present pass that consumes the leftmost unconsumed hidden letter, the gray
  pass), including the in-band markers `'-'` and `'+'` that the passes write
  into their scratch copies of the two words. `Reference` is an independent,
  rank-based statement of the Wordle colouring rule. The lemmas prove that the
  two agree whenever the markers cannot be confused with letters, and state the
  rule's properties (green positions, letter multiplicity, left-to-right
  priority, absent letters) about `Reference`.
*/
module GuessEvaluation {

  /** Background colour of a letter tile. */
  datatype TileColor = White | Red | Gray | Yellow | Green

  /** Marker written into the hidden copy where a hidden letter is consumed. */
  const HiddenMark: char := '-'
  /** Marker written into the guess copy where a guessed letter is consumed. */
  const GuessMark: char := '+'

  function Min(a: nat, b: nat): nat { if a <= b then a else b }

  /** Number of occurrences of `c` in `s`. */
  function Count(s: string, c: char): (n: nat)
    ensures n <= |s|
    ensures n == 0 <==> c !in s
  {
    if |s| == 0 then 0
    else
      assert s == s[..|s| - 1] + [s[|s| - 1]];
      Count(s[..|s| - 1], c) + (if s[|s| - 1] == c then 1 else 0)
  }

  /** Number of positions `k` where `a[k] == c` but `b[k] != c`. */
  function Unmatched(a: string, b: string, c: char): nat
    requires |a| == |b|
  {
    if |a| == 0 then 0
    else Unmatched(a[..|a| - 1], b[..|b| - 1], c) + (if a[|a| - 1] == c && b[|a| - 1] != c then 1 else 0)
  }

  /** Number of positions `k` where `a[k] == b[k] == c`. */
  function Matched(a: string, b: string, c: char): nat
    requires |a| == |b|
  {
    if |a| == 0 then 0
    else Matched(a[..|a| - 1], b[..|b| - 1], c) + (if a[|a| - 1] == c && b[|a| - 1] == c then 1 else 0)
  }

  /**
    `String.indexOf` for a one-letter string: the first index of `c` in `s`,
    or -1 when there is none.
  */
  function IndexOf(s: string, c: char): (r: int)
    ensures -1 <= r < |s|
    ensures r == -1 <==> c !in s
    ensures 0 <= r ==> s[r] == c && c !in s[..r]
  {
    if |s| == 0 then -1
    else if s[0] == c then 0
    else
      var t := IndexOf(s[1..], c);
      assert s[1..][..t + 1] == s[1..t + 2] by { assert t + 2 <= |s| || t == -1; }
      if t == -1 then -1 else t + 1
  }

  /** `s.substring(0, i) + m + s.substring(i + 1)`: replaces the letter at `i`. */
  function Mark(s: string, i: nat, m: char): (r: string)
    requires i < |s|
    ensures r == s[i := m]
  {
    s[..i] + [m] + s[i + 1..]
  }

  /** The hidden copy after the exact pass: every exactly matched letter becomes `'-'`. */
  function ExactHidden(h: string, g: string): (r: string)
    requires |h| == |g|
    ensures |r| == |h|
    ensures forall i :: 0 <= i < |h| && h[i] == g[i] ==> r[i] == HiddenMark
    ensures forall i :: 0 <= i < |h| && r[i] != HiddenMark ==> r[i] == h[i] && h[i] != g[i]
  {
    seq(|h|, i requires 0 <= i < |h| => if h[i] == g[i] then HiddenMark else h[i])
  }

  /** The guess copy after the exact pass: every exactly matched letter becomes `'+'`. */
  function ExactGuess(h: string, g: string): (r: string)
    requires |h| == |g|
    ensures |r| == |g|
    ensures forall i :: 0 <= i < |g| && h[i] == g[i] ==> r[i] == GuessMark
    ensures forall i :: 0 <= i < |g| && r[i] != GuessMark ==> r[i] == g[i] && h[i] != g[i]
  {
    seq(|g|, i requires 0 <= i < |g| => if h[i] == g[i] then GuessMark else g[i])
  }

  /** The scratch state of the present pass: both copies and which tiles were painted yellow. */
  datatype Scan = Scan(hidden: string, guess: string, yellow: seq<bool>)

  /**
    One iteration of the present pass, at position `k`: when the hidden copy
    still contains the letter at `k` of the guess copy, the tile is painted
    yellow and both the leftmost such hidden letter and the guessed letter are
    consumed.
  */
  function PresentStep(s: Scan, k: nat): (s': Scan)
    requires k < |s.guess|
    ensures |s'.hidden| == |s.hidden| && |s'.guess| == |s.guess| && |s'.yellow| == |s.yellow| + 1
  {
    var c := s.guess[k];
    if c in s.hidden then
      Scan(Mark(s.hidden, IndexOf(s.hidden, c), HiddenMark), Mark(s.guess, k, GuessMark), s.yellow + [true])
    else
      Scan(s.hidden, s.guess, s.yellow + [false])
  }

  /** The present pass after positions `0 .. k-1`, starting from the copies left by the exact pass. */
  function PresentPass(h1: string, g1: string, k: nat): (s: Scan)
    requires k <= |g1|
    ensures |s.hidden| == |h1| && |s.guess| == |g1| && |s.yellow| == k
    decreases k
  {
    if k == 0 then Scan(h1, g1, [])
    else PresentStep(PresentPass(h1, g1, k - 1), k - 1)
  }

  /**
    The colours of a tile row after the guess handler has run on it, given the
    colours it had before: all green when the words are equal; otherwise green
    from the exact pass, overwritten by yellow from the present pass, and gray
    wherever the guess copy does not end as `'+'`.
  */
  function PaintedRow(prior: seq<TileColor>, h: string, g: string): (r: seq<TileColor>)
    requires |prior| == |h| == |g|
    ensures |r| == |g|
  {
    if g == h then seq(|g|, _ => Green)
    else
      var s := PresentPass(ExactHidden(h, g), ExactGuess(h, g), |g|);
      seq(|g|, i requires 0 <= i < |g| =>
        if s.guess[i] != GuessMark then Gray
        else if s.yellow[i] then Yellow
        else if h[i] == g[i] then Green
        else prior[i])
  }

  /**
    The Wordle rule stated without scratch copies: a position is green when the
    letters agree; otherwise it is yellow when fewer earlier guess positions
    hold the same letter without matching than the hidden word has unmatched
    copies of it; otherwise it is gray.
  */
  function Reference(h: string, g: string): (r: seq<TileColor>)
    requires |h| == |g|
    ensures |r| == |g|
    ensures forall i :: 0 <= i < |g| ==> r[i] in {Green, Yellow, Gray}
    ensures forall i :: 0 <= i < |g| ==> (r[i] == Green <==> g[i] == h[i])
  {
    seq(|g|, i requires 0 <= i < |g| =>
      if g[i] == h[i] then Green
      else if Unmatched(g[..i], h[..i], g[i]) < Unmatched(h, g, g[i]) then Yellow
      else Gray)
  }

  /** The markers cannot be confused with letters of the two words. */
  predicate MarkerFree(h: string, g: string)
  {
    GuessMark !in h && GuessMark !in g && HiddenMark !in g
  }

  /** Number of positions whose guessed letter is `c` and whose tile is green or yellow. */
  function Credited(g: string, colours: seq<TileColor>, c: char): nat
    requires |g| == |colours|
  {
    if |g| == 0 then 0
    else
      Credited(g[..|g| - 1], colours[..|g| - 1], c)
      + (if g[|g| - 1] == c && colours[|g| - 1] in {Green, Yellow} then 1 else 0)
  }

  // ---------------------------------------------------------------------------
  // Counting lemmas
  // ---------------------------------------------------------------------------

  lemma {:induction false} CountUpdate(s: string, i: nat, m: char, c: char)
    requires i < |s|
    ensures Count(s[i := m], c) + (if s[i] == c then 1 else 0) == Count(s, c) + (if m == c then 1 else 0)
    decreases |s|
  {
    var n := |s| - 1;
    if i < n {
      assert s[i := m][..n] == s[..n][i := m];
      CountUpdate(s[..n], i, m, c);
    } else {
      assert s[i := m][..n] == s[..n];
    }
  }

  lemma {:induction false} UnmatchedAtMostCount(a: string, b: string, c: char)
    requires |a| == |b|
    ensures Unmatched(a, b, c) <= Count(a, c)
    decreases |a|
  {
    if |a| > 0 {
      UnmatchedAtMostCount(a[..|a| - 1], b[..|b| - 1], c);
    }
  }

  lemma {:induction false} CountSplit(a: string, b: string, c: char)
    requires |a| == |b|
    ensures Count(a, c) == Matched(a, b, c) + Unmatched(a, b, c)
    ensures Matched(a, b, c) == Matched(b, a, c)
    decreases |a|
  {
    if |a| > 0 {
      CountSplit(a[..|a| - 1], b[..|b| - 1], c);
    }
  }

  /** Unmatched over a one-longer prefix adds the contribution of the new position. */
  lemma UnmatchedSnoc(a: string, b: string, c: char, k: nat)
    requires |a| == |b| && k < |a|
    ensures Unmatched(a[..k + 1], b[..k + 1], c)
         == Unmatched(a[..k], b[..k], c) + (if a[k] == c && b[k] != c then 1 else 0)
  {
    assert a[..k + 1][..k] == a[..k];
    assert b[..k + 1][..k] == b[..k];
  }

  lemma {:induction false} UnmatchedMonotone(a: string, b: string, c: char, i: nat, j: nat)
    requires |a| == |b| && i <= j <= |a|
    ensures Unmatched(a[..i], b[..i], c) <= Unmatched(a[..j], b[..j], c)
    decreases j - i
  {
    if i < j {
      UnmatchedSnoc(a, b, c, i);
      UnmatchedMonotone(a, b, c, i + 1, j);
    }
  }

  lemma ExactHiddenCount(h: string, g: string, c: char)
    requires |h| == |g| && c != HiddenMark
    ensures Count(ExactHidden(h, g), c) == Unmatched(h, g, c)
  {
    ExactHiddenCountPrefix(h, g, c, |h|);
    assert ExactHidden(h, g)[..|h|] == ExactHidden(h, g);
    assert h[..|h|] == h && g[..|g|] == g;
  }

  lemma {:induction false} ExactHiddenCountPrefix(h: string, g: string, c: char, n: nat)
    requires |h| == |g| && n <= |h| && c != HiddenMark
    ensures Count(ExactHidden(h, g)[..n], c) == Unmatched(h[..n], g[..n], c)
  {
    if n > 0 {
      ExactHiddenCountPrefix(h, g, c, n - 1);
      var e := ExactHidden(h, g);
      assert e[..n][..n - 1] == e[..n - 1];
      assert h[..n][..n - 1] == h[..n - 1];
      assert g[..n][..n - 1] == g[..n - 1];
    }
  }

  // ---------------------------------------------------------------------------
  // The literal passes agree with the reference rule
  // ---------------------------------------------------------------------------

  /** Which of the first `k` tiles the present pass has painted yellow. */
  ghost predicate YellowsSoFar(h: string, g: string, k: nat, s: Scan)
    requires |h| == |g| && k <= |g|
  {
    |s.yellow| == k &&
    forall i :: 0 <= i < k ==>
      s.yellow[i] == (g[i] != h[i] && Unmatched(g[..i], h[..i], g[i]) < Unmatched(h, g, g[i]))
  }

  /** The guess copy holds `'+'` exactly at the green positions and the yellow ones so far. */
  ghost predicate GuessCopySoFar(h: string, g: string, k: nat, s: Scan)
    requires |h| == |g| && k <= |g| && |s.yellow| == k
  {
    |s.guess| == |g| &&
    forall i :: 0 <= i < |g| ==>
      s.guess[i] == if g[i] == h[i] || (i < k && s.yellow[i]) then GuessMark else g[i]
  }

  /**
    The hidden copy still holds, of each letter, the unmatched hidden copies
    minus those consumed by the yellow tiles so far.
  */
  ghost predicate HiddenCopySoFar(h: string, g: string, k: nat, s: Scan)
    requires |h| == |g| && k <= |g|
  {
    |s.hidden| == |h| &&
    forall c :: c != HiddenMark ==>
      Count(s.hidden, c) + Min(Unmatched(g[..k], h[..k], c), Unmatched(h, g, c)) == Unmatched(h, g, c)
  }

  ghost predicate ScanInvariant(h: string, g: string, k: nat, s: Scan)
    requires |h| == |g| && k <= |g|
  {
    YellowsSoFar(h, g, k, s) && GuessCopySoFar(h, g, k, s) && HiddenCopySoFar(h, g, k, s)
  }

  lemma ScanInvariantInit(h: string, g: string)
    requires |h| == |g| && MarkerFree(h, g)
    ensures ScanInvariant(h, g, 0, Scan(ExactHidden(h, g), ExactGuess(h, g), []))
  {
    var s := Scan(ExactHidden(h, g), ExactGuess(h, g), []);
    assert g[..0] == [] && h[..0] == [];
    forall c | c != HiddenMark
      ensures Count(s.hidden, c) + Min(Unmatched(g[..0], h[..0], c), Unmatched(h, g, c)) == Unmatched(h, g, c)
    {
      ExactHiddenCount(h, g, c);
    }
  }

  /** The letter the present pass looks up at position `j` is the guessed letter, or `'+'` when green. */
  lemma ScanLetter(h: string, g: string, j: nat, s: Scan)
    requires |h| == |g| && j < |g| && MarkerFree(h, g) && ScanInvariant(h, g, j, s)
    ensures g[j] == h[j] ==> s.guess[j] == GuessMark && GuessMark !in s.hidden
    ensures g[j] != h[j] ==>
      s.guess[j] == g[j] && g[j] != HiddenMark &&
      (g[j] in s.hidden <==> Unmatched(g[..j], h[..j], g[j]) < Unmatched(h, g, g[j]))
  {
    if g[j] == h[j] {
      UnmatchedAtMostCount(h, g, GuessMark);
      assert Count(s.hidden, GuessMark) == 0;
    } else {
      assert g[j] != HiddenMark;
      assert Count(s.hidden, g[j]) > 0 <==> g[j] in s.hidden;
    }
  }

  lemma YellowsStep(h: string, g: string, j: nat, s: Scan)
    requires |h| == |g| && j < |g| && MarkerFree(h, g) && ScanInvariant(h, g, j, s)
    ensures YellowsSoFar(h, g, j + 1, PresentStep(s, j))
  {
    ScanLetter(h, g, j, s);
  }

  lemma HiddenCopyStep(h: string, g: string, j: nat, s: Scan)
    requires |h| == |g| && j < |g| && MarkerFree(h, g) && ScanInvariant(h, g, j, s)
    ensures HiddenCopySoFar(h, g, j + 1, PresentStep(s, j))
  {
    var s' := PresentStep(s, j);
    var k := j + 1;
    ScanLetter(h, g, j, s);
    forall c | c != HiddenMark
      ensures Count(s'.hidden, c) + Min(Unmatched(g[..k], h[..k], c), Unmatched(h, g, c)) == Unmatched(h, g, c)
    {
      UnmatchedSnoc(g, h, c, j);
      if g[j] in s.hidden {
        CountUpdate(s.hidden, IndexOf(s.hidden, g[j]), HiddenMark, c);
      }
    }
  }

  lemma PresentStepKeepsInvariant(h: string, g: string, j: nat, s: Scan)
    requires |h| == |g| && j < |g| && MarkerFree(h, g) && ScanInvariant(h, g, j, s)
    ensures ScanInvariant(h, g, j + 1, PresentStep(s, j))
  {
    YellowsStep(h, g, j, s);
    HiddenCopyStep(h, g, j, s);
  }

  lemma {:induction false} PresentPassInvariant(h: string, g: string, k: nat)
    requires |h| == |g| && k <= |g| && MarkerFree(h, g)
    ensures ScanInvariant(h, g, k, PresentPass(ExactHidden(h, g), ExactGuess(h, g), k))
    decreases k
  {
    if k == 0 {
      ScanInvariantInit(h, g);
    } else {
      PresentPassInvariant(h, g, k - 1);
      PresentStepKeepsInvariant(h, g, k - 1, PresentPass(ExactHidden(h, g), ExactGuess(h, g), k - 1));
    }
  }

  /**
    When the markers cannot be confused with letters, the panel's three passes
    colour every position exactly as the reference rule does; in particular
    every tile ends green, yellow or gray, whatever colour it had before.
  */
  lemma PaintedMatchesReference(prior: seq<TileColor>, h: string, g: string)
    requires |prior| == |h| == |g| && MarkerFree(h, g)
    ensures PaintedRow(prior, h, g) == Reference(h, g)
    ensures forall i :: 0 <= i < |g| ==> PaintedRow(prior, h, g)[i] in {Green, Yellow, Gray}
  {
    var r, e := PaintedRow(prior, h, g), Reference(h, g);
    if g != h {
      PresentPassInvariant(h, g, |g|);
    }
    assert forall i :: 0 <= i < |g| ==> r[i] == e[i];
  }

  // ---------------------------------------------------------------------------
  // Properties of the colouring rule
  // ---------------------------------------------------------------------------

  /** The guess wins exactly when every tile is green, i.e. when it equals the hidden word. */
  lemma WinIffAllGreen(h: string, g: string)
    requires |h| == |g|
    ensures (forall i :: 0 <= i < |g| ==> Reference(h, g)[i] == Green) <==> g == h
  {
    if forall i :: 0 <= i < |g| ==> Reference(h, g)[i] == Green {
      forall i | 0 <= i < |g| ensures g[i] == h[i] {
        assert Reference(h, g)[i] == Green;
      }
    }
  }

  /**
    Earlier copies have priority: if a non-green position is yellow, so is
    every earlier non-green position holding the same letter.
  */
  lemma LeftmostPriority(h: string, g: string, i: nat, j: nat)
    requires |h| == |g| && i < j < |g|
    requires g[i] == g[j] && g[i] != h[i] && g[j] != h[j]
    requires Reference(h, g)[j] == Yellow
    ensures Reference(h, g)[i] == Yellow
  {
    UnmatchedSnoc(g, h, g[i], i);
    UnmatchedMonotone(g, h, g[i], i + 1, j);
  }

  /** A letter that does not occur in the hidden word is always gray. */
  lemma AbsentLetterIsGray(h: string, g: string, i: nat)
    requires |h| == |g| && i < |g| && g[i] !in h
    ensures Reference(h, g)[i] == Gray
  {
    UnmatchedAtMostCount(h, g, g[i]);
  }

  /**
    For a guess without repeated letters, a non-green position is yellow
    exactly when its letter occurs somewhere in the hidden word.
  */
  lemma DistinctGuessLetters(h: string, g: string, i: nat)
    requires |h| == |g| && i < |g| && g[i] != h[i]
    requires forall p, q :: 0 <= p < q < |g| ==> g[p] != g[q]
    ensures Reference(h, g)[i] == Yellow <==> g[i] in h
    ensures Reference(h, g)[i] == Gray <==> g[i] !in h
  {
    var c := g[i];
    UnmatchedAtMostCount(g[..i], h[..i], c);
    assert c !in g[..i];
    if c in h {
      var k :| 0 <= k < |h| && h[k] == c;
      assert k != i;
      assert g[k] != c;
      UnmatchedPositive(h, g, c, k);
    } else {
      UnmatchedAtMostCount(h, g, c);
    }
  }

  lemma {:induction false} UnmatchedPositive(a: string, b: string, c: char, k: nat)
    requires |a| == |b| && k < |a| && a[k] == c && b[k] != c
    ensures Unmatched(a, b, c) > 0
    decreases |a|
  {
    if k < |a| - 1 {
      UnmatchedPositive(a[..|a| - 1], b[..|b| - 1], c, k);
    }
  }

  /**
    Letter multiplicity: the green and yellow tiles holding a letter number
    exactly the smaller of its counts in the guess and in the hidden word.
  */
  lemma Multiplicity(h: string, g: string, c: char)
    requires |h| == |g|
    ensures Credited(g, Reference(h, g), c) == Min(Count(g, c), Count(h, c))
    ensures Credited(g, Reference(h, g), c) <= Count(h, c)
  {
    CreditedPrefix(h, g, c, |g|);
    assert g[..|g|] == g && h[..|h|] == h && Reference(h, g)[..|g|] == Reference(h, g);
    CountSplit(g, h, c);
    CountSplit(h, g, c);
  }

  lemma {:induction false} CreditedPrefix(h: string, g: string, c: char, n: nat)
    requires |h| == |g| && n <= |g|
    ensures Credited(g[..n], Reference(h, g)[..n], c)
         == Matched(g[..n], h[..n], c) + Min(Unmatched(g[..n], h[..n], c), Unmatched(h, g, c))
  {
    if n > 0 {
      var m := n - 1;
      CreditedPrefix(h, g, c, m);
      var r := Reference(h, g);
      assert g[..n][..m] == g[..m] && h[..n][..m] == h[..m] && r[..n][..m] == r[..m];
      UnmatchedSnoc(g, h, c, m);
    }
  }

  // ---------------------------------------------------------------------------
  // Worked examples
  // ---------------------------------------------------------------------------

  /** Hidden "crane", guess "trace": t gray, r, a and e green, c yellow. */
  lemma CraneTrace()
    ensures Reference("crane", "trace") == [Gray, Green, Green, Yellow, Green]
  {
    var h, g := "crane", "trace";
    assert h[0] == 'c';
    DistinctGuessLetters(h, g, 0);
    DistinctGuessLetters(h, g, 3);
  }

  /** The prefixes of "speed", "erase" and "eerie" that the unmatched counts of the examples unfold to. */
  lemma SpeedPrefixes()
    ensures "speed"[..4] == "spee" && "spee"[..3] == "spe" && "spe"[..2] == "sp" && "sp"[..1] == "s" && "s"[..0] == ""
    ensures "speed"[..3] == "spe" && "speed"[..2] == "sp" && "speed"[..1] == "s" && "speed"[..0] == ""
    ensures "erase"[..4] == "eras" && "eras"[..3] == "era" && "era"[..2] == "er" && "er"[..1] == "e" && "e"[..0] == ""
    ensures "erase"[..3] == "era" && "erase"[..0] == ""
    ensures "eerie"[..4] == "eeri" && "eeri"[..3] == "eer" && "eer"[..2] == "ee" && "ee"[..1] == "e"
    ensures "eerie"[..1] == "e" && "eerie"[..0] == ""
  {
  }

  /** Hidden "speed", guess "erase": both e's and the s are yellow, r and a gray. */
  lemma SpeedErase()
    ensures Reference("speed", "erase") == [Yellow, Gray, Gray, Yellow, Yellow]
  {
    var h, g := "speed", "erase";
    assert Unmatched(h, g, 'e') == 2 && Unmatched(h, g, 's') == 1 &&
           Unmatched(g[..0], h[..0], 'e') == 0 && Unmatched(g[..3], h[..3], 's') == 0 &&
           Unmatched(g[..4], h[..4], 'e') == 1 by {
      SpeedPrefixes();
    }
    AbsentLetterIsGray(h, g, 1);
    AbsentLetterIsGray(h, g, 2);
  }

  /** Hidden "speed", guess "eerie": only the first two of the three e's are credited. */
  lemma SpeedEerie()
    ensures Reference("speed", "eerie") == [Yellow, Yellow, Gray, Gray, Gray]
  {
    var h, g := "speed", "eerie";
    assert Unmatched(h, g, 'e') == 2 && Unmatched(g[..0], h[..0], 'e') == 0 &&
           Unmatched(g[..1], h[..1], 'e') == 1 && Unmatched(g[..4], h[..4], 'e') == 2 by {
      SpeedPrefixes();
    }
    AbsentLetterIsGray(h, g, 2);
    AbsentLetterIsGray(h, g, 3);
  }

  /** The tile row itself, whatever its colours before: hidden "crane", guess "trace". */
  lemma CraneTracePainted(prior: seq<TileColor>)
    requires |prior| == 5
    ensures PaintedRow(prior, "crane", "trace") == [Gray, Green, Green, Yellow, Green]
  {
    assert MarkerFree("crane", "trace");
    PaintedMatchesReference(prior, "crane", "trace");
    CraneTrace();
  }

  /** The tile row itself, whatever its colours before: hidden "speed", guess "eerie". */
  lemma SpeedEeriePainted(prior: seq<TileColor>)
    requires |prior| == 5
    ensures PaintedRow(prior, "speed", "eerie") == [Yellow, Yellow, Gray, Gray, Gray]
  {
    assert MarkerFree("speed", "eerie");
    PaintedMatchesReference(prior, "speed", "eerie");
    SpeedEerie();
  }

  /**
    The markers are in-band: a guessed `'-'` matches the mark left by an exact
    match and is painted yellow although the hidden word has no `'-'`.
  */
  lemma HyphenQuirk()
    ensures PaintedRow([White, White, White], "abc", "a-d") == [Green, Yellow, Gray]
  {
    var h, g := "abc", "a-d";
    assert ExactHidden(h, g) == "-bc";
    assert ExactGuess(h, g) == "+-d";
    assert PresentPass("-bc", "+-d", 1) == Scan("-bc", "+-d", [false]);
    assert IndexOf("-bc", '-') == 0;
    assert PresentPass("-bc", "+-d", 2) == Scan("-bc", "++d", [false, true]);
    assert 'd' !in "-bc";
    assert PresentPass("-bc", "+-d", 3) == Scan("-bc", "++d", [false, true, false]);
  }

  /**
    A `'+'` in the hidden word survives the exact pass and is found by the
    present pass's lookup of an exactly matched position, so that green tile
    is repainted yellow.
  */
  lemma HiddenPlusQuirk()
    ensures PaintedRow([White, White], "a+", "ab") == [Yellow, Gray]
  {
    assert ExactHidden("a+", "ab") == "-+";
    assert ExactGuess("a+", "ab") == "+b";
    assert IndexOf("-+", '+') == 1;
    assert PresentPass("-+", "+b", 1) == Scan("--", "+b", [true]);
    assert 'b' !in "--";
    assert PresentPass("-+", "+b", 2) == Scan("--", "+b", [true, false]);
  }

  /** A guessed `'+'` that matches nothing is never painted and keeps the tile's previous colour. */
  lemma PlusQuirk()
    ensures PaintedRow([White, White], "ab", "a+") == [Green, White]
  {
    var h, g := "ab", "a+";
    assert ExactHidden(h, g) == "-b";
    assert ExactGuess(h, g) == "++";
    assert PresentPass("-b", "++", 1) == Scan("-b", "++", [false]);
    assert PresentPass("-b", "++", 2) == Scan("-b", "++", [false, false]);
  }
}
