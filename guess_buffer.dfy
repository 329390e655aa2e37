/** The five-slot `currentGuess` buffer of the Home page and the two edits a
    key press makes to it. A blank slot holds ' '; the cursor is the first blank. */
module GuessBuffer {
  import opened JsBuiltins

  const WIDTH: nat := 5

  /** No blank is followed by a non-blank: the buffer reads `<letters><blanks>`. */
  predicate LeftPacked(g: string) {
    forall i, j :: 0 <= i < j < |g| && g[i] == ' ' ==> g[j] == ' '
  }

  /** A buffer as the page keeps it: five slots, left-packed. */
  predicate IsBuffer(g: string) {
    |g| == WIDTH && LeftPacked(g)
  }

  /** The letters typed so far: everything before the first blank. */
  function Typed(g: string): (t: string)
    ensures t <= g && ' ' !in t
    ensures |t| < |g| ==> g[|t|] == ' '
  {
    var p := IndexOf(g, ' ');
    if p == -1 then g else g[..p]
  }

  /** `t` followed by blanks up to `width` slots. */
  function Pad(t: string, width: nat): string
    requires |t| <= width
  {
    t + Blanks(width - |t|)
  }

  /** A left-packed buffer is its typed letters padded with blanks. */
  lemma PadTyped(g: string)
    requires LeftPacked(g)
    ensures Pad(Typed(g), |g|) == g
  {
    var t := Typed(g);
    forall i | |t| <= i < |g| ensures g[i] == ' ' {
      assert g[|t|] == ' ';
    }
  }

  /** Padding blank-free letters gives a left-packed buffer whose typed letters
      are those letters: with PadTyped, buffers and their typed prefixes are in
      one-to-one correspondence. */
  lemma TypedPad(t: string, width: nat)
    requires |t| <= width && ' ' !in t
    ensures LeftPacked(Pad(t, width)) && Typed(Pad(t, width)) == t
  {
    var g := Pad(t, width);
    if |t| < width {
      forall i | 0 <= i < |t| ensures g[i] != ' ' {
        assert g[i] == t[i];
      }
      IndexOfFirst(g, ' ', |t|);
      assert g[..|t|] == t;
    } else {
      assert g == t;
    }
  }

  /** The letter branch: on a buffer with a blank, the lowercased key goes in
      the first blank and no other slot changes; a full buffer is unchanged. */
  function AfterLetter(g: string, c: char): (r: string)
    ensures |r| == |g|
    ensures ' ' !in g ==> r == g
    ensures ' ' in g ==> r[IndexOf(g, ' ')] == ToLower(c)
    ensures forall i :: 0 <= i < |g| && i != IndexOf(g, ' ') ==> r[i] == g[i]
  {
    var p := IndexOf(g, ' ');
    if p == -1 then g else g[p := ToLower(c)]
  }

  /** Writing into the first blank of a padded buffer pads one more letter. */
  lemma WriteFirstBlank(t: string, width: nat, c: char)
    requires |t| < width
    ensures Pad(t, width)[|t| := c] == Pad(t + [c], width)
  {
    var l, r := Pad(t, width)[|t| := c], Pad(t + [c], width);
    forall i | 0 <= i < width ensures l[i] == r[i] {
      if i < |t| {
        assert l[i] == t[i] == r[i];
      }
    }
  }

  /** On the typed letters, a letter key appends its lowercase form unless the
      buffer is full; the space key appends nothing. Left-packing is kept. */
  lemma LetterAppends(g: string, c: char)
    requires LeftPacked(g)
    ensures LeftPacked(AfterLetter(g, c))
    ensures Typed(AfterLetter(g, c)) ==
            if |Typed(g)| == |g| || c == ' ' then Typed(g) else Typed(g) + [ToLower(c)]
  {
    var t := Typed(g);
    PadTyped(g);
    if |t| < |g| && c != ' ' {
      WriteFirstBlank(t, |g|, ToLower(c));
      TypedPad(t + [ToLower(c)], |g|);
    }
  }

  /** The Backspace branch: an all-blank buffer is unchanged, a full buffer
      loses its last slot, otherwise the slot just before the first blank is
      cleared. No other slot changes. */
  function AfterBackspace(g: string): (r: string)
    requires |g| == WIDTH
    ensures |r| == WIDTH
    ensures IndexOf(g, ' ') == 0 ==> r == g
    ensures ' ' !in g ==> r == g[WIDTH - 1 := ' ']
    ensures 0 < IndexOf(g, ' ') ==> r == g[IndexOf(g, ' ') - 1 := ' ']
  {
    var p := IndexOf(g, ' ');
    if p == 0 then g
    else if p == -1 then g[WIDTH - 1 := ' ']
    else g[p - 1 := ' ']
  }

  /** On the typed letters, Backspace removes the last one, if any.
      Left-packing is kept. */
  lemma BackspaceDropsLast(g: string)
    requires IsBuffer(g)
    ensures IsBuffer(AfterBackspace(g))
    ensures Typed(AfterBackspace(g)) == DropLast(Typed(g))
  {
    var t, r := Typed(g), AfterBackspace(g);
    PadTyped(g);
    if |t| > 0 {
      assert r == Pad(DropLast(t), WIDTH);
      TypedPad(DropLast(t), WIDTH);
    } else {
      assert r == g;
    }
  }

  /** The source's letter expression `slice(0, p) + key + " ".repeat(4 - p)`
      writes one slot of a left-packed buffer. */
  lemma InsertExpression(g: string, c: char)
    requires IsBuffer(g) && ' ' in g
    ensures var p := IndexOf(g, ' ');
            g[..p] + [ToLower(c)] + Blanks(WIDTH - 1 - p) == AfterLetter(g, c)
  {
    var p := IndexOf(g, ' ');
    var e, r := g[..p] + [ToLower(c)] + Blanks(WIDTH - 1 - p), AfterLetter(g, c);
    forall i | 0 <= i < WIDTH ensures e[i] == r[i] {
      if i > p {
        assert g[p] == ' ';
      }
    }
  }

  /** The source's Backspace expressions `slice(0, 4) + " "` on a full buffer and
      `slice(0, p - 1) + " ".repeat(6 - p)` otherwise clear one slot of a
      left-packed buffer. */
  lemma BackspaceExpression(g: string)
    requires IsBuffer(g) && IndexOf(g, ' ') != 0
    ensures var p := IndexOf(g, ' ');
            (if p == -1 then g[..WIDTH - 1] + " " else g[..p - 1] + Blanks(WIDTH + 1 - p))
            == AfterBackspace(g)
  {
    var p := IndexOf(g, ' ');
    if p != -1 {
      var e, r := g[..p - 1] + Blanks(WIDTH + 1 - p), AfterBackspace(g);
      forall i | 0 <= i < WIDTH ensures e[i] == r[i] {
        if i >= p {
          assert g[p] == ' ';
        }
      }
    }
  }
}
