/** The pure string part of `getStaticProps`: the fetched text is split on
    newlines and only the five-character entries are kept. */
module WordList {

  const WORD_LENGTH: nat := 5

  /** `text.split(sep)` for a one-character separator: the pieces between
      separators, an empty piece wherever two separators meet or the text
      starts or ends with one, and `[""]` for the empty text. */
  function Split(text: string, sep: char): (parts: seq<string>)
    ensures |parts| >= 1
    ensures forall i :: 0 <= i < |parts| ==> sep !in parts[i]
    decreases |text|
  {
    if |text| == 0 then [""]
    else
      var rest := Split(text[1..], sep);
      if text[0] == sep then [""] + rest
      else [[text[0]] + rest[0]] + rest[1..]
  }

  /** `parts.join(sep)`. */
  function Join(parts: seq<string>, sep: char): (r: string)
    ensures |parts| > 0 ==> parts[0] <= r
    ensures |parts| > 1 ==> |parts[0]| < |r| && r[|parts[0]|] == sep
    ensures |r| >= |parts| - 1
    decreases |parts|
  {
    if |parts| == 0 then ""
    else if |parts| == 1 then parts[0]
    else parts[0] + [sep] + Join(parts[1..], sep)
  }

  /** A join holds at least one separator for each two neighbouring pieces. */
  lemma {:induction false} JoinSeparators(parts: seq<string>, sep: char)
    ensures multiset(Join(parts, sep))[sep] >= |parts| - 1
    decreases |parts|
  {
    if |parts| > 1 {
      JoinSeparators(parts[1..], sep);
      assert Join(parts, sep) == parts[0] + [sep] + Join(parts[1..], sep);
    }
  }

  /** Joining the pieces of a split gives the text back. */
  lemma {:induction false} JoinSplit(text: string, sep: char)
    ensures Join(Split(text, sep), sep) == text
    decreases |text|
  {
    if |text| > 0 {
      var rest := Split(text[1..], sep);
      JoinSplit(text[1..], sep);
      if text[0] == sep {
        assert Split(text, sep)[1..] == rest;
      } else {
        var parts := Split(text, sep);
        assert parts[1..] == rest[1..];
        if |rest| == 1 {
          assert parts == [[text[0]] + rest[0]];
        }
      }
    }
  }

  /** A piece without the separator splits to itself. */
  lemma {:induction false} SplitPiece(piece: string, sep: char)
    requires sep !in piece
    ensures Split(piece, sep) == [piece]
    decreases |piece|
  {
    if |piece| > 0 {
      SplitPiece(piece[1..], sep);
      assert [piece[0]] + piece[1..] == piece;
    }
  }

  /** A piece followed by the separator splits off as the first part. */
  lemma {:induction false} SplitAfterPiece(piece: string, sep: char, tail: string)
    requires sep !in piece
    ensures Split(piece + [sep] + tail, sep) == [piece] + Split(tail, sep)
    decreases |piece|
  {
    var text := piece + [sep] + tail;
    if |piece| == 0 {
      assert text[1..] == tail;
    } else {
      assert text[1..] == piece[1..] + [sep] + tail;
      SplitAfterPiece(piece[1..], sep, tail);
      assert [piece[0]] + piece[1..] == piece;
    }
  }

  /** Splitting the join of separator-free pieces gives the pieces back. */
  lemma {:induction false} SplitJoin(parts: seq<string>, sep: char)
    requires |parts| >= 1
    requires forall i :: 0 <= i < |parts| ==> sep !in parts[i]
    ensures Split(Join(parts, sep), sep) == parts
    decreases |parts|
  {
    if |parts| == 1 {
      SplitPiece(parts[0], sep);
    } else {
      SplitJoin(parts[1..], sep);
      SplitAfterPiece(parts[0], sep, Join(parts[1..], sep));
      assert [parts[0]] + parts[1..] == parts;
    }
  }

  /** `.filter((word) => word.length === 5)`. */
  function KeepFiveLetter(words: seq<string>): (kept: seq<string>)
    ensures |kept| <= |words|
    ensures forall w :: w in kept <==> w in words && |w| == WORD_LENGTH
    decreases |words|
  {
    if |words| == 0 then []
    else (if |words[0]| == WORD_LENGTH then [words[0]] else []) + KeepFiveLetter(words[1..])
  }

  /** `xs` occurs in `ys` in the same order, possibly with gaps. */
  predicate IsSubsequence<T(==)>(xs: seq<T>, ys: seq<T>)
    decreases |ys|
  {
    if |xs| == 0 then true
    else if |ys| == 0 then false
    else if xs[0] == ys[0] then IsSubsequence(xs[1..], ys[1..])
    else IsSubsequence(xs, ys[1..])
  }

  /** The filter keeps the words in their original order. */
  lemma {:induction false} KeepFiveLetterKeepsOrder(words: seq<string>)
    ensures IsSubsequence(KeepFiveLetter(words), words)
    decreases |words|
  {
    if |words| > 0 {
      var kept, rest := KeepFiveLetter(words), KeepFiveLetter(words[1..]);
      KeepFiveLetterKeepsOrder(words[1..]);
      if |words[0]| == WORD_LENGTH {
        assert kept[0] == words[0] && kept[1..] == rest;
      } else if |rest| > 0 {
        assert kept == rest && rest[0] in rest;
      }
    }
  }

  /** The filter keeps every occurrence of a five-character word, and nothing else. */
  lemma {:induction false} KeepFiveLetterCounts(words: seq<string>, w: string)
    ensures multiset(KeepFiveLetter(words))[w] == if |w| == WORD_LENGTH then multiset(words)[w] else 0
    decreases |words|
  {
    if |words| > 0 {
      KeepFiveLetterCounts(words[1..], w);
      assert words == [words[0]] + words[1..];
    }
  }

  /** The word list built from the fetched text. */
  function WordListOf(text: string): (wordList: seq<string>)
    ensures forall w :: w in wordList ==> |w| == WORD_LENGTH && '\n' !in w
  {
    KeepFiveLetter(Split(text, '\n'))
  }

  /** The word list is the five-character lines of the text, in their order. */
  lemma WordListOfLines(text: string)
    ensures IsSubsequence(WordListOf(text), Split(text, '\n'))
    ensures forall w :: w in WordListOf(text) <==> w in Split(text, '\n') && |w| == WORD_LENGTH
    ensures forall w :: multiset(WordListOf(text))[w] ==
                        if |w| == WORD_LENGTH then multiset(Split(text, '\n'))[w] else 0
  {
    KeepFiveLetterKeepsOrder(Split(text, '\n'));
    forall w ensures multiset(WordListOf(text))[w] ==
                     if |w| == WORD_LENGTH then multiset(Split(text, '\n'))[w] else 0 {
      KeepFiveLetterCounts(Split(text, '\n'), w);
    }
  }
}
