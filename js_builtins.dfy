/** The few JavaScript built-ins the game relies on, stated on Dafny sequences. */
module JsBuiltins {

  /** `Array.prototype.indexOf` / `String.prototype.indexOf` for one element:
      the first position holding `x`, or -1 when there is none. */
  function IndexOf<T(==)>(s: seq<T>, x: T): (i: int)
    ensures -1 <= i < |s|
    ensures i == -1 <==> x !in s
    ensures 0 <= i ==> s[i] == x && x !in s[..i]
  {
    if |s| == 0 then -1
    else if s[0] == x then 0
    else
      var j := IndexOf(s[1..], x);
      assert 0 <= j ==> s[1..][..j] == s[1..j + 1];
      if j == -1 then -1 else j + 1
  }

  /** The position of the first occurrence is the one IndexOf reports. */
  lemma IndexOfFirst<T>(s: seq<T>, x: T, k: nat)
    requires k < |s| && s[k] == x
    requires forall i :: 0 <= i < k ==> s[i] != x
    ensures IndexOf(s, x) == k
  {
  }

  /** `" ".repeat(n)`. */
  function Blanks(n: nat): (r: string)
    ensures |r| == n
    ensures forall i :: 0 <= i < n ==> r[i] == ' '
  {
    seq(n, _ => ' ')
  }

  /** `toLowerCase` on one character, restricted to ASCII: 'A'..'Z' become
      'a'..'z' and every other character is left as it is. */
  function ToLower(c: char): (r: char)
    ensures !('A' <= r <= 'Z')
    ensures 'A' <= c <= 'Z' ==> r as int == c as int - 'A' as int + 'a' as int
    ensures r == c <==> !('A' <= c <= 'Z')
    ensures r == ' ' <==> c == ' '
  {
    if 'A' <= c <= 'Z' then (c as int - 'A' as int + 'a' as int) as char else c
  }

  /** `Array.prototype.slice(0, end)`: a negative `end` counts from the back,
      and the result is clamped to the array. */
  function SliceTo<T>(s: seq<T>, end: int): (r: seq<T>)
    ensures r <= s
    ensures end < 0 ==> |r| == if |s| + end < 0 then 0 else |s| + end
    ensures 0 <= end ==> |r| == if end < |s| then end else |s|
  {
    if end < 0 then s[..if |s| + end < 0 then 0 else |s| + end]
    else s[..if end < |s| then end else |s|]
  }

  /** Everything but the last element; the empty sequence stays empty. */
  function DropLast<T>(s: seq<T>): (r: seq<T>)
    ensures r <= s
    ensures |r| == if |s| == 0 then 0 else |s| - 1
  {
    if |s| == 0 then [] else s[..|s| - 1]
  }

  /** `slice(0, length - 1)` removes the last element, and nothing if there is none. */
  lemma SliceToDropsLast<T>(s: seq<T>)
    ensures SliceTo(s, |s| - 1) == DropLast(s)
  {
  }
}
