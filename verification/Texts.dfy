/** Texts put together from pieces. */
module Texts {

  /** What a character adds to a text: NUL adds nothing. */
  function Visible(c: char): string { if c == '\0' then "" else [c] }

  lemma Associative<T>(a: seq<T>, b: seq<T>, c: seq<T>)
    ensures a + (b + c) == (a + b) + c
  {
  }
}
