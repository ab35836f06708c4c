// Reading a text up to its end.
module Texts {

  // The character at a position; a zero marks the end of the text.
  function CharAt(s: string, i: nat): char {
    if i < |s| then s[i] else '\0'
  }
}
