/** Strings that end at a NUL. */
module CStrings {

  predicate NoNul(s: string) {
    forall i :: 0 <= i < |s| ==> s[i] != '\0'
  }

  type CString = s: string | NoNul(s)

  /** The character at a position, or the NUL behind the last one. */
  function At(s: CString, i: nat): char {
    if i < |s| then s[i] else '\0'
  }

  /** Puts a character behind the first `n`. */
  method PutChar(buf: array<char>, n: nat, c: char)
    requires n < buf.Length
    modifies buf
    ensures buf[..n + 1] == old(buf[..n]) + [c]
  {
    buf[n] := c;
  }
}
