/**
 C texts: sequences of characters, without the terminating zero. A character is an
 integer from -128 to 255, so that the results hold for a signed and for an unsigned
 `char`.
 */
module Ascii {
  type cchar = c: int | -128 <= c < 256

  type Text = seq<cchar>

  function Upper(c: cchar): cchar {
    if 'a' as int <= c <= 'z' as int then c - 32 else c
  }

  /** Equal but for the case of letters. */
  predicate CaselessSame(s: Text, name: string) {
    |s| == |name| && forall i :: 0 <= i < |s| ==> 0 <= name[i] as int < 256 && Upper(s[i]) == Upper(name[i] as int)
  }

  predicate IsDecimal(c: cchar) { '0' as int <= c <= '9' as int }
}
