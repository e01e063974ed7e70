/** The library's 16-bit strings. */
module CStrings {
  type CHAR16 = c: int | 0 <= c < 0x1_0000

  /** A C string without its terminator. */
  type Text = s: seq<CHAR16> | forall i :: 0 <= i < |s| ==> s[i] != 0

  /** The C string read at index i; its terminator follows the last character. */
  function At(s: seq<CHAR16>, i: nat): CHAR16
    requires i <= |s|
  {
    if i < |s| then s[i] else 0
  }
}
