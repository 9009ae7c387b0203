/** Character classes of the ASCII range, as Rust's `is_ascii_*` predicates define them. */
module Ascii {

  /** A byte, represented by the character with the same code. */
  predicate IsByte(c: char) { c as int < 256 }

  predicate IsUpper(c: char) { 'A' <= c <= 'Z' }

  predicate IsLower(c: char) { 'a' <= c <= 'z' }

  predicate IsAlpha(c: char) { IsUpper(c) || IsLower(c) }

  predicate IsDigit(c: char) { '0' <= c <= '9' }

  predicate IsAlnum(c: char) { IsAlpha(c) || IsDigit(c) }

  predicate IsOctal(c: char) { '0' <= c <= '7' }

  predicate IsHex(c: char) { IsDigit(c) || 'a' <= c <= 'f' || 'A' <= c <= 'F' }

  predicate IsPrint(c: char) { ' ' <= c <= '~' }

  /** The control bytes: below 0x20, or 0x7f. */
  predicate IsControl(c: char) { c < ' ' || c == '\U{7f}' }

  predicate IsAscii(c: char) { c as int < 128 }

  function ToLower(c: char): char {
    if IsUpper(c) then c + ' ' else c
  }

  ghost predicate AllAscii(s: string) {
    forall i :: 0 <= i < |s| ==> IsAscii(s[i])
  }
}
