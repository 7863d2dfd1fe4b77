/** Types shared by every part of the model. */
module Base {

  datatype Option<+T> = None | Some(value: T)

  /** The contents of a C string: the characters before its terminating NUL. */
  type Text = s: string | '\0' !in s

  /** The prefix and the suffix of a text at n are texts. */
  lemma TextSplit(s: Text, n: nat)
    requires n <= |s|
    ensures '\0' !in s[..n] && '\0' !in s[n..]
  {
    assert forall k | 0 <= k < n :: s[..n][k] == s[k];
    assert forall k | 0 <= k < |s| - n :: s[n..][k] == s[n + k];
  }

  /** A byte, as read from the keyboard controller's data port. */
  type Byte = x: int | 0 <= x < 256

  const INT_MIN: int := -0x8000_0000
  const INT_MAX: int := 0x7fff_ffff

  /** The C `int` of the i386 target: arithmetic on it is checked not to overflow. */
  newtype int32 = x: int | -0x8000_0000 <= x < 0x8000_0000

  /** The backspace character '\b' (ASCII 8). */
  const BS: char := 8 as char

  /** Characters that kgets and the password prompts accept (ASCII 32..126). */
  predicate IsPrintable(c: char) {
    32 <= c as int <= 126
  }
}
