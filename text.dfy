/**
 * The two facts about .NET strings that the validation rules depend on:
 * `String.Length` counts UTF-16 code units, and `Char.IsWhiteSpace` decides
 * what `String.IsNullOrWhiteSpace` treats as blank.
 *
 * A Dafny `char` is a Unicode scalar value; one outside the Basic
 * Multilingual Plane is two UTF-16 code units (a surrogate pair), and
 * neither unit of a surrogate pair is white space.
 */
module Text {
  import opened Wrappers

  /** Number of UTF-16 code units that encode `c`. */
  function Utf16Units(c: char): nat {
    if c as int > 0xFFFF then 2 else 1
  }

  /** `s.Length` in .NET: the number of UTF-16 code units of `s`. */
  function Utf16Length(s: string): (n: nat)
    ensures |s| <= n <= 2 * |s|
  {
    if s == [] then 0 else Utf16Units(s[0]) + Utf16Length(s[1..])
  }

  /** Every character of `s` lies in the Basic Multilingual Plane. */
  predicate InBmp(s: string) {
    forall i :: 0 <= i < |s| ==> s[i] as int <= 0xFFFF
  }

  /** On text without surrogate pairs the .NET length is the character count. */
  lemma {:induction false} BmpLength(s: string)
    requires InBmp(s)
    ensures Utf16Length(s) == |s|
  {
    if s != [] {
      assert InBmp(s[1..]) by {
        forall i | 0 <= i < |s[1..]| ensures s[1..][i] as int <= 0xFFFF {
          assert s[1..][i] == s[i + 1];
        }
      }
      BmpLength(s[1..]);
    }
  }

  /**
   * `Char.IsWhiteSpace`: the space separators (U+0020, U+00A0, U+1680,
   * U+2000..U+200A, U+202F, U+205F, U+3000), the line and paragraph
   * separators (U+2028, U+2029) and the controls U+0009..U+000D and U+0085.
   */
  predicate IsWhiteSpace(c: char) {
    var n := c as int;
    || n == 0x20 || n == 0xA0 || n == 0x1680
    || (0x2000 <= n <= 0x200A)
    || n == 0x202F || n == 0x205F || n == 0x3000
    || n == 0x2028 || n == 0x2029
    || (0x09 <= n <= 0x0D) || n == 0x85
  }

  /** `String.IsNullOrWhiteSpace`: null, empty, or white space only. */
  predicate IsNullOrWhiteSpace(s: Option<string>) {
    s.None? || forall i :: 0 <= i < |s.value| ==> IsWhiteSpace(s.value[i])
  }

  /** `String.IsNullOrEmpty`. */
  predicate IsNullOrEmpty(s: Option<string>) {
    s.None? || s.value == ""
  }

  /** Text that is not blank has a character that is not white space, and conversely. */
  lemma NotBlankWitness(s: string)
    ensures !IsNullOrWhiteSpace(Some(s)) <==> exists i :: 0 <= i < |s| && !IsWhiteSpace(s[i])
  {
  }
}
