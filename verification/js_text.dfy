/**
 * The parts of JavaScript's string semantics that the command-line front end
 * relies on: the character classes of its regular expressions (`\s`, and the
 * line terminators that `.` and `^` in multiline mode care about) and the
 * UTF-16 code units that string comparison works on.
 *
 * A Dafny `char` is a Unicode scalar value; a JavaScript string is a sequence
 * of UTF-16 code units. `Utf16` and `Units` relate the two.
 */
module JsText {

  /** The line terminators of ECMAScript: LF, CR, LINE SEPARATOR, PARAGRAPH SEPARATOR. */
  predicate IsLineTerminator(c: char) {
    c == '\n' || c == '\r' || c as int == 0x2028 || c as int == 0x2029
  }

  /**
   * The regular-expression class `\s`: ECMAScript WhiteSpace (TAB, VT, FF, the
   * space separators of category Zs, ZERO WIDTH NO-BREAK SPACE) and the line
   * terminators.
   */
  predicate IsWhiteSpace(c: char) {
    var n := c as int;
    || n == 0x09 || n == 0x0B || n == 0x0C || n == 0x20 || n == 0xA0
    || n == 0x1680 || (0x2000 <= n <= 0x200A) || n == 0x202F || n == 0x205F
    || n == 0x3000 || n == 0xFEFF
    || IsLineTerminator(c)
  }

  /** The UTF-16 encoding of one character: one code unit, or a surrogate pair. */
  function Utf16(c: char): (u: seq<int>)
    ensures |u| == 1 <==> c as int < 0x1_0000
    ensures |u| == 1 || |u| == 2
    ensures forall k :: 0 <= k < |u| ==> 0 <= u[k] < 0x1_0000
    // a lone unit is never a surrogate; a pair starts with a high surrogate
    ensures |u| == 1 ==> !(0xD800 <= u[0] < 0xE000)
    ensures |u| == 2 ==> 0xD800 <= u[0] < 0xDC00 && 0xDC00 <= u[1] < 0xE000
    // decoding the units gives the character back
    ensures |u| == 1 ==> u[0] == c as int
    ensures |u| == 2 ==> 0x1_0000 + (u[0] - 0xD800) * 0x400 + (u[1] - 0xDC00) == c as int
  {
    var n := c as int;
    if n < 0x1_0000 then [n]
    else [0xD800 + (n - 0x1_0000) / 0x400, 0xDC00 + (n - 0x1_0000) % 0x400]
  }

  /** Two characters with the same UTF-16 encoding are the same character. */
  lemma {:induction false} Utf16Injective(c: char, d: char)
    requires Utf16(c) == Utf16(d)
    ensures c == d
  {
    var m, n := c as int, d as int;
    if m >= 0x1_0000 {
      var x, y := m - 0x1_0000, n - 0x1_0000;
      assert x / 0x400 == y / 0x400 && x % 0x400 == y % 0x400;
      assert x == 0x400 * (x / 0x400) + x % 0x400;
      assert y == 0x400 * (y / 0x400) + y % 0x400;
    }
  }

  /** UTF-16 is prefix-free: the first code unit says how long the encoding is. */
  lemma {:induction false} Utf16PrefixFree(c: char, d: char, s: seq<int>, t: seq<int>)
    requires Utf16(c) + s == Utf16(d) + t
    ensures c == d && s == t
  {
    var u, v := Utf16(c), Utf16(d);
    assert (u + s)[0] == u[0] && (v + t)[0] == v[0];
    assert |u| == |v|;
    assert u == (u + s)[..|u|] && v == (v + t)[..|v|];
    Utf16Injective(c, d);
    assert s == (u + s)[|u|..] && t == (v + t)[|v|..];
  }

  /** The sequence of UTF-16 code units of a string, as JavaScript stores it. */
  function Units(s: string): (u: seq<int>)
    ensures |u| >= |s|
    ensures |u| == 0 <==> s == ""
  {
    if s == "" then [] else Utf16(s[0]) + Units(s[1..])
  }

  /** Distinct strings have distinct code-unit sequences. */
  lemma {:induction false} UnitsInjective(a: string, b: string)
    requires Units(a) == Units(b)
    ensures a == b
  {
    if a != "" {
      assert b != "";
      Utf16PrefixFree(a[0], b[0], Units(a[1..]), Units(b[1..]));
      UnitsInjective(a[1..], b[1..]);
      assert a == [a[0]] + a[1..] && b == [b[0]] + b[1..];
    }
  }
}
