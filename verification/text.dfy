/** Character classes and string helpers used by both halves of the editor:
    the JavaScript front end (trim, case folding, substring search, number
    formatting) and the Rust loader (trim, control characters). */
module Text {

  /** The characters JavaScript's `String.prototype.trim` removes: WhiteSpace
      (tab, vertical tab, form feed, space, no-break space, byte order mark and
      the Unicode space separators) and LineTerminator. */
  predicate IsJsWhitespace(c: char)
  {
    var n := c as int;
    (0x09 <= n <= 0x0D) || n == 0x20 || n == 0xA0 || n == 0x1680 || (0x2000 <= n <= 0x200A)
    || n == 0x2028 || n == 0x2029 || n == 0x202F || n == 0x205F || n == 0x3000 || n == 0xFEFF
  }

  /** The characters Rust's `char::is_whitespace` accepts (the Unicode
      White_Space property), which `str::trim` removes. */
  predicate IsRustWhitespace(c: char)
  {
    var n := c as int;
    (0x09 <= n <= 0x0D) || n == 0x20 || n == 0x85 || n == 0xA0 || n == 0x1680 || (0x2000 <= n <= 0x200A)
    || n == 0x2028 || n == 0x2029 || n == 0x202F || n == 0x205F || n == 0x3000
  }

  /** Drops the leading characters that satisfy `ws`. */
  function TrimStart(s: string, ws: char -> bool): string
    decreases |s|
  {
    if |s| > 0 && ws(s[0]) then TrimStart(s[1..], ws) else s
  }

  /** Drops the trailing characters that satisfy `ws`. */
  function TrimEnd(s: string, ws: char -> bool): string
    decreases |s|
  {
    if |s| > 0 && ws(s[|s| - 1]) then TrimEnd(s[..|s| - 1], ws) else s
  }

  /** Drops leading and trailing characters that satisfy `ws`. */
  function Trim(s: string, ws: char -> bool): string
  {
    TrimEnd(TrimStart(s, ws), ws)
  }

  /** `TrimStart` keeps a suffix, drops only characters in `ws`, and stops
      at the first character outside it. */
  lemma {:induction false} TrimStartSpec(s: string, ws: char -> bool)
    ensures var r := TrimStart(s, ws);
            |r| <= |s| && r == s[|s| - |r|..]
            && (|r| > 0 ==> !ws(r[0]))
            && forall k :: 0 <= k < |s| - |r| ==> ws(s[k])
    decreases |s|
  {
    if |s| > 0 && ws(s[0]) {
      TrimStartSpec(s[1..], ws);
    }
  }

  /** `TrimEnd` keeps a prefix, drops only characters in `ws`, and stops at
      the last character outside it. */
  lemma {:induction false} TrimEndSpec(s: string, ws: char -> bool)
    ensures var r := TrimEnd(s, ws);
            |r| <= |s| && r == s[..|r|]
            && (|r| > 0 ==> !ws(r[|r| - 1]))
            && forall k :: |r| <= k < |s| ==> ws(s[k])
    decreases |s|
  {
    if |s| > 0 && ws(s[|s| - 1]) {
      TrimEndSpec(s[..|s| - 1], ws);
    }
  }

  /** The trimmed text is a piece of the original that neither starts nor
      ends with a character in `ws`, and it is empty exactly when every
      character is in `ws`. */
  lemma TrimSpec(s: string, ws: char -> bool)
    ensures var r := Trim(s, ws);
            |r| <= |s|
            && (|r| > 0 ==> !ws(r[0]) && !ws(r[|r| - 1]))
            && (r == [] <==> forall k :: 0 <= k < |s| ==> ws(s[k]))
  {
    var a := TrimStart(s, ws);
    TrimStartSpec(s, ws);
    TrimEndSpec(a, ws);
    var r := TrimEnd(a, ws);
    assert |r| > 0 ==> r[0] == a[0];
    if r == [] {
      assert a == [];
    }
  }

  /** `String.prototype.trim`: the text without its leading and trailing whitespace. */
  function JsTrim(s: string): (r: string)
    ensures |r| <= |s|
    ensures r == "" || (!IsJsWhitespace(r[0]) && !IsJsWhitespace(r[|r| - 1]))
    ensures r == "" <==> forall k :: 0 <= k < |s| ==> IsJsWhitespace(s[k])
  {
    TrimSpec(s, IsJsWhitespace);
    Trim(s, IsJsWhitespace)
  }

  /** Rust's `str::trim`: the text without its leading and trailing whitespace. */
  function RustTrim(s: string): (r: string)
    ensures |r| <= |s|
    ensures r == "" || (!IsRustWhitespace(r[0]) && !IsRustWhitespace(r[|r| - 1]))
    ensures r == "" <==> forall k :: 0 <= k < |s| ==> IsRustWhitespace(s[k])
  {
    TrimSpec(s, IsRustWhitespace);
    Trim(s, IsRustWhitespace)
  }

  /** Case folding of one character; only the ASCII letters are folded. */
  function LowerChar(c: char): char
  {
    if 'A' <= c <= 'Z' then (c as int + 32) as char else c
  }

  /** `String.prototype.toLowerCase`, restricted to ASCII folding. */
  function Lower(s: string): (r: string)
    ensures |r| == |s|
    ensures forall k :: 0 <= k < |s| ==> r[k] == LowerChar(s[k])
  {
    seq(|s|, k requires 0 <= k < |s| => LowerChar(s[k]))
  }

  /** Folding folded text changes nothing. */
  lemma LowerIdempotent(s: string)
    ensures Lower(Lower(s)) == Lower(s)
  {
  }

  /** `s` case-folds to the lower-case word `word`: `Lower(s) == word`,
      stated character by character. */
  predicate FoldsTo(s: string, word: string)
  {
    |s| == |word| && forall k :: 0 <= k < |s| ==> LowerChar(s[k]) == word[k]
  }

  lemma FoldsToIsLower(s: string, word: string)
    ensures FoldsTo(s, word) <==> Lower(s) == word
  {
  }

  /** `needle` occurs in `hay` starting at position `i`. */
  predicate OccursAt(hay: string, needle: string, i: nat)
  {
    i + |needle| <= |hay| && hay[i..i + |needle|] == needle
  }

  /** `String.prototype.includes`. */
  predicate Contains(hay: string, needle: string)
  {
    exists i: nat :: i <= |hay| && OccursAt(hay, needle, i)
  }

  /** The character of a decimal digit. */
  function Digit(d: nat): (c: char)
    requires d < 10
    ensures '0' <= c <= '9'
  {
    (0x30 + d) as char
  }

  predicate IsDigits(s: string)
  {
    forall k :: 0 <= k < |s| ==> '0' <= s[k] <= '9'
  }

  /** The decimal rendering of a natural number, as a JavaScript template
      literal prints it. */
  function Decimal(n: nat): (r: string)
    ensures |r| >= 1 && IsDigits(r)
    ensures |r| > 1 ==> r[0] != '0'
  {
    if n < 10 then [Digit(n)] else Decimal(n / 10) + [Digit(n % 10)]
  }

  /** The number a string of decimal digits denotes. */
  function DecimalValue(s: string): nat
    requires IsDigits(s)
  {
    if |s| == 0 then 0 else 10 * DecimalValue(s[..|s| - 1]) + (s[|s| - 1] as int - 0x30)
  }

  /** Reading back a rendered number gives the number. */
  lemma {:induction false} DecimalRoundTrip(n: nat)
    ensures DecimalValue(Decimal(n)) == n
  {
    if n >= 10 {
      DecimalRoundTrip(n / 10);
      var d := Decimal(n);
      assert d[..|d| - 1] == Decimal(n / 10);
    }
  }
}
