/** The PHP built-ins the handlers rely on, with PHP's own semantics:
    `empty()`, truthiness, `??`, `LIKE '%term%'` as a substring test,
    `basename()`, integer-to-string conversion and `strlen()` (a byte count). */
module Php {
  import opened Common

  /** `empty($s)` on a string: true for "" and for "0". */
  predicate Empty(s: string) {
    s == "" || s == "0"
  }

  /** Truthiness of a nullable string column: NULL, "" and "0" are falsy. */
  predicate Truthy(o: Option<string>) {
    o.Some? && !Empty(o.value)
  }

  /** `$o ?? $default`. */
  function Coalesce(o: Option<string>, default: string): string {
    if o.Some? then o.value else default
  }

  // ---------------------------------------------------------------- substring

  /** `needle` occurs somewhere in `hay`. */
  ghost predicate IsSubstring(needle: string, hay: string) {
    exists i :: 0 <= i <= |hay| && needle <= hay[i..]
  }

  /** Executable substring test: `hay LIKE '%needle%'` without wildcards
      inside `needle` and without case folding. */
  predicate Contains(hay: string, needle: string)
    decreases |hay|
  {
    needle <= hay || (|hay| > 0 && Contains(hay[1..], needle))
  }

  lemma {:induction false} ContainsIsSubstring(hay: string, needle: string)
    ensures Contains(hay, needle) <==> IsSubstring(needle, hay)
  {
    if needle <= hay {
      assert hay[0..] == hay;
    } else if |hay| == 0 {
      assert forall i :: 0 <= i <= |hay| ==> hay[i..] == hay;
    } else {
      ContainsIsSubstring(hay[1..], needle);
      if IsSubstring(needle, hay) {
        var i :| 0 <= i <= |hay| && needle <= hay[i..];
        assert hay[0..] == hay;  // so i > 0
        assert hay[1..][i - 1..] == hay[i..];
      }
      if IsSubstring(needle, hay[1..]) {
        var i :| 0 <= i <= |hay[1..]| && needle <= hay[1..][i..];
        assert hay[1..][i..] == hay[i + 1..];
      }
    }
  }

  // ----------------------------------------------------------------- basename

  /** `p` without its trailing '/' characters. */
  function TrimTrailingSlashes(p: string): (r: string)
    ensures r <= p
    ensures |r| == 0 || r[|r| - 1] != '/'
    ensures forall k :: |r| <= k < |p| ==> p[k] == '/'
  {
    if |p| > 0 && p[|p| - 1] == '/' then TrimTrailingSlashes(p[..|p| - 1]) else p
  }

  /** The longest suffix of `p` that holds no '/'. */
  function AfterLastSlash(p: string): (r: string)
    ensures '/' !in r
    ensures |r| <= |p| && r == p[|p| - |r|..]
    ensures |r| == |p| || p[|p| - |r| - 1] == '/'
  {
    if |p| == 0 then ""
    else if p[|p| - 1] == '/' then ""
    else AfterLastSlash(p[..|p| - 1]) + [p[|p| - 1]]
  }

  /** PHP `basename($path)` for '/'-separated paths (no suffix argument). */
  function Basename(path: string): string {
    AfterLastSlash(TrimTrailingSlashes(path))
  }

  // ------------------------------------------------------ integers as strings

  function DigitChar(d: nat): (c: char)
    requires d < 10
    ensures '0' <= c <= '9'
  {
    ('0' as int + d) as char
  }

  function DigitValue(c: char): nat
    requires '0' <= c <= '9'
  {
    c as int - '0' as int
  }

  predicate AllDigits(s: string) {
    forall k :: 0 <= k < |s| ==> '0' <= s[k] <= '9'
  }

  /** Decimal form of a natural number, as PHP's string conversion writes it. */
  function NatToString(n: nat): (s: string)
    ensures |s| >= 1 && AllDigits(s)
    ensures |s| > 1 ==> s[0] != '0'
    decreases n
  {
    if n < 10 then [DigitChar(n)] else NatToString(n / 10) + [DigitChar(n % 10)]
  }

  /** Decimal form of an integer (`(string)$i`, also what PDO sends for an int). */
  function IntToString(i: int): (s: string)
    ensures |s| >= 1
    ensures i < 0 <==> s[0] == '-'
  {
    if i < 0 then "-" + NatToString(-i) else NatToString(i)
  }

  /** The value of a string of decimal digits. */
  function ParseDigits(s: string): nat
    requires AllDigits(s)
  {
    if |s| == 0 then 0 else ParseDigits(s[..|s| - 1]) * 10 + DigitValue(s[|s| - 1])
  }

  /** Reading back what `NatToString` wrote gives the number again. */
  lemma {:induction false} NatToStringRoundTrip(n: nat)
    ensures ParseDigits(NatToString(n)) == n
    decreases n
  {
    if n >= 10 {
      NatToStringRoundTrip(n / 10);
      var s := NatToString(n);
      assert s[..|s| - 1] == NatToString(n / 10);
    }
  }

  /** Distinct numbers are written differently, so a URL parameter built from
      an id identifies that id. */
  lemma NatToStringInjective(m: nat, n: nat)
    requires NatToString(m) == NatToString(n)
    ensures m == n
  {
    NatToStringRoundTrip(m);
    NatToStringRoundTrip(n);
  }

  // ------------------------------------------------------------------ strlen

  /** Number of bytes `c` takes in UTF-8. */
  function Utf8Width(c: char): nat {
    if c as int < 0x80 then 1
    else if c as int < 0x800 then 2
    else if c as int < 0x10000 then 3
    else 4
  }

  /** PHP `strlen()` of a UTF-8 string: its length in bytes. */
  function Utf8Length(s: string): (n: nat)
    ensures |s| <= n <= 4 * |s|
  {
    if |s| == 0 then 0 else Utf8Length(s[..|s| - 1]) + Utf8Width(s[|s| - 1])
  }

  /** For ASCII text the byte length is the character count. */
  lemma {:induction false} AsciiLength(s: string)
    requires forall k :: 0 <= k < |s| ==> s[k] as int < 0x80
    ensures Utf8Length(s) == |s|
  {
    if |s| > 0 {
      AsciiLength(s[..|s| - 1]);
    }
  }
}
