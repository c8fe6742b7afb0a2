/** The string primitives the chat-command handler relies on: Rust's `str::trim_end`
    (Unicode White_Space), `str::parse::<u8>` and the decimal `Display` of an integer
    (used when the handler lists player ids as " ID=<n> <name>"). */
module Text {
  import opened Wrappers

  /** Rust's `char::is_whitespace`: the Unicode White_Space property. */
  predicate IsWhitespace(c: char) {
    var n := c as int;
    (0x09 <= n <= 0x0D) || n == 0x20 || n == 0x85 || n == 0xA0 || n == 0x1680
    || (0x2000 <= n <= 0x200A) || n == 0x2028 || n == 0x2029 || n == 0x202F
    || n == 0x205F || n == 0x3000
  }

  /** A character encoded in one UTF-8 byte. */
  predicate IsAscii(c: char) {
    (c as int) < 0x80
  }

  predicate IsDigit(c: char) {
    '0' <= c <= '9'
  }

  predicate AllDigits(s: string) {
    forall i :: 0 <= i < |s| ==> IsDigit(s[i])
  }

  /** `str::trim_end`: drop the trailing whitespace. */
  function TrimEnd(s: string): (r: string)
    ensures r <= s
    ensures r == [] || !IsWhitespace(r[|r| - 1])
    ensures forall i :: |r| <= i < |s| ==> IsWhitespace(s[i])
  {
    if s != [] && IsWhitespace(s[|s| - 1]) then TrimEnd(s[..|s| - 1]) else s
  }

  /** Trimming never cuts into a prefix that itself ends in a non-whitespace character,
      so a command that starts with "mute" still starts with "mute" once trimmed. */
  lemma TrimEndKeepsPrefix(s: string, p: string)
    requires p <= s && p != [] && !IsWhitespace(p[|p| - 1])
    ensures p <= TrimEnd(s)
  {
    var r := TrimEnd(s);
    assert s[|p| - 1] == p[|p| - 1];
    assert p == s[..|p|] == r[..|p|];
  }

  /** A string that ends in a non-whitespace character is its own trim. */
  lemma TrimEndFixesTrimmed(s: string)
    requires s != [] && !IsWhitespace(s[|s| - 1])
    ensures TrimEnd(s) == s
  {
  }

  /** The value of a string of decimal digits, most significant first. */
  function DigitsValue(ds: string): nat
    requires AllDigits(ds)
  {
    if ds == [] then 0
    else DigitsValue(ds[..|ds| - 1]) * 10 + (ds[|ds| - 1] as int - '0' as int)
  }

  /** `str::parse::<u8>`: an optional leading '+', then one or more ASCII digits whose
      value fits in a byte (leading zeros allowed); anything else is an error. */
  function ParseU8(s: string): (r: Option<u8>)
    ensures r.Some? ==> s != [] && forall i :: 0 <= i < |s| ==> IsDigit(s[i]) || (i == 0 && s[i] == '+')
    ensures r.Some? ==> !IsWhitespace(s[0]) && !IsWhitespace(s[|s| - 1])
  {
    var ds := if s != [] && s[0] == '+' then s[1..] else s;
    if ds != [] && AllDigits(ds) && DigitsValue(ds) < 0x100 then Some(DigitsValue(ds)) else None
  }

  /** The decimal `Display` of a natural number. */
  function Decimal(n: nat): (r: string)
    ensures r != [] && AllDigits(r)
    ensures DigitsValue(r) == n
  {
    var last := ['0' + ((n % 10) as char)];
    if n < 10 then last else Decimal(n / 10) + last
  }

  /** Every id the handler displays parses back to itself, with or without a '+'. */
  lemma ParseDecimal(n: u8)
    ensures ParseU8(Decimal(n)) == Some(n)
    ensures ParseU8("+" + Decimal(n)) == Some(n)
  {
    var d := Decimal(n);
    assert ("+" + d)[1..] == d;
  }

  /** A value of 256 or more is an error, not a wrap-around. */
  lemma ParseRejectsOverflow(ds: string)
    requires ds != [] && AllDigits(ds) && DigitsValue(ds) >= 0x100
    ensures ParseU8(ds) == None
    ensures ParseU8("+" + ds) == None
  {
    assert ("+" + ds)[1..] == ds;
  }
}
