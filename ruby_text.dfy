/**
 * The few pieces of Ruby's String and Integer behaviour the plugin relies on:
 * Integer#to_s, String#to_i, String#split(','), String#chomp and the UTF-8
 * bytes of a string.
 */
module RubyText {

  /** One byte of a string's encoding. */
  type Byte = b: int | 0 <= b < 256

  predicate IsDigit(c: char) { '0' <= c <= '9' }

  predicate AllDigits(s: string) { forall i :: 0 <= i < |s| ==> IsDigit(s[i]) }

  function DigitChar(d: nat): (c: char)
    requires d < 10
    ensures IsDigit(c)
  {
    ('0' as int + d) as char
  }

  function DigitValue(c: char): (d: nat)
    requires IsDigit(c)
    ensures d < 10 && DigitChar(d) == c
  {
    c as int - '0' as int
  }

  /** Integer#to_s of a non-negative value: decimal digits, most significant first. */
  function NatToString(n: nat): (s: string)
    ensures |s| > 0 && AllDigits(s)
    decreases n
  {
    if n < 10 then [DigitChar(n)] else NatToString(n / 10) + [DigitChar(n % 10)]
  }

  /** Integer#to_s: a leading minus sign for negative values. */
  function IntToString(n: int): (s: string)
    ensures n >= 0 ==> |s| > 0 && AllDigits(s)
    ensures n < 0 ==> |s| > 1 && s[0] == '-' && AllDigits(s[1..])
  {
    if n < 0 then "-" + NatToString(-n) else NatToString(n)
  }

  /** The value of a run of decimal digits. */
  function DigitsValue(s: string): nat
    requires AllDigits(s)
    decreases |s|
  {
    if s == [] then 0 else DigitsValue(s[..|s| - 1]) * 10 + DigitValue(s[|s| - 1])
  }

  /** The longest prefix of s made of decimal digits. */
  function LeadingDigits(s: string): (d: string)
    ensures AllDigits(d) && d <= s
    ensures |d| < |s| ==> !IsDigit(s[|d|])
    decreases |s|
  {
    if s == [] || !IsDigit(s[0]) then [] else [s[0]] + LeadingDigits(s[1..])
  }

  /** The characters String#to_i skips before the number (C isspace). */
  predicate IsSpace(c: char)
  {
    c == ' ' || c == '\t' || c == '\n' || c == '\U{B}' || c == '\U{C}' || c == '\r'
  }

  function SkipSpace(s: string): (t: string)
    ensures |t| <= |s| && t == s[|s| - |t|..]
    ensures |t| > 0 ==> !IsSpace(t[0])
    decreases |s|
  {
    if s != [] && IsSpace(s[0]) then SkipSpace(s[1..]) else s
  }

  predicate HasDigit(s: string) { exists i :: 0 <= i < |s| && IsDigit(s[i]) }

  lemma HasDigitSuffix(s: string, k: nat)
    requires k <= |s| && HasDigit(s[k..])
    ensures HasDigit(s)
  {
    var i :| 0 <= i < |s[k..]| && IsDigit(s[k..][i]);
    assert s[k + i] == s[k..][i];
  }

  /** The first character and the digits of a suffix of s, or of the suffix less its first character, are those of s. */
  lemma SuffixKeeps(s: string, t: string)
    requires |t| <= |s| && t == s[|s| - |t|..]
    ensures t != [] ==> t[0] in s
    ensures HasDigit(t) ==> HasDigit(s)
    ensures t != [] && HasDigit(t[1..]) ==> HasDigit(s)
  {
    var k := |s| - |t|;
    if t != [] {
      assert t[0] == s[k];
      if HasDigit(t[1..]) {
        assert t[1..] == s[k + 1..];
        HasDigitSuffix(s, k + 1);
      }
    }
    if HasDigit(t) {
      HasDigitSuffix(s, k);
    }
  }

  /** The number after the sign: an optional radix prefix "0d" or "0D", then the longest run of digits. */
  function Unsigned(t: string): (n: nat)
    ensures n != 0 ==> HasDigit(t)
  {
    if |t| >= 2 && t[0] == '0' && (t[1] == 'd' || t[1] == 'D') then DigitsValue(LeadingDigits(t[2..]))
    else
      var d := LeadingDigits(t);
      if d == [] then 0 else assert IsDigit(t[0]); DigitsValue(d)
  }

  /**
   * String#to_i in base 10, underscores between digits aside: leading white
   * space, an optional sign, an optional "0d" prefix, then the longest run of
   * digits; 0 when there are no digits.
   */
  function ToI(s: string): (r: int)
    ensures r < 0 ==> '-' in s
    ensures r != 0 ==> HasDigit(s)
  {
    var t := SkipSpace(s);
    SuffixKeeps(s, t);
    if t != [] && t[0] == '-' then -(Unsigned(t[1..]) as int)
    else if t != [] && t[0] == '+' then Unsigned(t[1..])
    else Unsigned(t)
  }

  lemma {:induction false} NatToStringRoundTrip(n: nat)
    ensures DigitsValue(NatToString(n)) == n
    decreases n
  {
    if n >= 10 {
      var s := NatToString(n);
      assert s[..|s| - 1] == NatToString(n / 10);
      NatToStringRoundTrip(n / 10);
    }
  }

  /** The digit run of d + rest is d when rest does not go on with a digit. */
  lemma {:induction false} LeadingDigitsOf(d: string, rest: string)
    requires AllDigits(d)
    requires rest == [] || !IsDigit(rest[0])
    ensures LeadingDigits(d + rest) == d
    decreases |d|
  {
    if d == [] {
      assert d + rest == rest;
    } else {
      assert (d + rest)[1..] == d[1..] + rest;
      LeadingDigitsOf(d[1..], rest);
    }
  }

  /**
   * The number read from a run of digits followed by text that does not go on
   * with a digit, nor turn a lone "0" into the prefix "0d".
   */
  lemma UnsignedOfDigits(d: string, rest: string)
    requires AllDigits(d)
    requires rest == [] || !IsDigit(rest[0])
    requires d == "0" && rest != [] ==> rest[0] != 'd' && rest[0] != 'D'
    ensures Unsigned(d + rest) == DigitsValue(d)
  {
    var s := d + rest;
    if |s| >= 2 && s[0] == '0' {
      if |d| >= 2 {
        assert s[1] == d[1];
      } else if |d| == 1 {
        assert d == "0";
        assert s[1] == rest[0];
      }
    }
    LeadingDigitsOf(d, rest);
  }

  /** String#to_i of a run of digits followed by text that does not go on with the number. */
  lemma ToIOfDigits(d: string, rest: string)
    requires |d| > 0 && AllDigits(d)
    requires rest == [] || !IsDigit(rest[0])
    requires d == "0" && rest != [] ==> rest[0] != 'd' && rest[0] != 'D'
    ensures ToI(d + rest) == DigitsValue(d)
  {
    var s := d + rest;
    assert s[0] == d[0];
    assert SkipSpace(s) == s;
    UnsignedOfDigits(d, rest);
  }

  /** String#to_i of a minus sign, a run of digits and text that does not go on with the number. */
  lemma ToIOfNegated(d: string, rest: string)
    requires AllDigits(d)
    requires rest == [] || !IsDigit(rest[0])
    requires d == "0" && rest != [] ==> rest[0] != 'd' && rest[0] != 'D'
    ensures ToI("-" + d + rest) == -(DigitsValue(d) as int)
  {
    var s := "-" + d + rest;
    assert SkipSpace(s) == s;
    assert s[1..] == d + rest;
    UnsignedOfDigits(d, rest);
  }

  /**
   * String#to_i reads back what Integer#to_s writes, also when other text
   * follows that does not start with a digit (nor with "d" or "D" after a
   * lone 0, which would make a "0d" prefix).
   */
  lemma ToIOfIntToString(n: int, rest: string)
    requires rest == [] || !IsDigit(rest[0])
    requires n == 0 && rest != [] ==> rest[0] != 'd' && rest[0] != 'D'
    ensures ToI(IntToString(n) + rest) == n
  {
    var m: nat := if n < 0 then -n else n;
    var d := NatToString(m);
    NatToStringRoundTrip(m);
    if d == "0" {
      assert DigitsValue(d) == 0;
    }
    if n < 0 {
      ToIOfNegated(d, rest);
    } else {
      ToIOfDigits(d, rest);
    }
  }

  /** The index of the first occurrence of x in s. */
  function FirstIndex(s: string, x: char): (i: nat)
    requires x in s
    ensures i < |s| && s[i] == x && x !in s[..i]
    decreases |s|
  {
    if s[0] == x then 0 else 1 + FirstIndex(s[1..], x)
  }

  lemma {:induction false} FirstIndexAt(s: string, x: char, k: nat)
    requires k < |s| && s[k] == x && x !in s[..k]
    ensures FirstIndex(s, x) == k
    decreases k
  {
    if k > 0 {
      assert s[0] in s[..k];
      assert s[1..][..k - 1] == s[1..k];
      FirstIndexAt(s[1..], x, k - 1);
    }
  }

  /** Every comma-separated field of s, empty ones included. */
  function Fields(s: string): (r: seq<string>)
    ensures |r| > 0
    decreases |s|
  {
    if ',' !in s then [s]
    else
      var c := FirstIndex(s, ',');
      [s[..c]] + Fields(s[c + 1..])
  }

  /** Drops the empty fields at the end of fs. */
  function DropTrailingEmpty(fs: seq<string>): (r: seq<string>)
    ensures r <= fs
    ensures r == [] || r[|r| - 1] != ""
    ensures forall i :: |r| <= i < |fs| ==> fs[i] == ""
    decreases |fs|
  {
    if fs != [] && fs[|fs| - 1] == "" then DropTrailingEmpty(fs[..|fs| - 1]) else fs
  }

  /** String#split(','): the comma-separated fields, without trailing empty ones. */
  function Split(s: string): (r: seq<string>)
    ensures NoComma(r)
    ensures r == [] || r[|r| - 1] != ""
  {
    FieldsJoin(s);
    DropTrailingEmpty(Fields(s))
  }

  /** Array#join(sep). */
  function Join(xs: seq<string>, sep: string): string
    decreases |xs|
  {
    if xs == [] then "" else if |xs| == 1 then xs[0] else xs[0] + sep + Join(xs[1..], sep)
  }

  predicate NoComma(xs: seq<string>) { forall i :: 0 <= i < |xs| ==> ',' !in xs[i] }

  /** Splitting at every comma loses nothing: the fields join back into s and hold no comma. */
  lemma {:induction false} FieldsJoin(s: string)
    ensures Join(Fields(s), ",") == s && NoComma(Fields(s))
    decreases |s|
  {
    if ',' in s {
      var c := FirstIndex(s, ',');
      FieldsJoin(s[c + 1..]);
      assert s == s[..c] + "," + s[c + 1..];
    }
  }

  /** Comma-free fields are recovered from their join. */
  lemma {:induction false} JoinFields(xs: seq<string>)
    requires xs != [] && NoComma(xs)
    ensures Fields(Join(xs, ",")) == xs
    decreases |xs|
  {
    if |xs| > 1 {
      var s := Join(xs, ",");
      assert s == xs[0] + "," + Join(xs[1..], ",");
      assert s[|xs[0]|] == ',';
      assert s[..|xs[0]|] == xs[0];
      FirstIndexAt(s, ',', |xs[0]|);
      var c := FirstIndex(s, ',');
      assert s[c + 1..] == Join(xs[1..], ",");
      JoinFields(xs[1..]);
    }
  }

  /** String#split(',') inverts the join of comma-free fields whose last one is not empty. */
  lemma SplitJoin(xs: seq<string>)
    requires NoComma(xs)
    requires xs == [] || xs[|xs| - 1] != ""
    ensures Split(Join(xs, ",")) == xs
  {
    if xs != [] {
      JoinFields(xs);
    }
  }

  /** String#chomp: removes one trailing "\r\n", "\n" or "\r". */
  function Chomp(s: string): (r: string)
    ensures r <= s && |s| - 2 <= |r|
  {
    if |s| >= 2 && s[|s| - 2..] == "\r\n" then s[..|s| - 2]
    else if |s| >= 1 && (s[|s| - 1] == '\n' || s[|s| - 1] == '\r') then s[..|s| - 1]
    else s
  }

  /** The UTF-8 encoding of one Unicode scalar value. */
  function Utf8Char(c: char): (b: seq<Byte>)
    ensures 1 <= |b| <= 4
    ensures (c as int < 0x80) == (|b| == 1)
  {
    var n := c as int;
    if n < 0x80 then [n]
    else if n < 0x800 then [0xC0 + n / 64, 0x80 + n % 64]
    else if n < 0x1_0000 then [0xE0 + n / 4096, 0x80 + n / 64 % 64, 0x80 + n % 64]
    else [0xF0 + n / 262144, 0x80 + n / 4096 % 64, 0x80 + n / 64 % 64, 0x80 + n % 64]
  }

  /** The bytes of a Ruby UTF-8 string. */
  function Utf8(s: string): (b: seq<Byte>)
    ensures |b| >= |s|
    decreases |s|
  {
    if s == [] then [] else Utf8Char(s[0]) + Utf8(s[1..])
  }
}
