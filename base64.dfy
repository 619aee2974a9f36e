/**
 * Base64 as Ruby's Base64.encode64 produces it: the alphabet and padding of
 * section 4 of RFC 4648, with the output cut into lines of 60 characters
 * (45 input bytes), each ended by "\n", as section 6.8 of RFC 2045 asks.
 * A decoder is given as the encoder's inverse.
 */
module Base64 {
  import opened Wrappers
  import RubyText

  type Byte = RubyText.Byte

  /** A 6-bit value, the unit of Base64. */
  type Sextet = v: int | 0 <= v < 64

  /** The character for a 6-bit value. */
  function Char(v: Sextet): (c: char)
    ensures c != '=' && c != '\n' && c != '\r'
  {
    if v < 26 then ('A' as int + v) as char
    else if v < 52 then ('a' as int + (v - 26)) as char
    else if v < 62 then ('0' as int + (v - 52)) as char
    else if v == 62 then '+'
    else '/'
  }

  /** The 6-bit value of an alphabet character; None for anything else, padding included. */
  function Value(c: char): Option<Sextet>
  {
    if 'A' <= c <= 'Z' then Some(c as int - 'A' as int)
    else if 'a' <= c <= 'z' then Some(c as int - 'a' as int + 26)
    else if '0' <= c <= '9' then Some(c as int - '0' as int + 52)
    else if c == '+' then Some(62)
    else if c == '/' then Some(63)
    else None
  }

  lemma ValueOfChar(v: Sextet)
    ensures Value(Char(v)) == Some(v)
  {
  }

  /** Three bytes as four characters. */
  function EncodeGroup(b0: Byte, b1: Byte, b2: Byte): seq<char>
  {
    [Char(b0 / 4), Char(b0 % 4 * 16 + b1 / 16), Char(b1 % 16 * 4 + b2 / 64), Char(b2 % 64)]
  }

  /** Base64 of a byte string without line breaks, padded with '=' to a multiple of four. */
  function Encode(b: seq<Byte>): (s: seq<char>)
    ensures |b| > 0 ==> |s| >= 4
    ensures |b| == 0 ==> s == []
    ensures '\n' !in s && '\r' !in s
    decreases |b|
  {
    if |b| == 0 then []
    else if |b| == 1 then [Char(b[0] / 4), Char(b[0] % 4 * 16), '=', '=']
    else if |b| == 2 then [Char(b[0] / 4), Char(b[0] % 4 * 16 + b[1] / 16), Char(b[1] % 16 * 4), '=']
    else EncodeGroup(b[0], b[1], b[2]) + Encode(b[3..])
  }

  /** Four characters without padding as three bytes. */
  function DecodeGroup(q: seq<char>): Option<seq<Byte>>
    requires |q| == 4
  {
    match (Value(q[0]), Value(q[1]), Value(q[2]), Value(q[3]))
    case (Some(v0), Some(v1), Some(v2), Some(v3)) =>
      Some([v0 as int * 4 + v1 as int / 16, v1 as int % 16 * 16 + v2 as int / 4, v2 as int % 4 * 64 + v3 as int])
    case _ => None
  }

  /** The last group of four, which may end in one or two '='. */
  function DecodeLast(q: seq<char>): Option<seq<Byte>>
    requires |q| == 4
  {
    if q[2] == '=' && q[3] == '=' then
      match (Value(q[0]), Value(q[1]))
      case (Some(v0), Some(v1)) => Some([v0 as int * 4 + v1 as int / 16])
      case _ => None
    else if q[3] == '=' then
      match (Value(q[0]), Value(q[1]), Value(q[2]))
      case (Some(v0), Some(v1), Some(v2)) => Some([v0 as int * 4 + v1 as int / 16, v1 as int % 16 * 16 + v2 as int / 4])
      case _ => None
    else DecodeGroup(q)
  }

  /** Decoding of unbroken Base64 text; None when it is not of that form. */
  function Decode(s: seq<char>): Option<seq<Byte>>
    decreases |s|
  {
    if |s| == 0 then Some([])
    else if |s| < 4 then None
    else if |s| == 4 then DecodeLast(s)
    else
      match DecodeGroup(s[..4])
      case None => None
      case Some(head) =>
        match Decode(s[4..])
        case None => None
        case Some(tail) => Some(head + tail)
  }

  lemma GroupRoundTrip(b0: Byte, b1: Byte, b2: Byte)
    ensures DecodeGroup(EncodeGroup(b0, b1, b2)) == Some([b0, b1, b2])
  {
    var v0, v1, v2, v3 := b0 / 4, b0 % 4 * 16 + b1 / 16, b1 % 16 * 4 + b2 / 64, b2 % 64;
    ValueOfChar(v0);
    ValueOfChar(v1);
    ValueOfChar(v2);
    ValueOfChar(v3);
    assert v1 / 16 == b0 % 4 && v1 % 16 == b1 / 16;
    assert v2 / 4 == b1 % 16 && v2 % 4 == b2 / 64;
  }

  lemma DecodeOne(b0: Byte)
    ensures Decode(Encode([b0])) == Some([b0])
  {
    var v0, v1 := b0 / 4, b0 % 4 * 16;
    ValueOfChar(v0);
    ValueOfChar(v1);
    assert v1 / 16 == b0 % 4;
  }

  lemma DecodeTwo(b0: Byte, b1: Byte)
    ensures Decode(Encode([b0, b1])) == Some([b0, b1])
  {
    var v0, v1, v2 := b0 / 4, b0 % 4 * 16 + b1 / 16, b1 % 16 * 4;
    ValueOfChar(v0);
    ValueOfChar(v1);
    ValueOfChar(v2);
    assert v1 / 16 == b0 % 4 && v1 % 16 == b1 / 16;
    assert v2 / 4 == b1 % 16;
  }

  lemma DecodeThree(b0: Byte, b1: Byte, b2: Byte)
    ensures Decode(Encode([b0, b1, b2])) == Some([b0, b1, b2])
  {
    var s := Encode([b0, b1, b2]);
    assert [b0, b1, b2][3..] == [];
    assert s == EncodeGroup(b0, b1, b2);
    GroupRoundTrip(b0, b1, b2);
    assert s[3] != '=';
    assert Decode(s) == DecodeLast(s);
  }

  /** Decoding inverts encoding for up to three bytes, padded or not. */
  lemma DecodeEncodeShort(b: seq<Byte>)
    requires |b| <= 3
    ensures Decode(Encode(b)) == Some(b)
  {
    if |b| == 1 {
      OneByte(b);
    } else if |b| == 2 {
      TwoBytes(b);
    } else if |b| == 3 {
      ThreeBytes(b);
    }
  }

  lemma OneByte(b: seq<Byte>)
    requires |b| == 1
    ensures Decode(Encode(b)) == Some(b)
  {
    assert b == [b[0]];
    DecodeOne(b[0]);
  }

  lemma TwoBytes(b: seq<Byte>)
    requires |b| == 2
    ensures Decode(Encode(b)) == Some(b)
  {
    assert b == [b[0], b[1]];
    DecodeTwo(b[0], b[1]);
  }

  lemma ThreeBytes(b: seq<Byte>)
    requires |b| == 3
    ensures Decode(Encode(b)) == Some(b)
  {
    assert b == [b[0], b[1], b[2]];
    DecodeThree(b[0], b[1], b[2]);
  }

  /** Decoding inverts encoding (section 4 of RFC 4648). */
  lemma {:induction false} DecodeEncode(b: seq<Byte>)
    ensures Decode(Encode(b)) == Some(b)
    decreases |b|
  {
    if |b| <= 3 {
      DecodeEncodeShort(b);
    } else {
      assert b == [b[0], b[1], b[2]] + b[3..];
      DecodeEncode(b[3..]);
      DecodeEncodeGroup(b[0], b[1], b[2], b[3..]);
    }
  }

  /** A group of three bytes in front of bytes that round-trip also round-trips. */
  lemma DecodeEncodeGroup(b0: Byte, b1: Byte, b2: Byte, t: seq<Byte>)
    requires Decode(Encode(t)) == Some(t)
    ensures Decode(Encode([b0, b1, b2] + t)) == Some([b0, b1, b2] + t)
  {
    var b := [b0, b1, b2] + t;
    assert b[3..] == t;
    var g := EncodeGroup(b0, b1, b2);
    assert Encode(b) == g + Encode(t);
    GroupRoundTrip(b0, b1, b2);
    if t == [] {
      assert b == [b0, b1, b2];
      DecodeThree(b0, b1, b2);
    } else {
      DecodePrefix(g, Encode(t), [b0, b1, b2], t);
    }
  }

  /** A full group in front of decodable text decodes to its bytes in front. */
  lemma DecodePrefix(g: seq<char>, t: seq<char>, head: seq<Byte>, tail: seq<Byte>)
    requires |g| == 4 && |t| >= 4
    requires DecodeGroup(g) == Some(head) && Decode(t) == Some(tail)
    ensures Decode(g + t) == Some(head + tail)
  {
    var s := g + t;
    assert s[..4] == g;
    assert s[4..] == t;
  }

  /** Encoding a whole number of groups and then the rest is encoding the concatenation. */
  lemma {:induction false} EncodeAppend(a: seq<Byte>, c: seq<Byte>)
    requires |a| % 3 == 0
    ensures Encode(a + c) == Encode(a) + Encode(c)
    decreases |a|
  {
    if |a| > 0 {
      assert |a| >= 3;
      var ac := a + c;
      assert ac[3..] == a[3..] + c;
      assert ac[0] == a[0] && ac[1] == a[1] && ac[2] == a[2];
      EncodeAppend(a[3..], c);
      assert Encode(ac) == EncodeGroup(a[0], a[1], a[2]) + Encode(a[3..] + c);
      assert Encode(a) == EncodeGroup(a[0], a[1], a[2]) + Encode(a[3..]);
      assert Encode(ac) == Encode(a) + Encode(c);
    } else {
      assert a + c == c;
    }
  }

  /** The number of input bytes per output line of Base64.encode64. */
  const LineBytes := 45

  /** Base64.encode64: Encode cut into 60-character lines, each ended by "\n"; "" for no input. */
  function Encode64(b: seq<Byte>): (s: string)
    ensures b == [] <==> s == []
    ensures b != [] ==> |s| >= 5 && s[|s| - 1] == '\n'
    decreases |b|
  {
    if |b| == 0 then ""
    else if |b| <= LineBytes then Encode(b) + "\n"
    else Encode(b[..LineBytes]) + "\n" + Encode64(b[LineBytes..])
  }

  /** s without its line breaks. */
  function Unwrap(s: string): (r: string)
    ensures '\n' !in r
    decreases |s|
  {
    if s == [] then [] else (if s[0] == '\n' then [] else [s[0]]) + Unwrap(s[1..])
  }

  lemma {:induction false} UnwrapAppend(x: string, y: string)
    ensures Unwrap(x + y) == Unwrap(x) + Unwrap(y)
    decreases |x|
  {
    if x != [] {
      assert (x + y)[1..] == x[1..] + y;
      assert (x + y)[0] == x[0];
      UnwrapAppend(x[1..], y);
      assert Unwrap(x + y) == (if x[0] == '\n' then [] else [x[0]]) + Unwrap(x[1..] + y);
    } else {
      assert x + y == y;
    }
  }

  lemma {:induction false} UnwrapNoBreak(x: string)
    requires '\n' !in x
    ensures Unwrap(x) == x
    decreases |x|
  {
    if x != [] {
      assert x[0] in x;
      assert forall c :: c in x[1..] ==> c in x;
      UnwrapNoBreak(x[1..]);
      assert Unwrap(x) == [x[0]] + x[1..];
    }
  }

  /** Every line of Base64.encode64 ends in "\n" after a character that is not "\r". */
  lemma {:induction false} Encode64Ends(b: seq<Byte>)
    requires b != []
    ensures var s := Encode64(b); |s| >= 2 && s[|s| - 1] == '\n' && s[|s| - 2] != '\r'
    decreases |b|
  {
    var s := Encode64(b);
    if |b| > LineBytes {
      var rest := Encode64(b[LineBytes..]);
      Encode64Ends(b[LineBytes..]);
      assert s == (Encode(b[..LineBytes]) + "\n") + rest;
      assert s[|s| - 1] == rest[|rest| - 1] && s[|s| - 2] == rest[|rest| - 2];
    } else {
      var e := Encode(b);
      assert s == e + "\n";
      assert s[|s| - 2] == e[|e| - 1];
      assert e[|e| - 1] in e;
    }
  }

  /** String#chomp takes exactly the final "\n" off Base64.encode64. */
  lemma ChompEncode64(b: seq<Byte>)
    requires b != []
    ensures RubyText.Chomp(Encode64(b)) + "\n" == Encode64(b)
  {
    var s := Encode64(b);
    Encode64Ends(b);
    assert s[|s| - 2..][0] == s[|s| - 2];
    assert RubyText.Chomp(s) == s[..|s| - 1];
  }

  /** A line and its break, without the break. */
  lemma UnwrapLine(x: string)
    requires '\n' !in x
    ensures Unwrap(x + "\n") == x
  {
    UnwrapAppend(x, "\n");
    UnwrapNoBreak(x);
    assert Unwrap("\n") == [];
  }

  /** Removing the line breaks from Base64.encode64 gives the unbroken encoding. */
  lemma {:induction false} UnwrapEncode64(b: seq<Byte>)
    ensures Unwrap(Encode64(b)) == Encode(b)
    decreases |b|
  {
    if |b| > 0 {
      if |b| <= LineBytes {
        UnwrapLine(Encode(b));
      } else {
        var first, rest := b[..LineBytes], b[LineBytes..];
        var head := Encode(first);
        assert Encode64(b) == (head + "\n") + Encode64(rest);
        UnwrapAppend(head + "\n", Encode64(rest));
        UnwrapLine(head);
        UnwrapEncode64(rest);
        assert first + rest == b;
        EncodeAppend(first, rest);
      }
    }
  }

  /** Chomped Base64.encode64 text, once its line breaks are removed, decodes to the input. */
  lemma ChompedDecodes(b: seq<Byte>)
    ensures Decode(Unwrap(RubyText.Chomp(Encode64(b)))) == Some(b)
  {
    var t := RubyText.Chomp(Encode64(b));
    assert Unwrap(t) == Encode(b) by {
      UnwrapEncode64(b);
      if b != [] {
        ChompEncode64(b);
        UnwrapAppend(t, "\n");
        assert Unwrap("\n") == [];
      }
    }
    DecodeEncode(b);
  }

  /** Input of more than 45 bytes leaves a line break inside the chomped text. */
  lemma ChompedKeepsBreak(b: seq<Byte>)
    requires |b| > LineBytes
    ensures '\n' in RubyText.Chomp(Encode64(b))
  {
    var s := Encode64(b);
    var t := RubyText.Chomp(s);
    ChompEncode64(b);
    var head := Encode(b[..LineBytes]);
    var rest := Encode64(b[LineBytes..]);
    Encode64Ends(b[LineBytes..]);
    assert s == head + "\n" + rest;
    assert s[|head|] == '\n';
    assert t[|head|] == '\n';
  }

  /**
   * Base64.encode64(...).chomp: the text without its line breaks decodes
   * back to the input; an input of at most 45 bytes gives one unbroken line,
   * a longer one keeps a line break inside.
   */
  lemma ChompedEncode64(b: seq<Byte>)
    ensures var t := RubyText.Chomp(Encode64(b));
      Decode(Unwrap(t)) == Some(b) &&
      (|b| <= LineBytes ==> t == Encode(b)) &&
      (|b| > LineBytes ==> '\n' in t)
  {
    ChompedDecodes(b);
    if |b| > LineBytes {
      ChompedKeepsBreak(b);
    } else if b != [] {
      ChompEncode64(b);
    }
  }
}
