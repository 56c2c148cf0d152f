/** The Base64 encoding of section 4 of RFC 4648, as java.util.Base64's basic
    encoder writes it and its basic decoder reads it. The key file holds the key
    in this form. */
module Base64 {
  import opened Base

  /** The alphabet of section 4 of RFC 4648 (its Table 1). */
  predicate IsAlphabetChar(c: char) {
    'A' <= c <= 'Z' || 'a' <= c <= 'z' || '0' <= c <= '9' || c == '+' || c == '/'
  }

  /** The character that encodes the 6-bit value `v`. */
  function CharOf(v: int): (c: char)
    requires 0 <= v < 64
    ensures IsAlphabetChar(c)
  {
    if v < 26 then ('A' as int + v) as char
    else if v < 52 then ('a' as int + v - 26) as char
    else if v < 62 then ('0' as int + v - 52) as char
    else if v == 62 then '+'
    else '/'
  }

  /** The 6-bit value an alphabet character stands for. */
  function ValueOf(c: char): (v: int)
    requires IsAlphabetChar(c)
    ensures 0 <= v < 64 && CharOf(v) == c
  {
    if 'A' <= c <= 'Z' then c as int - 'A' as int
    else if 'a' <= c <= 'z' then c as int - 'a' as int + 26
    else if '0' <= c <= '9' then c as int - '0' as int + 52
    else if c == '+' then 62
    else 63
  }

  lemma ValueOfCharOf(v: int)
    requires 0 <= v < 64
    ensures ValueOf(CharOf(v)) == v
  {
  }

  /** The four 6-bit groups of three input bytes (24 bits, most significant first). */
  function Bits0(b0: Byte): Byte { b0 >> 2 }
  function Bits1(b0: Byte, b1: Byte): Byte { ((b0 & 3) << 4) | (b1 >> 4) }
  function Bits2(b1: Byte, b2: Byte): Byte { ((b1 & 15) << 2) | (b2 >> 6) }
  function Bits3(b2: Byte): Byte { b2 & 63 }

  /** The same groups as numbers, the index into the alphabet. */
  function Sextet0(b0: Byte): (v: int) ensures 0 <= v < 64 { Bits0(b0) as int }
  function Sextet1(b0: Byte, b1: Byte): (v: int) ensures 0 <= v < 64 { Bits1(b0, b1) as int }
  function Sextet2(b1: Byte, b2: Byte): (v: int) ensures 0 <= v < 64 { Bits2(b1, b2) as int }
  function Sextet3(b2: Byte): (v: int) ensures 0 <= v < 64 { Bits3(b2) as int }

  /** The four characters for three input bytes. */
  function EncodeUnit(b0: Byte, b1: Byte, b2: Byte): (r: string)
    ensures |r| == 4
    ensures forall i :: 0 <= i < 4 ==> IsAlphabetChar(r[i])
  {
    [CharOf(Sextet0(b0)), CharOf(Sextet1(b0, b1)), CharOf(Sextet2(b1, b2)), CharOf(Sextet3(b2))]
  }

  /** The three bytes that four 6-bit groups spell. */
  function DecodeUnit(x0: Byte, x1: Byte, x2: Byte, x3: Byte): (r: seq<Byte>)
    ensures |r| == 3
  {
    [(x0 << 2) | (x1 >> 4), (x1 << 4) | (x2 >> 2), (x2 << 6) | x3]
  }

  /** The 6-bit group an alphabet character stands for, as a byte. */
  function GroupOf(c: char): (x: Byte)
    requires IsAlphabetChar(c)
  {
    ValueOf(c) as Byte
  }

  /** `Base64.getEncoder().encodeToString(s)`: whole 24-bit groups, then a final
      group of one or two bytes padded with `=` (section 4 of RFC 4648). */
  function Encode(s: seq<Byte>): (r: string)
    ensures |r| == 4 * ((|s| + 2) / 3)
    ensures forall i :: 0 <= i < |r| ==> IsAlphabetChar(r[i]) || r[i] == '='
    decreases |s|
  {
    if |s| >= 3 then
      EncodeUnit(s[0], s[1], s[2]) + Encode(s[3..])
    else if |s| == 2 then
      [CharOf(Sextet0(s[0])), CharOf(Sextet1(s[0], s[1])), CharOf(Sextet2(s[1], 0)), '=']
    else if |s| == 1 then
      [CharOf(Sextet0(s[0])), CharOf(Sextet1(s[0], 0)), '=', '=']
    else
      []
  }

  /** `Base64.getDecoder().decode(s)`: whole groups of four alphabet characters,
      then possibly a final unit of two or three characters, which may carry
      its `==` or `=` padding; anything else is an IllegalArgumentException. Like
      the JDK decoder, bits left over in the final unit are ignored. */
  function Decode(s: string): (r: Result<seq<Byte>>)
    ensures r.Err? ==> r.error.IllegalArgument?
    decreases |s|
  {
    if |s| == 0 then
      Ok([])
    else if |s| >= 4 && IsAlphabetChar(s[0]) && IsAlphabetChar(s[1]) && IsAlphabetChar(s[2]) && IsAlphabetChar(s[3]) then
      var unit := DecodeUnit(GroupOf(s[0]), GroupOf(s[1]), GroupOf(s[2]), GroupOf(s[3]));
      match Decode(s[4..])
      case Ok(rest) => Ok(unit + rest)
      case Err(e) => Err(e)
    else if IsAlphabetChar(s[0]) && |s| >= 2 && IsAlphabetChar(s[1])
         && (|s| == 2 || (|s| == 4 && s[2] == '=' && s[3] == '=')) then
      Ok(DecodeUnit(GroupOf(s[0]), GroupOf(s[1]), 0, 0)[..1])
    else if |s| >= 3 && IsAlphabetChar(s[0]) && IsAlphabetChar(s[1]) && IsAlphabetChar(s[2])
         && (|s| == 3 || (|s| == 4 && s[3] == '=')) then
      Ok(DecodeUnit(GroupOf(s[0]), GroupOf(s[1]), GroupOf(s[2]), 0)[..2])
    else
      Err(IllegalArgument("Illegal base64 input"))
  }

  /** Splitting three bytes into four 6-bit groups and joining them again gives
      the bytes back. */
  lemma UnitRoundTrip(b0: Byte, b1: Byte, b2: Byte)
    ensures DecodeUnit(Bits0(b0), Bits1(b0, b1), Bits2(b1, b2), Bits3(b2)) == [b0, b1, b2]
  {
  }

  /** Reading back the character written for a 6-bit group gives the group. */
  lemma GroupOfCharOf(x: Byte)
    requires x < 64
    ensures 0 <= x as int < 64 && GroupOf(CharOf(x as int)) == x
  {
    ValueOfCharOf(x as int);
    ByteIntByte(x);
  }

  lemma ByteIntByte(x: Byte)
    ensures (x as int) as Byte == x
  {
  }

  /** Decoding what the encoder wrote gives back the same bytes. */
  lemma {:induction false} DecodeEncode(s: seq<Byte>)
    ensures Decode(Encode(s)) == Ok(s)
    decreases |s|
  {
    var e := Encode(s);
    if |s| >= 3 {
      var u := EncodeUnit(s[0], s[1], s[2]);
      assert e == u + Encode(s[3..]);
      assert e[..4] == u && e[4..] == Encode(s[3..]);
      GroupOfCharOf(Bits0(s[0]));
      GroupOfCharOf(Bits1(s[0], s[1]));
      GroupOfCharOf(Bits2(s[1], s[2]));
      GroupOfCharOf(Bits3(s[2]));
      UnitRoundTrip(s[0], s[1], s[2]);
      DecodeEncode(s[3..]);
      assert s == [s[0], s[1], s[2]] + s[3..];
    } else if |s| == 2 {
      GroupOfCharOf(Bits0(s[0]));
      GroupOfCharOf(Bits1(s[0], s[1]));
      GroupOfCharOf(Bits2(s[1], 0));
      UnitRoundTrip(s[0], s[1], 0);
      assert Bits3(0) == 0;
      assert e == [CharOf(Sextet0(s[0])), CharOf(Sextet1(s[0], s[1])), CharOf(Sextet2(s[1], 0)), '='];
      assert !IsAlphabetChar(e[3]);
      assert GroupOf(e[0]) == Bits0(s[0]) && GroupOf(e[1]) == Bits1(s[0], s[1]) && GroupOf(e[2]) == Bits2(s[1], 0);
      assert DecodeUnit(GroupOf(e[0]), GroupOf(e[1]), GroupOf(e[2]), 0) == [s[0], s[1], 0];
      assert Decode(e) == Ok(DecodeUnit(GroupOf(e[0]), GroupOf(e[1]), GroupOf(e[2]), 0)[..2]);
      assert [s[0], s[1], 0][..2] == s;
    } else if |s| == 1 {
      GroupOfCharOf(Bits0(s[0]));
      GroupOfCharOf(Bits1(s[0], 0));
      UnitRoundTrip(s[0], 0, 0);
      assert Bits2(0, 0) == 0 && Bits3(0) == 0;
      assert e == [CharOf(Sextet0(s[0])), CharOf(Sextet1(s[0], 0)), '=', '='];
      assert !IsAlphabetChar(e[2]);
      assert GroupOf(e[0]) == Bits0(s[0]) && GroupOf(e[1]) == Bits1(s[0], 0);
      assert DecodeUnit(GroupOf(e[0]), GroupOf(e[1]), 0, 0) == [s[0], 0, 0];
      assert Decode(e) == Ok(DecodeUnit(GroupOf(e[0]), GroupOf(e[1]), 0, 0)[..1]);
      assert [s[0], 0, 0][..1] == s;
    }
  }

  /** The encoded text is a single line: it holds no line terminator. */
  lemma EncodeHasNoLineBreak(s: seq<Byte>)
    ensures forall i :: 0 <= i < |Encode(s)| ==> Encode(s)[i] != '\n' && Encode(s)[i] != '\r'
  {
  }
}
