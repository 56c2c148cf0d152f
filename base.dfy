/** Values shared by every part of the photo pipeline: optional values, results
    that carry the two kinds of exception the callers tell apart, bytes, and the
    few string operations of java.lang.String that the pipeline relies on. */
module Base {

  /** A Java reference that may be null. */
  datatype Option<+T> = None | Some(value: T)

  /** The exceptions of the pipeline. The callers only ever distinguish an
      IllegalArgumentException from every other exception, so that is the split. */
  datatype Exception = IllegalArgument(message: string) | Other(message: string)

  /** A call that either returns a value or throws. */
  datatype Result<+T> = Ok(value: T) | Err(error: Exception)

  type Byte = bv8

  /** `s.toLowerCase()` on the ASCII letters. Java's version also maps other
      letters, by the default locale (a Turkish `I` becomes a dotless `ı`), and
      may change the length. In the pipeline that cannot change an outcome: the
      content types lower-cased have already matched one of three ASCII strings,
      and no letter outside ASCII lower-cases to one of the letters of "png" or
      "jpg", which is all the configured list is searched for. */
  function ToLower(s: string): (r: string)
    ensures |r| == |s|
    ensures forall i :: 0 <= i < |s| ==> r[i] == LowerChar(s[i])
  {
    seq(|s|, i requires 0 <= i < |s| => LowerChar(s[i]))
  }

  function LowerChar(c: char): char {
    if 'A' <= c <= 'Z' then (c as int - 'A' as int + 'a' as int) as char else c
  }

  /** `needle` occurs in `hay` starting at position `i`. */
  ghost predicate OccursAt(needle: string, hay: string, i: int) {
    0 <= i <= |hay| - |needle| && hay[i..i + |needle|] == needle
  }

  /** `needle` occurs in `hay` at some position. */
  ghost predicate IsSubstring(needle: string, hay: string) {
    exists i :: OccursAt(needle, hay, i)
  }

  /** `hay.contains(needle)`, as a left-to-right scan. */
  function Contains(hay: string, needle: string): (r: bool)
    ensures r <==> IsSubstring(needle, hay)
    decreases |hay|
  {
    if |needle| <= |hay| && hay[..|needle|] == needle then
      assert OccursAt(needle, hay, 0);
      true
    else if |needle| > |hay| then
      false
    else
      var r := Contains(hay[1..], needle);
      if r then
        assert forall i :: OccursAt(needle, hay[1..], i) ==> OccursAt(needle, hay, i + 1);
        true
      else
        assert forall i :: OccursAt(needle, hay, i) ==> i >= 1 && OccursAt(needle, hay[1..], i - 1);
        false
  }

  /** A one-character needle occurs exactly when the character does. */
  lemma ContainsChar(hay: string, c: char)
    ensures Contains(hay, [c]) <==> c in hay
  {
    if c in hay {
      var i :| 0 <= i < |hay| && hay[i] == c;
      assert OccursAt([c], hay, i);
    } else {
      forall i ensures !OccursAt([c], hay, i) {
        if 0 <= i < |hay| {
          assert hay[i..i + 1][0] == hay[i];
        }
      }
    }
  }

  /** `s.lastIndexOf(c)`: the last position holding `c`, or -1. */
  function LastIndexOf(s: string, c: char): (r: int)
    ensures -1 <= r < |s|
    ensures r >= 0 ==> s[r] == c
    ensures forall j :: r < j < |s| ==> s[j] != c
    decreases |s|
  {
    if |s| == 0 then -1
    else if s[|s| - 1] == c then |s| - 1
    else LastIndexOf(s[..|s| - 1], c)
  }

  /** Decimal text of an integer, as Java's string conversion writes it. */
  function IntToString(n: int): (r: string)
    ensures |r| > 0
  {
    if n < 0 then "-" + NatToString(-n) else NatToString(n)
  }

  function NatToString(n: nat): (r: string)
    ensures |r| > 0
    ensures forall i :: 0 <= i < |r| ==> '0' <= r[i] <= '9'
  {
    if n < 10 then [DigitChar(n)] else NatToString(n / 10) + [DigitChar(n % 10)]
  }

  function DigitChar(d: nat): (c: char)
    requires d < 10
    ensures '0' <= c <= '9'
  {
    ('0' as int + d) as char
  }
}
