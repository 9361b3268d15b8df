/**
 * The base64 encoding of section 4 of RFC 4648 (alphabet of Table 1, '=' padding), as used
 * for key text: Convert.ToBase64String produces it and Convert.FromBase64String reads it.
 */
module Base64 {
  import opened Octets
  import opened Failures

  const Pad: char := '='

  /** A 6-bit value, the unit one character of the text stands for. */
  type sextet = x: int | 0 <= x < 64

  /** The character that stands for a 6-bit value (Table 1 of RFC 4648). */
  function CharOf(v: sextet): char
  {
    if v < 26 then ('A' as int + v as int) as char
    else if v < 52 then ('a' as int + (v as int - 26)) as char
    else if v < 62 then ('0' as int + (v as int - 52)) as char
    else if v == 62 then '+'
    else '/'
  }

  /** The 6-bit value a character of the alphabet stands for; None for any other character. */
  function ValueOf(c: char): (r: Option<sextet>)
    ensures r.Some? ==> CharOf(r.value) == c
  {
    if 'A' <= c <= 'Z' then Some(c as int - 'A' as int)
    else if 'a' <= c <= 'z' then Some(c as int - 'a' as int + 26)
    else if '0' <= c <= '9' then Some(c as int - '0' as int + 52)
    else if c == '+' then Some(62)
    else if c == '/' then Some(63)
    else None
  }

  lemma ValueOfCharOf(v: sextet)
    ensures ValueOf(CharOf(v)) == Some(v)
  {
  }

  /** Three bytes as four characters. */
  function EncodeBlock(b0: byte, b1: byte, b2: byte): string {
    [CharOf(b0 as int / 4), CharOf(b0 as int % 4 * 16 + b1 as int / 16),
     CharOf(b1 as int % 16 * 4 + b2 as int / 64), CharOf(b2 as int % 64)]
  }

  /** The text of `b`: each group of three bytes as four characters, a last group of one or
      two bytes padded with '=' to four characters. */
  function Encode(b: seq<byte>): (s: string)
    ensures |s| == 4 * ((|b| + 2) / 3)
    decreases |b|
  {
    if |b| == 0 then []
    else if |b| == 1 then [CharOf(b[0] as int / 4), CharOf(b[0] as int % 4 * 16), Pad, Pad]
    else if |b| == 2 then
      [CharOf(b[0] as int / 4), CharOf(b[0] as int % 4 * 16 + b[1] as int / 16), CharOf(b[1] as int % 16 * 4), Pad]
    else EncodeBlock(b[0], b[1], b[2]) + Encode(b[3..])
  }

  /** The bytes of a group, from the 6-bit values of its characters: the first byte is the
      first value and the top two bits of the second, and so on. */
  function First(v0: sextet, v1: sextet): byte { (v0 * 4 + v1 / 16) as byte }
  function Second(v1: sextet, v2: sextet): byte { (v1 % 16 * 16 + v2 / 4) as byte }
  function Third(v2: sextet, v3: sextet): byte { (v2 % 4 * 64 + v3) as byte }

  /** Four characters of the alphabet as three bytes. */
  function DecodeBlock(q: string): (r: Option<seq<byte>>)
    requires |q| == 4
    ensures r.Some? ==> |r.value| == 3
  {
    match (ValueOf(q[0]), ValueOf(q[1]), ValueOf(q[2]), ValueOf(q[3]))
    case (Some(v0), Some(v1), Some(v2), Some(v3)) =>
      Some([First(v0, v1), Second(v1, v2), Third(v2, v3)])
    case _ => None
  }

  /** The last four characters, which may end in one or two '='. */
  function DecodeFinal(q: string): (r: Option<seq<byte>>)
    requires |q| == 4
    ensures r.Some? ==> 1 <= |r.value| <= 3
  {
    if q[2] == Pad && q[3] == Pad then
      match (ValueOf(q[0]), ValueOf(q[1]))
      case (Some(v0), Some(v1)) => Some([First(v0, v1)])
      case _ => None
    else if q[3] == Pad then
      match (ValueOf(q[0]), ValueOf(q[1]), ValueOf(q[2]))
      case (Some(v0), Some(v1), Some(v2)) => Some([First(v0, v1), Second(v1, v2)])
      case _ => None
    else DecodeBlock(q)
  }

  /** Convert.FromBase64String: the bytes that `s` encodes, or InvalidBase64 when `s` is not
      a base64 text: its length is not a multiple of four, it holds a character outside the
      alphabet, or '=' stands anywhere but in the last one or two places. */
  function Decode(s: string): (r: Result<seq<byte>>)
    ensures r.Ok? ==> |s| % 4 == 0
    ensures r.Ok? ==> |r.value| <= 3 * (|s| / 4)
    ensures r.Err? ==> r.error == InvalidBase64
    decreases |s|
  {
    if |s| == 0 then Ok([])
    else if |s| < 4 then Err(InvalidBase64)
    else if |s| == 4 then
      match DecodeFinal(s)
      case Some(b) => Ok(b)
      case None => Err(InvalidBase64)
    else match (DecodeBlock(s[..4]), Decode(s[4..]))
      case (Some(h), Ok(t)) => Ok(h + t)
      case _ => Err(InvalidBase64)
  }

  /** The group decoding takes apart what the group encoding put together. */
  lemma FirstOfEncoded(b0: byte, b1: byte)
    ensures First(b0 as int / 4, b0 as int % 4 * 16 + b1 as int / 16) == b0
  {
  }

  lemma SecondOfEncoded(b0: byte, b1: byte, b2: byte)
    ensures Second(b0 as int % 4 * 16 + b1 as int / 16, b1 as int % 16 * 4 + b2 as int / 64) == b1
  {
  }

  lemma ThirdOfEncoded(b1: byte, b2: byte)
    ensures Third(b1 as int % 16 * 4 + b2 as int / 64, b2 as int % 64) == b2
  {
  }

  lemma BlockRoundTrip(b0: byte, b1: byte, b2: byte)
    ensures DecodeBlock(EncodeBlock(b0, b1, b2)) == Some([b0, b1, b2])
  {
    ValueOfCharOf(b0 as int / 4);
    ValueOfCharOf(b0 as int % 4 * 16 + b1 as int / 16);
    ValueOfCharOf(b1 as int % 16 * 4 + b2 as int / 64);
    ValueOfCharOf(b2 as int % 64);
    FirstOfEncoded(b0, b1);
    SecondOfEncoded(b0, b1, b2);
    ThirdOfEncoded(b1, b2);
  }

  /** A last group of three bytes carries no padding, so it decodes as any other group. */
  lemma FinalBlockRoundTrip(b0: byte, b1: byte, b2: byte)
    ensures DecodeFinal(EncodeBlock(b0, b1, b2)) == Some([b0, b1, b2])
  {
    BlockRoundTrip(b0, b1, b2);
    var q := EncodeBlock(b0, b1, b2);
    assert ValueOf(q[3]).Some? by { ValueOfCharOf(b2 as int % 64); }
  }

  lemma OneByteRoundTrip(b0: byte)
    ensures Decode(Encode([b0])) == Ok([b0])
  {
    ValueOfCharOf(b0 as int / 4);
    ValueOfCharOf(b0 as int % 4 * 16);
  }

  lemma TwoBytesRoundTrip(b0: byte, b1: byte)
    ensures Decode(Encode([b0, b1])) == Ok([b0, b1])
  {
    ValueOfCharOf(b0 as int / 4);
    ValueOfCharOf(b0 as int % 4 * 16 + b1 as int / 16);
    ValueOfCharOf(b1 as int % 16 * 4);
    FirstOfEncoded(b0, b1);
  }

  /** Encoding a longer sequence writes its first group, then the text of the rest. */
  lemma EncodeUnfold(b: seq<byte>)
    requires |b| >= 3
    ensures Encode(b) == EncodeBlock(b[0], b[1], b[2]) + Encode(b[3..])
  {
  }

  /** A group of four characters followed by a non-empty text decodes group by group. */
  lemma DecodeUnfold(q: string, rest: string, h: seq<byte>, t: seq<byte>)
    requires |q| == 4 && |rest| > 0
    requires DecodeBlock(q) == Some(h) && Decode(rest) == Ok(t)
    ensures Decode(q + rest) == Ok(h + t)
  {
    assert (q + rest)[..4] == q;
    assert (q + rest)[4..] == rest;
  }

  /** One step of the round trip: a first group of three bytes, then a rest that already
      round-trips. */
  lemma GroupThenRest(b: seq<byte>)
    requires |b| > 3
    requires Decode(Encode(b[3..])) == Ok(b[3..])
    ensures Decode(EncodeBlock(b[0], b[1], b[2]) + Encode(b[3..])) == Ok([b[0], b[1], b[2]] + b[3..])
  {
    BlockRoundTrip(b[0], b[1], b[2]);
    DecodeUnfold(EncodeBlock(b[0], b[1], b[2]), Encode(b[3..]), [b[0], b[1], b[2]], b[3..]);
  }

  /** Decoding undoes encoding, so a key written as text reads back as the same bytes. */
  lemma {:induction false} DecodeEncode(b: seq<byte>)
    ensures Decode(Encode(b)) == Ok(b)
    decreases |b|
  {
    if |b| <= 3 {
      ShortRoundTrip(b);
    } else {
      DecodeEncode(b[3..]);
      LongRoundTrip(b);
    }
  }

  /** The round trip for at most one group of bytes, where the final group is all there is. */
  lemma {:induction false} ShortRoundTrip(b: seq<byte>)
    requires |b| <= 3
    ensures Decode(Encode(b)) == Ok(b)
  {
    if |b| == 1 {
      OneByteRoundTrip(b[0]);
      assert b == [b[0]];
    } else if |b| == 2 {
      TwoBytesRoundTrip(b[0], b[1]);
      assert b == [b[0], b[1]];
    } else if |b| == 3 {
      FinalBlockRoundTrip(b[0], b[1], b[2]);
      EncodeUnfold(b);
      assert b == [b[0], b[1], b[2]];
    }
  }

  /** The round trip for more than one group, given the round trip of all but the first. */
  lemma {:induction false} LongRoundTrip(b: seq<byte>)
    requires |b| > 3
    requires Decode(Encode(b[3..])) == Ok(b[3..])
    ensures Decode(Encode(b)) == Ok(b)
  {
    GroupThenRest(b);
    EncodeUnfold(b);
    assert [b[0], b[1], b[2]] + b[3..] == b;
  }

  /** The text of a key of `n` bytes decodes to exactly `n` bytes. */
  lemma DecodedLength(b: seq<byte>)
    ensures Decode(Encode(b)).Ok? && |Decode(Encode(b)).value| == |b|
  {
    DecodeEncode(b);
  }
}
