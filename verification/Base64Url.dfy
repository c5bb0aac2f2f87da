/** The URL-safe base64 of section 5 of RFC 4648, with padding. */
module Base64Url {
  import opened Options

  type Byte = n: nat | n < 256

  function CharOf(v: nat): (c: char)
    requires v < 64
    ensures 'A' <= c <= 'Z' || 'a' <= c <= 'z' || '0' <= c <= '9' || c in "-_"
  {
    if v < 26 then ('A' as int + v) as char
    else if v < 52 then ('a' as int + (v - 26)) as char
    else if v < 62 then ('0' as int + (v - 52)) as char
    else if v == 62 then '-' else '_'
  }

  function ValueOf(c: char): (v: Option<nat>)
    ensures v.Some? ==> v.value < 64
  {
    if 'A' <= c <= 'Z' then Some(c as int - 'A' as int)
    else if 'a' <= c <= 'z' then Some(c as int - 'a' as int + 26)
    else if '0' <= c <= '9' then Some(c as int - '0' as int + 52)
    else if c == '-' then Some(62)
    else if c == '_' then Some(63)
    else None
  }

  lemma ValueOfCharOf(v: nat)
    requires v < 64
    ensures ValueOf(CharOf(v)) == Some(v)
  {
  }

  /** Three bytes become four characters; one or two left over are padded with `=`. */
  function Encode(b: seq<Byte>): (s: string)
    ensures |s| % 4 == 0 && (b != [] ==> s != [])
    ensures forall c :: c in s ==> 'A' <= c <= 'Z' || 'a' <= c <= 'z' || '0' <= c <= '9' || c in "-_="
  {
    if |b| == 0 then []
    else if |b| == 1 then
      [CharOf(b[0] / 4), CharOf(b[0] % 4 * 16), '=', '=']
    else if |b| == 2 then
      [CharOf(b[0] / 4), CharOf(b[0] % 4 * 16 + b[1] / 16), CharOf(b[1] % 16 * 4), '=']
    else
      [CharOf(b[0] / 4), CharOf(b[0] % 4 * 16 + b[1] / 16), CharOf(b[1] % 16 * 4 + b[2] / 64), CharOf(b[2] % 64)]
      + Encode(b[3..])
  }

  function DecodeQuad(s: string): Option<seq<Byte>>
    requires |s| == 4
  {
    var v0 :- ValueOf(s[0]);
    var v1 :- ValueOf(s[1]);
    if s[2] == '=' then
      if s[3] == '=' then Some([v0 * 4 + v1 / 16]) else None
    else
      var v2 :- ValueOf(s[2]);
      if s[3] == '=' then Some([v0 * 4 + v1 / 16, v1 % 16 * 16 + v2 / 4])
      else
        var v3 :- ValueOf(s[3]);
        Some([v0 * 4 + v1 / 16, v1 % 16 * 16 + v2 / 4, v2 % 4 * 64 + v3])
  }

  /** `None` for binascii.Error: a wrong length, a foreign character, or padding before the end. */
  function Decode(s: string): Option<seq<Byte>> {
    if |s| == 0 then Some([])
    else if |s| < 4 then None
    else
      var first :- DecodeQuad(s[..4]);
      if |first| < 3 && |s| > 4 then None
      else
        var rest :- Decode(s[4..]);
        Some(first + rest)
  }

  lemma DecodeQuadOfThree(a: Byte, b: Byte, c: Byte)
    ensures DecodeQuad([CharOf(a / 4), CharOf(a % 4 * 16 + b / 16), CharOf(b % 16 * 4 + c / 64), CharOf(c % 64)])
         == Some([a, b, c])
  {
    hide CharOf, ValueOf;
    var v0, v1, v2, v3 := a / 4, a % 4 * 16 + b / 16, b % 16 * 4 + c / 64, c % 64;
    ValueOfCharOf(v0);
    ValueOfCharOf(v1);
    ValueOfCharOf(v2);
    ValueOfCharOf(v3);
    assert v1 / 16 == a % 4 && v1 % 16 == b / 16;
    assert v2 / 4 == b % 16 && v2 % 4 == c / 64;
    var s := [CharOf(v0), CharOf(v1), CharOf(v2), CharOf(v3)];
    assert s[2] != '=' && s[3] != '=';
    assert DecodeQuad(s) == Some([v0 * 4 + v1 / 16, v1 % 16 * 16 + v2 / 4, v2 % 4 * 64 + v3]);
  }

  lemma DecodeQuadOfTwo(a: Byte, b: Byte)
    ensures DecodeQuad([CharOf(a / 4), CharOf(a % 4 * 16 + b / 16), CharOf(b % 16 * 4), '=']) == Some([a, b])
  {
    ValueOfCharOf(a / 4);
    ValueOfCharOf(a % 4 * 16 + b / 16);
    ValueOfCharOf(b % 16 * 4);
  }

  lemma DecodeQuadOfOne(a: Byte)
    ensures DecodeQuad([CharOf(a / 4), CharOf(a % 4 * 16), '=', '=']) == Some([a])
  {
    ValueOfCharOf(a / 4);
    ValueOfCharOf(a % 4 * 16);
  }

  /** Any byte string survives encoding and decoding. */
  lemma {:induction false} DecodeEncode(b: seq<Byte>)
    ensures Decode(Encode(b)) == Some(b)
  {
    hide CharOf, ValueOf, DecodeQuad;
    var s := Encode(b);
    if |b| == 0 {
      return;
    } else if |b| == 1 {
      DecodeQuadOfOne(b[0]);
      assert s[..4] == s && b == [b[0]] + [];
    } else if |b| == 2 {
      DecodeQuadOfTwo(b[0], b[1]);
      assert s[..4] == s && b == [b[0], b[1]] + [];
    } else {
      DecodeQuadOfThree(b[0], b[1], b[2]);
      DecodeEncode(b[3..]);
      assert s == s[..4] + Encode(b[3..]);
      assert b == [b[0], b[1], b[2]] + b[3..];
    }
    var tail := if |b| < 3 then [] else b[3..];
    assert s == s[..4] + Encode(tail) && s[4..] == Encode(tail);
  }
}
