/**
 * UUIDs as the authentication core uses them: 16 raw bytes inside the
 * program, and the canonical 36-character text form inside a token's
 * `user_id` claim (written by `uuid.UUID.String`, read back by `uuid.Parse`).
 */
module Uuids {
  import opened Wrappers

  newtype byte = x: int | 0 <= x < 256

  /** A UUID is its 16 bytes, like Go's `[16]byte`. */
  type Uuid = b: seq<byte> | |b| == 16 witness [0, 0, 0, 0, 0, 0, 0, 0, 0, 0, 0, 0, 0, 0, 0, 0]

  /** The lower-case hexadecimal digit for `n`. */
  function HexDigit(n: int): char
    requires 0 <= n < 16
  {
    if n < 10 then ('0' as int + n) as char else ('a' as int + n - 10) as char
  }

  /** The value of a hexadecimal digit of either case, or None for any other character. */
  function HexValue(c: char): (r: Option<int>)
    ensures r.Some? ==> 0 <= r.value < 16
  {
    if '0' <= c <= '9' then Some(c as int - '0' as int)
    else if 'a' <= c <= 'f' then Some(c as int - 'a' as int + 10)
    else if 'A' <= c <= 'F' then Some(c as int - 'A' as int + 10)
    else None
  }

  /** Two lower-case hex digits per byte, most significant nibble first. */
  function Hex(bs: seq<byte>): (s: string)
    ensures |s| == 2 * |bs|
  {
    if bs == [] then ""
    else [HexDigit(bs[0] as int / 16), HexDigit(bs[0] as int % 16)] + Hex(bs[1..])
  }

  /** Reads pairs of hex digits back into bytes; None as soon as a character is not a hex digit. */
  function ParseHex(s: string): (r: Option<seq<byte>>)
    requires |s| % 2 == 0
    ensures r.Some? ==> 2 * |r.value| == |s|
  {
    if s == [] then Some([])
    else
      match (HexValue(s[0]), HexValue(s[1]), ParseHex(s[2..]))
      case (Some(hi), Some(lo), Some(rest)) => Some([(hi * 16 + lo) as byte] + rest)
      case _ => None
  }

  /** The canonical form xxxxxxxx-xxxx-xxxx-xxxx-xxxxxxxxxxxx in lower case. */
  function Format(u: Uuid): (s: string)
    ensures |s| == 36
  {
    Hex(u[..4]) + "-" + Hex(u[4..6]) + "-" + Hex(u[6..8]) + "-" + Hex(u[8..10]) + "-" + Hex(u[10..])
  }

  /**
   * Parses the 36-character hyphenated form: hyphens at positions 8, 13, 18
   * and 23 and hex digits of either case everywhere else. Any other string
   * yields None (the error `uuid.Parse` returns).
   */
  function Parse(s: string): (r: Option<Uuid>)
    ensures |s| != 36 ==> r == None
  {
    if |s| != 36 || s[8] != '-' || s[13] != '-' || s[18] != '-' || s[23] != '-' then None
    else
      match ParseHex(s[..8] + s[9..13] + s[14..18] + s[19..23] + s[24..])
      case Some(bs) => Some(bs)
      case None => None
  }

  lemma HexDigitValue(n: int)
    requires 0 <= n < 16
    ensures HexValue(HexDigit(n)) == Some(n)
  {
  }

  /** Hex encoding distributes over concatenation. */
  lemma {:induction false} HexAppend(a: seq<byte>, b: seq<byte>)
    ensures Hex(a + b) == Hex(a) + Hex(b)
  {
    if a == [] {
      assert a + b == b;
    } else {
      assert (a + b)[0] == a[0];
      assert (a + b)[1..] == a[1..] + b;
      HexAppend(a[1..], b);
    }
  }

  /** Decoding undoes encoding, byte for byte. */
  lemma {:induction false} ParseHexOfHex(bs: seq<byte>)
    ensures ParseHex(Hex(bs)) == Some(bs)
  {
    if bs != [] {
      var s := Hex(bs);
      var hi := bs[0] as int / 16;
      var lo := bs[0] as int % 16;
      HexDigitValue(hi);
      HexDigitValue(lo);
      assert s[2..] == Hex(bs[1..]);
      ParseHexOfHex(bs[1..]);
      assert (hi * 16 + lo) as byte == bs[0];
      assert [bs[0]] + bs[1..] == bs;
    }
  }

  /** Every UUID survives the round trip through its text form, so `Format` is injective. */
  lemma FormatThenParse(u: Uuid)
    ensures Parse(Format(u)) == Some(u)
  {
    var s := Format(u);
    var a, b, c, d, e := Hex(u[..4]), Hex(u[4..6]), Hex(u[6..8]), Hex(u[8..10]), Hex(u[10..]);
    assert s == a + "-" + b + "-" + c + "-" + d + "-" + e;
    assert s[..8] == a;
    assert s[9..13] == b;
    assert s[14..18] == c;
    assert s[19..23] == d;
    assert s[24..] == e;
    HexAppend(u[..4], u[4..6]);
    HexAppend(u[..4] + u[4..6], u[6..8]);
    HexAppend(u[..4] + u[4..6] + u[6..8], u[8..10]);
    HexAppend(u[..4] + u[4..6] + u[6..8] + u[8..10], u[10..]);
    assert u[..4] + u[4..6] + u[6..8] + u[8..10] + u[10..] == u;
    ParseHexOfHex(u);
  }
}
