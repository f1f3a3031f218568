/**
 * BSON ObjectIds: twelve bytes, written as 24 hexadecimal digits.
 * `ObjectId(String)` accepts either case and fails on anything else;
 * `toHexString()` writes lower case.
 */
module ObjectIds {
  import opened Wrappers

  newtype byte = x: int | 0 <= x < 256

  type ObjectId = b: seq<byte> | |b| == 12 witness [0, 0, 0, 0, 0, 0, 0, 0, 0, 0, 0, 0]

  predicate IsHexDigit(c: char) {
    '0' <= c <= '9' || 'a' <= c <= 'f' || 'A' <= c <= 'F'
  }

  function HexValue(c: char): (v: nat)
    requires IsHexDigit(c)
    ensures v < 16
  {
    if '0' <= c <= '9' then c as int - '0' as int
    else if 'a' <= c <= 'f' then c as int - 'a' as int + 10
    else c as int - 'A' as int + 10
  }

  function HexChar(v: nat): (c: char)
    requires v < 16
    ensures IsHexDigit(c) && HexValue(c) == v
    ensures !('A' <= c <= 'F')
  {
    if v < 10 then ('0' as int + v) as char else ('a' as int + v - 10) as char
  }

  /** Two lower-case hex digits per byte, most significant nibble first. */
  function ToHex(bytes: seq<byte>): (s: string)
    ensures |s| == 2 * |bytes|
    ensures forall i :: 0 <= i < |s| ==> IsHexDigit(s[i]) && !('A' <= s[i] <= 'F')
  {
    if |bytes| == 0 then ""
    else [HexChar(bytes[0] as nat / 16), HexChar(bytes[0] as nat % 16)] + ToHex(bytes[1..])
  }

  /** Reads pairs of hex digits; None when the length is odd or a character is not a hex digit. */
  function ParseHex(s: string): (r: Option<seq<byte>>)
    ensures r.Some? <==> |s| % 2 == 0 && forall i :: 0 <= i < |s| ==> IsHexDigit(s[i])
    ensures r.Some? ==> 2 * |r.value| == |s|
  {
    if |s| == 0 then Some([])
    else if |s| == 1 || !IsHexDigit(s[0]) || !IsHexDigit(s[1]) then None
    else
      match ParseHex(s[2..])
      case None => None
      case Some(rest) => Some([(HexValue(s[0]) * 16 + HexValue(s[1])) as byte] + rest)
  }

  /** `toHexString()`. */
  function HexString(id: ObjectId): (s: string)
    ensures |s| == 24
  {
    ToHex(id)
  }

  /** `ObjectId(hexString)`: None stands for the IllegalArgumentException a malformed id raises. */
  function ParseObjectId(s: string): (r: Option<ObjectId>)
    ensures r.Some? <==> |s| == 24 && forall i :: 0 <= i < |s| ==> IsHexDigit(s[i])
  {
    if |s| != 24 then None
    else
      match ParseHex(s)
      case None => None
      case Some(bytes) => Some(bytes)
  }

  lemma {:induction false} ParseHexOfToHex(bytes: seq<byte>)
    ensures ParseHex(ToHex(bytes)) == Some(bytes)
  {
    if |bytes| > 0 {
      var s := ToHex(bytes);
      assert s[2..] == ToHex(bytes[1..]);
      ParseHexOfToHex(bytes[1..]);
      var b := bytes[0] as nat;
      assert HexValue(s[0]) * 16 + HexValue(s[1]) == b;
      assert ParseHex(s) == Some([b as byte] + bytes[1..]);
      assert [b as byte] + bytes[1..] == bytes;
    }
  }

  /** The hex form of an id parses back to the same id. */
  lemma HexStringRoundTrip(id: ObjectId)
    ensures ParseObjectId(HexString(id)) == Some(id)
  {
    ParseHexOfToHex(id);
  }

  /** Hex digits are case-insensitive: an upper-case id names the same ObjectId. */
  lemma {:induction false} ParseHexIgnoresCase(s: string, t: string)
    requires |s| == |t|
    requires forall i :: 0 <= i < |s| ==> IsHexDigit(s[i]) && IsHexDigit(t[i]) && HexValue(s[i]) == HexValue(t[i])
    ensures ParseHex(s) == ParseHex(t)
  {
    if |s| >= 2 {
      ParseHexIgnoresCase(s[2..], t[2..]);
    }
  }
}
