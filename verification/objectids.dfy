/** Document identifiers. A stored document is keyed by a 12-byte ObjectId;
    a route receives the id as text and the store casts it. The textual form
    accepted here is the 24-hex-digit one (either letter case); anything else
    is a cast error, which the routes turn into the generic error page. */
module ObjectIds {
  import opened Wrappers

  type byte = x: int | 0 <= x < 256

  const IdBytes: nat := 12
  const IdHexLength: nat := 24

  type ObjectId = s: seq<byte> | |s| == IdBytes witness [0, 0, 0, 0, 0, 0, 0, 0, 0, 0, 0, 0]

  predicate IsHexDigit(c: char) {
    ('0' <= c <= '9') || ('a' <= c <= 'f') || ('A' <= c <= 'F')
  }

  predicate AllHex(s: string) {
    forall i :: 0 <= i < |s| ==> IsHexDigit(s[i])
  }

  /** The value of one hex digit, either letter case. */
  function HexValue(c: char): (v: nat)
    requires IsHexDigit(c)
    ensures v < 16
  {
    if '0' <= c <= '9' then c as int - '0' as int
    else if 'a' <= c <= 'f' then c as int - 'a' as int + 10
    else c as int - 'A' as int + 10
  }

  /** The lower-case hex digit for a value below 16. */
  function HexDigit(n: nat): (c: char)
    requires n < 16
    ensures IsHexDigit(c) && HexValue(c) == n
    ensures !('A' <= c <= 'Z')
  {
    if n < 10 then ('0' as int + n) as char else ('a' as int + n - 10) as char
  }

  /** ASCII lower-casing of one character. */
  function Lower(c: char): char {
    if 'A' <= c <= 'Z' then (c as int - 'A' as int + 'a' as int) as char else c
  }

  function LowerString(s: string): (r: string)
    ensures |r| == |s|
    ensures forall i :: 0 <= i < |s| ==> r[i] == Lower(s[i])
  {
    if s == [] then [] else [Lower(s[0])] + LowerString(s[1..])
  }

  /** Two hex digits per byte, high nibble first. */
  function DecodeHex(s: string): (bs: seq<byte>)
    requires |s| % 2 == 0 && AllHex(s)
    ensures |bs| == |s| / 2
  {
    if s == [] then []
    else [HexValue(s[0]) * 16 + HexValue(s[1])] + DecodeHex(s[2..])
  }

  function EncodeHex(bs: seq<byte>): (s: string)
    ensures |s| == 2 * |bs| && AllHex(s)
    ensures forall i :: 0 <= i < |s| ==> !('A' <= s[i] <= 'Z')
  {
    if bs == [] then []
    else [HexDigit(bs[0] / 16), HexDigit(bs[0] % 16)] + EncodeHex(bs[1..])
  }

  /** Casting a route parameter to an ObjectId: succeeds exactly on strings
      of 24 hex digits. */
  function ParseId(raw: string): (r: Option<ObjectId>)
    ensures r.Some? <==> |raw| == IdHexLength && AllHex(raw)
  {
    if |raw| == IdHexLength && AllHex(raw) then Some(DecodeHex(raw)) else None
  }

  /** The canonical (lower-case) text of an id, as the store prints it. */
  function FormatId(id: ObjectId): (s: string)
    ensures |s| == IdHexLength && AllHex(s)
  {
    EncodeHex(id)
  }

  lemma HexDigitRoundTrip(b: byte)
    ensures HexValue(HexDigit(b / 16)) * 16 + HexValue(HexDigit(b % 16)) == b
  {
  }

  lemma {:induction false} DecodeEncode(bs: seq<byte>)
    ensures DecodeHex(EncodeHex(bs)) == bs
  {
    if bs != [] {
      var s := EncodeHex(bs);
      assert s[2..] == EncodeHex(bs[1..]);
      DecodeEncode(bs[1..]);
      HexDigitRoundTrip(bs[0]);
    }
  }

  /** Printing an id and casting the text back yields the same id. */
  lemma ParseFormat(id: ObjectId)
    ensures ParseId(FormatId(id)) == Some(id)
  {
    DecodeEncode(id);
  }

  lemma LowerHexDigit(c: char)
    requires IsHexDigit(c)
    ensures IsHexDigit(Lower(c)) && HexValue(Lower(c)) == HexValue(c)
    ensures HexDigit(HexValue(c)) == Lower(c)
  {
  }

  lemma LowerKeepsHex(c: char)
    ensures IsHexDigit(Lower(c)) <==> IsHexDigit(c)
  {
  }

  lemma {:induction false} EncodeDecode(s: string)
    requires |s| % 2 == 0 && AllHex(s)
    ensures EncodeHex(DecodeHex(s)) == LowerString(s)
  {
    if s != [] {
      var v := HexValue(s[0]) * 16 + HexValue(s[1]);
      assert v / 16 == HexValue(s[0]) && v % 16 == HexValue(s[1]);
      LowerHexDigit(s[0]);
      LowerHexDigit(s[1]);
      EncodeDecode(s[2..]);
      assert DecodeHex(s)[1..] == DecodeHex(s[2..]);
      assert LowerString(s) == [Lower(s[0]), Lower(s[1])] + LowerString(s[2..]);
    }
  }

  lemma {:induction false} DecodeLower(s: string)
    requires |s| % 2 == 0 && AllHex(s)
    ensures AllHex(LowerString(s)) && DecodeHex(LowerString(s)) == DecodeHex(s)
  {
    var l := LowerString(s);
    forall i | 0 <= i < |s| ensures IsHexDigit(l[i]) {
      LowerHexDigit(s[i]);
    }
    if s != [] {
      LowerHexDigit(s[0]);
      LowerHexDigit(s[1]);
      assert l[2..] == LowerString(s[2..]);
      DecodeLower(s[2..]);
    }
  }

  /** A route parameter names an id exactly when, lower-cased, it is that
      id's printed form: the cast ignores the case of hex letters and
      nothing else. */
  lemma Denotes(raw: string, id: ObjectId)
    ensures ParseId(raw) == Some(id) <==> LowerString(raw) == FormatId(id)
  {
    if ParseId(raw) == Some(id) {
      EncodeDecode(raw);
    }
    if LowerString(raw) == FormatId(id) {
      var l := LowerString(raw);
      forall i | 0 <= i < |raw| ensures IsHexDigit(raw[i]) {
        LowerKeepsHex(raw[i]);
      }
      DecodeLower(raw);
      DecodeEncode(id);
    }
  }

  /** Ids that differ only in the case of their hex letters name the same document. */
  lemma ParseIgnoresCase(raw: string)
    ensures ParseId(LowerString(raw)) == ParseId(raw)
  {
    var l := LowerString(raw);
    forall i | 0 <= i < |raw| ensures IsHexDigit(l[i]) <==> IsHexDigit(raw[i]) {
      LowerKeepsHex(raw[i]);
    }
    if |raw| == IdHexLength && AllHex(raw) {
      DecodeLower(raw);
    } else {
      assert !(|l| == IdHexLength && AllHex(l));
    }
  }
}
