/** The Payme checkout link (`generate_payme_url`): the payload
    `m=<merchant>;ac.order_id=<transaction>;a=<amount in hundredths>`,
    UTF-8 encoded, then Base64 encoded with the standard alphabet and `=`
    padding of section 4 of RFC 4648, appended to the checkout address. */
module Payme {
  import opened Wrappers
  import opened Numerals

  type byte = x: int | 0 <= x < 256

  const MerchantId := "YOUR_PAYME_MERCHANT_ID"
  const CheckoutBase := "https://checkout.paycom.uz/"

  // ---------------------------------------------------------------- UTF-8

  /** The UTF-8 encoding of one Unicode scalar value (section 3 of RFC 3629). */
  function Utf8Char(c: char): (bs: seq<byte>)
    ensures 1 <= |bs| <= 4
    ensures (c as int < 0x80) <==> |bs| == 1
    ensures c as int < 0x80 ==> bs == [c as int]
    ensures forall k :: 1 <= k < |bs| ==> 0x80 <= bs[k] < 0xC0
  {
    var v := c as int;
    if v < 0x80 then [v]
    else if v < 0x800 then [0xC0 + v / 64, 0x80 + v % 64]
    else if v < 0x10000 then [0xE0 + v / 4096, 0x80 + (v / 64) % 64, 0x80 + v % 64]
    else [0xF0 + v / 262144, 0x80 + (v / 4096) % 64, 0x80 + (v / 64) % 64, 0x80 + v % 64]
  }

  /** `str.encode()`: UTF-8, character by character. */
  function Utf8(s: string): (bs: seq<byte>)
    ensures |bs| >= |s|
  {
    if |s| == 0 then [] else Utf8Char(s[0]) + Utf8(s[1..])
  }

  predicate IsAscii(s: string) {
    forall k :: 0 <= k < |s| ==> s[k] as int < 0x80
  }

  /** An ASCII string encodes to its own code points, one byte each. */
  lemma {:induction false} Utf8Ascii(s: string)
    requires IsAscii(s)
    ensures |Utf8(s)| == |s|
    ensures forall k :: 0 <= k < |s| ==> Utf8(s)[k] == s[k] as int
  {
    if |s| > 0 {
      Utf8Ascii(s[1..]);
    }
  }

  // ---------------------------------------------------------------- Base64 alphabet

  /** The character for a 6-bit value: `A`-`Z`, `a`-`z`, `0`-`9`, `+`, `/`. */
  function Symbol(i: int): (c: char)
    requires 0 <= i < 64
  {
    if i < 26 then ('A' as int + i) as char
    else if i < 52 then ('a' as int + (i - 26)) as char
    else if i < 62 then ('0' as int + (i - 52)) as char
    else if i == 62 then '+'
    else '/'
  }

  /** The 6-bit value of an alphabet character, or -1. */
  function ValueOf(c: char): (v: int)
    ensures -1 <= v < 64
    ensures c == '=' ==> v == -1
  {
    if 'A' <= c <= 'Z' then c as int - 'A' as int
    else if 'a' <= c <= 'z' then c as int - 'a' as int + 26
    else if '0' <= c <= '9' then c as int - '0' as int + 52
    else if c == '+' then 62
    else if c == '/' then 63
    else -1
  }

  /** The alphabet is a bijection between 0..63 and its 64 characters. */
  lemma ValueOfSymbol(i: int)
    requires 0 <= i < 64
    ensures ValueOf(Symbol(i)) == i
  {
  }

  // ---------------------------------------------------------------- encoding

  /** Three bytes as four characters. */
  function Quad(a: byte, b: byte, c: byte): string {
    [Symbol(a / 4), Symbol((a % 4) * 16 + b / 16), Symbol((b % 16) * 4 + c / 64), Symbol(c % 64)]
  }

  /** `base64.b64encode`: each group of three bytes becomes four
      characters; a final group of one or two bytes is padded with `=`. */
  function Encode(bs: seq<byte>): string {
    if |bs| == 0 then ""
    else if |bs| == 1 then [Symbol(bs[0] / 4), Symbol((bs[0] % 4) * 16), '=', '=']
    else if |bs| == 2 then
      [Symbol(bs[0] / 4), Symbol((bs[0] % 4) * 16 + bs[1] / 16), Symbol((bs[1] % 16) * 4), '=']
    else Quad(bs[0], bs[1], bs[2]) + Encode(bs[3..])
  }

  /** Four characters for every started group of three bytes. */
  lemma {:induction false} EncodeLength(bs: seq<byte>)
    ensures |Encode(bs)| == 4 * ((|bs| + 2) / 3)
    decreases |bs|
  {
    if |bs| >= 3 {
      EncodeLength(bs[3..]);
      assert (|bs| + 2) / 3 == (|bs[3..]| + 2) / 3 + 1;
    }
  }

  // ---------------------------------------------------------------- decoding

  /** Three bytes from four 6-bit values. */
  function Unquad(v0: int, v1: int, v2: int, v3: int): seq<byte>
    requires 0 <= v0 < 64 && 0 <= v1 < 64 && 0 <= v2 < 64 && 0 <= v3 < 64
  {
    [v0 * 4 + v1 / 16, (v1 % 16) * 16 + v2 / 4, (v2 % 4) * 64 + v3]
  }

  /** A strict decoder: groups of four alphabet characters, `=` only as the
      padding of the last group; anything else is rejected. */
  function Decode(s: string): (r: Option<seq<byte>>)
    decreases |s|
  {
    if |s| == 0 then Some([])
    else if |s| < 4 then None
    else
      var v0, v1, v2, v3 := ValueOf(s[0]), ValueOf(s[1]), ValueOf(s[2]), ValueOf(s[3]);
      if v0 < 0 || v1 < 0 then None
      else if |s| == 4 && s[2] == '=' && s[3] == '=' then Some([v0 * 4 + v1 / 16])
      else if |s| == 4 && v2 >= 0 && s[3] == '=' then Some([v0 * 4 + v1 / 16, (v1 % 16) * 16 + v2 / 4])
      else if v2 < 0 || v3 < 0 then None
      else match Decode(s[4..])
        case None => None
        case Some(rest) => Some(Unquad(v0, v1, v2, v3) + rest)
  }

  /** Only whole groups of four characters decode. */
  lemma {:induction false} DecodeLength(s: string)
    requires Decode(s).Some?
    ensures |s| % 4 == 0
    decreases |s|
  {
    if |s| > 4 {
      DecodeLength(s[4..]);
    }
  }

  lemma UnquadQuad(a: byte, b: byte, c: byte)
    ensures Unquad(a / 4, (a % 4) * 16 + b / 16, (b % 16) * 4 + c / 64, c % 64) == [a, b, c]
  {
  }

  lemma SplitDigits(a: byte, b: byte)
    ensures ((a % 4) * 16 + b / 16) / 16 == a % 4 && ((a % 4) * 16 + b / 16) % 16 == b / 16
    ensures ((b % 16) * 4) / 4 == b % 16
  {
  }

  /** One padded group of a single byte decodes to that byte. */
  lemma DecodeOne(a: byte)
    ensures Decode(Encode([a])) == Some([a])
  {
    ValueOfSymbol(a / 4);
    ValueOfSymbol((a % 4) * 16);
    var e := Encode([a]);
    assert e[2] == '=' && e[3] == '=';
  }

  /** One padded group of two bytes decodes to those bytes. */
  lemma DecodeTwo(a: byte, b: byte)
    ensures Decode(Encode([a, b])) == Some([a, b])
  {
    var v0, v1, v2 := a / 4, (a % 4) * 16 + b / 16, (b % 16) * 4;
    var e := Encode([a, b]);
    assert e == [Symbol(v0), Symbol(v1), Symbol(v2), '='];
    ValueOfSymbol(v0);
    ValueOfSymbol(v1);
    ValueOfSymbol(v2);
    assert Decode(e) == Some([v0 * 4 + v1 / 16, (v1 % 16) * 16 + v2 / 4]);
    SplitDigits(a, b);
  }

  /** A full group in front decodes to its three bytes in front. */
  lemma DecodeQuad(a: byte, b: byte, c: byte, rest: string, r: seq<byte>)
    requires Decode(rest) == Some(r)
    ensures Decode(Quad(a, b, c) + rest) == Some([a, b, c] + r)
  {
    var s := Quad(a, b, c) + rest;
    assert s[4..] == rest;
    ValueOfSymbol(a / 4);
    ValueOfSymbol((a % 4) * 16 + b / 16);
    ValueOfSymbol((b % 16) * 4 + c / 64);
    ValueOfSymbol(c % 64);
    UnquadQuad(a, b, c);
  }

  /** The encoding of three or more bytes starts with their first group. */
  lemma EncodeGroup(bs: seq<byte>)
    requires |bs| >= 3
    ensures Encode(bs) == Quad(bs[0], bs[1], bs[2]) + Encode(bs[3..])
  {
  }

  lemma SplitFront(bs: seq<byte>)
    requires |bs| >= 3
    ensures [bs[0], bs[1], bs[2]] + bs[3..] == bs
  {
  }

  /** A leading full group joins a tail that already round-trips. */
  lemma DecodeEncodeGroup(bs: seq<byte>)
    requires |bs| >= 3 && Decode(Encode(bs[3..])) == Some(bs[3..])
    ensures Decode(Encode(bs)) == Some(bs)
  {
    EncodeGroup(bs);
    SplitFront(bs);
    DecodeQuad(bs[0], bs[1], bs[2], Encode(bs[3..]), bs[3..]);
  }

  /** Round trip: decoding an encoding gives the bytes back. */
  lemma {:induction false} DecodeEncode(bs: seq<byte>)
    ensures Decode(Encode(bs)) == Some(bs)
    decreases |bs|
  {
    if |bs| >= 3 {
      DecodeEncode(bs[3..]);
      DecodeEncodeGroup(bs);
    } else if |bs| == 2 {
      DecodeTwo(bs[0], bs[1]);
      assert bs == [bs[0], bs[1]];
    } else if |bs| == 1 {
      DecodeOne(bs[0]);
      assert bs == [bs[0]];
    }
  }

  /** Distinct byte strings never share an encoding. */
  lemma EncodeInjective(a: seq<byte>, b: seq<byte>)
    requires Encode(a) == Encode(b)
    ensures a == b
  {
    DecodeEncode(a);
    DecodeEncode(b);
  }

  // ---------------------------------------------------------------- payment link

  /** Python `int(x)` on a number: truncation toward zero. */
  function Truncate(x: real): (i: int)
    ensures x >= 0.0 ==> i as real <= x < i as real + 1.0
    ensures x < 0.0 ==> i as real - 1.0 < x <= i as real
  {
    if x >= 0.0 then x.Floor else -((-x).Floor)
  }

  /** The amount in hundredths, as the payload carries it. */
  function Hundredths(amount: real): int {
    Truncate(amount * 100.0)
  }

  function Payload(transactionId: string, amount: real): string {
    "m=" + MerchantId + ";ac.order_id=" + transactionId + ";a=" + IntToString(Hundredths(amount))
  }

  /** `generate_payme_url`. */
  function PaymeUrl(transactionId: string, amount: real): (url: string)
    ensures |url| > |CheckoutBase| && url[..|CheckoutBase|] == CheckoutBase
  {
    var bytes := Utf8(Payload(transactionId, amount));
    EncodeLength(bytes);
    var u := CheckoutBase + Encode(bytes);
    assert u[..|CheckoutBase|] == CheckoutBase;
    u
  }

  /** What a receiver recovers from the link: the payload bytes after the
      checkout address. */
  function PayloadBytesOf(url: string): Option<seq<byte>> {
    if |url| < |CheckoutBase| || url[..|CheckoutBase|] != CheckoutBase then None
    else Decode(url[|CheckoutBase|..])
  }

  /** The link carries exactly the UTF-8 payload. */
  lemma PaymeUrlCarriesPayload(transactionId: string, amount: real)
    ensures PayloadBytesOf(PaymeUrl(transactionId, amount)) == Some(Utf8(Payload(transactionId, amount)))
  {
    var bytes := Utf8(Payload(transactionId, amount));
    var url := PaymeUrl(transactionId, amount);
    assert url[|CheckoutBase|..] == Encode(bytes);
    DecodeEncode(bytes);
  }

  /** The amount field is the amount in hundredths and reads back as that
      number; a whole number of hundredths is carried exactly. */
  lemma AmountField(amount: real, cents: int)
    requires amount * 100.0 == cents as real
    ensures Hundredths(amount) == cents
    ensures ParseInt(IntToString(Hundredths(amount))) == Some(cents)
  {
    ParseIntOfIntToString(cents);
  }
}
