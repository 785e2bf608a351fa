/**
  Base64 with the URL- and filename-safe alphabet of RFC 4648 section 5, as ASP.NET
  Core's WebEncoders uses it: Base64UrlEncode writes no padding; Base64UrlDecode adds
  the padding back and hands the text to the standard decoder, which also accepts
  '=' padding already present.
 */
module Base64Url {
  import opened Wrappers
  import opened Utf8

  type Sextet = x: int | 0 <= x < 64

  /** The character RFC 4648 section 5 (Table 2) assigns to a 6-bit value. */
  function EncodeSextet(x: Sextet): (c: char)
    ensures IsUrlSafe(c)
  {
    if x < 26 then ('A' as int + x) as char
    else if x < 52 then ('a' as int + (x - 26)) as char
    else if x < 62 then ('0' as int + (x - 52)) as char
    else if x == 62 then '-'
    else '_'
  }

  predicate IsUrlSafe(c: char) {
    'A' <= c <= 'Z' || 'a' <= c <= 'z' || '0' <= c <= '9' || c == '-' || c == '_'
  }

  /**
    The 6-bit value of a character on decoding. The decoder maps '-' and '_' back to
    '+' and '/' before handing the text to the standard Base64 decoder, so the standard
    alphabet's '+' and '/' are accepted as well.
   */
  function DecodeSextet(c: char): (r: Option<Sextet>)
    ensures r.Some? <==> IsUrlSafe(c) || c == '+' || c == '/'
    ensures r.Some? && IsUrlSafe(c) ==> EncodeSextet(r.value) == c
  {
    if 'A' <= c <= 'Z' then Some(c as int - 'A' as int)
    else if 'a' <= c <= 'z' then Some(c as int - 'a' as int + 26)
    else if '0' <= c <= '9' then Some(c as int - '0' as int + 52)
    else if c == '-' || c == '+' then Some(62)
    else if c == '_' || c == '/' then Some(63)
    else None
  }

  /** Unpadded encoding: every 3 bytes give 4 characters, a final 1 or 2 bytes give 2 or 3. */
  function Encode(bs: seq<Byte>): (s: string)
    decreases |bs|
  {
    if |bs| >= 3 then
      var b0, b1, b2 := bs[0], bs[1], bs[2];
      FullGroup(b0, b1, b2) + Encode(bs[3..])
    else if |bs| == 2 then
      var b0, b1 := bs[0], bs[1];
      [EncodeSextet(b0 / 4), EncodeSextet((b0 % 4) * 16 + b1 / 16), EncodeSextet((b1 % 16) * 4)]
    else if |bs| == 1 then
      [EncodeSextet(bs[0] / 4), EncodeSextet((bs[0] % 4) * 16)]
    else []
  }

  /** Decodes one group of 2 to 4 characters into 1 to 3 bytes. */
  function DecodeGroup(s: string): Option<seq<Byte>>
    requires 2 <= |s| <= 4
  {
    var a := DecodeSextet(s[0]);
    var b := DecodeSextet(s[1]);
    var c := if |s| >= 3 then DecodeSextet(s[2]) else Some(0);
    var d := if |s| == 4 then DecodeSextet(s[3]) else Some(0);
    if a.None? || b.None? || c.None? || d.None? then None
    else
      var sa, sb, sc, sd := a.value as int, b.value as int, c.value as int, d.value as int;
      var x0: Byte := sa * 4 + sb / 16;
      var x1: Byte := (sb % 16) * 16 + sc / 4;
      var x2: Byte := (sc % 4) * 64 + sd;
      Some(if |s| == 2 then [x0] else if |s| == 3 then [x0, x1] else [x0, x1, x2])
  }

  /** The decimal digits of `n`, as the length error message shows them. */
  function Decimal(n: nat): string
    decreases n
  {
    if n < 10 then [('0' as int + n) as char]
    else Decimal(n / 10) + [('0' as int + n % 10) as char]
  }

  /**
    The '=' padding Base64UrlDecode appends before handing the text to the standard
    decoder: two for a length of 2 mod 4, one for 3 mod 4, none for a multiple of 4.
   */
  function WithPadding(s: string): (t: string)
    requires |s| % 4 != 1
    ensures |t| % 4 == 0 && |s| <= |t| && t[..|s|] == s
  {
    var pad := PaddingLength(|s|);
    var t := s + seq(pad, _ => '=');
    assert t[..|s|] == s;
    t
  }

  function PaddingLength(n: nat): (k: nat)
    requires n % 4 != 1
    ensures (n + k) % 4 == 0
  {
    if n % 4 == 2 then 2 else if n % 4 == 3 then 1 else 0
  }

  /**
    How many characters of the first group of `t` carry data: a last group ending
    in "==" carries 2, one ending in a single '=' carries 3, any other group 4.
   */
  function GroupLength(t: string): (n: nat)
    requires |t| >= 4
    ensures 2 <= n <= 4 && forall k | n <= k < 4 :: t[k] == '='
  {
    if |t| == 4 && t[2] == '=' && t[3] == '=' then 2
    else if |t| == 4 && t[3] == '=' then 3
    else 4
  }

  /**
    Convert.FromBase64CharArray on a text whose length is a multiple of 4: groups of
    four, with '=' padding allowed only at the end of the last group. Unused low
    bits of the last group are ignored.
   */
  function DecodeBase64(t: string): Result<seq<Byte>>
    requires |t| % 4 == 0
    decreases |t|
  {
    if t == [] then Ok([])
    else
      match DecodeGroup(t[..GroupLength(t)])
      case None => Err(Format("The input is not a valid Base-64 string."))
      case Some(group) =>
        match DecodeBase64(t[4..])
        case Err(e) => Err(e)
        case Ok(rest) => Ok(group + rest)
  }

  /**
    WebEncoders.Base64UrlDecode. An empty text is no bytes; a length of 1 mod 4 is a
    FormatException; otherwise the padded text goes to the standard decoder, which
    rejects any character outside the two alphabets other than the trailing '='.
   */
  function Decode(s: string): (r: Result<seq<Byte>>)
    ensures s == [] ==> r == Ok([])
    ensures |s| % 4 == 1 ==> r == Err(Format("Malformed input: " + Decimal(|s|) + " is an invalid input length."))
    ensures (exists i | 0 <= i < |s| :: DecodeSextet(s[i]).None? && s[i] != '=') ==> r.Err?
  {
    if s == [] then Ok([])
    else if |s| % 4 == 1 then Err(Format("Malformed input: " + Decimal(|s|) + " is an invalid input length."))
    else
      var t := WithPadding(s);
      ForeignCharacterRejected(s, t);
      DecodeBase64(t)
  }

  lemma ForeignCharacterRejected(s: string, t: string)
    requires |t| % 4 == 0 && |s| <= |t| && t[..|s|] == s
    ensures (exists i | 0 <= i < |s| :: DecodeSextet(s[i]).None? && s[i] != '=') ==> DecodeBase64(t).Err?
  {
    if i :| 0 <= i < |s| && DecodeSextet(s[i]).None? && s[i] != '=' {
      assert t[i] == s[i];
      DecodeBase64Rejects(t, i);
    }
  }

  /** A character outside both alphabets, and not '=', makes the standard decoder fail. */
  lemma {:induction false} DecodeBase64Rejects(t: string, i: nat)
    requires |t| % 4 == 0 && i < |t|
    requires DecodeSextet(t[i]).None? && t[i] != '='
    ensures DecodeBase64(t).Err?
    decreases |t|
  {
    var n := GroupLength(t);
    if i < 4 {
      assert i < n;
      assert t[..n][i] == t[i];
      assert DecodeGroup(t[..n]).None?;
    } else if DecodeGroup(t[..n]).Some? {
      assert t[4..][i - 4] == t[i];
      DecodeBase64Rejects(t[4..], i - 4);
    }
  }

  lemma EncodeLength(bs: seq<Byte>)
    ensures |Encode(bs)| == (4 * |bs| + 2) / 3
    ensures forall i :: 0 <= i < |Encode(bs)| ==> IsUrlSafe(Encode(bs)[i])
  {
  }

  lemma DecodeSextetOfEncode(x: Sextet)
    ensures DecodeSextet(EncodeSextet(x)) == Some(x)
  {
  }

  /** The four characters of a full group, as Encode writes them. */
  function FullGroup(b0: Byte, b1: Byte, b2: Byte): (s: string)
    ensures |s| == 4
  {
    [EncodeSextet(b0 / 4), EncodeSextet((b0 % 4) * 16 + b1 / 16),
     EncodeSextet((b1 % 16) * 4 + b2 / 64), EncodeSextet(b2 % 64)]
  }

  /** A full group of four characters decodes to the three bytes it encodes. */
  lemma DecodeFullGroup(b0: Byte, b1: Byte, b2: Byte)
    ensures DecodeGroup(FullGroup(b0, b1, b2)) == Some([b0, b1, b2])
  {
    var x1: Sextet := (b0 % 4) * 16 + b1 / 16;
    var x2: Sextet := (b1 % 16) * 4 + b2 / 64;
    DecodeSextetOfEncode(b0 / 4);
    DecodeSextetOfEncode(x1);
    DecodeSextetOfEncode(x2);
    DecodeSextetOfEncode(b2 % 64);
    assert x1 % 16 == b1 / 16 && x1 / 16 == b0 % 4;
    assert x2 / 4 == b1 % 16 && x2 % 4 == b2 / 64;
  }

  /** A final group of three characters decodes to the two bytes it encodes. */
  lemma DecodeTwoByteGroup(b0: Byte, b1: Byte)
    ensures 2 <= |Encode([b0, b1])| <= 4 && DecodeGroup(Encode([b0, b1])) == Some([b0, b1])
  {
    var x1: Sextet := (b0 % 4) * 16 + b1 / 16;
    var x2: Sextet := (b1 % 16) * 4;
    DecodeSextetOfEncode(b0 / 4);
    DecodeSextetOfEncode(x1);
    DecodeSextetOfEncode(x2);
    assert x1 % 16 == b1 / 16 && x1 / 16 == b0 % 4;
    assert x2 / 4 == b1 % 16;
  }

  /** A final group of two characters decodes to the byte it encodes. */
  lemma DecodeOneByteGroup(b0: Byte)
    ensures 2 <= |Encode([b0])| <= 4 && DecodeGroup(Encode([b0])) == Some([b0])
  {
    var x1: Sextet := (b0 % 4) * 16;
    DecodeSextetOfEncode(b0 / 4);
    DecodeSextetOfEncode(x1);
    assert x1 / 16 == b0 % 4;
  }

  lemma DecodeEncodeTwo(b0: Byte, b1: Byte)
    ensures DecodeBase64(WithPadding(Encode([b0, b1]))) == Ok([b0, b1])
  {
    var s := Encode([b0, b1]);
    var t := WithPadding(s);
    DecodeTwoByteGroup(b0, b1);
    assert t == s + "=" && t[3] == '=' && t[2] == s[2] != '=';
    assert t[..3] == s && t[4..] == [];
    assert DecodeBase64(t[4..]) == Ok([]);
    assert [b0, b1] + [] == [b0, b1];
  }

  lemma DecodeEncodeOne(b0: Byte)
    ensures DecodeBase64(WithPadding(Encode([b0]))) == Ok([b0])
  {
    var s := Encode([b0]);
    var t := WithPadding(s);
    DecodeOneByteGroup(b0);
    assert t == s + "==" && t[2] == '=' && t[3] == '=';
    assert t[..2] == s && t[4..] == [];
    assert DecodeBase64(t[4..]) == Ok([]);
    assert [b0] + [] == [b0];
  }

  /** Fewer than three bytes are one final group, or nothing. */
  lemma DecodeEncodeShort(bs: seq<Byte>)
    requires |bs| < 3
    ensures |Encode(bs)| % 4 != 1 && DecodeBase64(WithPadding(Encode(bs))) == Ok(bs)
  {
    EncodeLength(bs);
    if |bs| == 2 {
      assert bs == [bs[0], bs[1]];
      DecodeEncodeTwo(bs[0], bs[1]);
    } else if |bs| == 1 {
      assert bs == [bs[0]];
      DecodeEncodeOne(bs[0]);
    }
  }

  /** The standard decoder inverts the encoder once the padding is added back. */
  lemma {:induction false} DecodePaddedEncode(bs: seq<Byte>)
    ensures |Encode(bs)| % 4 != 1 && DecodeBase64(WithPadding(Encode(bs))) == Ok(bs)
    decreases |bs|
  {
    if |bs| >= 3 {
      assert bs == [bs[0], bs[1], bs[2]] + bs[3..];
      var g := FullGroup(bs[0], bs[1], bs[2]);
      var rest := Encode(bs[3..]);
      EncodeFirstGroup(bs);
      DecodeFullGroup(bs[0], bs[1], bs[2]);
      DecodePaddedEncode(bs[3..]);
      PaddingAfterGroup(g, rest);
      DecodeBase64Cons(g, WithPadding(rest), [bs[0], bs[1], bs[2]], bs[3..]);
      assert WithPadding(Encode(bs)) == g + WithPadding(rest);
    } else {
      DecodeEncodeShort(bs);
    }
  }

  lemma EncodeFirstGroup(bs: seq<Byte>)
    requires |bs| >= 3
    ensures Encode(bs) == FullGroup(bs[0], bs[1], bs[2]) + Encode(bs[3..])
  {
  }

  lemma PaddingAfterGroup(g: string, rest: string)
    requires |g| == 4 && |rest| % 4 != 1
    ensures |g + rest| % 4 != 1 && WithPadding(g + rest) == g + WithPadding(rest)
  {
  }

  /** A full group without padding, then more groups: the bytes of both, in order. */
  lemma DecodeBase64Cons(g: string, u: string, x: seq<Byte>, y: seq<Byte>)
    requires |g| == 4 && g[3] != '=' && |u| % 4 == 0
    requires DecodeGroup(g) == Some(x) && DecodeBase64(u) == Ok(y)
    ensures DecodeBase64(g + u) == Ok(x + y)
  {
    var t := g + u;
    assert t[3] == g[3];
    assert t[..GroupLength(t)] == g;
    assert t[4..] == u;
  }

  /** Decoding inverts the unpadded encoding Base64UrlEncode writes. */
  lemma DecodeEncode(bs: seq<Byte>)
    ensures Decode(Encode(bs)) == Ok(bs)
  {
    DecodePaddedEncode(bs);
    if bs == [] {
      assert Encode(bs) == [];
    }
  }

  /** The padded form standard Base64 writes decodes too: the decoder adds no further padding. */
  lemma DecodeStandardPadding(bs: seq<Byte>)
    ensures |Encode(bs)| % 4 != 1 && Decode(WithPadding(Encode(bs))) == Ok(bs)
  {
    DecodePaddedEncode(bs);
    var t := WithPadding(Encode(bs));
    if t == [] {
      assert Encode(bs) == [];
    } else {
      assert WithPadding(t) == t;
    }
  }

  /** "QUI" and its padded form "QUI=" both decode to the bytes of "AB". */
  lemma PaddedAndUnpaddedAgree()
    ensures Decode("QUI") == Ok([0x41, 0x42]) && Decode("QUI=") == Ok([0x41, 0x42])
  {
    var e := Encode([0x41, 0x42]);
    assert e == "QUI";
    assert WithPadding(e) == "QUI=";
    DecodeEncode([0x41, 0x42]);
    DecodeStandardPadding([0x41, 0x42]);
  }
}
