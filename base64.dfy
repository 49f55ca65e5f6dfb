/**
 * Base 64 encoding with padding (section 4 of RFC 4648), as `Buffer.toString('base64')`
 * produces it, and the unpadded URL-safe form (section 5 of RFC 4648, padding dropped as
 * section 3.2 allows) that the outbound message is sent in.
 */
module Base64 {
  import opened Wrappers
  import opened Bytes

  type Sextet = v: int | 0 <= v < 64

  predicate IsAlphabetChar(c: char) {
    'A' <= c <= 'Z' || 'a' <= c <= 'z' || '0' <= c <= '9' || c == '+' || c == '/'
  }

  /** The character for a 6-bit value (Table 1 of RFC 4648); it is a letter of the alphabet. */
  function CharOf(v: Sextet): (c: char)
    ensures IsAlphabetChar(c)
  {
    if v < 26 then ('A' as int + v) as char
    else if v < 52 then ('a' as int + (v - 26)) as char
    else if v < 62 then ('0' as int + (v - 52)) as char
    else if v == 62 then '+'
    else '/'
  }

  /** The 6-bit value of an alphabet character; the inverse of CharOf. */
  function ValueOf(c: char): (v: Sextet)
    requires IsAlphabetChar(c)
  {
    if 'A' <= c <= 'Z' then c as int - 'A' as int
    else if 'a' <= c <= 'z' then c as int - 'a' as int + 26
    else if '0' <= c <= '9' then c as int - '0' as int + 52
    else if c == '+' then 62
    else 63
  }

  /** ValueOf undoes CharOf. */
  lemma ValueOfCharOf(v: Sextet)
    ensures ValueOf(CharOf(v)) == v
  {
  }

  /** The last group for one remaining octet. */
  function EncodeOne(b0: Byte): string {
    [CharOf(b0 / 4), CharOf(b0 % 4 * 16), '=', '=']
  }

  /** The last group for two remaining octets. */
  function EncodeTwo(b0: Byte, b1: Byte): string {
    [CharOf(b0 / 4), CharOf(b0 % 4 * 16 + b1 / 16), CharOf(b1 % 16 * 4), '=']
  }

  /** A full group: three octets as four characters. */
  function EncodeThree(b0: Byte, b1: Byte, b2: Byte): string {
    [CharOf(b0 / 4), CharOf(b0 % 4 * 16 + b1 / 16), CharOf(b1 % 16 * 4 + b2 / 64), CharOf(b2 % 64)]
  }

  /** Standard base 64 of `b`, padded with '=' to a multiple of four characters. */
  function Encode(b: seq<Byte>): string
    decreases |b|
  {
    if |b| == 0 then ""
    else if |b| == 1 then EncodeOne(b[0])
    else if |b| == 2 then EncodeTwo(b[0], b[1])
    else EncodeThree(b[0], b[1], b[2]) + Encode(b[3..])
  }

  /** The number of '=' that pad the encoding of `n` octets. */
  function PadCount(n: nat): nat {
    (3 - n % 3) % 3
  }

  /** Decodes one group of four characters, the last one possibly padded. */
  function DecodeGroup(g: string, last: bool): Option<seq<Byte>>
    requires |g| == 4
  {
    if !IsAlphabetChar(g[0]) || !IsAlphabetChar(g[1]) then None
    else
      var v0, v1 := ValueOf(g[0]), ValueOf(g[1]);
      if last && g[2] == '=' && g[3] == '=' then
        Some([v0 * 4 + v1 / 16])
      else if !IsAlphabetChar(g[2]) then None
      else
        var v2 := ValueOf(g[2]);
        if last && g[3] == '=' then
          Some([v0 * 4 + v1 / 16, v1 % 16 * 16 + v2 / 4])
        else if !IsAlphabetChar(g[3]) then None
        else
          var v3 := ValueOf(g[3]);
          Some([v0 * 4 + v1 / 16, v1 % 16 * 16 + v2 / 4, v2 % 4 * 64 + v3])
  }

  /**
   * Standard base 64 decoding of groups of four; padding is allowed only in the final group.
   * Non-zero unused low bits in a padded final group are not rejected.
   */
  function Decode(s: string): Option<seq<Byte>>
    decreases |s|
  {
    if |s| == 0 then Some([])
    else if |s| < 4 then None
    else match DecodeGroup(s[..4], |s| == 4)
      case None => None
      case Some(head) =>
        match Decode(s[4..])
        case None => None
        case Some(tail) => Some(head + tail)
  }

  lemma GroupOneRoundTrip(b0: Byte)
    ensures DecodeGroup(EncodeOne(b0), true) == Some([b0])
  {
    var g := EncodeOne(b0);
    ValueOfCharOf(b0 / 4);
    ValueOfCharOf(b0 % 4 * 16);
    assert ValueOf(g[0]) == b0 / 4 && ValueOf(g[1]) == b0 % 4 * 16;
  }

  lemma GroupTwoRoundTrip(b0: Byte, b1: Byte)
    ensures DecodeGroup(EncodeTwo(b0, b1), true) == Some([b0, b1])
  {
    var g := EncodeTwo(b0, b1);
    var v1 := b0 % 4 * 16 + b1 / 16;
    var v2 := b1 % 16 * 4;
    ValueOfCharOf(b0 / 4);
    ValueOfCharOf(v1);
    ValueOfCharOf(v2);
    assert ValueOf(g[0]) == b0 / 4 && ValueOf(g[1]) == v1 && ValueOf(g[2]) == v2;
    assert v1 / 16 == b0 % 4 && v1 % 16 == b1 / 16 && v2 / 4 == b1 % 16;
  }

  lemma GroupThreeRoundTrip(b0: Byte, b1: Byte, b2: Byte, last: bool)
    ensures DecodeGroup(EncodeThree(b0, b1, b2), last) == Some([b0, b1, b2])
  {
    var g := EncodeThree(b0, b1, b2);
    var v1 := b0 % 4 * 16 + b1 / 16;
    var v2 := b1 % 16 * 4 + b2 / 64;
    ValueOfCharOf(b0 / 4);
    ValueOfCharOf(v1);
    ValueOfCharOf(v2);
    ValueOfCharOf(b2 % 64);
    assert ValueOf(g[0]) == b0 / 4 && ValueOf(g[1]) == v1 && ValueOf(g[2]) == v2 && ValueOf(g[3]) == b2 % 64;
    assert v1 / 16 == b0 % 4 && v1 % 16 == b1 / 16 && v2 / 4 == b1 % 16 && v2 % 4 == b2 / 64;
  }

  lemma DecodeLastGroup(g: string, bs: seq<Byte>)
    requires |g| == 4 && DecodeGroup(g, true) == Some(bs)
    ensures Decode(g) == Some(bs)
  {
    assert g[..4] == g && g[4..] == "";
    assert bs + [] == bs;
  }

  lemma DecodeGroups(g: string, rest: string, head: seq<Byte>, tail: seq<Byte>)
    requires |g| == 4 && |rest| > 0
    requires DecodeGroup(g, false) == Some(head) && Decode(rest) == Some(tail)
    ensures Decode(g + rest) == Some(head + tail)
  {
    assert (g + rest)[..4] == g && (g + rest)[4..] == rest;
  }

  lemma ShortSeq(b: seq<Byte>)
    ensures |b| == 1 ==> [b[0]] == b
    ensures |b| == 2 ==> [b[0], b[1]] == b
    ensures |b| == 3 ==> [b[0], b[1], b[2]] == b
  {
  }

  lemma EncodeOfThree(b: seq<Byte>)
    requires |b| == 3
    ensures Encode(b) == EncodeThree(b[0], b[1], b[2])
  {
    assert b[3..] == [];
    assert EncodeThree(b[0], b[1], b[2]) + "" == EncodeThree(b[0], b[1], b[2]);
  }

  /** The last group, for one to three octets, decodes back. */
  lemma DecodeEncodeLast(b: seq<Byte>)
    requires 1 <= |b| <= 3
    ensures Decode(Encode(b)) == Some(b)
  {
    if |b| == 1 {
      GroupOneRoundTrip(b[0]);
      DecodeLastGroup(EncodeOne(b[0]), [b[0]]);
      ShortSeq(b);
    } else if |b| == 2 {
      GroupTwoRoundTrip(b[0], b[1]);
      DecodeLastGroup(EncodeTwo(b[0], b[1]), [b[0], b[1]]);
      ShortSeq(b);
    } else {
      GroupThreeRoundTrip(b[0], b[1], b[2], true);
      DecodeLastGroup(EncodeThree(b[0], b[1], b[2]), [b[0], b[1], b[2]]);
      EncodeOfThree(b);
      ShortSeq(b);
    }
  }

  lemma EncodeNonEmpty(b: seq<Byte>)
    requires |b| > 0
    ensures |Encode(b)| >= 4
  {
  }

  lemma SplitThree(b: seq<Byte>)
    requires |b| >= 3
    ensures [b[0], b[1], b[2]] + b[3..] == b
  {
  }

  /** A full group in front of a decodable rest decodes back. */
  lemma DecodeEncodeStep(b: seq<Byte>)
    requires |b| > 3 && Decode(Encode(b[3..])) == Some(b[3..])
    ensures Decode(Encode(b)) == Some(b)
  {
    var g, rest := EncodeThree(b[0], b[1], b[2]), Encode(b[3..]);
    assert Encode(b) == g + rest;
    EncodeNonEmpty(b[3..]);
    GroupThreeRoundTrip(b[0], b[1], b[2], false);
    SplitThree(b);
    DecodeGroups(g, rest, [b[0], b[1], b[2]], b[3..]);
  }

  /** Decoding undoes encoding, for every octet sequence. */
  lemma {:induction false} DecodeEncode(b: seq<Byte>)
    ensures Decode(Encode(b)) == Some(b)
    decreases |b|
  {
    if 1 <= |b| <= 3 {
      DecodeEncodeLast(b);
    } else if |b| > 3 {
      DecodeEncode(b[3..]);
      DecodeEncodeStep(b);
    }
  }

  lemma PadCountStep(n: nat)
    requires n >= 3
    ensures PadCount(n) == PadCount(n - 3) <= 2
  {
  }

  /** The shape of an encoding: alphabet characters, then exactly PadCount '=' characters. */
  lemma {:induction false} EncodeShape(b: seq<Byte>)
    ensures var s := Encode(b); var n := |s| - PadCount(|b|);
      PadCount(|b|) <= 2 && 0 <= n &&
      (forall i :: 0 <= i < n ==> IsAlphabetChar(s[i])) &&
      (forall i :: n <= i < |s| ==> s[i] == '=')
    decreases |b|
  {
    if |b| >= 3 {
      EncodeShape(b[3..]);
      var s := Encode(b);
      assert s == EncodeThree(b[0], b[1], b[2]) + Encode(b[3..]);
      PadCountStep(|b|);
    }
  }

  /** An encoding holds no '-' and no CR, so no line of it can be taken for a MIME delimiter or a line break. */
  lemma EncodeHasNoDashOrCR(b: seq<Byte>)
    ensures '-' !in Encode(b) && '\r' !in Encode(b)
  {
    EncodeShape(b);
    var s := Encode(b);
    var n := |s| - PadCount(|b|);
    forall i | 0 <= i < |s|
      ensures s[i] != '-' && s[i] != '\r'
    {
      if i < n {
        assert IsAlphabetChar(s[i]);
      }
    }
  }

  /** The URL-safe character for a standard one ('+' becomes '-', '/' becomes '_'). */
  function ToUrlChar(c: char): char {
    if c == '+' then '-' else if c == '/' then '_' else c
  }

  function FromUrlChar(c: char): char {
    if c == '-' then '+' else if c == '_' then '/' else c
  }

  /** `s.replace(/=+$/, '')`. */
  function StripTrailingPadding(s: string): (r: string)
    decreases |s|
  {
    if |s| > 0 && s[|s| - 1] == '=' then StripTrailingPadding(s[..|s| - 1]) else s
  }

  /** `.replace(/\+/g, '-').replace(/\//g, '_')`. */
  function UrlSafe(s: string): string {
    seq(|s|, i requires 0 <= i < |s| => ToUrlChar(s[i]))
  }

  function Standard(u: string): string {
    seq(|u|, i requires 0 <= i < |u| => FromUrlChar(u[i]))
  }

  function Padding(k: nat): string {
    seq(k, _ => '=')
  }

  /** The wire form of a standard encoding: the URL-safe characters with the trailing '=' run removed. */
  function ToUrl(s: string): string {
    StripTrailingPadding(UrlSafe(s))
  }

  /** Back to standard base 64: undo the character mapping and pad to a multiple of four. */
  function FromUrl(u: string): Option<string> {
    if |u| % 4 == 1 then None else Some(Standard(u) + Padding((4 - |u| % 4) % 4))
  }

  function DecodeUrl(u: string): Option<seq<Byte>> {
    match FromUrl(u)
    case None => None
    case Some(s) => Decode(s)
  }

  lemma {:induction false} StripTrailingPaddingOf(core: string, k: nat)
    requires |core| == 0 || core[|core| - 1] != '='
    ensures StripTrailingPadding(core + Padding(k)) == core
    decreases k
  {
    var s := core + Padding(k);
    if k == 0 {
      assert s == core;
    } else {
      assert s[..|s| - 1] == core + Padding(k - 1);
      StripTrailingPaddingOf(core, k - 1);
    }
  }

  /** What the mapping and stripping do to an encoding: they keep its alphabet part, URL-safe. */
  lemma ToUrlOfEncoding(b: seq<Byte>)
    ensures var s := Encode(b); var n := |s| - PadCount(|b|);
      0 <= n && ToUrl(s) == UrlSafe(s[..n]) && s == s[..n] + Padding(PadCount(|b|))
      && (forall i :: 0 <= i < n ==> IsAlphabetChar(s[i]))
  {
    var s := Encode(b);
    EncodeShape(b);
    var k := PadCount(|b|);
    var n := |s| - k;
    assert s == s[..n] + Padding(k);
    assert UrlSafe(s) == UrlSafe(s[..n]) + Padding(k);
    assert n > 0 ==> IsAlphabetChar(s[n - 1]);
    StripTrailingPaddingOf(UrlSafe(s[..n]), k);
  }

  /** Re-padding an unpadded encoding to a multiple of four restores exactly the `k` '=' removed. */
  lemma PaddingRestored(len: nat, n: nat, k: nat)
    requires len % 4 == 0 && k <= 2 && n + k == len
    ensures n % 4 != 1 && (4 - n % 4) % 4 == k
  {
    if k > 0 {
      assert n == 4 * (len / 4 - 1) + (4 - k);
    }
  }

  lemma FourMore(x: nat)
    requires x % 4 == 0
    ensures (4 + x) % 4 == 0
  {
  }

  /** An encoding is a whole number of groups of four, and ends in at most two '='. */
  lemma {:induction false} EncodingLength(b: seq<Byte>)
    ensures |Encode(b)| % 4 == 0 && PadCount(|b|) <= 2 && PadCount(|b|) <= |Encode(b)|
    decreases |b|
  {
    if |b| > 3 {
      EncodingLength(b[3..]);
      assert |Encode(b)| == 4 + |Encode(b[3..])|;
      FourMore(|Encode(b[3..])|);
      PadCountStep(|b|);
    } else if |b| > 0 {
      assert |Encode(b)| == 4;
    }
  }

  /** On alphabet text the URL-safe mapping yields no '+', '/' or '=' and is undone by Standard. */
  lemma UrlSafeOfAlphabet(s: string)
    requires forall i :: 0 <= i < |s| ==> IsAlphabetChar(s[i])
    ensures var u := UrlSafe(s);
      (forall i :: 0 <= i < |u| ==> u[i] != '+' && u[i] != '/' && u[i] != '=')
      && Standard(u) == s
  {
  }

  lemma FromUrlOfUrlSafe(core: string, k: nat)
    requires forall i :: 0 <= i < |core| ==> IsAlphabetChar(core[i])
    requires |core| % 4 != 1 && (4 - |core| % 4) % 4 == k
    ensures FromUrl(UrlSafe(core)) == Some(core + Padding(k))
  {
    UrlSafeOfAlphabet(core);
  }

  /** An alphabet core of `n` characters padded by `k` '=' to a multiple of four comes back from its wire form. */
  lemma FromUrlOfPadded(s: string, n: nat, k: nat)
    requires |s| % 4 == 0 && k <= 2 && n + k == |s| && s == s[..n] + Padding(k)
    requires forall i :: 0 <= i < n ==> IsAlphabetChar(s[i])
    ensures FromUrl(UrlSafe(s[..n])) == Some(s)
  {
    var core := s[..n];
    assert |core| == n;
    PaddingRestored(|s|, n, k);
    FromUrlOfUrlSafe(core, k);
  }

  /** Mapping the wire form of an encoding back and re-padding it gives the encoding again. */
  lemma FromUrlOfEncoding(b: seq<Byte>)
    ensures var s := Encode(b); var n := |s| - PadCount(|b|);
      0 <= n && ToUrl(s) == UrlSafe(s[..n]) && FromUrl(ToUrl(s)) == Some(s)
      && (forall i :: 0 <= i < n ==> IsAlphabetChar(s[i]))
  {
    var s := Encode(b);
    var k := PadCount(|b|);
    ToUrlOfEncoding(b);
    EncodingLength(b);
    FromUrlOfPadded(s, |s| - k, k);
  }

  /** The wire form of an encoding holds no '+', '/' or '='. */
  lemma UrlAlphabet(b: seq<Byte>)
    ensures var u := ToUrl(Encode(b));
      forall i :: 0 <= i < |u| ==> u[i] != '+' && u[i] != '/' && u[i] != '='
  {
    var s := Encode(b);
    FromUrlOfEncoding(b);
    UrlSafeOfAlphabet(s[..|s| - PadCount(|b|)]);
  }

  /** Decoding the wire form of an encoding gives back the octets. */
  lemma UrlDecodes(b: seq<Byte>)
    ensures FromUrl(ToUrl(Encode(b))) == Some(Encode(b))
    ensures DecodeUrl(ToUrl(Encode(b))) == Some(b)
  {
    FromUrlOfEncoding(b);
    DecodeEncode(b);
  }

  /**
   * The wire form holds no '+', '/' or '='; mapping it back and re-padding gives exactly the
   * standard encoding, so decoding it recovers the octets.
   */
  lemma UrlRoundTrip(b: seq<Byte>)
    ensures var u := ToUrl(Encode(b));
      (forall i :: 0 <= i < |u| ==> u[i] != '+' && u[i] != '/' && u[i] != '=')
      && FromUrl(u) == Some(Encode(b))
      && DecodeUrl(u) == Some(b)
  {
    UrlAlphabet(b);
    UrlDecodes(b);
  }
}
