/**
 * UTF-8 (section 3 of RFC 3629) over Unicode scalar values, which is what
 * `Buffer.from(s, 'utf-8')` produces for a string without lone surrogates.
 */
module Utf8 {
  import opened Wrappers
  import opened Bytes

  predicate IsScalar(cp: int) {
    0 <= cp < 0xD800 || 0xE000 <= cp < 0x11_0000
  }

  predicate IsContinuation(b: Byte) {
    0x80 <= b < 0xC0
  }

  /** How many octets the sequence that starts with `lead` has; 0 for an octet no sequence starts with. */
  function SequenceLength(lead: Byte): nat {
    if lead < 0x80 then 1
    else if lead < 0xC0 then 0
    else if lead < 0xE0 then 2
    else if lead < 0xF0 then 3
    else if lead < 0xF8 then 4
    else 0
  }

  /** Decodes exactly one encoded scalar value. */
  function DecodeChar(bs: seq<Byte>): Option<char> {
    if |bs| == 0 || SequenceLength(bs[0]) != |bs| then None
    else if !(forall i :: 1 <= i < |bs| ==> IsContinuation(bs[i])) then None
    else
      var cp: int :=
        if |bs| == 1 then (bs[0] as int)
        else if |bs| == 2 then ((bs[0] as int) - 0xC0) * 64 + ((bs[1] as int) - 0x80)
        else if |bs| == 3 then (((bs[0] as int) - 0xE0) * 64 + ((bs[1] as int) - 0x80)) * 64 + ((bs[2] as int) - 0x80)
        else ((((bs[0] as int) - 0xF0) * 64 + ((bs[1] as int) - 0x80)) * 64 + ((bs[2] as int) - 0x80)) * 64 + ((bs[3] as int) - 0x80);
      if IsScalar(cp) then Some(cp as char) else None
  }

  /** The octets of one character: its lead octet announces the length. */
  function EncodeChar(c: char): (bs: seq<Byte>)
    ensures 1 <= |bs| <= 4 && SequenceLength(bs[0]) == |bs|
    ensures (c as int < 0x80) == (|bs| == 1)
    ensures |bs| == 1 ==> bs[0] == c as int
  {
    var cp := c as int;
    if cp < 0x80 then [cp]
    else if cp < 0x800 then [0xC0 + cp / 64, 0x80 + cp % 64]
    else if cp < 0x1_0000 then
      var q := cp / 64;
      [0xE0 + q / 64, 0x80 + q % 64, 0x80 + cp % 64]
    else
      var q1 := cp / 64;
      var q2 := q1 / 64;
      [0xF0 + q2 / 64, 0x80 + q2 % 64, 0x80 + q1 % 64, 0x80 + cp % 64]
  }

  lemma TwoOctets(c: char)
    requires 0x80 <= c as int < 0x800
    ensures DecodeChar(EncodeChar(c)) == Some(c)
  {
    var cp := c as int;
    var bs := EncodeChar(c);
    assert bs == [0xC0 + cp / 64, 0x80 + cp % 64];
    assert ((bs[0] as int) - 0xC0) * 64 + ((bs[1] as int) - 0x80) == cp;
  }

  lemma ThreeOctets(c: char)
    requires 0x800 <= c as int < 0x1_0000
    ensures DecodeChar(EncodeChar(c)) == Some(c)
  {
    var cp := c as int;
    var q := cp / 64;
    var bs := EncodeChar(c);
    assert bs == [0xE0 + q / 64, 0x80 + q % 64, 0x80 + cp % 64];
    assert ((bs[0] as int) - 0xE0) * 64 + ((bs[1] as int) - 0x80) == q;
    assert (q * 64) + ((bs[2] as int) - 0x80) == cp;
  }

  lemma FourOctets(c: char)
    requires 0x1_0000 <= c as int
    ensures DecodeChar(EncodeChar(c)) == Some(c)
  {
    var cp := c as int;
    var q1 := cp / 64;
    var q2 := q1 / 64;
    var bs := EncodeChar(c);
    assert bs == [0xF0 + q2 / 64, 0x80 + q2 % 64, 0x80 + q1 % 64, 0x80 + cp % 64];
    assert ((bs[0] as int) - 0xF0) * 64 + ((bs[1] as int) - 0x80) == q2;
    assert q2 * 64 + ((bs[2] as int) - 0x80) == q1;
    assert q1 * 64 + ((bs[3] as int) - 0x80) == cp;
  }

  /** The octets of a character decode back to it. */
  lemma DecodeEncodeChar(c: char)
    ensures DecodeChar(EncodeChar(c)) == Some(c)
  {
    if c as int < 0x80 {
    } else if c as int < 0x800 {
      TwoOctets(c);
    } else if c as int < 0x1_0000 {
      ThreeOctets(c);
    } else {
      FourOctets(c);
    }
  }

  function Encode(s: string): seq<Byte> {
    if |s| == 0 then [] else EncodeChar(s[0]) + Encode(s[1..])
  }

  /**
   * Decodes octets sequence by sequence: None for a bad lead octet, a truncated sequence or a bad
   * continuation octet. Overlong forms are not rejected; only the round trip is relied on.
   */
  function Decode(bs: seq<Byte>): Option<string>
    decreases |bs|
  {
    if |bs| == 0 then Some("")
    else
      var n := SequenceLength(bs[0]);
      if n == 0 || n > |bs| then None
      else match DecodeChar(bs[..n])
        case None => None
        case Some(c) =>
          match Decode(bs[n..])
          case None => None
          case Some(rest) => Some([c] + rest)
  }

  /** Text survives the trip through its UTF-8 octets unchanged, non-ASCII included. */
  lemma {:induction false} DecodeEncode(s: string)
    ensures Decode(Encode(s)) == Some(s)
  {
    if |s| > 0 {
      var head := EncodeChar(s[0]);
      var bs := Encode(s);
      assert bs[..|head|] == head;
      assert bs[|head|..] == Encode(s[1..]);
      DecodeEncodeChar(s[0]);
      DecodeEncode(s[1..]);
      assert [s[0]] + s[1..] == s;
    }
  }
}
