/**
 * Byte-level encodings the signature goes through: the UTF-8 bytes of the
 * pre-image (`String::as_bytes`), and the lowercase hexadecimal rendering
 * of the 16-byte MD5 digest (`format!("{:x}", digest)`).
 */
module Bytes {
  import opened Wrappers

  type byte = x: int | 0 <= x < 256

  /** An MD5 digest: sixteen bytes (section 3.5 of RFC 1321). */
  type Digest = d: seq<byte> | |d| == 16
    witness [0, 0, 0, 0, 0, 0, 0, 0, 0, 0, 0, 0, 0, 0, 0, 0]

  predicate IsContinuation(b: byte)
  {
    0x80 <= b < 0xC0
  }

  predicate IsScalar(cp: int)
  {
    (0 <= cp < 0xD800) || (0xE000 <= cp < 0x11_0000)
  }

  /** Number of bytes in the UTF-8 sequence a lead byte opens; 0 for a byte that cannot lead. */
  function SequenceLength(lead: byte): nat
  {
    if lead < 0x80 then 1
    else if 0xC0 <= lead < 0xE0 then 2
    else if 0xE0 <= lead < 0xF0 then 3
    else if 0xF0 <= lead < 0xF8 then 4
    else 0
  }

  /** The UTF-8 encoding of one Unicode scalar value. */
  function EncodeChar(c: char): (r: seq<byte>)
    ensures 1 <= |r| <= 4
    ensures SequenceLength(r[0]) == |r|
    ensures forall i :: 1 <= i < |r| ==> IsContinuation(r[i])
    ensures c as int < 0x80 <==> r == [c as int]
    ensures |r| == (if c as int < 0x80 then 1 else if c as int < 0x800 then 2 else if c as int < 0x1_0000 then 3 else 4)
  {
    var cp := c as int;
    if cp < 0x80 then
      [cp]
    else if cp < 0x800 then
      [0xC0 + cp / 0x40, 0x80 + cp % 0x40]
    else if cp < 0x1_0000 then
      [0xE0 + cp / 0x1000, 0x80 + (cp / 0x40) % 0x40, 0x80 + cp % 0x40]
    else
      [0xF0 + cp / 0x4_0000, 0x80 + (cp / 0x1000) % 0x40, 0x80 + (cp / 0x40) % 0x40, 0x80 + cp % 0x40]
  }

  /** The scalar value a complete UTF-8 sequence spells, if it spells one. */
  function DecodeChar(b: seq<byte>): Option<char>
  {
    if |b| == 0 || SequenceLength(b[0]) != |b| || !(forall i :: 1 <= i < |b| ==> IsContinuation(b[i])) then
      None
    else
      var cp: int :=
        if |b| == 1 then b[0] as int
        else if |b| == 2 then (b[0] as int - 0xC0) * 0x40 + (b[1] as int - 0x80)
        else if |b| == 3 then (b[0] as int - 0xE0) * 0x1000 + (b[1] as int - 0x80) * 0x40 + (b[2] as int - 0x80)
        else (b[0] as int - 0xF0) * 0x4_0000 + (b[1] as int - 0x80) * 0x1000 + (b[2] as int - 0x80) * 0x40 + (b[3] as int - 0x80);
      if IsScalar(cp) then Some(cp as char) else None
  }

  lemma DecodeTwo(cp: int)
    requires 0x80 <= cp < 0x800
    ensures (0xC0 + cp / 0x40 - 0xC0) * 0x40 + (0x80 + cp % 0x40 - 0x80) == cp
  {
  }

  lemma DecodeThree(cp: int)
    requires 0x800 <= cp < 0x1_0000
    ensures (0xE0 + cp / 0x1000 - 0xE0) * 0x1000 + (0x80 + (cp / 0x40) % 0x40 - 0x80) * 0x40
            + (0x80 + cp % 0x40 - 0x80) == cp
  {
    assert (cp / 0x40) % 0x40 + (cp / 0x1000) * 0x40 == cp / 0x40;
  }

  lemma DecodeFour(cp: int)
    requires 0x1_0000 <= cp < 0x11_0000
    ensures (0xF0 + cp / 0x4_0000 - 0xF0) * 0x4_0000 + (0x80 + (cp / 0x1000) % 0x40 - 0x80) * 0x1000
            + (0x80 + (cp / 0x40) % 0x40 - 0x80) * 0x40 + (0x80 + cp % 0x40 - 0x80) == cp
  {
    assert (cp / 0x1000) % 0x40 + (cp / 0x4_0000) * 0x40 == cp / 0x1000;
    assert (cp / 0x40) % 0x40 + (cp / 0x1000) * 0x40 == cp / 0x40;
  }

  lemma DecodeEncodeChar(c: char)
    ensures DecodeChar(EncodeChar(c)) == Some(c)
  {
    var cp := c as int;
    var e := EncodeChar(c);
    if cp < 0x80 {
    } else if cp < 0x800 {
      DecodeTwo(cp);
      assert (e[0] as int - 0xC0) * 0x40 + (e[1] as int - 0x80) == cp;
    } else if cp < 0x1_0000 {
      DecodeThree(cp);
      assert (e[0] as int - 0xE0) * 0x1000 + (e[1] as int - 0x80) * 0x40 + (e[2] as int - 0x80) == cp;
    } else {
      DecodeFour(cp);
      assert (e[0] as int - 0xF0) * 0x4_0000 + (e[1] as int - 0x80) * 0x1000 + (e[2] as int - 0x80) * 0x40 + (e[3] as int - 0x80) == cp;
    }
  }

  /** `s.as_bytes()`: the UTF-8 encoding of a string. */
  function Utf8(s: string): (r: seq<byte>)
    ensures |s| <= |r| <= 4 * |s|
    ensures (forall i :: 0 <= i < |s| ==> s[i] as int < 0x80) ==> r == seq(|s|, i requires 0 <= i < |s| => s[i] as int)
  {
    if |s| == 0 then [] else EncodeChar(s[0]) + Utf8(s[1..])
  }

  /** A one-character string is encoded exactly as that character, so with `Utf8Append` every string's bytes are fixed. */
  lemma Utf8Char(c: char)
    ensures Utf8([c]) == EncodeChar(c)
  {
    assert [c][1..] == [];
  }

  lemma {:induction false} Utf8Append(a: string, b: string)
    ensures Utf8(a + b) == Utf8(a) + Utf8(b)
  {
    if |a| > 0 {
      assert (a + b)[0] == a[0];
      assert (a + b)[1..] == a[1..] + b;
      Utf8Append(a[1..], b);
      assert Utf8(a + b) == EncodeChar(a[0]) + (Utf8(a[1..]) + Utf8(b));
    } else {
      assert a + b == b;
    }
  }

  /** Decodes a whole byte sequence, failing on any malformed sequence. */
  function Utf8Decode(b: seq<byte>): Option<string>
    decreases |b|
  {
    if |b| == 0 then
      Some([])
    else
      var n := SequenceLength(b[0]);
      if n == 0 || n > |b| then
        None
      else
        match DecodeChar(b[..n])
        case None => None
        case Some(c) =>
          match Utf8Decode(b[n..])
          case None => None
          case Some(rest) => Some([c] + rest)
  }

  /** UTF-8 encoding loses nothing: distinct strings have distinct bytes. */
  lemma {:induction false} Utf8RoundTrip(s: string)
    ensures Utf8Decode(Utf8(s)) == Some(s)
  {
    if |s| > 0 {
      var e := EncodeChar(s[0]);
      var b := Utf8(s);
      assert b[..|e|] == e;
      assert b[|e|..] == Utf8(s[1..]);
      DecodeEncodeChar(s[0]);
      Utf8RoundTrip(s[1..]);
      assert s == [s[0]] + s[1..];
    }
  }

  predicate IsLowerHex(c: char)
  {
    ('0' <= c <= '9') || ('a' <= c <= 'f')
  }

  function HexDigit(v: int): (c: char)
    requires 0 <= v < 16
    ensures IsLowerHex(c)
  {
    if v < 10 then ('0' as int + v) as char else ('a' as int + v - 10) as char
  }

  function HexValue(c: char): Option<int>
  {
    if '0' <= c <= '9' then Some(c as int - '0' as int)
    else if 'a' <= c <= 'f' then Some(c as int - 'a' as int + 10)
    else None
  }

  /** `{:x}` on a digest: two lowercase hexadecimal digits per byte, high nibble first. */
  function Hex(d: seq<byte>): (r: string)
    ensures |r| == 2 * |d|
    ensures forall i :: 0 <= i < |r| ==> IsLowerHex(r[i])
  {
    if |d| == 0 then "" else [HexDigit(d[0] / 16), HexDigit(d[0] % 16)] + Hex(d[1..])
  }

  /** Reads pairs of hexadecimal digits back into bytes. */
  function Unhex(s: string): Option<seq<byte>>
  {
    if |s| == 0 then Some([])
    else if |s| == 1 then None
    else
      match (HexValue(s[0]), HexValue(s[1]), Unhex(s[2..]))
      case (Some(hi), Some(lo), Some(rest)) => Some([hi * 16 + lo] + rest)
      case _ => None
  }

  /** The hexadecimal rendering is faithful: it reads back to the bytes. */
  lemma {:induction false} HexRoundTrip(d: seq<byte>)
    ensures Unhex(Hex(d)) == Some(d)
  {
    if |d| > 0 {
      var s := Hex(d);
      assert s[2..] == Hex(d[1..]);
      HexRoundTrip(d[1..]);
      assert d == [d[0]] + d[1..];
    }
  }
}
