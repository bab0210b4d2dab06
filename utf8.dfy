/**
  * UTF-8, the byte form of a Rust `String`.
  *
  * `String::from_utf8` (used by the RESP parser on every slice it turns into
  * text) accepts exactly the well-formed byte sequences of table 3-7 of the
  * Unicode Standard; `Decode` is that check together with the decoding.
  * `into_bytes`/`as_bytes` on a `String` is `Encode`. Dafny's `char` is a
  * Unicode scalar value, as Rust's is, so a `string` here is a Rust `String`.
  */
module Utf8 {
  import opened Wrappers

  /** One byte of a `Vec<u8>`, `&[u8]` or `BytesMut`. */
  type Byte = b: int | 0 <= b < 256

  /** The bytes of one scalar value (shortest form). */
  function EncodeChar(c: char): (bs: seq<Byte>)
    ensures 1 <= |bs| <= 4
    ensures (|bs| == 1) == (c as int < 0x80)
    ensures |bs| > 1 ==> forall j | 0 <= j < |bs| :: bs[j] >= 0x80
  {
    var n := c as int;
    if n < 0x80 then [n]
    else if n < 0x800 then [0xC0 + n / 64, 0x80 + n % 64]
    else if n < 0x10000 then [0xE0 + n / 4096, 0x80 + (n / 64) % 64, 0x80 + n % 64]
    else [0xF0 + n / 0x40000, 0x80 + (n / 4096) % 64, 0x80 + (n / 64) % 64, 0x80 + n % 64]
  }

  function Encode(s: string): (bs: seq<Byte>)
    ensures |bs| >= |s|
  {
    if s == [] then [] else EncodeChar(s[0]) + Encode(s[1..])
  }

  /** Lowest and highest allowed second byte after a three-byte lead byte. */
  function Second3Lo(b0: int): int { if b0 == 0xE0 then 0xA0 else 0x80 }
  function Second3Hi(b0: int): int { if b0 == 0xED then 0x9F else 0xBF }

  /** Lowest and highest allowed second byte after a four-byte lead byte. */
  function Second4Lo(b0: int): int { if b0 == 0xF0 then 0x90 else 0x80 }
  function Second4Hi(b0: int): int { if b0 == 0xF4 then 0x8F else 0xBF }

  /** The byte at `i`, or 0 (never a continuation byte) past the end. */
  function At(bs: seq<Byte>, i: nat): int { if i < |bs| then bs[i] else 0 }

  /**
    * Decodes the scalar value at the front of `bs`, returning it with the
    * number of bytes it occupies, or None when the front is ill-formed.
    */
  function DecodeChar(bs: seq<Byte>): (r: Option<(char, nat)>)
    requires |bs| > 0
    ensures r.Some? ==> 1 <= r.value.1 <= |bs| && r.value.1 <= 4
  {
    var b0, b1, b2, b3 := bs[0] as int, At(bs, 1), At(bs, 2), At(bs, 3);
    if b0 < 0x80 then
      Some((b0 as char, 1))
    else if 0xC2 <= b0 <= 0xDF then
      if |bs| >= 2 && 0x80 <= b1 <= 0xBF
      then Some((((b0 - 0xC0) * 64 + (b1 - 0x80)) as char, 2))
      else None
    else if 0xE0 <= b0 <= 0xEF then
      if |bs| >= 3 && Second3Lo(b0) <= b1 <= Second3Hi(b0) && 0x80 <= b2 <= 0xBF
      then Some((((b0 - 0xE0) * 4096 + (b1 - 0x80) * 64 + (b2 - 0x80)) as char, 3))
      else None
    else if 0xF0 <= b0 <= 0xF4 then
      if |bs| >= 4 && Second4Lo(b0) <= b1 <= Second4Hi(b0) && 0x80 <= b2 <= 0xBF && 0x80 <= b3 <= 0xBF
      then Some((((b0 - 0xF0) * 0x40000 + (b1 - 0x80) * 4096 + (b2 - 0x80) * 64 + (b3 - 0x80)) as char, 4))
      else None
    else
      None
  }

  /** `String::from_utf8`: Some(text) when `bs` is well-formed UTF-8. */
  function Decode(bs: seq<Byte>): (r: Option<string>)
    decreases |bs|
  {
    if |bs| == 0 then Some([])
    else match DecodeChar(bs)
      case None => None
      case Some((c, k)) =>
        match Decode(bs[k..])
        case None => None
        case Some(rest) => Some([c] + rest)
  }

  predicate IsAscii(s: string) { forall i | 0 <= i < |s| :: s[i] as int < 0x80 }

  // ---------------------------------------------------------------------
  // Encoding and decoding are inverse to each other.

  lemma EncodeDecodeChar2(n: int)
    requires 0x80 <= n < 0x800
    ensures 0xC2 <= 0xC0 + n / 64 <= 0xDF && 0 <= n % 64 < 64
    ensures (n / 64) * 64 + n % 64 == n
  {
  }

  lemma EncodeDecodeChar3(n: int)
    requires 0x800 <= n < 0x10000 && !(0xD800 <= n < 0xE000)
    ensures var q := n / 64;
      && 0xE0 <= 0xE0 + q / 64 <= 0xEF
      && Second3Lo(0xE0 + q / 64) <= 0x80 + q % 64 <= Second3Hi(0xE0 + q / 64)
      && n / 4096 == q / 64
      && n == (q / 64) * 4096 + (q % 64) * 64 + n % 64
  {
  }

  lemma EncodeDecodeChar4(n: int)
    requires 0x10000 <= n < 0x110000
    ensures var q := n / 64; var p := q / 64;
      && 0xF0 <= 0xF0 + p / 64 <= 0xF4
      && Second4Lo(0xF0 + p / 64) <= 0x80 + p % 64 <= Second4Hi(0xF0 + p / 64)
      && n / 4096 == p && n / 0x40000 == p / 64
      && n == (p / 64) * 0x40000 + (p % 64) * 4096 + (q % 64) * 64 + n % 64
  {
  }

  /** The bytes of one scalar value are decoded back to it, whatever follows them. */
  lemma EncodeDecodeChar(c: char, rest: seq<Byte>)
    ensures DecodeChar(EncodeChar(c) + rest) == Some((c, |EncodeChar(c)|))
  {
    var n := c as int;
    if n < 0x80 {
    } else if n < 0x800 {
      EncodeDecodeTwo(c, rest);
    } else if n < 0x10000 {
      EncodeDecodeThree(c, rest);
    } else {
      EncodeDecodeFour(c, rest);
    }
  }

  lemma EncodeDecodeTwo(c: char, rest: seq<Byte>)
    requires 0x80 <= c as int < 0x800
    ensures DecodeChar(EncodeChar(c) + rest) == Some((c, 2))
  {
    var n := c as int;
    var bs := EncodeChar(c) + rest;
    EncodeDecodeChar2(n);
    assert bs[0] == 0xC0 + n / 64 && bs[1] == 0x80 + n % 64;
  }

  lemma EncodeDecodeThree(c: char, rest: seq<Byte>)
    requires 0x800 <= c as int < 0x10000
    ensures DecodeChar(EncodeChar(c) + rest) == Some((c, 3))
  {
    var n := c as int;
    var bs := EncodeChar(c) + rest;
    EncodeDecodeChar3(n);
    var q := n / 64;
    assert bs[0] == 0xE0 + q / 64 && bs[1] == 0x80 + q % 64 && bs[2] == 0x80 + n % 64;
  }

  lemma EncodeDecodeFour(c: char, rest: seq<Byte>)
    requires 0x10000 <= c as int
    ensures DecodeChar(EncodeChar(c) + rest) == Some((c, 4))
  {
    var n := c as int;
    var bs := EncodeChar(c) + rest;
    EncodeDecodeChar4(n);
    var q := n / 64;
    var p := q / 64;
    assert bs[0] == 0xF0 + p / 64;
    assert bs[1] == 0x80 + p % 64 && bs[2] == 0x80 + q % 64 && bs[3] == 0x80 + n % 64;
  }

  /** Every string is recovered from its UTF-8 bytes. */
  lemma {:induction false} DecodeEncode(s: string)
    ensures Decode(Encode(s)) == Some(s)
  {
    if s != [] {
      var e := EncodeChar(s[0]);
      EncodeDecodeChar(s[0], Encode(s[1..]));
      assert (e + Encode(s[1..]))[|e|..] == Encode(s[1..]);
      DecodeEncode(s[1..]);
      assert [s[0]] + s[1..] == s;
    }
  }

  lemma DecodeChar2Back(b0: int, b1: int)
    requires 0xC2 <= b0 <= 0xDF && 0x80 <= b1 <= 0xBF
    ensures var n := (b0 - 0xC0) * 64 + (b1 - 0x80);
      0x80 <= n < 0x800 && 0xC0 + n / 64 == b0 && 0x80 + n % 64 == b1
  {
  }

  lemma DecodeChar3Back(b0: int, b1: int, b2: int)
    requires 0xE0 <= b0 <= 0xEF && Second3Lo(b0) <= b1 <= Second3Hi(b0) && 0x80 <= b2 <= 0xBF
    ensures var n := (b0 - 0xE0) * 4096 + (b1 - 0x80) * 64 + (b2 - 0x80);
      && 0x800 <= n < 0x10000
      && 0xE0 + n / 4096 == b0 && 0x80 + (n / 64) % 64 == b1 && 0x80 + n % 64 == b2
  {
    var n := (b0 - 0xE0) * 4096 + (b1 - 0x80) * 64 + (b2 - 0x80);
    var q := (b0 - 0xE0) * 64 + (b1 - 0x80);
    assert n == q * 64 + (b2 - 0x80);
    assert n / 64 == q && n % 64 == b2 - 0x80;
    assert q / 64 == b0 - 0xE0 && q % 64 == b1 - 0x80;
    assert n / 4096 == q / 64;
  }

  lemma DecodeChar4Back(b0: int, b1: int, b2: int, b3: int)
    requires 0xF0 <= b0 <= 0xF4 && Second4Lo(b0) <= b1 <= Second4Hi(b0)
    requires 0x80 <= b2 <= 0xBF && 0x80 <= b3 <= 0xBF
    ensures var n := (b0 - 0xF0) * 0x40000 + (b1 - 0x80) * 4096 + (b2 - 0x80) * 64 + (b3 - 0x80);
      && 0x10000 <= n < 0x110000
      && 0xF0 + n / 0x40000 == b0 && 0x80 + (n / 4096) % 64 == b1
      && 0x80 + (n / 64) % 64 == b2 && 0x80 + n % 64 == b3
  {
    var n := (b0 - 0xF0) * 0x40000 + (b1 - 0x80) * 4096 + (b2 - 0x80) * 64 + (b3 - 0x80);
    var p := (b0 - 0xF0) * 64 + (b1 - 0x80);
    var q := p * 64 + (b2 - 0x80);
    assert n == q * 64 + (b3 - 0x80);
    assert n / 64 == q && n % 64 == b3 - 0x80;
    assert q / 64 == p && q % 64 == b2 - 0x80;
    assert p / 64 == b0 - 0xF0 && p % 64 == b1 - 0x80;
    assert n / 4096 == p;
    assert n / 0x40000 == p / 64;
  }

  /** A scalar value decoded from the front of `bs` is encoded as the bytes it was read from. */
  lemma DecodeCharEncode(bs: seq<Byte>)
    requires |bs| > 0 && DecodeChar(bs).Some?
    ensures EncodeChar(DecodeChar(bs).value.0) == bs[..DecodeChar(bs).value.1]
  {
    var b0 := bs[0] as int;
    if b0 < 0x80 {
    } else if b0 <= 0xDF {
      DecodeEncodeTwo(bs);
    } else if b0 <= 0xEF {
      DecodeEncodeThree(bs);
    } else {
      DecodeEncodeFour(bs);
    }
  }

  lemma DecodeEncodeTwo(bs: seq<Byte>)
    requires |bs| > 0 && 0x80 <= bs[0] <= 0xDF && DecodeChar(bs).Some?
    ensures EncodeChar(DecodeChar(bs).value.0) == bs[..2]
  {
    DecodeChar2Back(bs[0], bs[1]);
  }

  lemma DecodeEncodeThree(bs: seq<Byte>)
    requires |bs| > 0 && 0xE0 <= bs[0] <= 0xEF && DecodeChar(bs).Some?
    ensures EncodeChar(DecodeChar(bs).value.0) == bs[..3]
  {
    DecodeChar3Back(bs[0], bs[1], bs[2]);
  }

  lemma DecodeEncodeFour(bs: seq<Byte>)
    requires |bs| > 0 && 0xF0 <= bs[0] && DecodeChar(bs).Some?
    ensures EncodeChar(DecodeChar(bs).value.0) == bs[..4]
  {
    DecodeChar4Back(bs[0], bs[1], bs[2], bs[3]);
  }

  /** Well-formed bytes are exactly the encoding of what they decode to. */
  lemma {:induction false} EncodeDecode(bs: seq<Byte>)
    requires Decode(bs).Some?
    ensures Encode(Decode(bs).value) == bs
    decreases |bs|
  {
    if |bs| > 0 {
      var c, k := DecodeFirst(bs);
      var tail := Decode(bs[k..]).value;
      EncodeDecode(bs[k..]);
      EncodeCons(c, tail);
      assert bs[..k] + bs[k..] == bs;
    }
  }

  /** The encoding of a string is its first scalar value's bytes, then the rest's. */
  lemma EncodeCons(c: char, tail: string)
    ensures Encode([c] + tail) == EncodeChar(c) + Encode(tail)
  {
    assert ([c] + tail)[1..] == tail;
  }

  /**
    * Decoding non-empty bytes reads a first scalar value `c` from the
    * first `k` bytes, which are its encoding, then decodes the rest.
    */
  lemma DecodeFirst(bs: seq<Byte>) returns (c: char, k: nat)
    requires |bs| > 0 && Decode(bs).Some?
    ensures 0 < k <= |bs| && EncodeChar(c) == bs[..k]
    ensures Decode(bs[k..]).Some? && Decode(bs).value == [c] + Decode(bs[k..]).value
  {
    c, k := DecodeChar(bs).value.0, DecodeChar(bs).value.1;
    DecodeCharEncode(bs);
  }

  // ---------------------------------------------------------------------
  // ASCII text and single ASCII bytes.

  /** For ASCII text, bytes and characters coincide one for one. */
  lemma {:induction false} EncodeAscii(s: string)
    requires IsAscii(s)
    ensures |Encode(s)| == |s|
    ensures forall i | 0 <= i < |s| :: Encode(s)[i] == s[i] as int
  {
    if s != [] {
      EncodeAscii(s[1..]);
    }
  }

  /** An ASCII byte occurs in the encoding only where its character occurs in the text. */
  lemma {:induction false} EncodeAvoidsAsciiByte(s: string, b: Byte)
    requires b < 0x80
    requires forall i | 0 <= i < |s| :: s[i] as int != b
    ensures forall j | 0 <= j < |Encode(s)| :: Encode(s)[j] != b
  {
    if s != [] {
      EncodeAvoidsAsciiByte(s[1..], b);
      var e := EncodeChar(s[0]);
      assert Encode(s) == e + Encode(s[1..]);
    }
  }

  lemma {:induction false} EncodeAppend(s: string, t: string)
    ensures Encode(s + t) == Encode(s) + Encode(t)
  {
    if s != [] {
      assert (s + t)[0] == s[0] && (s + t)[1..] == s[1..] + t;
      EncodeAppend(s[1..], t);
    } else {
      assert s + t == t;
    }
  }
}
