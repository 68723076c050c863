/**
 * UTF-8 as defined by RFC 3629: the transformation that `TextEncoder.encode`
 * applies to a string, and its strict inverse `Decode`. A Dafny `char` is a
 * Unicode scalar value, so every string has exactly one encoding.
 * `TextDecode` is what a `TextDecoder` built with default options does to
 * well-formed input: it decodes, then drops one leading byte-order mark
 * (U+FEFF), so it does not invert `Encode` on text that begins with one.
 */
module Utf8 {
  import opened Wrappers
  import opened Bytes

  /** A trailing octet of a multi-octet sequence: 10xxxxxx. */
  predicate IsContinuation(b: byte)
  {
    0x80 <= b < 0xC0
  }

  /** The one to four octets of a single scalar value (section 3 of RFC 3629). */
  function EncodeChar(c: char): (bs: seq<byte>)
    ensures 1 <= |bs| <= 4
    ensures bs[0] < 0x80 <==> |bs| == 1
    ensures forall i :: 1 <= i < |bs| ==> IsContinuation(bs[i])
  {
    var cp := c as int;
    if cp < 0x80 then
      [cp as byte]
    else if cp < 0x800 then
      [(0xC0 + cp / 0x40) as byte, (0x80 + cp % 0x40) as byte]
    else if cp < 0x1_0000 then
      [(0xE0 + cp / 0x1000) as byte, (0x80 + cp / 0x40 % 0x40) as byte, (0x80 + cp % 0x40) as byte]
    else
      [(0xF0 + cp / 0x4_0000) as byte, (0x80 + cp / 0x1000 % 0x40) as byte,
       (0x80 + cp / 0x40 % 0x40) as byte, (0x80 + cp % 0x40) as byte]
  }

  /** `TextEncoder.encode`: the concatenated encodings of the characters. */
  function Encode(s: string): (bs: seq<byte>)
    ensures |s| <= |bs| <= 4 * |s|
  {
    if s == [] then [] else EncodeChar(s[0]) + Encode(s[1..])
  }

  /**
   * Reads one scalar value from the front of `bs` and says how many octets
   * it took. Overlong forms, surrogates and values above U+10FFFF are
   * refused, so only the octet sequences of section 4 of RFC 3629 pass.
   */
  function DecodeFirst(bs: seq<byte>): (r: Option<(char, nat)>)
    requires |bs| > 0
    ensures r.Some? ==> 1 <= r.value.1 <= |bs|
  {
    var b0 := bs[0] as int;
    if b0 < 0x80 then
      Some((b0 as char, 1))
    else if 0xC0 <= b0 < 0xE0 then
      if |bs| < 2 || !IsContinuation(bs[1]) then None
      else
        var cp := (b0 - 0xC0) * 0x40 + (bs[1] as int - 0x80);
        if cp < 0x80 then None else Some((cp as char, 2))
    else if 0xE0 <= b0 < 0xF0 then
      if |bs| < 3 || !IsContinuation(bs[1]) || !IsContinuation(bs[2]) then None
      else
        var cp := (b0 - 0xE0) * 0x1000 + (bs[1] as int - 0x80) * 0x40 + (bs[2] as int - 0x80);
        if cp < 0x800 || 0xD800 <= cp < 0xE000 then None else Some((cp as char, 3))
    else if 0xF0 <= b0 < 0xF8 then
      if |bs| < 4 || !IsContinuation(bs[1]) || !IsContinuation(bs[2]) || !IsContinuation(bs[3]) then None
      else
        var cp := (b0 - 0xF0) * 0x4_0000 + (bs[1] as int - 0x80) * 0x1000
                  + (bs[2] as int - 0x80) * 0x40 + (bs[3] as int - 0x80);
        if cp < 0x1_0000 || 0x10_FFFF < cp then None else Some((cp as char, 4))
    else
      None
  }

  /** Strict decoding: `None` when `bs` is not well-formed UTF-8. */
  function Decode(bs: seq<byte>): (r: Option<string>)
    ensures r.Some? ==> |r.value| <= |bs|
    decreases |bs|
  {
    if bs == [] then Some([])
    else
      match DecodeFirst(bs)
      case None => None
      case Some((c, n)) =>
        match Decode(bs[n..])
        case None => None
        case Some(rest) => Some([c] + rest)
  }

  /** Decoding reads back exactly the character that was encoded, whatever follows it. */
  lemma DecodeFirstOfEncodeChar(c: char, rest: seq<byte>)
    ensures DecodeFirst(EncodeChar(c) + rest) == Some((c, |EncodeChar(c)|))
  {
    var cp := c as int;
    if cp < 0x80 {
    } else if cp < 0x800 {
      assert cp == cp / 0x40 * 0x40 + cp % 0x40;
    } else if cp < 0x1_0000 {
      assert cp / 0x40 == cp / 0x1000 * 0x40 + cp / 0x40 % 0x40;
      assert cp == cp / 0x40 * 0x40 + cp % 0x40;
    } else {
      assert cp / 0x1000 == cp / 0x4_0000 * 0x40 + cp / 0x1000 % 0x40;
      assert cp / 0x40 == cp / 0x1000 * 0x40 + cp / 0x40 % 0x40;
      assert cp == cp / 0x40 * 0x40 + cp % 0x40;
    }
  }

  /** Splitting `q * 64 + r` back into its quotient and remainder. */
  lemma SixBits(q: int, r: int)
    requires 0 <= q && 0 <= r < 0x40
    ensures (q * 0x40 + r) / 0x40 == q && (q * 0x40 + r) % 0x40 == r
  {
  }

  /** A two-octet form that `DecodeFirst` accepts is the encoding of its value. */
  lemma TwoOctets(c: char, x: int, y: int)
    requires 0 <= x < 0x20 && 0 <= y < 0x40
    requires c as int == x * 0x40 + y && 0x80 <= c as int
    ensures EncodeChar(c) == [(0xC0 + x) as byte, (0x80 + y) as byte]
  {
    SixBits(x, y);
  }

  /** A three-octet form that `DecodeFirst` accepts is the encoding of its value. */
  lemma ThreeOctets(c: char, x: int, y: int, z: int)
    requires 0 <= x < 0x10 && 0 <= y < 0x40 && 0 <= z < 0x40
    requires c as int == x * 0x1000 + y * 0x40 + z && 0x800 <= c as int
    ensures EncodeChar(c) == [(0xE0 + x) as byte, (0x80 + y) as byte, (0x80 + z) as byte]
  {
    var cp := c as int;
    SixBits(x * 0x40 + y, z);
    SixBits(x, y);
    assert cp / 0x40 == x * 0x40 + y;
    assert cp / 0x1000 == cp / 0x40 / 0x40;
  }

  /** A four-octet form that `DecodeFirst` accepts is the encoding of its value. */
  lemma FourOctets(c: char, w: int, x: int, y: int, z: int)
    requires 0 <= w < 0x08 && 0 <= x < 0x40 && 0 <= y < 0x40 && 0 <= z < 0x40
    requires c as int == w * 0x4_0000 + x * 0x1000 + y * 0x40 + z && 0x1_0000 <= c as int
    ensures EncodeChar(c) == [(0xF0 + w) as byte, (0x80 + x) as byte, (0x80 + y) as byte, (0x80 + z) as byte]
  {
    var cp := c as int;
    SixBits(w * 0x1000 + x * 0x40 + y, z);
    SixBits(w * 0x40 + x, y);
    SixBits(w, x);
    assert cp / 0x40 == w * 0x1000 + x * 0x40 + y;
    assert cp / 0x1000 == cp / 0x40 / 0x40;
    assert cp / 0x4_0000 == cp / 0x1000 / 0x40;
  }

  /** The octets consumed by a successful `DecodeFirst` are the encoding of what it read. */
  lemma DecodeFirstIsEncoding(bs: seq<byte>)
    requires |bs| > 0 && DecodeFirst(bs).Some?
    ensures EncodeChar(DecodeFirst(bs).value.0) == bs[..DecodeFirst(bs).value.1]
  {
    var b0 := bs[0] as int;
    var c := DecodeFirst(bs).value.0;
    if 0xC0 <= b0 < 0xE0 {
      TwoOctets(c, b0 - 0xC0, bs[1] as int - 0x80);
    } else if 0xE0 <= b0 < 0xF0 {
      ThreeOctets(c, b0 - 0xE0, bs[1] as int - 0x80, bs[2] as int - 0x80);
    } else if 0xF0 <= b0 < 0xF8 {
      FourOctets(c, b0 - 0xF0, bs[1] as int - 0x80, bs[2] as int - 0x80, bs[3] as int - 0x80);
    }
  }

  /** Round trip: decoding an encoded string gives the string back. */
  lemma {:induction false} DecodeEncode(s: string)
    ensures Decode(Encode(s)) == Some(s)
  {
    if s != [] {
      var head, tail := EncodeChar(s[0]), Encode(s[1..]);
      DecodeFirstOfEncodeChar(s[0], tail);
      assert (head + tail)[|head|..] == tail;
      DecodeEncode(s[1..]);
      assert [s[0]] + s[1..] == s;
    }
  }

  /** One step of `Decode`: the first character read, then the rest. */
  lemma DecodeStep(bs: seq<byte>)
    requires bs != [] && Decode(bs).Some?
    ensures DecodeFirst(bs).Some?
    ensures var n := DecodeFirst(bs).value.1;
            Decode(bs[n..]).Some? && Decode(bs).value == [DecodeFirst(bs).value.0] + Decode(bs[n..]).value
  {
  }

  /** One step of `Encode`: the first character's octets, then the rest's. */
  lemma EncodeStep(c: char, rest: string)
    ensures Encode([c] + rest) == EncodeChar(c) + Encode(rest)
  {
    assert ([c] + rest)[1..] == rest;
  }

  /** The converse round trip: whatever decodes re-encodes to the same octets. */
  lemma {:induction false} EncodeDecode(bs: seq<byte>)
    requires Decode(bs).Some?
    ensures Encode(Decode(bs).value) == bs
    decreases |bs|
  {
    if bs != [] {
      DecodeStep(bs);
      var (c, n) := DecodeFirst(bs).value;
      var rest := Decode(bs[n..]).value;
      calc {
        Encode(Decode(bs).value);
        Encode([c] + rest);
        { EncodeStep(c, rest); }
        EncodeChar(c) + Encode(rest);
        { DecodeFirstIsEncoding(bs); EncodeDecode(bs[n..]); }
        bs[..n] + bs[n..];
        bs;
      }
    }
  }

  /** An all-ASCII octet sequence decodes, one character per octet, to the same codes. */
  lemma {:induction false} DecodeAscii(bs: seq<byte>)
    requires IsAscii(bs)
    ensures Decode(bs).Some? && |Decode(bs).value| == |bs|
    ensures forall i :: 0 <= i < |bs| ==> Decode(bs).value[i] as int == bs[i] as int
    decreases |bs|
  {
    if bs != [] {
      assert IsAscii(bs[1..]) by {
        forall i | 0 <= i < |bs[1..]| ensures bs[1..][i] < 0x80 {
          assert bs[1..][i] == bs[i + 1];
        }
      }
      DecodeAscii(bs[1..]);
    }
  }

  /** If a string encodes to ASCII octets only, every character is ASCII and is its own octet. */
  lemma {:induction false} AsciiEncoding(s: string)
    requires IsAscii(Encode(s))
    ensures |Encode(s)| == |s|
    ensures forall i :: 0 <= i < |s| ==> Encode(s)[i] as int == s[i] as int
  {
    if s != [] {
      var head, tail := EncodeChar(s[0]), Encode(s[1..]);
      assert Encode(s) == head + tail;
      assert head[0] == Encode(s)[0];
      assert |head| == 1;
      assert IsAscii(tail) by {
        forall i | 0 <= i < |tail| ensures tail[i] < 0x80 {
          assert tail[i] == Encode(s)[i + 1];
        }
      }
      AsciiEncoding(s[1..]);
    }
  }

  /** The byte-order mark, U+FEFF. */
  const Bom: char := '\U{FEFF}'

  /** The text begins with a byte-order mark. */
  predicate StartsWithBom(s: string)
  {
    |s| > 0 && s[0] == Bom
  }

  /** The text without its leading byte-order mark, if it has one. */
  function DropBom(s: string): (t: string)
    ensures !StartsWithBom(s) <==> t == s
    ensures StartsWithBom(s) ==> s == [Bom] + t
  {
    if StartsWithBom(s) then s[1..] else s
  }

  /**
   * `TextDecoder.decode` with the default options on well-formed input: the
   * strict decoding with one leading U+FEFF removed.
   */
  function TextDecode(bs: seq<byte>): (r: Option<string>)
    ensures r.Some? <==> Decode(bs).Some?
    ensures r.Some? ==> r.value == DropBom(Decode(bs).value)
  {
    match Decode(bs)
    case None => None
    case Some(s) => Some(DropBom(s))
  }

  /** The byte-order mark is the three octets EF BB BF. */
  lemma BomOctets()
    ensures EncodeChar(Bom) == [0xEF, 0xBB, 0xBF]
  {
  }

  /** A text begins with U+FEFF exactly when its encoding begins with EF BB BF. */
  lemma EncodeStartsWithBom(s: string)
    ensures StartsWithBom(s) <==> |Encode(s)| >= 3 && Encode(s)[..3] == [0xEF, 0xBB, 0xBF]
  {
    BomOctets();
    if s != [] {
      var tail := Encode(s[1..]);
      assert Encode(s) == EncodeChar(s[0]) + tail;
      DecodeFirstOfEncodeChar(s[0], tail);
      if |Encode(s)| >= 3 && Encode(s)[..3] == [0xEF, 0xBB, 0xBF] {
        DecodeFirstOfEncodeChar(Bom, Encode(s)[3..]);
        assert EncodeChar(Bom) + Encode(s)[3..] == Encode(s);
      }
    }
  }

  /** The round trip through `TextDecode` loses a leading byte-order mark and nothing else. */
  lemma TextDecodeEncode(s: string)
    ensures TextDecode(Encode(s)) == Some(DropBom(s))
  {
    DecodeEncode(s);
  }

  /**
   * What `TextDecode` reads `t` from, exactly: the encoding of `t` when `t`
   * does not begin with U+FEFF, and in any case the encoding of `t` behind
   * the octets of one U+FEFF.
   */
  lemma TextDecodeExactly(bs: seq<byte>, t: string)
    ensures TextDecode(bs) == Some(t) <==>
              || (bs == Encode(t) && !StartsWithBom(t))
              || bs == EncodeChar(Bom) + Encode(t)
  {
    EncodeStep(Bom, t);
    if TextDecode(bs) == Some(t) {
      EncodeDecode(bs);
    }
    if bs == Encode(t) {
      DecodeEncode(t);
    }
    if bs == EncodeChar(Bom) + Encode(t) {
      DecodeEncode([Bom] + t);
      assert ([Bom] + t)[1..] == t;
    }
  }
}
