/**
 * The Base16 encoding of section 8 of RFC 4648, over octets: each octet
 * becomes two hexadecimal digits, the high nibble first. The encoder writes
 * lower-case digits (as the hex module the source imports does); the decoder
 * accepts either case, as section 8 allows, and fails on an odd number of
 * digits or on an octet that is not a digit.
 */
module Base16 {
  import opened Wrappers
  import opened Bytes

  /** The ASCII code of a hexadecimal digit of either case. */
  predicate IsDigit(d: byte)
  {
    0x30 <= d <= 0x39 || 0x61 <= d <= 0x66 || 0x41 <= d <= 0x46
  }

  /** The ASCII code of a digit as the encoder writes it: 0-9 or a-f. */
  predicate IsLowerDigit(d: byte)
  {
    0x30 <= d <= 0x39 || 0x61 <= d <= 0x66
  }

  /** The digit that stands for the nibble `v`. */
  function Digit(v: int): (d: byte)
    requires 0 <= v < 0x10
    ensures IsLowerDigit(d)
  {
    if v < 10 then (0x30 + v) as byte else (0x61 + v - 10) as byte
  }

  /** The nibble a digit stands for, or `None` for an octet that is not a digit. */
  function DigitValue(d: byte): (r: Option<int>)
    ensures r.Some? <==> IsDigit(d)
    ensures r.Some? ==> 0 <= r.value < 0x10
  {
    if 0x30 <= d <= 0x39 then Some(d as int - 0x30)
    else if 0x61 <= d <= 0x66 then Some(d as int - 0x61 + 10)
    else if 0x41 <= d <= 0x46 then Some(d as int - 0x41 + 10)
    else None
  }

  /** A nibble's digit reads back as that nibble. */
  lemma DigitValueOfDigit(v: int)
    requires 0 <= v < 0x10
    ensures DigitValue(Digit(v)) == Some(v)
  {
  }

  /** A lower-case digit is the digit of the nibble it stands for. */
  lemma DigitOfDigitValue(d: byte)
    requires IsLowerDigit(d)
    ensures Digit(DigitValue(d).value) == d
  {
  }

  /** Two digits per octet, high nibble first. */
  function Encode(bs: seq<byte>): (ds: seq<byte>)
    ensures |ds| == 2 * |bs|
    ensures forall i :: 0 <= i < |ds| ==> IsLowerDigit(ds[i])
  {
    if bs == [] then []
    else [Digit(bs[0] as int / 0x10), Digit(bs[0] as int % 0x10)] + Encode(bs[1..])
  }

  /** Reads the digits back two at a time; `None` on odd length or a non-digit. */
  function Decode(ds: seq<byte>): (r: Option<seq<byte>>)
    ensures r.Some? ==> 2 * |r.value| == |ds|
    decreases |ds|
  {
    if |ds| == 0 then Some([])
    else if |ds| == 1 then None
    else
      match (DigitValue(ds[0]), DigitValue(ds[1]), Decode(ds[2..]))
      case (Some(hi), Some(lo), Some(rest)) => Some([(hi * 0x10 + lo) as byte] + rest)
      case _ => None
  }

  /** Round trip: the digits of `bs` decode to `bs`. */
  lemma {:induction false} DecodeEncode(bs: seq<byte>)
    ensures Decode(Encode(bs)) == Some(bs)
  {
    if bs != [] {
      var b := bs[0] as int;
      var ds := Encode(bs);
      DigitValueOfDigit(b / 0x10);
      DigitValueOfDigit(b % 0x10);
      assert ds[2..] == Encode(bs[1..]);
      DecodeEncode(bs[1..]);
      assert [bs[0]] + bs[1..] == bs;
    }
  }

  /** Decoding succeeds exactly on an even number of digits of either case. */
  lemma {:induction false} DecodeSucceeds(ds: seq<byte>)
    ensures Decode(ds).Some? <==> |ds| % 2 == 0 && forall i :: 0 <= i < |ds| ==> IsDigit(ds[i])
    decreases |ds|
  {
    if |ds| >= 2 {
      DecodeSucceeds(ds[2..]);
      assert forall i :: 2 <= i < |ds| ==> ds[i] == ds[2..][i - 2];
    }
  }

  /** One step of `Decode`: the first two digits give the first octet. */
  lemma DecodeStep(ds: seq<byte>)
    requires |ds| >= 2 && Decode(ds).Some?
    ensures DigitValue(ds[0]).Some? && DigitValue(ds[1]).Some? && Decode(ds[2..]).Some?
    ensures Decode(ds).value
            == [(DigitValue(ds[0]).value * 0x10 + DigitValue(ds[1]).value) as byte] + Decode(ds[2..]).value
  {
  }

  /** One step of `Encode`: the first octet's two digits, then the rest. */
  lemma EncodeStep(b: byte, rest: seq<byte>)
    ensures Encode([b] + rest) == [Digit(b as int / 0x10), Digit(b as int % 0x10)] + Encode(rest)
  {
    assert ([b] + rest)[1..] == rest;
  }

  /**
   * The converse round trip holds exactly for the canonical (lower-case)
   * spelling: a decodable digit string re-encodes to itself iff it has no
   * upper-case digit.
   */
  lemma {:induction false} EncodeDecode(ds: seq<byte>)
    requires Decode(ds).Some?
    ensures Encode(Decode(ds).value) == ds <==> forall i :: 0 <= i < |ds| ==> IsLowerDigit(ds[i])
    decreases |ds|
  {
    if (forall i :: 0 <= i < |ds| ==> IsLowerDigit(ds[i])) && ds != [] {
      DecodeStep(ds);
      var hi, lo := DigitValue(ds[0]).value, DigitValue(ds[1]).value;
      var b := (hi * 0x10 + lo) as byte;
      var rest := Decode(ds[2..]).value;
      assert forall i :: 0 <= i < |ds[2..]| ==> IsLowerDigit(ds[2..][i]) by {
        forall i | 0 <= i < |ds[2..]| ensures IsLowerDigit(ds[2..][i]) {
          assert ds[2..][i] == ds[i + 2];
        }
      }
      calc {
        Encode(Decode(ds).value);
        Encode([b] + rest);
        { EncodeStep(b, rest); }
        [Digit(b as int / 0x10), Digit(b as int % 0x10)] + Encode(rest);
        { assert b as int / 0x10 == hi && b as int % 0x10 == lo; }
        [Digit(hi), Digit(lo)] + Encode(rest);
        { DigitOfDigitValue(ds[0]); DigitOfDigitValue(ds[1]); EncodeDecode(ds[2..]); }
        ds[..2] + ds[2..];
        ds;
      }
    }
  }

  /** The first `2k` digits are the digits of the first `k` octets. */
  lemma {:induction false} EncodePrefix(bs: seq<byte>, k: nat)
    requires k <= |bs|
    ensures Encode(bs)[..2 * k] == Encode(bs[..k])
  {
    if k > 0 {
      EncodePrefix(bs[1..], k - 1);
      assert bs[..k] == [bs[0]] + bs[1..][..k - 1];
      EncodeStep(bs[0], bs[1..][..k - 1]);
      assert bs == [bs[0]] + bs[1..];
      EncodeStep(bs[0], bs[1..]);
    }
  }

  /** Different octets have different digits. */
  lemma EncodeInjective(a: seq<byte>, b: seq<byte>)
    requires Encode(a) == Encode(b)
    ensures a == b
  {
    DecodeEncode(a);
    DecodeEncode(b);
  }
}
