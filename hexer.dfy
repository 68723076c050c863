/**
 * The reversible text encoder: text is turned into UTF-8 octets, the octets
 * into Base16 digits, and the digits (plain ASCII) back into a string.
 * `Hexer.encode`/`Hexer.decode` in srp/good.ts and `encodeText`/`decodeText`
 * in srp/bad.ts are the same pipeline and are both modelled here. Both turn
 * octets into text with a default `TextDecoder`, which drops a leading
 * U+FEFF, so `Decode` gives back every text except that one character.
 * `DecodeStrict` is the decoder without that step, which inverts `Encode`.
 */
module Hexer {
  import opened Wrappers
  import opened Bytes
  import opened Credentials
  import Utf8
  import Base16

  /** A character that is a hexadecimal digit of either case. */
  predicate IsHexChar(c: char)
  {
    c as int < 0x100 && Base16.IsDigit(c as int as byte)
  }

  /** A character that is a hexadecimal digit as the encoder writes it: 0-9 or a-f. */
  predicate IsLowerHexChar(c: char)
  {
    c as int < 0x100 && Base16.IsLowerDigit(c as int as byte)
  }

  /**
   * Text to token: the token's characters are, one for one, the lower-case
   * Base16 digits of the text's UTF-8 octets.
   */
  function Encode(text: string): (token: Token)
    ensures |token| == |Base16.Encode(Utf8.Encode(text))|
    ensures forall i :: 0 <= i < |token| ==> token[i] as int == Base16.Encode(Utf8.Encode(text))[i] as int
    ensures forall i :: 0 <= i < |token| ==> IsLowerHexChar(token[i])
  {
    var digits := Base16.Encode(Utf8.Encode(text));
    assert IsAscii(digits);
    Utf8.DecodeAscii(digits);
    assert !Utf8.StartsWithBom(Utf8.Decode(digits).value);
    Utf8.TextDecode(digits).value
  }

  /**
   * Token to text, as the source does it: the token's UTF-8 octets must be
   * an even number of hex digits, the octets they spell must be well-formed
   * UTF-8, and a leading U+FEFF of the result is dropped.
   */
  function Decode(token: Token): (r: Result<string, AuthError>)
    ensures r.Err? ==> r.error == DecodeError
    ensures r.Ok? <==> DecodeStrict(token).Ok?
    ensures r.Ok? ==> r.value == Utf8.DropBom(DecodeStrict(token).value)
  {
    match Base16.Decode(Utf8.Encode(token))
    case None => Err(DecodeError)
    case Some(octets) =>
      match Utf8.TextDecode(octets)
      case None => Err(DecodeError)
      case Some(text) => Ok(text)
  }

  /** Token to text without dropping a byte-order mark: the decoder that inverts `Encode`. */
  function DecodeStrict(token: Token): (r: Result<string, AuthError>)
    ensures r.Err? ==> r.error == DecodeError
    ensures r.Ok? ==> Base16.Decode(Utf8.Encode(token)).Some?
    ensures r.Ok? ==> Utf8.Encode(r.value) == Base16.Decode(Utf8.Encode(token)).value
  {
    match Base16.Decode(Utf8.Encode(token))
    case None => Err(DecodeError)
    case Some(octets) =>
      match Utf8.Decode(octets)
      case None => Err(DecodeError)
      case Some(text) =>
        Utf8.EncodeDecode(octets);
        Ok(text)
  }

  /** The token's own UTF-8 octets are the Base16 digits of the text's octets. */
  lemma EncodeOctets(text: string)
    ensures Utf8.Encode(Encode(text)) == Base16.Encode(Utf8.Encode(text))
  {
    var digits := Base16.Encode(Utf8.Encode(text));
    assert IsAscii(digits);
    Utf8.DecodeAscii(digits);
    assert Encode(text) == Utf8.Decode(digits).value;
    Utf8.EncodeDecode(digits);
  }

  /** Round trip through the strict decoder: every text is recovered from its token. */
  lemma DecodeStrictEncode(text: string)
    ensures DecodeStrict(Encode(text)) == Ok(text)
  {
    EncodeOctets(text);
    Base16.DecodeEncode(Utf8.Encode(text));
    Utf8.DecodeEncode(text);
  }

  /** Round trip as the source does it: the text comes back without a leading U+FEFF. */
  lemma DecodeEncode(text: string)
    ensures Decode(Encode(text)) == Ok(Utf8.DropBom(text))
  {
    DecodeStrictEncode(text);
  }

  /** A text that begins with U+FEFF does not survive the round trip. */
  lemma BomLost()
    ensures Decode(Encode("\U{FEFF}a")) == Ok("a")
  {
    DecodeEncode("\U{FEFF}a");
    assert Utf8.StartsWithBom("\U{FEFF}a");
  }

  /** The encoder is injective, so a token names one text. */
  lemma EncodeInjective(s: string, t: string)
    requires Encode(s) == Encode(t)
    ensures s == t
  {
    DecodeStrictEncode(s);
    DecodeStrictEncode(t);
  }

  /** A decodable token's UTF-8 octets are its own characters' codes, all hex digits. */
  lemma DecodableOctets(token: Token)
    requires Base16.Decode(Utf8.Encode(token)).Some?
    ensures |Utf8.Encode(token)| == |token| && |token| % 2 == 0
    ensures forall i :: 0 <= i < |token| ==> Utf8.Encode(token)[i] as int == token[i] as int && IsHexChar(token[i])
  {
    var octets := Utf8.Encode(token);
    Base16.DecodeSucceeds(octets);
    assert IsAscii(octets);
    Utf8.AsciiEncoding(token);
  }

  /** Decoding fails on an odd number of characters or on any character that is not a hex digit. */
  lemma DecodeRejectsMalformed(token: Token)
    requires |token| % 2 == 1 || exists i :: 0 <= i < |token| && !IsHexChar(token[i])
    ensures Decode(token) == Err(DecodeError)
  {
    if Base16.Decode(Utf8.Encode(token)).Some? {
      DecodableOctets(token);
      assert false;
    }
  }

  /** The token of the byte-order mark, that is, of the octets EF BB BF. */
  const BomToken: string := "efbbbf"

  /** The digits of the octets EF BB BF spell "efbbbf". */
  lemma BomDigits()
    ensures Base16.Encode([0xEF, 0xBB, 0xBF]) == Utf8.Encode(BomToken)
  {
    Base16.EncodeStep(0xEF, [0xBB, 0xBF]);
    Base16.EncodeStep(0xBB, [0xBF]);
    Base16.EncodeStep(0xBF, []);
    assert [0xEF as byte] + [0xBB, 0xBF] == [0xEF, 0xBB, 0xBF];
    assert [0xBB as byte] + [0xBF] == [0xBB, 0xBF];
  }

  /** A text begins with U+FEFF exactly when its token begins with "efbbbf". */
  lemma EncodeStartsWithBom(text: string)
    ensures Utf8.StartsWithBom(text) <==> BomToken <= Encode(text)
  {
    var octets := Utf8.Encode(text);
    var digits := Base16.Encode(octets);
    var token := Encode(text);
    var bom: seq<byte> := [0xEF, 0xBB, 0xBF];
    BomDigits();
    Utf8.AsciiEncoding(BomToken);
    Utf8.EncodeStartsWithBom(text);
    if |octets| >= 3 {
      Base16.EncodePrefix(octets, 3);
      assert token[..6] == BomToken <==> digits[..6] == Utf8.Encode(BomToken) by {
        assert forall i :: 0 <= i < 6 ==> token[..6][i] as int == digits[..6][i] as int;
      }
      if digits[..6] == Utf8.Encode(BomToken) {
        Base16.EncodeInjective(octets[..3], bom);
      }
    }
  }

  /**
   * The strict decoder's converse round trip: a decodable token is the
   * encoding of its text exactly when it is spelt in lower case.
   */
  lemma EncodeDecodeStrict(token: Token)
    requires DecodeStrict(token).Ok?
    ensures Encode(DecodeStrict(token).value) == token <==> forall i :: 0 <= i < |token| ==> IsLowerHexChar(token[i])
  {
    var octets := Utf8.Encode(token);
    var raw := Base16.Decode(octets).value;
    var text := DecodeStrict(token).value;
    if forall i :: 0 <= i < |token| ==> IsLowerHexChar(token[i]) {
      DecodableOctets(token);
      Base16.EncodeDecode(octets);
      Utf8.EncodeDecode(raw);
      EncodeOctets(text);
      Utf8.DecodeEncode(token);
      Utf8.DecodeEncode(Encode(text));
    }
  }

  /**
   * The source's converse round trip: a decodable token is the encoding of
   * its text exactly when it is spelt in lower case and does not begin with
   * the token of U+FEFF. Upper-case tokens decode but are never canonical,
   * and "efbbbf61" decodes to "a", whose token is "61".
   */
  lemma EncodeDecode(token: Token)
    requires Decode(token).Ok?
    ensures Encode(Decode(token).value) == token <==>
              && (forall i :: 0 <= i < |token| ==> IsLowerHexChar(token[i]))
              && !(BomToken <= token)
  {
    var text := Decode(token).value;
    var strict := DecodeStrict(token).value;
    if Encode(text) == token {
      EncodeStartsWithBom(text);
      DecodeEncode(text);
    }
    if (forall i :: 0 <= i < |token| ==> IsLowerHexChar(token[i])) && !(BomToken <= token) {
      EncodeDecodeStrict(token);
      EncodeStartsWithBom(strict);
    }
  }

  /**
   * Digits that spell octets which are not UTF-8 are never the encoding of
   * any text, so how such octets would be decoded cannot make a token valid.
   */
  lemma NonUtf8IsNoEncoding(token: Token, text: string)
    requires Base16.Decode(Utf8.Encode(token)).Some?
    requires Utf8.Decode(Base16.Decode(Utf8.Encode(token)).value).None?
    ensures token != Encode(text)
  {
    DecodeStrictEncode(text);
  }
}
