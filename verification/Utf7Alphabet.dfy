/** What the encoder and the decoder of UTF-7 and of Modified UTF-7 share: the two parameter
    sets, the base64 alphabet and its inverse. */
module Utf7Alphabet {

  /** char16_t. */
  type Unit = u: int | 0 <= u < 0x10000

  /** char, signed as on the platforms the product ships for. */
  type Byte = b: int | -128 <= b < 128

  const DASH: Byte := 45  // '-'

  /** The two subclasses: constructor parameters and the DirectEncodable override. */
  datatype Variant = Utf7 | ModifiedUtf7 {

    function LastChar(): (c: Byte) {
      if Utf7? then 47 /* '/' */ else 44 /* ',' */
    }

    function EscChar(): (c: Byte) {
      if Utf7? then 43 /* '+' */ else 38 /* '&' */
    }

    predicate DirectEncodable(ch: Unit) {
      match this
      case ModifiedUtf7 => 0x20 <= ch <= 0x7e
      case Utf7 =>
        || 65 <= ch <= 90                    // 'A'..'Z'
        || 97 <= ch <= 122                   // 'a'..'z'
        || 48 <= ch <= 57                    // '0'..'9'
        || 39 <= ch <= 41 || 44 <= ch <= 47
        || ch in {58, 63, 32, 9, 13, 10, 60, 33, 34, 62, 61, 59, 91, 93}
    }

    /** The char for a six-bit value; (char)-1 for anything wider. */
    function ValueToChar(value: nat): (c: Byte) {
      if value < 26 then 65 + value
      else if value < 52 then 97 + value - 26
      else if value < 62 then 48 + value - 52
      else if value == 62 then 43
      else if value == 63 then LastChar()
      else -1
    }

    /** The six-bit value of a char; 0xffff for a char outside the alphabet. */
    function CharToValue(c: Byte): (value: nat) {
      if 65 <= c <= 90 then c - 65
      else if 97 <= c <= 122 then 26 + c - 97
      else if 48 <= c <= 57 then 52 + c - 48
      else if c == 43 then 62
      else if c == LastChar() then 63
      else 0xffff
    }

    /** Looking up a char that was written for a six-bit value gives the value back; such a char is
        never the end marker, so a run cannot end early or look like an escaped escape char. */
    lemma AlphabetInverse(value: nat)
      requires value < 64
      ensures CharToValue(ValueToChar(value)) == value && ValueToChar(value) != DASH
    {
    }

    /** The alphabet has exactly 64 chars: every char the decoder takes is the char of its value. */
    lemma AlphabetExact(c: Byte)
      ensures CharToValue(c) <= 0xff <==> exists value: nat :: value < 64 && ValueToChar(value) == c
      ensures CharToValue(c) <= 0xff ==> CharToValue(c) < 64 && ValueToChar(CharToValue(c)) == c
    {
      if CharToValue(c) <= 0xff {
        assert ValueToChar(CharToValue(c)) == c;
      }
      forall value: nat | value < 64 && ValueToChar(value) == c
        ensures CharToValue(c) <= 0xff
      {
        AlphabetInverse(value);
      }
    }
  }
}
