/** The tables of the standards as literal text, and that the code's arithmetic agrees with them: the
    base64 alphabet of RFC 2045 (section 6.8), its modified form and escape char of RFC 3501
    (section 5.1.3), and the direct chars of RFC 2152. */
module Utf7Standard {
  import opened Utf7Alphabet

  const UPPER := "ABCDEFGHIJKLMNOPQRSTUVWXYZ"
  const LOWER := "abcdefghijklmnopqrstuvwxyz"
  const DIGITS := "0123456789"

  /** The 64 chars in the order of their values. */
  function Alphabet(v: Variant): (chars: string)
    ensures |chars| == 64
  {
    UPPER + LOWER + DIGITS + if v.Utf7? then "+/" else "+,"
  }

  /** The code of an ASCII char. */
  function Ascii(c: char): (b: Byte)
    requires c < 128 as char
  {
    c as int
  }

  lemma UpperIsInOrder(i: nat)
    requires i < 26
    ensures UPPER[i] as int == 65 + i && LOWER[i] as int == 97 + i
  {
  }

  lemma DigitsAreInOrder(i: nat)
    requires i < 10
    ensures DIGITS[i] as int == 48 + i
  {
  }

  /** Where a value falls in the alphabet. */
  lemma AlphabetAt(v: Variant, upper: string, lower: string, digits: string, last: string, value: nat)
    requires |upper| == |lower| == 26 && |digits| == 10 && |last| == 2 && value < 64
    ensures (upper + lower + digits + last)[value] ==
            if value < 26 then upper[value] else if value < 52 then lower[value - 26]
            else if value < 62 then digits[value - 52] else last[value - 62]
  {
  }

  /** The encoder's table is the standard's. */
  lemma ValueToCharIsStandard(v: Variant, value: nat)
    requires value < 64
    ensures Alphabet(v)[value] < 128 as char && v.ValueToChar(value) == Ascii(Alphabet(v)[value])
  {
    hide UPPER, LOWER, DIGITS;
    assert |UPPER| == |LOWER| == 26 && |DIGITS| == 10 by { TableSizes(); }
    var last := if v.Utf7? then "+/" else "+,";
    AlphabetAt(v, UPPER, LOWER, DIGITS, last, value);
    if value < 26 { UpperIsInOrder(value); }
    else if value < 52 { UpperIsInOrder(value - 26); }
    else if value < 62 { DigitsAreInOrder(value - 52); }
  }

  lemma TableSizes()
    ensures |UPPER| == |LOWER| == 26 && |DIGITS| == 10
  {
  }

  /** The standard's char for a six-bit value. */
  function Char64(v: Variant, value: nat): (c: Byte)
    requires value < 64
    ensures c == v.ValueToChar(value)
  {
    ValueToCharIsStandard(v, value);
    Ascii(Alphabet(v)[value])
  }

  /** The decoder's table, for every byte: the place of a char in the alphabet, and 0xffff for any other. */
  lemma CharToValueIsStandard(v: Variant, c: Byte)
    ensures v.CharToValue(c) == 0xffff || v.CharToValue(c) < 64
    ensures forall value: nat :: value < 64 ==> (v.CharToValue(c) == value <==> Char64(v, value) == c)
  {
    v.AlphabetExact(c);
    forall value: nat | value < 64
      ensures v.CharToValue(c) == value <==> Char64(v, value) == c
    {
      v.AlphabetInverse(value);
    }
  }

  lemma OutsideAlphabet(v: Variant, c: Byte)
    ensures v.CharToValue(c) > 0xff <==> forall value: nat :: value < 64 ==> c != Char64(v, value)
  {
    CharToValueIsStandard(v, c);
    hide Variant.CharToValue, Char64;
    if v.CharToValue(c) <= 0xff {
      var value := v.CharToValue(c);
      assert Char64(v, value) == c;
    }
  }

  /** What begins a run: plus sign or ampersand. */
  function Escape(v: Variant): (c: Byte)
    ensures c == v.EscChar()
  {
    Ascii(if v.Utf7? then '+' else '&')
  }

  /** What ends a run. */
  function Hyphen(): (c: Byte)
    ensures c == DASH
  {
    Ascii('-')
  }

  // ----- Direct chars

  /** Set D of RFC 2152, letters and digits apart. */
  const SET_D := "'(),-./:?"

  /** Those of set O that the code writes directly; it encodes the others, as the standard allows. */
  const PART_OF_O := "!\";<=>[]"

  const SET_O := "!\"#$%&*;<=>@[]^_`{|}"

  const BLANKS := " \t\r\n"

  /** Plain UTF-7: letters, digits, set D, blanks and part of set O. Modified: printable ASCII. */
  predicate IsDirect(v: Variant, ch: Unit): (direct: bool)
    ensures direct == v.DirectEncodable(ch)
  {
    if v.ModifiedUtf7? then ' ' as int <= ch <= '~' as int
    else
      || 'A' as int <= ch <= 'Z' as int || 'a' as int <= ch <= 'z' as int || '0' as int <= ch <= '9' as int
      || (ch < 128 && ch as char in SET_D + BLANKS + PART_OF_O)
  }

  /** A direct char stands for itself; the escape char is followed by a hyphen. */
  function DirectText(v: Variant, ch: Unit): (text: seq<Byte>)
    requires IsDirect(v, ch)
  {
    if ch == Escape(v) then [Escape(v), Hyphen()] else [ch]
  }

  lemma PartOfSetO()
    ensures forall c :: c in PART_OF_O ==> c in SET_O
  {
  }
}
