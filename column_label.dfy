/** The column headers of the sheet (sheet.tsx): a letter chosen by the column modulo 26,
    followed by the quotient in decimal when it is positive, so that the columns read
    A … Z, A1 … Z1, A2 …; and the decoding that inverts it. */
module ColumnLabel {
  import opened Wrappers
  import Decimal

  const AsciiCodeA: int := 65

  /** `ENGLISH_ALPHABET`: "A" to "Z", the letter at `index` being `String.fromCharCode(index + ASCII_CODE_A)`. */
  function EnglishAlphabet(): (letters: seq<char>)
    ensures |letters| == 26
    ensures forall i :: 0 <= i < 26 ==> letters[i] == (i + AsciiCodeA) as char
  {
    seq(26, i requires 0 <= i < 26 => (i + AsciiCodeA) as char)
  }

  predicate IsLetter(ch: char) {
    'A' <= ch <= 'Z'
  }

  /** `getColumnIdentifier`. */
  function ColumnIdentifier(column: nat): (header: string)
    ensures |header| >= 1 && IsLetter(header[0])
    ensures header[0] == (AsciiCodeA + column % 26) as char
  {
    [EnglishAlphabet()[column % |EnglishAlphabet()|]]
    + (if column / |EnglishAlphabet()| > 0 then Decimal.FromNat(column / |EnglishAlphabet()|) else "")
  }

  /** The column a letter's position and a suffix after it stand for: nothing, or a
      numeral without a leading zero. */
  function WithSuffix(index: nat, suffix: string): Option<nat> {
    if suffix == [] then Some(index)
    else if Decimal.Canonical(suffix) && suffix[0] != '0' then Some(index + 26 * Decimal.Value(suffix))
    else None
  }

  /** Reading a header back: a letter, then its suffix. */
  function DecodeColumn(header: string): Option<nat> {
    if |header| == 0 || !IsLetter(header[0]) then None
    else WithSuffix(header[0] as int - AsciiCodeA, header[1..])
  }

  /** The first 26 columns are a single letter; every later one has a numeral after it. */
  lemma SingleLetter(column: nat)
    ensures |ColumnIdentifier(column)| == 1 <==> column < 26
    ensures column >= 26 ==> ColumnIdentifier(column)[1..] == Decimal.FromNat(column / 26)
  {
    var number := column / 26;
    var header := ColumnIdentifier(column);
    assert header == [header[0]] + (if number > 0 then Decimal.FromNat(number) else "");
  }

  /** Decoding a header gives back its column. */
  lemma RoundTrip(column: nat)
    ensures DecodeColumn(ColumnIdentifier(column)) == Some(column)
  {
    var number := column / 26;
    var header := ColumnIdentifier(column);
    var suffix := if number > 0 then Decimal.FromNat(number) else "";
    assert header == [header[0]] + suffix;
    assert header[1..] == suffix;
    assert header[0] as int - AsciiCodeA == column % 26;
    if number > 0 {
      Decimal.ValueOfFromNat(number);
    }
  }

  /** Distinct columns get distinct headers. */
  lemma Injective(a: nat, b: nat)
    requires ColumnIdentifier(a) == ColumnIdentifier(b)
    ensures a == b
  {
    RoundTrip(a);
    RoundTrip(b);
  }

  lemma DivModOfPair(index: nat, value: nat)
    requires index < 26
    ensures (index + 26 * value) / 26 == value && (index + 26 * value) % 26 == index
  {
  }

  /** Whatever decodes is the header of the column it decodes to. */
  lemma DecodeSound(header: string, column: nat)
    requires DecodeColumn(header) == Some(column)
    ensures ColumnIdentifier(column) == header
  {
    var index := header[0] as int - AsciiCodeA;
    var suffix := header[1..];
    assert header == [header[0]] + suffix;
    if suffix == [] {
      DivModOfPair(index, 0);
    } else {
      var value := Decimal.Value(suffix);
      Decimal.ValuePositive(suffix);
      Decimal.FromNatOfValue(suffix);
      DivModOfPair(index, value);
    }
  }

  /** The headers after Z. */
  lemma AfterZ()
    ensures ColumnIdentifier(0) == "A" && ColumnIdentifier(25) == "Z"
    ensures ColumnIdentifier(26) == "A1" && ColumnIdentifier(27) == "B1"
  {
    assert Decimal.FromNat(1) == "1";
  }
}
