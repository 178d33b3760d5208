/**
 Base64 as the cursors use it: the encoder of section 4 of RFC 4648, the forgiving
 decoder behind `atob`, and the lenient one of Node's `Buffer.from(text, "base64")`.
 Both decoders undo the encoder on every byte string.
 */
module Base64 {
  import opened Outcomes

  type Sextet = x: int | 0 <= x < 64

  predicate Ascii(text: string) {
    forall i :: 0 <= i < |text| ==> text[i] < 128 as char
  }

  /** The bytes of ASCII text. */
  function Bytes(text: string): (bytes: seq<Byte>)
    requires Ascii(text)
    ensures |bytes| == |text|
  {
    if text == [] then [] else [text[0] as int] + Bytes(text[1..])
  }

  /** ASCII bytes read back; a byte outside ASCII becomes the replacement character. */
  function Text(bytes: seq<Byte>): (text: string)
    ensures |text| == |bytes|
  {
    if bytes == [] then [] else [if bytes[0] < 128 then bytes[0] as char else 0xFFFD as char] + Text(bytes[1..])
  }

  lemma {:induction false} TextOfBytes(text: string)
    requires Ascii(text)
    ensures Text(Bytes(text)) == text
  {
    if text != [] {
      TextOfBytes(text[1..]);
      assert Bytes(text)[1..] == Bytes(text[1..]);
      assert text == [text[0]] + text[1..];
    }
  }

  // ----- The alphabet --------------------------------------------------------

  function Symbol(v: Sextet): (c: char) {
    if v < 26 then ('A' as int + v) as char
    else if v < 52 then ('a' as int + v - 26) as char
    else if v < 62 then ('0' as int + v - 52) as char
    else if v == 62 then '+'
    else '/'
  }

  function Value(c: char): Option<Sextet> {
    if 'A' <= c <= 'Z' then Some(c as int - 'A' as int)
    else if 'a' <= c <= 'z' then Some(c as int - 'a' as int + 26)
    else if '0' <= c <= '9' then Some(c as int - '0' as int + 52)
    else if c == '+' then Some(62)
    else if c == '/' then Some(63)
    else None
  }

  predicate IsWhitespace(c: char) {
    c == ' ' || c == '\t' || c == '\n' || c == '\r' || c == 12 as char
  }

  /** The URL-safe alphabet is read by the lenient decoder too. */
  function LenientValue(c: char): Option<Sextet> {
    if c == '-' then Some(62) else if c == '_' then Some(63) else Value(c)
  }

  lemma ValueOfSymbol(v: Sextet)
    ensures Value(Symbol(v)) == Some(v) && LenientValue(Symbol(v)) == Some(v)
    ensures Symbol(v) != '=' && !IsWhitespace(Symbol(v))
  {
    if v < 26 {
    } else if v < 52 {
    } else if v < 62 {
    }
  }

  const UPPER := "ABCDEFGHIJKLMNOPQRSTUVWXYZ"
  const LOWER := "abcdefghijklmnopqrstuvwxyz"
  const NUMERALS := "0123456789"

  /** The alphabet of RFC 4648, section 4. */
  const ALPHABET := UPPER + LOWER + NUMERALS + "+/"

  lemma UpperAt(k: nat)
    requires k < 26
    ensures UPPER[k] == ('A' as int + k) as char
  {
  }

  lemma LowerAt(k: nat)
    requires k < 26
    ensures LOWER[k] == ('a' as int + k) as char
  {
  }

  lemma NumeralAt(k: nat)
    requires k < 10
    ensures NUMERALS[k] == ('0' as int + k) as char
  {
  }

  lemma SymbolIsAlphabet(v: Sextet)
    ensures |ALPHABET| == 64 && Symbol(v) == ALPHABET[v]
  {
    assert |UPPER| == 26 && |LOWER| == 26 && |NUMERALS| == 10;
    if v < 26 {
      UpperAt(v);
    } else if v < 52 {
      LowerAt(v - 26);
    } else if v < 62 {
      NumeralAt(v - 52);
    }
  }

  /** A character has a value exactly when it is of the alphabet, and then its place there. */
  lemma ValueExactly(c: char, v: Sextet)
    ensures |ALPHABET| == 64
    ensures Value(c) == Some(v) <==> ALPHABET[v] == c
  {
    hide ALPHABET;
    SymbolIsAlphabet(v);
    ValueOfSymbol(v);
    if Value(c) == Some(v) {
      SymbolOfValue(c);
    }
  }

  lemma SymbolOfValue(c: char)
    ensures Value(c).Some? ==> Symbol(Value(c).value) == c
  {
  }

  /** The lenient decoder also reads the two characters of the URL-safe alphabet, RFC 4648, section 5. */
  lemma LenientValueExactly(c: char)
    ensures LenientValue(c) == Value(if c == '-' then '+' else if c == '_' then '/' else c)
  {
  }

  // ----- Bytes and sextets ---------------------------------------------------

  function Sextets(bytes: seq<Byte>): seq<Sextet> {
    if bytes == [] then []
    else if |bytes| == 1 then [bytes[0] / 4, bytes[0] % 4 * 16]
    else if |bytes| == 2 then
      [bytes[0] / 4, bytes[0] % 4 * 16 + bytes[1] / 16, bytes[1] % 16 * 4]
    else
      [bytes[0] / 4, bytes[0] % 4 * 16 + bytes[1] / 16, bytes[1] % 16 * 4 + bytes[2] / 64, bytes[2] % 64]
      + Sextets(bytes[3..])
  }

  /** The number made of up to four groups of six bits. */
  function Bits(a: int, b: int, c: int, d: int): int {
    a * 262144 + b * 4096 + c * 64 + d
  }

  function Octets(a: int, b: int, c: int): int {
    a * 65536 + b * 256 + c
  }

  /** Three bytes are the 24 bits of the four sextets they become; one and two bytes are filled up with zeros. */
  lemma SextetsExactly(bytes: seq<Byte>)
    requires bytes != []
    ensures |bytes| == 1 ==>
              |Sextets(bytes)| == 2 && Bits(Sextets(bytes)[0], Sextets(bytes)[1], 0, 0) == Octets(bytes[0], 0, 0)
    ensures |bytes| == 2 ==>
              && |Sextets(bytes)| == 3
              && Bits(Sextets(bytes)[0], Sextets(bytes)[1], Sextets(bytes)[2], 0) == Octets(bytes[0], bytes[1], 0)
    ensures |bytes| >= 3 ==>
              && |Sextets(bytes)| >= 4 && Sextets(bytes)[4..] == Sextets(bytes[3..])
              && Bits(Sextets(bytes)[0], Sextets(bytes)[1], Sextets(bytes)[2], Sextets(bytes)[3])
                 == Octets(bytes[0], bytes[1], bytes[2])
  {
  }

  function FirstByte(a: int, b: int): Byte
    requires 0 <= a < 64 && 0 <= b < 64
  {
    a * 4 + b / 16
  }

  function SecondByte(b: int, c: int): Byte
    requires 0 <= b < 64 && 0 <= c < 64
  {
    b % 16 * 16 + c / 4
  }

  function ThirdByte(c: int, d: int): Byte
    requires 0 <= c < 64 && 0 <= d < 64
  {
    c % 4 * 64 + d
  }

  /** Bits left over after the last whole byte are dropped. */
  function FromSextets(v: seq<Sextet>): seq<Byte> {
    if |v| < 2 then []
    else if |v| == 2 then [FirstByte(v[0], v[1])]
    else if |v| == 3 then [FirstByte(v[0], v[1]), SecondByte(v[1], v[2])]
    else [FirstByte(v[0], v[1]), SecondByte(v[1], v[2]), ThirdByte(v[2], v[3])] + FromSextets(v[4..])
  }

  lemma GroupRoundTrip(b0: Byte, b1: Byte, b2: Byte)
    ensures FirstByte(b0 / 4, b0 % 4 * 16 + b1 / 16) == b0
    ensures SecondByte(b0 % 4 * 16 + b1 / 16, b1 % 16 * 4 + b2 / 64) == b1
    ensures ThirdByte(b1 % 16 * 4 + b2 / 64, b2 % 64) == b2
  {
  }

  lemma {:induction false} SextetsRoundTrip(bytes: seq<Byte>)
    ensures FromSextets(Sextets(bytes)) == bytes
  {
    if |bytes| >= 3 {
      var v := Sextets(bytes);
      GroupRoundTrip(bytes[0], bytes[1], bytes[2]);
      SextetsRoundTrip(bytes[3..]);
      assert v[4..] == Sextets(bytes[3..]);
      assert bytes == [bytes[0], bytes[1], bytes[2]] + bytes[3..];
    } else if |bytes| == 2 {
      GroupRoundTrip(bytes[0], bytes[1], 0);
    } else if |bytes| == 1 {
      GroupRoundTrip(bytes[0], 0, 0);
    }
  }

  /** Padding fills the last group of four. */
  lemma OneGroupMore(length: nat)
    ensures GroupRest(length + 4) == GroupRest(length)
  {
  }

  lemma ThreeBytesMore(length: nat)
    ensures Padding(length + 3) == Padding(length)
  {
  }

  lemma {:induction false} GroupsAreFull(bytes: seq<Byte>)
    ensures GroupRest(|Sextets(bytes)| + |Padding(|bytes|)|) == 0 && GroupRest(|Sextets(bytes)|) != 1
  {
    if |bytes| >= 3 {
      hide GroupRest, Padding;
      GroupsAreFull(bytes[3..]);
      var rest := |Sextets(bytes[3..])|;
      assert |Sextets(bytes)| == rest + 4;
      OneGroupMore(rest);
      OneGroupMore(rest + |Padding(|bytes[3..]|)|);
      ThreeBytesMore(|bytes[3..]|);
    }
  }

  function Symbols(v: seq<Sextet>): (text: string)
    ensures |text| == |v|
    ensures forall i :: 0 <= i < |v| ==> text[i] == Symbol(v[i])
  {
    if v == [] then [] else [Symbol(v[0])] + Symbols(v[1..])
  }

  /** Base64 text comes in groups of four characters; what is left over after whole groups. */
  function GroupRest(length: nat): nat {
    length % 4
  }

  function Padding(length: nat): string {
    if length % 3 == 0 then "" else if length % 3 == 1 then "==" else "="
  }

  function Encode(bytes: seq<Byte>): string {
    Symbols(Sextets(bytes)) + Padding(|bytes|)
  }

  // ----- atob ----------------------------------------------------------------

  function WithoutWhitespace(text: string): (r: string)
    ensures (forall i :: 0 <= i < |text| ==> !IsWhitespace(text[i])) ==> r == text
  {
    if text == [] then []
    else (if IsWhitespace(text[0]) then [] else [text[0]]) + WithoutWhitespace(text[1..])
  }

  /** Up to two `=` are taken off text whose length is a multiple of four. */
  function WithoutPadding(text: string): string {
    if GroupRest(|text|) != 0 || |text| == 0 || text[|text| - 1] != '=' then text
    else if text[|text| - 2] != '=' then text[..|text| - 1]
    else text[..|text| - 2]
  }

  function Values(text: string): Option<seq<Sextet>> {
    if text == [] then Some([])
    else
      var first, rest := Value(text[0]), Values(text[1..]);
      if first.None? || rest.None? then None else Some([first.value] + rest.value)
  }

  function Atob(text: string): Option<seq<Byte>> {
    var core := WithoutPadding(WithoutWhitespace(text));
    var values := Values(core);
    if GroupRest(|core|) == 1 || values.None? then None else Some(FromSextets(values.value))
  }

  /** Text has values exactly when all its characters are of the alphabet. */
  lemma {:induction false} ValuesExist(text: string)
    ensures Values(text).Some? <==> forall i :: 0 <= i < |text| ==> Value(text[i]).Some?
  {
    if text != [] {
      ValuesExist(text[1..]);
      assert forall i :: 0 < i < |text| ==> text[i] == text[1..][i - 1];
    }
  }

  lemma {:induction false} ValuesOfSymbols(v: seq<Sextet>)
    ensures Values(Symbols(v)) == Some(v)
  {
    if v != [] {
      ValueOfSymbol(v[0]);
      ValuesOfSymbols(v[1..]);
      assert Symbols(v)[1..] == Symbols(v[1..]);
      assert v == [v[0]] + v[1..];
    }
  }

  /** Taking the padding off gives back the symbols: none of them is `=`. */
  lemma PaddingComesOff(symbols: string, padding: string, length: nat)
    requires forall i :: 0 <= i < |symbols| ==> symbols[i] != '='
    requires padding == "" || padding == "=" || padding == "=="
    requires length == |symbols| + |padding| && GroupRest(length) == 0
    ensures WithoutPadding(symbols + padding) == symbols
  {
    var text := symbols + padding;
    if padding == "" {
      assert text == symbols;
    } else if padding == "=" {
      assert text[|text| - 2] == symbols[|symbols| - 1];
      assert text[..|text| - 1] == symbols;
    } else {
      assert text[..|text| - 2] == symbols;
    }
  }

  lemma SymbolsAreText(v: seq<Sextet>, padding: string)
    requires padding == "" || padding == "=" || padding == "=="
    ensures WithoutWhitespace(Symbols(v) + padding) == Symbols(v) + padding
    ensures forall i :: 0 <= i < |v| ==> Symbols(v)[i] != '='
  {
    hide Symbol, WithoutWhitespace;
    forall i | 0 <= i < |v|
      ensures Symbols(v)[i] != '=' && !IsWhitespace(Symbols(v)[i])
    {
      ValueOfSymbol(v[i]);
    }
  }

  lemma AtobOfSymbols(v: seq<Sextet>, padding: string)
    requires padding == "" || padding == "=" || padding == "=="
    requires GroupRest(|v| + |padding|) == 0 && GroupRest(|v|) != 1
    ensures Atob(Symbols(v) + padding) == Some(FromSextets(v))
  {
    hide GroupRest, Symbols, Values, FromSextets, WithoutPadding, WithoutWhitespace;
    SymbolsAreText(v, padding);
    PaddingComesOff(Symbols(v), padding, |v| + |padding|);
    ValuesOfSymbols(v);
  }

  lemma AtobUndoesEncode(bytes: seq<Byte>)
    ensures Atob(Encode(bytes)) == Some(bytes)
  {
    GroupsAreFull(bytes);
    SextetsRoundTrip(bytes);
    AtobOfSymbols(Sextets(bytes), Padding(|bytes|));
  }

  // ----- Buffer.from(text, "base64") -----------------------------------------

  /** Padding ends the data; any other character outside the alphabets is skipped. */
  function LenientValues(text: string): seq<Sextet> {
    if text == [] || text[0] == '=' then []
    else
      match LenientValue(text[0])
      case Some(v) => [v] + LenientValues(text[1..])
      case None => LenientValues(text[1..])
  }

  function BufferFrom(text: string): seq<Byte> {
    FromSextets(LenientValues(text))
  }

  lemma LenientFirst(v: Sextet, rest: string)
    ensures LenientValues([Symbol(v)] + rest) == [v] + LenientValues(rest)
  {
    ValueOfSymbol(v);
    assert ([Symbol(v)] + rest)[1..] == rest;
  }

  lemma {:induction false} LenientValuesOfSymbols(v: seq<Sextet>, padding: string)
    requires padding == [] || padding[0] == '='
    ensures LenientValues(Symbols(v) + padding) == v
  {
    if v == [] {
      assert Symbols(v) + padding == padding;
    } else {
      hide Symbol, LenientValues;
      LenientValuesOfSymbols(v[1..], padding);
      LenientFirst(v[0], Symbols(v[1..]) + padding);
      assert Symbols(v) + padding == [Symbol(v[0])] + (Symbols(v[1..]) + padding);
      assert v == [v[0]] + v[1..];
    }
  }

  lemma BufferFromUndoesEncode(bytes: seq<Byte>)
    ensures BufferFrom(Encode(bytes)) == bytes
  {
    SextetsRoundTrip(bytes);
    LenientValuesOfSymbols(Sextets(bytes), Padding(|bytes|));
  }
}
