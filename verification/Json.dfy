/**
 JSON text as `JSON.parse` reads it (RFC 8259), with numbers as reals, and the decimal
 digits that `JSON.stringify` writes for a non-negative integer.

 Every function that reads at an index returns the index after what it read.
 */
module Json {
  import opened Outcomes

  datatype Value =
    | Null
    | Bool(b: bool)
    | Number(n: real)
    | String(text: string)
    | Array(elements: seq<Value>)
    | Object(members: seq<(string, Value)>)

  /** The last member with this name wins. */
  function Member(members: seq<(string, Value)>, name: string): Option<Value> {
    if members == [] then None
    else
      var last := members[|members| - 1];
      if last.0 == name then Some(last.1) else Member(members[..|members| - 1], name)
  }

  // ----- Numbers -------------------------------------------------------------

  predicate IsDigit(c: char) {
    '0' <= c <= '9'
  }

  function DigitValue(c: char): nat
    requires IsDigit(c)
  {
    c as int - '0' as int
  }

  predicate AllDigits(text: string) {
    forall i :: 0 <= i < |text| ==> IsDigit(text[i])
  }

  /** The number whose decimal digits are those of `value` followed by `text`. */
  function Extended(value: nat, text: string): nat
    requires AllDigits(text)
    decreases |text|
  {
    if text == [] then value else Extended(value * 10 + DigitValue(text[0]), text[1..])
  }

  predicate DigitsBetween(s: string, i: nat, end: nat)
    requires i <= end <= |s|
  {
    AllDigits(s[i..end])
  }

  function DigitsEnd(s: string, i: nat): (end: nat)
    requires i <= |s|
    ensures i <= end <= |s| && DigitsBetween(s, i, end)
    decreases |s| - i
  {
    if i < |s| && IsDigit(s[i]) then
      var end := DigitsEnd(s, i + 1);
      assert s[i..end] == [s[i]] + s[i + 1..end];
      end
    else i
  }

  function Decimal(n: nat): (text: string)
    ensures AllDigits(text) && |text| > 0
  {
    var last := [(n % 10 + '0' as int) as char];
    if n < 10 then last else Decimal(n / 10) + last
  }

  function PowerOfTen(e: nat): real {
    if e == 0 then 1.0 else 10.0 * PowerOfTen(e - 1)
  }

  /** `.` and digits, or nothing. */
  function ParseFraction(s: string, i: nat): (r: Option<(real, nat)>)
    requires i <= |s|
    ensures r.Some? ==> i <= r.value.1 <= |s|
  {
    if i == |s| || s[i] != '.' then Some((0.0, i))
    else
      var end := DigitsEnd(s, i + 1);
      if end == i + 1 then None
      else Some((Extended(0, s[i + 1..end]) as real * Tenths(end - i - 1), end))
  }

  /** 10 to the power of minus `e`. */
  function Tenths(e: nat): real {
    if e == 0 then 1.0 else Tenths(e - 1) / 10.0
  }

  lemma {:induction false} TenthsAreInverse(e: nat)
    ensures Tenths(e) * PowerOfTen(e) == 1.0
  {
    if e > 0 {
      TenthsAreInverse(e - 1);
      assert Tenths(e) * PowerOfTen(e) == Tenths(e - 1) / 10.0 * (10.0 * PowerOfTen(e - 1));
    }
  }

  /** `e`, a sign and digits, or nothing; the result is the factor. */
  function ParseExponent(s: string, i: nat): (r: Option<(real, nat)>)
    requires i <= |s|
    ensures r.Some? ==> i <= r.value.1 <= |s|
  {
    if i == |s| || (s[i] != 'e' && s[i] != 'E') then Some((1.0, i))
    else
      var from := if i + 1 < |s| && (s[i + 1] == '+' || s[i + 1] == '-') then i + 2 else i + 1;
      var end := DigitsEnd(s, from);
      if end == from then None
      else
        var e := Extended(0, s[from..end]);
        Some((if s[i + 1] == '-' then Tenths(e) else PowerOfTen(e), end))
  }

  /** A single `0`, or digits that do not start with one. */
  function IntegerEnd(s: string, i: nat): (end: nat)
    requires i <= |s|
    ensures i <= end <= |s| && DigitsBetween(s, i, end)
  {
    if i < |s| && s[i] == '0' then i + 1 else DigitsEnd(s, i)
  }

  function ParseNumber(s: string, i: nat): (r: Option<(Value, nat)>)
    requires i < |s|
    ensures r.Some? ==> i < r.value.1 <= |s|
  {
    var from := if s[i] == '-' then i + 1 else i;
    var end := IntegerEnd(s, from);
    if end == from then None
    else
      var fraction := ParseFraction(s, end);
      if fraction.None? then None
      else
        var exponent := ParseExponent(s, fraction.value.1);
        if exponent.None? then None
        else
          var size := (Extended(0, s[from..end]) as real + fraction.value.0) * exponent.value.0;
          Some((Number(if s[i] == '-' then -size else size), exponent.value.1))
  }

  // ----- Strings -------------------------------------------------------------

  function HexValue(c: char): Option<nat> {
    if IsDigit(c) then Some(DigitValue(c))
    else if 'a' <= c <= 'f' then Some(c as int - 'a' as int + 10)
    else if 'A' <= c <= 'F' then Some(c as int - 'A' as int + 10)
    else None
  }

  /** The character of a `\uXXXX` escape; half of a surrogate pair becomes the replacement character. */
  function HexCharacter(s: string, i: nat): Option<char>
    requires i + 4 <= |s|
  {
    var a, b, c, d := HexValue(s[i]), HexValue(s[i + 1]), HexValue(s[i + 2]), HexValue(s[i + 3]);
    if a.None? || b.None? || c.None? || d.None? then None
    else
      var code := a.value * 4096 + b.value * 256 + c.value * 16 + d.value;
      Some(if 0 <= code < 0xD800 || 0xE000 <= code < 0x10000 then code as char else 0xFFFD as char)
  }

  /** The character after a backslash at `i - 1`, and where the text goes on. */
  function ParseEscape(s: string, i: nat): (r: Option<(char, nat)>)
    requires i <= |s|
    ensures r.Some? ==> i < r.value.1 <= |s|
  {
    if i == |s| then None
    else if s[i] == '"' || s[i] == '\\' || s[i] == '/' then Some((s[i], i + 1))
    else if s[i] == 'b' then Some((8 as char, i + 1))
    else if s[i] == 'f' then Some((12 as char, i + 1))
    else if s[i] == 'n' then Some(('\n', i + 1))
    else if s[i] == 'r' then Some(('\r', i + 1))
    else if s[i] == 't' then Some(('\t', i + 1))
    else if s[i] == 'u' && i + 5 <= |s| && HexCharacter(s, i + 1).Some? then
      Some((HexCharacter(s, i + 1).value, i + 5))
    else None
  }

  /** The escapes of RFC 8259, section 7, and the codes of the characters they stand for. */
  const ESCAPES := [('"', 34), ('\\', 92), ('/', 47), ('b', 8), ('f', 12), ('n', 10), ('r', 13), ('t', 9)]

  lemma EscapesExactly(s: string, i: nat, k: nat)
    requires i < |s| && k < 8 && s[i] == ESCAPES[k].0
    ensures ParseEscape(s, i) == Some((ESCAPES[k].1 as char, i + 1))
  {
  }

  /** The rest of a string whose opening quote is before `i`. */
  function ParseString(s: string, i: nat): (r: Option<(string, nat)>)
    requires i <= |s|
    ensures r.Some? ==> i < r.value.1 <= |s|
    decreases |s| - i
  {
    if i == |s| || s[i] < ' ' then None
    else if s[i] == '"' then Some(([], i + 1))
    else
      var first := if s[i] == '\\' then ParseEscape(s, i + 1) else Some((s[i], i + 1));
      if first.None? then None
      else
        var rest := ParseString(s, first.value.1);
        if rest.None? then None else Some(([first.value.0] + rest.value.0, rest.value.1))
  }

  // ----- Values --------------------------------------------------------------

  function Skip(s: string, i: nat): (j: nat)
    requires i <= |s|
    ensures i <= j <= |s|
    decreases |s| - i
  {
    if i < |s| && (s[i] == ' ' || s[i] == '\t' || s[i] == '\n' || s[i] == '\r') then Skip(s, i + 1) else i
  }

  predicate StartsAt(s: string, i: nat, word: string) {
    i + |word| <= |s| && s[i..i + |word|] == word
  }

  function ParseValue(s: string, i: nat): (r: Option<(Value, nat)>)
    requires i <= |s|
    ensures r.Some? ==> i < r.value.1 <= |s|
    decreases |s| - i, 2
  {
    var j := Skip(s, i);
    if j == |s| then None
    else if s[j] == '{' then
      var k := Skip(s, j + 1);
      if k < |s| && s[k] == '}' then Some((Object([]), k + 1)) else ParseMembers(s, k, [])
    else if s[j] == '[' then
      var k := Skip(s, j + 1);
      if k < |s| && s[k] == ']' then Some((Array([]), k + 1)) else ParseElements(s, k, [])
    else if s[j] == '"' then
      var text := ParseString(s, j + 1);
      if text.None? then None else Some((String(text.value.0), text.value.1))
    else if StartsAt(s, j, "true") then Some((Bool(true), j + 4))
    else if StartsAt(s, j, "false") then Some((Bool(false), j + 5))
    else if StartsAt(s, j, "null") then Some((Null, j + 4))
    else ParseNumber(s, j)
  }

  /** The name of a member and the colon. */
  function ParseName(s: string, i: nat): (r: Option<(string, nat)>)
    requires i <= |s|
    ensures r.Some? ==> i < r.value.1 <= |s|
  {
    var j := Skip(s, i);
    if j == |s| || s[j] != '"' then None
    else
      var name := ParseString(s, j + 1);
      if name.None? then None
      else
        var k := Skip(s, name.value.1);
        if k == |s| || s[k] != ':' then None else Some((name.value.0, k + 1))
  }

  function ParseMembers(s: string, i: nat, before: seq<(string, Value)>): (r: Option<(Value, nat)>)
    requires i <= |s|
    ensures r.Some? ==> i < r.value.1 <= |s|
    decreases |s| - i, 1
  {
    var name := ParseName(s, i);
    if name.None? then None
    else
      var value := ParseValue(s, name.value.1);
      if value.None? then None
      else ParseMembersEnd(s, value.value.1, before + [(name.value.0, value.value.0)])
  }

  /** After the value of a member: another member, or the end of the object. */
  function ParseMembersEnd(s: string, i: nat, members: seq<(string, Value)>): (r: Option<(Value, nat)>)
    requires i <= |s|
    ensures r.Some? ==> i < r.value.1 <= |s|
    decreases |s| - i, 0
  {
    var end := Skip(s, i);
    if end == |s| then None
    else if s[end] == ',' then ParseMembers(s, end + 1, members)
    else if s[end] == '}' then Some((Object(members), end + 1))
    else None
  }

  function ParseElements(s: string, i: nat, before: seq<Value>): (r: Option<(Value, nat)>)
    requires i <= |s|
    ensures r.Some? ==> i < r.value.1 <= |s|
    decreases |s| - i, 3
  {
    var value := ParseValue(s, i);
    if value.None? then None
    else
      var elements := before + [value.value.0];
      var end := Skip(s, value.value.1);
      if end == |s| then None
      else if s[end] == ',' then ParseElements(s, end + 1, elements)
      else if s[end] == ']' then Some((Array(elements), end + 1))
      else None
  }

  function Parse(s: string): Option<Value> {
    var value := ParseValue(s, 0);
    if value.None? || Skip(s, value.value.1) != |s| then None else Some(value.value.0)
  }

  // ----- Reading back decimal numbers ----------------------------------------

  lemma {:induction false} ExtendedByOne(value: nat, text: string, c: char)
    requires AllDigits(text) && IsDigit(c)
    ensures Extended(value, text + [c]) == Extended(value, text) * 10 + DigitValue(c)
    decreases |text|
  {
    if text != [] {
      assert (text + [c])[1..] == text[1..] + [c];
      ExtendedByOne(value * 10 + DigitValue(text[0]), text[1..], c);
    } else {
      assert [c][1..] == [];
    }
  }

  /** The digits of a number read back as that number, and only 0 starts with a zero. */
  lemma {:induction false} DecimalReadsBack(n: nat)
    ensures Extended(0, Decimal(n)) == n
    ensures Decimal(n)[0] == '0' <==> n == 0
  {
    if n < 10 {
      ExtendedByOne(0, [], Decimal(n)[0]);
      assert [] + [Decimal(n)[0]] == Decimal(n);
    } else {
      DecimalReadsBack(n / 10);
      ExtendedByOne(0, Decimal(n / 10), (n % 10 + '0' as int) as char);
    }
  }

  lemma {:induction false} DigitsEndAt(s: string, i: nat, end: nat)
    requires i <= end <= |s| && AllDigits(s[i..end]) && (end < |s| ==> !IsDigit(s[end]))
    ensures DigitsEnd(s, i) == end
    decreases end - i
  {
    if i < end {
      assert s[i] == s[i..end][0];
      assert s[i + 1..end] == s[i..end][1..];
      DigitsEndAt(s, i + 1, end);
    }
  }

  /** A decimal number before a `}` is read as that number, up to the `}`. */
  lemma DecimalParses(s: string, i: nat, n: nat)
    requires i + |Decimal(n)| < |s|
    requires s[i..i + |Decimal(n)|] == Decimal(n) && s[i + |Decimal(n)|] == '}'
    ensures ParseNumber(s, i) == Some((Number(n as real), i + |Decimal(n)|))
  {
    var end := i + |Decimal(n)|;
    DecimalReadsBack(n);
    assert s[i] == Decimal(n)[0];
    if n == 0 {
      assert Decimal(0) == ['0'];
    } else {
      DigitsEndAt(s, i, end);
    }
    assert IntegerEnd(s, i) == end;
    assert ParseFraction(s, end) == Some((0.0, end));
    assert ParseExponent(s, end) == Some((1.0, end));
  }

  predicate Plain(text: string) {
    forall i :: 0 <= i < |text| ==> text[i] != '"' && text[i] != '\\' && text[i] >= ' '
  }

  /** Text without quotes, backslashes and control characters is read up to the closing quote. */
  lemma {:induction false} PlainStringParses(s: string, i: nat, text: string)
    requires Plain(text) && i + |text| < |s|
    requires s[i..i + |text|] == text && s[i + |text|] == '"'
    ensures ParseString(s, i) == Some((text, i + |text| + 1))
    decreases |text|
  {
    if text != [] {
      assert s[i] == text[0];
      assert s[i + 1..i + |text|] == text[1..];
      PlainStringParses(s, i + 1, text[1..]);
      assert text == [text[0]] + text[1..];
    }
  }

  // ----- One step of the parser, where no whitespace is in the way -----------

  lemma ObjectStarts(s: string, i: nat)
    requires i + 1 < |s| && s[i] == '{' && s[i + 1] == '"'
    ensures ParseValue(s, i) == ParseMembers(s, i + 1, [])
  {
    assert Skip(s, i) == i && Skip(s, i + 1) == i + 1;
  }

  lemma NotThisWord(s: string, i: nat, word: string)
    requires i < |s| && word != [] && s[i] != word[0]
    ensures !StartsAt(s, i, word)
  {
    assert i + |word| <= |s| ==> s[i..i + |word|][0] == s[i];
  }

  lemma NumberStarts(s: string, i: nat)
    requires i < |s| && IsDigit(s[i])
    ensures ParseValue(s, i) == ParseNumber(s, i)
  {
    hide ParseNumber, ParseString, ParseMembers, ParseElements;
    NotThisWord(s, i, "true");
    NotThisWord(s, i, "false");
    NotThisWord(s, i, "null");
    assert Skip(s, i) == i;
  }

  lemma NameParses(s: string, i: nat, name: string)
    requires Plain(name) && i + |name| + 2 < |s| && s[i] == '"'
    requires s[i + 1..i + 1 + |name|] == name && s[i + 1 + |name|] == '"' && s[i + 2 + |name|] == ':'
    ensures ParseName(s, i) == Some((name, i + |name| + 3))
  {
    PlainStringParses(s, i + 1, name);
    assert Skip(s, i) == i && Skip(s, i + 2 + |name|) == i + 2 + |name|;
  }

  lemma MemberParses(s: string, i: nat, before: seq<(string, Value)>, name: string, k: nat, value: Value, end: nat)
    requires i <= |s| && k <= |s| && end <= |s|
    requires ParseName(s, i) == Some((name, k)) && ParseValue(s, k) == Some((value, end))
    ensures ParseMembers(s, i, before) == ParseMembersEnd(s, end, before + [(name, value)])
  {
  }

  lemma NextMember(s: string, i: nat, members: seq<(string, Value)>)
    requires i < |s| && s[i] == ','
    ensures ParseMembersEnd(s, i, members) == ParseMembers(s, i + 1, members)
  {
    assert Skip(s, i) == i;
  }

  lemma ObjectEnds(s: string, i: nat, members: seq<(string, Value)>)
    requires i < |s| && s[i] == '}'
    ensures ParseMembersEnd(s, i, members) == Some((Object(members), i + 1))
  {
    assert Skip(s, i) == i;
  }

  // ----- What the parser reads -------------------------------------------------

  /** A fraction is its digits over the power of ten of their number. */
  lemma FractionExactly(s: string, i: nat, end: nat)
    requires i + 1 < end <= |s| && s[i] == '.' && AllDigits(s[i + 1..end])
    requires end < |s| ==> !IsDigit(s[end])
    ensures ParseFraction(s, i).Some? && ParseFraction(s, i).value.1 == end
    ensures ParseFraction(s, i).value.0 * PowerOfTen(end - i - 1) == Extended(0, s[i + 1..end]) as real
  {
    DigitsEndAt(s, i + 1, end);
    TenthsAreInverse(end - i - 1);
    var n := Extended(0, s[i + 1..end]) as real;
    assert n * Tenths(end - i - 1) * PowerOfTen(end - i - 1) == n * (Tenths(end - i - 1) * PowerOfTen(end - i - 1));
  }

  /** An exponent multiplies by a power of ten, after a minus sign it divides by it. */
  lemma ExponentExactly(s: string, i: nat, from: nat, end: nat)
    requires i + 1 <= from < end <= |s| && (s[i] == 'e' || s[i] == 'E') && AllDigits(s[from..end])
    requires from == i + 1 || (from == i + 2 && (s[i + 1] == '+' || s[i + 1] == '-'))
    requires end < |s| ==> !IsDigit(s[end])
    ensures var e := Extended(0, s[from..end]);
            if s[i + 1] == '-' then
              ParseExponent(s, i).Some? && ParseExponent(s, i).value.0 * PowerOfTen(e) == 1.0 &&
              ParseExponent(s, i).value.1 == end
            else ParseExponent(s, i) == Some((PowerOfTen(e), end))
  {
    assert s[from] == s[from..end][0];
    DigitsEndAt(s, from, end);
    TenthsAreInverse(Extended(0, s[from..end]));
  }

  /** A minus sign negates the number after it. */
  lemma MinusNegates(s: string, i: nat)
    requires i + 1 < |s| && s[i] == '-' && IsDigit(s[i + 1])
    ensures ParseNumber(s, i + 1).Some? <==> ParseNumber(s, i).Some?
    ensures ParseNumber(s, i).Some? ==>
              && ParseNumber(s, i).value.1 == ParseNumber(s, i + 1).value.1
              && ParseNumber(s, i).value.0.Number? && ParseNumber(s, i + 1).value.0.Number?
              && ParseNumber(s, i).value.0.n == -ParseNumber(s, i + 1).value.0.n
  {
  }

  /** The three words. */
  lemma WordsExactly(s: string, i: nat)
    requires i <= |s|
    ensures StartsAt(s, i, "true") ==> ParseValue(s, i) == Some((Bool(true), i + 4))
    ensures StartsAt(s, i, "false") ==> ParseValue(s, i) == Some((Bool(false), i + 5))
    ensures StartsAt(s, i, "null") ==> ParseValue(s, i) == Some((Null, i + 4))
  {
    hide ParseNumber, ParseString, ParseMembers, ParseElements;
    if i < |s| {
      if StartsAt(s, i, "true") {
        assert s[i] == s[i..i + 4][0] == 't';
      } else if StartsAt(s, i, "false") {
        assert s[i] == s[i..i + 5][0] == 'f';
      } else if StartsAt(s, i, "null") {
        assert s[i] == s[i..i + 4][0] == 'n';
      }
    }
  }

  /** The elements of an array, in order, up to the bracket. */
  lemma ElementParses(s: string, i: nat, before: seq<Value>, value: Value, end: nat)
    requires i <= |s| && ParseValue(s, i) == Some((value, end)) && end < |s|
    ensures s[end] == ',' ==> ParseElements(s, i, before) == ParseElements(s, end + 1, before + [value])
    ensures s[end] == ']' ==> ParseElements(s, i, before) == Some((Array(before + [value]), end + 1))
  {
    hide ParseValue;
  }
}
