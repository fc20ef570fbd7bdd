/**
 * The token layer of parse.c: validators for words and for numbers, the
 * blank-remainder check and the space-delimited tokenizer. A C string is
 * the sequence of its characters before the terminator; a `char **line`
 * cursor becomes the returned remainder of the line.
 */
module Parse {
  import opened Arena
  import opened Decimal

  /** 2^32, the first value an `unsigned int` cannot hold. */
  const Bound: int := 0x1_0000_0000

  /** `is_word_correct`: rejects the empty string, then every character must be lowercase. */
  method IsWordCorrect(word: string) returns (r: bool)
    ensures r <==> IsWord(word)
  {
    if |word| == 0 {
      return false;
    }
    var i := 0;
    while i < |word|
      invariant 0 <= i <= |word|
      invariant forall j :: 0 <= j < i ==> IsLower(word[j])
    {
      if !IsLower(word[i]) {
        return false;
      }
      i := i + 1;
    }
    return true;
  }

  /**
   * `is_number_string_correct`: the length and leading-zero tests, the
   * `strcmp` against "4294967296" for ten-character strings, then every
   * character must be a digit. Accepted are exactly the canonical
   * renderings of the values an `unsigned int` holds.
   */
  function IsNumberStringCorrect(s: string): (r: bool)
    ensures r <==> Canonical(s) && Value(s) < Bound
  {
    NumberBounds(s);
    if || |s| == 0
       || (|s| > 1 && s[0] == '0')
       || |s| > 10
       || (|s| == 10 && !StrLess(s, "4294967296"))
    then false
    else AllDigits(s)
  }

  /** The facts that decide, for each branch of the validator, how a digit string compares with 2^32. */
  lemma NumberBounds(s: string)
    ensures AllDigits(s) && |s| < 10 ==> Value(s) < Bound
    ensures Canonical(s) && |s| > 10 ==> Value(s) >= Bound
    ensures AllDigits(s) && |s| == 10 ==> (StrLess(s, "4294967296") <==> Value(s) < Bound)
  {
    if AllDigits(s) && |s| < 10 {
      ShortBelow(s);
    }
    if Canonical(s) && |s| > 10 {
      LongAbove(s);
    }
    if AllDigits(s) && |s| == 10 {
      TenDigits(s);
    }
  }

  lemma ShortBelow(s: string)
    requires AllDigits(s) && |s| < 10
    ensures Value(s) < Bound
  {
    ValueBounds(s);
    Pow10Monotone(|s|, 9);
    assert Pow10(9) < Bound;
  }

  lemma LongAbove(s: string)
    requires Canonical(s) && |s| > 10
    ensures Value(s) >= Bound
  {
    CanonicalLower(s);
    Pow10Monotone(10, |s| - 1);
    assert Bound < Pow10(10);
  }

  lemma TenDigits(s: string)
    requires AllDigits(s) && |s| == 10
    ensures StrLess(s, "4294967296") <==> Value(s) < Bound
  {
    ToDecimalSpec(Bound);
    BoundRendering();
    StrLessIsNumeric(s, ToDecimal(Bound));
  }

  /** The decimal rendering of 2^32, the string `is_number_string_correct` compares with. */
  lemma BoundRendering()
    ensures ToDecimal(Bound) == "4294967296"
  {
    assert ToDecimal(4) == "4";
    assert ToDecimal(42) == "42";
    assert ToDecimal(429) == "429";
    assert ToDecimal(4294) == "4294";
    assert ToDecimal(42949) == "42949";
    assert ToDecimal(429496) == "429496";
    assert ToDecimal(4294967) == "4294967";
    assert ToDecimal(42949672) == "42949672";
    assert ToDecimal(429496729) == "429496729";
    assert ToDecimal(4294967296) == "4294967296";
  }

  /** The accepted strings are exactly the decimal renderings of 0 .. 2^32-1. */
  lemma NumberAcceptedIffRendering(s: string)
    ensures IsNumberStringCorrect(s) <==> exists n: nat :: n < Bound && s == ToDecimal(n)
  {
    if IsNumberStringCorrect(s) {
      DecimalRoundTrip(s);
      var n: nat := Value(s);
      assert n < Bound && s == ToDecimal(n);
    }
    forall n: nat | n < Bound && s == ToDecimal(n)
      ensures IsNumberStringCorrect(s)
    {
      ToDecimalSpec(n);
    }
  }

  /** Every value an `unsigned int` holds is accepted in its canonical rendering. */
  lemma RenderingAccepted(n: nat)
    requires n < Bound
    ensures IsNumberStringCorrect(ToDecimal(n))
  {
    ToDecimalSpec(n);
  }

  predicate AllSpaces(s: string) {
    forall i :: 0 <= i < |s| ==> s[i] == ' '
  }

  predicate NoSpace(s: string) {
    forall i :: 0 <= i < |s| ==> s[i] != ' '
  }

  /**
   * `is_string_blank`: whether the rest of the line holds only spaces; the
   * cursor stops at the end of the line or at the first other character.
   */
  method IsStringBlank(line: string) returns (r: bool, rest: string)
    ensures |rest| <= |line| && line == line[..|line| - |rest|] + rest
    ensures AllSpaces(line[..|line| - |rest|])
    ensures r <==> AllSpaces(line)
    ensures r ==> rest == []
    ensures !r ==> |rest| >= 1 && rest[0] != ' '
  {
    var i := 0;
    while i < |line|
      invariant 0 <= i <= |line|
      invariant AllSpaces(line[..i])
    {
      if line[i] != ' ' {
        return false, line[i..];
      }
      assert line[..i + 1] == line[..i] + [' '];
      i := i + 1;
    }
    assert line[..i] == line;
    return true, [];
  }

  /** The number of spaces the line starts with. */
  function LeadingSpaces(s: string): (k: nat)
    ensures k <= |s| && AllSpaces(s[..k])
    ensures k < |s| ==> s[k] != ' '
  {
    if |s| > 0 && s[0] == ' ' then
      var k := 1 + LeadingSpaces(s[1..]);
      assert s[..k] == [' '] + s[1..][..k - 1];
      k
    else
      0
  }

  /** The length of the run of non-space characters the line starts with. */
  function TokenLength(s: string): (k: nat)
    ensures k <= |s| && NoSpace(s[..k])
    ensures k < |s| ==> s[k] == ' '
  {
    if |s| > 0 && s[0] != ' ' then
      var k := 1 + TokenLength(s[1..]);
      assert s[..k] == [s[0]] + s[1..][..k - 1];
      k
    else
      0
  }

  /**
   * `get_string`: skips the leading spaces, then takes the maximal run of
   * other characters as the token; returns the token and the rest of the
   * line behind it.
   */
  function GetString(line: string): (r: (string, string))
    ensures |r.0| + |r.1| <= |line|
    ensures line == line[..|line| - |r.0| - |r.1|] + r.0 + r.1
    ensures AllSpaces(line[..|line| - |r.0| - |r.1|]) && NoSpace(r.0)
    ensures r.1 == [] || r.1[0] == ' '
    ensures r.0 == [] ==> r.1 == []
  {
    var skip := LeadingSpaces(line);
    var after := line[skip..];
    var len := TokenLength(after);
    assert line == line[..skip] + after[..len] + after[len..];
    (after[..len], after[len..])
  }

  /** The token that `get_string` returns is the one that was written after the spaces. */
  lemma GetStringOfToken(pad: string, token: string, rest: string)
    requires AllSpaces(pad) && |token| >= 1 && NoSpace(token)
    requires rest == [] || rest[0] == ' '
    ensures GetString(pad + token + rest) == (token, rest)
  {
    var line := pad + token + rest;
    var r := GetString(line);
    LeadingSpacesOf(pad, token + rest);
    assert line == pad + (token + rest);
    TokenLengthOf(token, rest);
  }

  lemma {:induction false} LeadingSpacesOf(pad: string, s: string)
    requires AllSpaces(pad) && |s| >= 1 && s[0] != ' '
    ensures LeadingSpaces(pad + s) == |pad|
    decreases |pad|
  {
    if |pad| > 0 {
      assert (pad + s)[1..] == pad[1..] + s;
      LeadingSpacesOf(pad[1..], s);
    }
  }

  lemma {:induction false} TokenLengthOf(token: string, rest: string)
    requires NoSpace(token)
    requires rest == [] || rest[0] == ' '
    ensures TokenLength(token + rest) == |token|
    decreases |token|
  {
    if |token| > 0 {
      assert (token + rest)[1..] == token[1..] + rest;
      TokenLengthOf(token[1..], rest);
    }
  }

  /** `get_word_from_string`: the next token, and whether it is a dictionary word. */
  method GetWordFromString(line: string) returns (ok: bool, word: string, rest: string)
    ensures (word, rest) == GetString(line)
    ensures ok <==> IsWord(word)
  {
    var r := GetString(line);
    word, rest := r.0, r.1;
    ok := IsWordCorrect(word);
  }

  /** C's `isspace` in the "C" locale: space, tab, newline, vertical tab, form feed, carriage return. */
  predicate IsSpace(c: char) {
    c == ' ' || 9 <= c as int <= 13
  }

  /** The length of the run of digits the string starts with. */
  function DigitRun(s: string): (k: nat)
    ensures k <= |s| && AllDigits(s[..k])
    ensures k < |s| ==> !IsDigit(s[k])
  {
    if |s| > 0 && IsDigit(s[0]) then
      var k := 1 + DigitRun(s[1..]);
      assert s[..k] == [s[0]] + s[1..][..k - 1];
      k
    else
      0
  }

  /** The value of the leading digits. */
  function DigitsValue(s: string): int {
    Value(s[..DigitRun(s)])
  }

  /**
   * `atoi`: leading white space is skipped, an optional sign is read, then
   * the run of digits that follows; anything else ends the number.
   */
  function Atoi(s: string): int
    decreases |s|
  {
    if |s| == 0 then 0
    else if IsSpace(s[0]) then Atoi(s[1..])
    else if s[0] == '-' then -DigitsValue(s[1..])
    else if s[0] == '+' then DigitsValue(s[1..])
    else DigitsValue(s)
  }

  /** On a digit string `atoi` reads the decimal value. */
  lemma AtoiDigits(s: string)
    requires |s| >= 1 && AllDigits(s)
    ensures Atoi(s) == Value(s)
  {
    assert IsDigit(s[0]);
    var k := DigitRun(s);
    assert k == |s|;
    assert s[..k] == s;
  }

  /**
   * `get_number_from_string`: the next token, whether it is an accepted
   * number, and the `atoi` value stored into the `unsigned int`, which is
   * the token's value whenever the token is accepted.
   */
  method GetNumberFromString(line: string) returns (ok: bool, number: nat, rest: string)
    ensures var (token, after) := GetString(line);
            && rest == after
            && (ok <==> Canonical(token) && Value(token) < Bound)
            && number < Bound
            && number == Atoi(token) % Bound
            && (ok ==> number == Value(token))
  {
    var r := GetString(line);
    var token := r.0;
    rest := r.1;
    ok := IsNumberStringCorrect(token);
    number := Atoi(token) % Bound;
    if ok {
      AtoiDigits(token);
      ValueBounds(token);
    }
  }
}
