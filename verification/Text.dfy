/** The string operations that the handlers use, on strings of ASCII characters. */
module Text {

  function LowerChar(c: char): char {
    if 'A' <= c <= 'Z' then (c as int + 32) as char else c
  }

  function UpperChar(c: char): char {
    if 'a' <= c <= 'z' then (c as int - 32) as char else c
  }

  function Lower(s: string): string {
    seq(|s|, i requires 0 <= i < |s| => LowerChar(s[i]))
  }

  function Upper(s: string): string {
    seq(|s|, i requires 0 <= i < |s| => UpperChar(s[i]))
  }

  /** Python's `part in s`. */
  predicate Contains(s: string, part: string) {
    exists i :: 0 <= i <= |s| - |part| && s[i..][..|part|] == part
  }

  // ----- Capitals -----

  /** The same letter, large or small, or the same other character. */
  predicate SameLetter(a: char, b: char) {
    || a == b
    || ('A' <= a <= 'Z' && b as int == a as int + 32)
    || ('A' <= b <= 'Z' && a as int == b as int + 32)
  }

  predicate SameLetters(s: string, t: string) {
    |s| == |t| && forall i :: 0 <= i < |s| ==> SameLetter(s[i], t[i])
  }

  /** Lower and upper case are equal exactly if the strings are, letter by letter, up to capitals. */
  lemma {:induction false} CaseExactly(s: string, t: string)
    ensures Lower(s) == Lower(t) <==> SameLetters(s, t)
    ensures Upper(s) == Upper(t) <==> SameLetters(s, t)
  {
    assert |Lower(s)| == |s| && |Lower(t)| == |t| && |Upper(s)| == |s| && |Upper(t)| == |t|;
    forall a: char, b: char
      ensures LowerChar(a) == LowerChar(b) <==> SameLetter(a, b)
      ensures UpperChar(a) == UpperChar(b) <==> SameLetter(a, b)
    {
      SameLetterExactly(a, b);
    }
    if SameLetters(s, t) {
      forall i | 0 <= i < |s| ensures Lower(s)[i] == Lower(t)[i] && Upper(s)[i] == Upper(t)[i] {
        assert SameLetter(s[i], t[i]);
      }
    }
    if |s| == |t| && !SameLetters(s, t) {
      var i :| 0 <= i < |s| && !SameLetter(s[i], t[i]);
      assert Lower(s)[i] != Lower(t)[i] && Upper(s)[i] != Upper(t)[i];
    }
  }

  lemma {:induction false} SameLetterExactly(a: char, b: char)
    ensures LowerChar(a) == LowerChar(b) <==> SameLetter(a, b)
    ensures UpperChar(a) == UpperChar(b) <==> SameLetter(a, b)
  {
  }

  /** Comparing the upper case with a text in capitals ignores capitals; so does the lower case with
      a text in small letters. */
  lemma {:induction false} UpperExactly(s: string, text: string)
    requires forall i :: 0 <= i < |text| ==> !('a' <= text[i] <= 'z')
    ensures Upper(s) == text <==> SameLetters(s, text)
  {
    assert Upper(text) == text;
    CaseExactly(s, text);
  }

  lemma {:induction false} LowerExactly(s: string, text: string)
    requires forall i :: 0 <= i < |text| ==> !('A' <= text[i] <= 'Z')
    ensures Lower(s) == text <==> SameLetters(s, text)
  {
    assert Lower(text) == text;
    CaseExactly(s, text);
  }

  /** The text stands somewhere in the string. */
  ghost predicate Holds(s: string, text: string) {
    exists a, b :: s == a + text + b
  }

  lemma {:induction false} ContainsExactly(s: string, text: string)
    ensures Contains(s, text) <==> Holds(s, text)
  {
    if i :| 0 <= i <= |s| - |text| && s[i..][..|text|] == text {
      assert s == s[..i] + text + s[i..][|text|..];
    }
    if a, b :| s == a + text + b {
      var i := |a|;
      assert s[i..][..|text|] == text;
    }
  }

  /** The text stands somewhere in the string, in any capitals. */
  ghost predicate Says(s: string, text: string) {
    exists a, word, b :: s == a + word + b && SameLetters(word, text)
  }

  lemma {:induction false} SaysExactly(s: string, text: string)
    requires forall i :: 0 <= i < |text| ==> !('A' <= text[i] <= 'Z')
    ensures Contains(Lower(s), text) <==> Says(s, text)
  {
    hide SameLetters;
    var low, n := Lower(s), |text|;
    if i :| 0 <= i <= |low| - n && low[i..][..n] == text {
      var word := s[i..i + n];
      assert low[i..][..n] == Lower(word);
      LowerExactly(word, text);
      assert s == s[..i] + word + s[i + n..];
    }
    if a, word, b :| s == a + word + b && SameLetters(word, text) {
      LowerExactly(word, text);
      assert low[|a|..][..n] == Lower(word);
    }
  }

  // ----- Parts of a path -----

  /** Python's s.split(sep) for a separator of one character. */
  function Split(s: string, sep: char): (parts: seq<string>)
    ensures |parts| >= 1
    ensures forall i :: 0 <= i < |parts| ==> sep !in parts[i]
  {
    if s == "" then [""]
    else
      var rest := Split(s[1..], sep);
      if s[0] == sep then [""] + rest else [[s[0]] + rest[0]] + rest[1..]
  }

  lemma {:induction false} SplitFirst(a: string, sep: char, b: string)
    requires sep !in a
    ensures Split(a + [sep] + b, sep) == [a] + Split(b, sep)
  {
    var s := a + [sep] + b;
    if a == "" {
      assert s[1..] == b;
    } else {
      SplitFirst(a[1..], sep, b);
      assert s[1..] == a[1..] + [sep] + b;
      assert [a[0]] + a[1..] == a;
      var rest := Split(s[1..], sep);
      assert rest[0] == a[1..];
      assert Split(s, sep) == [[s[0]] + rest[0]] + rest[1..];
    }
  }

  lemma {:induction false} SplitNone(a: string, sep: char)
    requires sep !in a
    ensures Split(a, sep) == [a]
  {
    if a != "" {
      SplitNone(a[1..], sep);
      assert [a[0]] + a[1..] == a;
    }
  }

  // ----- Numerals -----

  /** What int() skips on both sides. */
  predicate IsSpace(c: char) {
    c == ' ' || 9 as char <= c <= 13 as char
  }

  predicate IsDigit(c: char) {
    '0' <= c <= '9'
  }

  /** What int(s) accepts: a decimal numeral with an optional sign, white space around it. */
  predicate IsInt(s: string) {
    IsNumeral(Unsigned(Strip(s)))
  }

  /** What int(s) returns. */
  function IntOf(s: string): int
    requires IsInt(s)
  {
    var t := Strip(s);
    if t[0] == '-' then -Value(Unsigned(t)) else Value(Unsigned(t))
  }

  function Unsigned(t: string): string {
    if t != "" && (t[0] == '-' || t[0] == '+') then t[1..] else t
  }

  /** Digits, with single underscores between them. */
  predicate IsNumeral(t: string) {
    && t != "" && IsDigit(t[0]) && IsDigit(t[|t| - 1])
    && (forall i :: 0 <= i < |t| ==> IsDigit(t[i]) || t[i] == '_')
    && (forall i, j :: 0 <= i < |t| && j == i + 1 < |t| ==> t[i] != '_' || t[j] != '_')
  }

  function Value(t: string): int
    requires forall i :: 0 <= i < |t| ==> IsDigit(t[i]) || t[i] == '_'
  {
    if t == "" then 0
    else
      var before, last := Value(t[..|t| - 1]), t[|t| - 1];
      if last == '_' then before else 10 * before + (last as int - '0' as int)
  }

  function Strip(s: string): string {
    DropTrailing(DropLeading(s))
  }

  function DropLeading(s: string): string {
    if s != "" && IsSpace(s[0]) then DropLeading(s[1..]) else s
  }

  function DropTrailing(s: string): string {
    if s != "" && IsSpace(s[|s| - 1]) then DropTrailing(s[..|s| - 1]) else s
  }

  lemma {:induction false} DropPadding(pad: string, s: string)
    requires forall i :: 0 <= i < |pad| ==> pad[i] == ' '
    ensures DropLeading(pad + s) == DropLeading(s)
  {
    if pad == "" {
      assert pad + s == s;
    } else {
      DropPadding(pad[1..], s);
      assert (pad + s)[1..] == pad[1..] + s;
    }
  }

  /** Blanks before a numeral change neither that it is one nor its value. */
  lemma {:induction false} PaddedInt(pad: string, s: string)
    requires forall i :: 0 <= i < |pad| ==> pad[i] == ' '
    ensures IsInt(pad + s) <==> IsInt(s)
    ensures IsInt(s) ==> IntOf(pad + s) == IntOf(s)
  {
    DropPadding(pad, s);
  }

  /** White space, a sign or none, digits with single underscores between them, and white space make
      an integer. */
  lemma {:induction false} IntBuilt(before: string, sign: string, digits: string, after: string)
    requires forall i :: 0 <= i < |before| ==> before[i] == ' ' || '\t' <= before[i] <= '\r'
    requires forall i :: 0 <= i < |after| ==> after[i] == ' ' || '\t' <= after[i] <= '\r'
    requires sign == "" || sign == "+" || sign == "-"
    requires digits != "" && '0' <= digits[0] <= '9' && '0' <= digits[|digits| - 1] <= '9'
    requires forall i :: 0 <= i < |digits| ==> '0' <= digits[i] <= '9' || digits[i] == '_'
    requires forall i, j :: 0 <= i < |digits| && j == i + 1 < |digits| ==> digits[i] != '_' || digits[j] != '_'
    ensures IsInt(before + sign + digits + after)
    ensures Strip(before + sign + digits + after) == sign + digits
  {
    hide Strip, IsNumeral, Unsigned;
    NumeralBuilt(digits);
    SignOff(sign, digits);
    NoSpaceAtEnds(sign, digits);
    StripBuilt(before, sign + digits, after);
    assert before + sign + digits + after == before + (sign + digits) + after;
  }

  lemma {:induction false} NumeralBuilt(digits: string)
    requires digits != "" && '0' <= digits[0] <= '9' && '0' <= digits[|digits| - 1] <= '9'
    requires forall i :: 0 <= i < |digits| ==> '0' <= digits[i] <= '9' || digits[i] == '_'
    requires forall i, j :: 0 <= i < |digits| && j == i + 1 < |digits| ==> digits[i] != '_' || digits[j] != '_'
    ensures IsNumeral(digits)
  {
  }

  lemma {:induction false} NoSpaceAtEnds(sign: string, digits: string)
    requires sign == "" || sign == "+" || sign == "-"
    requires digits != "" && '0' <= digits[0] <= '9' && '0' <= digits[|digits| - 1] <= '9'
    ensures var body := sign + digits; !IsSpace(body[0]) && !IsSpace(body[|body| - 1])
  {
    var body := sign + digits;
    assert body[0] == if sign == "" then digits[0] else sign[0];
    assert body[|body| - 1] == digits[|digits| - 1];
  }

  lemma {:induction false} StripBuilt(before: string, body: string, after: string)
    requires forall i :: 0 <= i < |before| ==> IsSpace(before[i])
    requires forall i :: 0 <= i < |after| ==> IsSpace(after[i])
    requires body != "" && !IsSpace(body[0]) && !IsSpace(body[|body| - 1])
    ensures Strip(before + body + after) == body
  {
    hide DropLeading, DropTrailing, IsSpace;
    assert before + body + after == before + (body + after);
    DropBefore(before, body + after);
    DropAfter(body, after);
  }

  lemma {:induction false} DropBefore(before: string, s: string)
    requires forall i :: 0 <= i < |before| ==> IsSpace(before[i])
    requires s != "" && !IsSpace(s[0])
    ensures DropLeading(before + s) == s
  {
    if before == "" {
      assert before + s == s;
    } else {
      DropBefore(before[1..], s);
      assert (before + s)[1..] == before[1..] + s;
    }
  }

  lemma {:induction false} DropAfter(s: string, after: string)
    requires forall i :: 0 <= i < |after| ==> IsSpace(after[i])
    requires s != "" && !IsSpace(s[|s| - 1])
    ensures DropTrailing(s + after) == s
  {
    if after == "" {
      assert s + after == s;
    } else {
      DropAfter(s, after[..|after| - 1]);
      assert (s + after)[..|s + after| - 1] == s + after[..|after| - 1];
    }
  }

  lemma {:induction false} DropsLeading(s: string) returns (before: string)
    ensures s == before + DropLeading(s) && forall i :: 0 <= i < |before| ==> IsSpace(before[i])
  {
    before := "";
    if s != "" && IsSpace(s[0]) {
      var rest := DropsLeading(s[1..]);
      before := [s[0]] + rest;
    }
  }

  lemma {:induction false} DropsTrailing(s: string) returns (after: string)
    ensures s == DropTrailing(s) + after && forall i :: 0 <= i < |after| ==> IsSpace(after[i])
  {
    after := "";
    if s != "" && IsSpace(s[|s| - 1]) {
      var rest := DropsTrailing(s[..|s| - 1]);
      after := rest + [s[|s| - 1]];
    }
  }

  /** And every integer is made of them. */
  lemma {:induction false} IntParts(s: string) returns (before: string, sign: string, digits: string, after: string)
    requires IsInt(s)
    ensures s == before + (sign + digits + after)
    ensures forall i :: 0 <= i < |before| ==> before[i] == ' ' || '\t' <= before[i] <= '\r'
    ensures forall i :: 0 <= i < |after| ==> after[i] == ' ' || '\t' <= after[i] <= '\r'
    ensures sign == "" || sign == "+" || sign == "-"
    ensures digits != "" && '0' <= digits[0] <= '9' && '0' <= digits[|digits| - 1] <= '9'
    ensures forall i :: 0 <= i < |digits| ==> '0' <= digits[i] <= '9' || digits[i] == '_'
    ensures forall i, j :: 0 <= i < |digits| && j == i + 1 < |digits| ==> digits[i] != '_' || digits[j] != '_'
  {
    hide DropLeading, DropTrailing, IsNumeral, IsDigit;
    before := DropsLeading(s);
    after := DropsTrailing(DropLeading(s));
    sign, digits := SignAndDigits(Strip(s));
  }

  lemma {:induction false} SignAndDigits(body: string) returns (sign: string, digits: string)
    requires IsNumeral(Unsigned(body))
    ensures body == sign + digits && (sign == "" || sign == "+" || sign == "-")
    ensures digits != "" && '0' <= digits[0] <= '9' && '0' <= digits[|digits| - 1] <= '9'
    ensures forall i :: 0 <= i < |digits| ==> '0' <= digits[i] <= '9' || digits[i] == '_'
    ensures forall i, j :: 0 <= i < |digits| && j == i + 1 < |digits| ==> digits[i] != '_' || digits[j] != '_'
  {
    digits := Unsigned(body);
    if digits == body {
      sign := "";
    } else {
      sign := [body[0]];
    }
  }

  function Decimal(n: nat): string {
    (if n < 10 then "" else Decimal(n / 10)) + [(n % 10 + '0' as int) as char]
  }

  lemma {:induction false} DecimalDigits(n: nat)
    ensures Decimal(n) != "" && forall i :: 0 <= i < |Decimal(n)| ==> '0' <= Decimal(n)[i] <= '9'
  {
    if n >= 10 {
      DecimalDigits(n / 10);
    }
  }

  lemma {:induction false} DecimalValue(n: nat)
    requires forall i :: 0 <= i < |Decimal(n)| ==> IsDigit(Decimal(n)[i]) || Decimal(n)[i] == '_'
    ensures Value(Decimal(n)) == n
  {
    var text := Decimal(n);
    var front := text[..|text| - 1];
    if n < 10 {
      assert front == "";
    } else {
      assert front == Decimal(n / 10);
      DecimalValue(n / 10);
    }
  }

  /** int() reads back what a number is written as, with or without a minus, amid white space. */
  lemma {:induction false} DecimalRoundTrip(n: nat, sign: string, before: string, after: string)
    requires forall i :: 0 <= i < |before| ==> before[i] == ' ' || '\t' <= before[i] <= '\r'
    requires forall i :: 0 <= i < |after| ==> after[i] == ' ' || '\t' <= after[i] <= '\r'
    requires sign == "" || sign == "+" || sign == "-"
    ensures var s := before + sign + Decimal(n) + after;
            IsInt(s) && IntOf(s) == if sign == "-" then 0 - n else n
  {
    hide Strip, IsNumeral, IsSpace, Decimal, Value;
    DecimalDigits(n);
    DecimalValue(n);
    IntBuilt(before, sign, Decimal(n), after);
    SignOff(sign, Decimal(n));
  }

  lemma {:induction false} SignOff(sign: string, digits: string)
    requires sign == "" || sign == "+" || sign == "-"
    requires digits != "" && IsDigit(digits[0])
    ensures Unsigned(sign + digits) == digits && ((sign + digits)[0] == '-' <==> sign == "-")
  {
    if sign == "" {
      assert sign + digits == digits;
    }
  }

  /** s.split(sep, 1): what stands before and after the first separator. */
  function Head(s: string, sep: char): string {
    if s == "" || s[0] == sep then "" else [s[0]] + Head(s[1..], sep)
  }

  lemma {:induction false} HeadIsPrefix(s: string, sep: char)
    requires sep in s
    ensures |Head(s, sep)| < |s| && s[..|Head(s, sep)|] == Head(s, sep)
    ensures s[|Head(s, sep)|] == sep && sep !in Head(s, sep)
  {
    if s[0] != sep {
      HeadIsPrefix(s[1..], sep);
      var h := Head(s[1..], sep);
      assert s[1..][..|h|] == s[1..|h| + 1];
      assert s[..|h| + 1] == [s[0]] + s[1..|h| + 1];
    }
  }
}
