/** Python string operations the bot relies on, restricted to ASCII case mapping:
    `lower`, `upper`, `title`, `capitalize`, `strip`, `replace` of one character,
    `split` on one character, `removesuffix`, the substring test `needle in hay`,
    and `str(n)` for integers. */
module Text {
  import opened Wrappers

  predicate IsUpper(c: char) { 'A' <= c <= 'Z' }

  predicate IsLower(c: char) { 'a' <= c <= 'z' }

  /** Python's "cased" characters, restricted to ASCII letters. */
  predicate IsCased(c: char) { IsUpper(c) || IsLower(c) }

  /** Python's `str.isspace` on ASCII: space, tab through carriage return, and the separators 0x1C-0x1F. */
  predicate IsSpace(c: char) { c == ' ' || 9 <= c as int <= 13 || 28 <= c as int <= 31 }

  function LowerChar(c: char): char { if IsUpper(c) then (c as int + 32) as char else c }

  function UpperChar(c: char): char { if IsLower(c) then (c as int - 32) as char else c }

  /** `s.lower()` */
  function Lower(s: string): string {
    seq(|s|, i requires 0 <= i < |s| => LowerChar(s[i]))
  }

  /** `s.upper()` */
  function Upper(s: string): string {
    seq(|s|, i requires 0 <= i < |s| => UpperChar(s[i]))
  }

  /** `s.title()`: a character is upper-cased when the character before it is not cased, lower-cased otherwise. */
  function Title(s: string): string {
    seq(|s|, i requires 0 <= i < |s| => if i > 0 && IsCased(s[i - 1]) then LowerChar(s[i]) else UpperChar(s[i]))
  }

  /** `s.capitalize()`: first character upper-cased, every other one lower-cased. */
  function Capitalize(s: string): string {
    seq(|s|, i requires 0 <= i < |s| => if i == 0 then UpperChar(s[i]) else LowerChar(s[i]))
  }

  /** `s.replace(from, to)` for one-character arguments. */
  function ReplaceChar(s: string, from: char, to: char): string {
    seq(|s|, i requires 0 <= i < |s| => if s[i] == from then to else s[i])
  }

  predicate OccursAt(hay: string, needle: string, i: int) {
    0 <= i && i + |needle| <= |hay| && hay[i..i + |needle|] == needle
  }

  /** Python's `needle in hay` on strings. */
  predicate Contains(hay: string, needle: string) {
    exists i | 0 <= i <= |hay| - |needle| :: OccursAt(hay, needle, i)
  }

  /** Leading whitespace removed. */
  function TrimStart(s: string): (r: string)
    ensures |r| <= |s| && r == s[|s| - |r|..]
    ensures r == [] || !IsSpace(r[0])
    ensures forall i :: 0 <= i < |s| - |r| ==> IsSpace(s[i])
    decreases |s|
  {
    if |s| > 0 && IsSpace(s[0]) then TrimStart(s[1..]) else s
  }

  /** Trailing whitespace removed. */
  function TrimEnd(s: string): (r: string)
    ensures |r| <= |s| && r == s[..|r|]
    ensures r == [] || !IsSpace(r[|r| - 1])
    ensures forall i :: |r| <= i < |s| ==> IsSpace(s[i])
    decreases |s|
  {
    if |s| > 0 && IsSpace(s[|s| - 1]) then TrimEnd(s[..|s| - 1]) else s
  }

  /** `s.strip()` */
  function Strip(s: string): string {
    TrimEnd(TrimStart(s))
  }

  /** `s.strip().lower()`: the lookup key used by the colour and rule collections. */
  function NormalizeKey(s: string): string {
    Lower(Strip(s))
  }

  function IndexOf(s: string, c: char): (r: Option<nat>)
    ensures r.Some? ==> r.value < |s| && s[r.value] == c && c !in s[..r.value]
    ensures r.None? ==> c !in s
    decreases |s|
  {
    if |s| == 0 then None
    else if s[0] == c then Some(0)
    else match IndexOf(s[1..], c)
      case None => None
      case Some(k) => Some(k + 1)
  }

  /** `sep.join(parts)` */
  function Join(parts: seq<string>, sep: char): string
    decreases |parts|
  {
    if |parts| == 0 then ""
    else if |parts| == 1 then parts[0]
    else parts[0] + [sep] + Join(parts[1..], sep)
  }

  /** `s.split(sep)` with an explicit one-character separator: empty pieces are kept. */
  function Split(s: string, sep: char): (r: seq<string>)
    ensures |r| >= 1
    ensures forall k :: 0 <= k < |r| ==> sep !in r[k]
    ensures Join(r, sep) == s
    decreases |s|
  {
    match IndexOf(s, sep)
    case None => [s]
    case Some(k) =>
      var rest := Split(s[k + 1..], sep);
      assert ([s[..k]] + rest)[1..] == rest;
      assert s == s[..k] + [sep] + s[k + 1..];
      [s[..k]] + rest
  }

  predicate EndsWith(s: string, suffix: string) {
    |suffix| <= |s| && s[|s| - |suffix|..] == suffix
  }

  /** `s.removesuffix(suffix)` */
  function RemoveSuffix(s: string, suffix: string): string {
    if EndsWith(s, suffix) then s[..|s| - |suffix|] else s
  }

  function DigitChar(d: nat): char
    requires d < 10
  {
    ('0' as int + d) as char
  }

  predicate IsDigit(c: char) { '0' <= c <= '9' }

  /** Decimal digits of a natural number, without leading zeros. */
  function Digits(n: nat): (r: string)
    ensures |r| >= 1
    ensures forall i :: 0 <= i < |r| ==> IsDigit(r[i])
    decreases n
  {
    if n < 10 then [DigitChar(n)] else Digits(n / 10) + [DigitChar(n % 10)]
  }

  /** `str(n)` for a Python int. */
  function IntToString(n: int): string {
    if n < 0 then "-" + Digits(-n) else Digits(n)
  }

  function ParseDigits(s: string): int
    requires forall i :: 0 <= i < |s| ==> IsDigit(s[i])
    decreases |s|
  {
    if |s| == 0 then 0 else ParseDigits(s[..|s| - 1]) * 10 + (s[|s| - 1] as int - '0' as int)
  }

  // ---------------------------------------------------------------------------
  // Lemmas

  lemma {:induction false} DigitsRoundTrip(n: nat)
    ensures ParseDigits(Digits(n)) == n
    decreases n
  {
    if n >= 10 {
      DigitsRoundTrip(n / 10);
      var d := Digits(n / 10) + [DigitChar(n % 10)];
      assert d[..|d| - 1] == Digits(n / 10);
    }
  }

  lemma IntToStringSign(n: int)
    ensures |IntToString(n)| >= 1
    ensures IntToString(n)[0] == '-' <==> n < 0
  {
    if n >= 0 {
      assert IsDigit(Digits(n)[0]);
    }
  }

  /** Distinct natural numbers have distinct digit strings. */
  lemma DigitsInjective(x: nat, y: nat)
    requires Digits(x) == Digits(y)
    ensures x == y
  {
    DigitsRoundTrip(x);
    DigitsRoundTrip(y);
  }

  /** Distinct integers have distinct decimal renderings. */
  lemma IntToStringInjective(a: int, b: int)
    requires IntToString(a) == IntToString(b)
    ensures a == b
  {
    IntToStringSign(a);
    IntToStringSign(b);
    if a < 0 {
      var s := IntToString(a);
      assert s == "-" + Digits(-a) && s == "-" + Digits(-b);
      assert Digits(-a) == s[1..] == Digits(-b);
      DigitsInjective(-a, -b);
    } else {
      DigitsInjective(a, b);
    }
  }

  lemma LowerIdempotent(s: string)
    ensures Lower(Lower(s)) == Lower(s)
  {
  }

  lemma LowerChange(c: char)
    ensures IsSpace(LowerChar(c)) == IsSpace(c)
    ensures IsCased(LowerChar(c)) == IsCased(c)
    ensures IsCased(UpperChar(c)) == IsCased(c)
    ensures LowerChar(LowerChar(c)) == LowerChar(c)
    ensures UpperChar(UpperChar(c)) == UpperChar(c)
    ensures LowerChar(UpperChar(c)) == LowerChar(c)
    ensures UpperChar(LowerChar(c)) == UpperChar(c)
  {
  }

  lemma {:induction false} TrimStartLower(s: string)
    ensures TrimStart(Lower(s)) == Lower(TrimStart(s))
    decreases |s|
  {
    if |s| > 0 {
      LowerChange(s[0]);
      if IsSpace(s[0]) {
        assert Lower(s)[1..] == Lower(s[1..]);
        TrimStartLower(s[1..]);
      }
    }
  }

  lemma {:induction false} TrimEndLower(s: string)
    ensures TrimEnd(Lower(s)) == Lower(TrimEnd(s))
    decreases |s|
  {
    if |s| > 0 {
      LowerChange(s[|s| - 1]);
      if IsSpace(s[|s| - 1]) {
        assert Lower(s)[..|s| - 1] == Lower(s[..|s| - 1]);
        TrimEndLower(s[..|s| - 1]);
      }
    }
  }

  /** `strip` and `lower` commute, because lower-casing never creates or removes whitespace. */
  lemma StripLowerCommute(s: string)
    ensures Strip(Lower(s)) == Lower(Strip(s))
  {
    TrimStartLower(s);
    TrimEndLower(TrimStart(s));
  }

  lemma TrimStartNoop(s: string)
    requires s == [] || !IsSpace(s[0])
    ensures TrimStart(s) == s
  {
  }

  lemma TrimEndNoop(s: string)
    requires s == [] || !IsSpace(s[|s| - 1])
    ensures TrimEnd(s) == s
  {
  }

  lemma StripIdempotent(s: string)
    ensures Strip(Strip(s)) == Strip(s)
  {
    var t := TrimStart(s);
    var u := TrimEnd(t);
    assert u == [] || u[0] == t[0];
    TrimStartNoop(u);
    TrimEndNoop(u);
  }

  /** Normalising a key twice is the same as normalising it once. */
  lemma NormalizeKeyIdempotent(s: string)
    ensures NormalizeKey(NormalizeKey(s)) == NormalizeKey(s)
  {
    StripLowerCommute(Strip(s));
    StripIdempotent(s);
    LowerIdempotent(Strip(s));
  }

  /** Every normalised key is already lower-case and stripped. */
  lemma NormalizeKeyShape(s: string)
    ensures Lower(NormalizeKey(s)) == NormalizeKey(s)
    ensures Strip(NormalizeKey(s)) == NormalizeKey(s)
  {
    LowerIdempotent(Strip(s));
    StripLowerCommute(Strip(s));
    StripIdempotent(s);
  }

  /** Title-casing and then lower-casing is plain lower-casing. */
  lemma LowerOfTitle(s: string)
    ensures Lower(Title(s)) == Lower(s)
  {
    forall i | 0 <= i < |s|
      ensures Lower(Title(s))[i] == Lower(s)[i]
    {
      LowerChange(s[i]);
    }
  }

  /** Title-casing ignores the case of its input. */
  lemma TitleOfLower(s: string)
    ensures Title(Lower(s)) == Title(s)
  {
    forall i | 0 <= i < |s|
      ensures Title(Lower(s))[i] == Title(s)[i]
    {
      LowerChange(s[i]);
      if i > 0 {
        LowerChange(s[i - 1]);
      }
    }
  }

  lemma {:induction false} FirstCasedFrom(s: string, j: nat)
    requires j < |s| && IsCased(s[j])
    ensures exists i :: 0 <= i <= j && IsCased(s[i]) && (i == 0 || !IsCased(s[i - 1]))
    decreases j
  {
    if j > 0 && IsCased(s[j - 1]) {
      FirstCasedFrom(s, j - 1);
    }
  }

  /** A title-cased string that holds a letter is never all lower-case:
      its first letter is upper-cased. */
  lemma TitleWithLetterIsNotLower(s: string, j: nat)
    requires j < |s| && IsCased(s[j])
    ensures Lower(Title(s)) != Title(s)
  {
    FirstCasedFrom(s, j);
    var i :| 0 <= i <= j && IsCased(s[i]) && (i == 0 || !IsCased(s[i - 1]));
    assert IsUpper(Title(s)[i]);
    assert Lower(Title(s))[i] != Title(s)[i];
  }

  /** Title-casing is idempotent: case changes never make a character cased or uncased. */
  lemma TitleIdempotent(s: string)
    ensures Title(Title(s)) == Title(s)
  {
    forall i | 0 <= i < |s|
      ensures Title(Title(s))[i] == Title(s)[i]
    {
      LowerChange(s[i]);
      if i > 0 {
        LowerChange(s[i - 1]);
      }
    }
  }

  /** `strip` removes only whitespace: a non-space character survives it. */
  lemma StripKeepsNonSpace(s: string, j: nat)
    requires j < |s| && !IsSpace(s[j])
    ensures s[j] in Strip(s)
  {
    var t := TrimStart(s);
    var u := TrimEnd(t);
    var a := |s| - |t|;
    assert j >= a;
    assert t[j - a] == s[j];
    assert j - a < |u|;
    assert u[j - a] == s[j];
  }

  /** Every string contains itself, so a name always passes a substring test against itself. */
  lemma ContainsSelf(s: string)
    ensures Contains(s, s)
  {
    assert OccursAt(s, s, 0);
  }
}
