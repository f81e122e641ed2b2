/**
 Character-level helpers of the prompt: the `isspace` tokenizer
 `parseOneArg`, the case-insensitive comparison `_stricmp` and the lower-casing
 `_strlwr` (C locale, ASCII letters only), and base-10 `strtol`.

 A command line is a `string`; a token is a half-open index range into it.
 */
module Text {
  import opened Optional

  /** `isspace` in the C locale: space, tab, line feed, vertical tab, form feed, carriage return. */
  predicate IsSpace(c: char) {
    c == ' ' || c == '\t' || c == '\n' || c as int == 11 || c as int == 12 || c == '\r'
  }

  /** The index of the first non-space character at or after `i`, or `|s|`. */
  function SkipSpace(s: string, i: nat): (j: nat)
    requires i <= |s|
    ensures i <= j <= |s|
    ensures forall k | i <= k < j :: IsSpace(s[k])
    ensures j == |s| || !IsSpace(s[j])
    decreases |s| - i
  {
    if i == |s| || !IsSpace(s[i]) then i else SkipSpace(s, i + 1)
  }

  /** The index of the first space character at or after `i`, or `|s|`. */
  function SkipWord(s: string, i: nat): (j: nat)
    requires i <= |s|
    ensures i <= j <= |s|
    ensures forall k | i <= k < j :: !IsSpace(s[k])
    ensures j == |s| || IsSpace(s[j])
    decreases |s| - i
  {
    if i == |s| || IsSpace(s[i]) then i else SkipWord(s, i + 1)
  }

  /** A word reaches at least past every non-space character it starts on. */
  lemma {:induction false} SkipWordPast(s: string, i: nat, j: nat)
    requires i <= j <= |s|
    requires forall k | i <= k < j :: !IsSpace(s[k])
    ensures SkipWord(s, i) >= j
    decreases j - i
  {
    if i < j {
      SkipWordPast(s, i + 1, j);
    }
  }

  /** The token occupying `s[start..stop]`. */
  datatype Token = Token(start: nat, stop: nat)

  /**
   `s[start..stop]` is the first whitespace-delimited word of `s`: only
   whitespace before it, no whitespace in it, and it cannot be extended.
   */
  ghost predicate IsFirstWord(s: string, start: nat, stop: nat) {
    && start < stop <= |s|
    && (forall k | 0 <= k < start :: IsSpace(s[k]))
    && (forall k | start <= k < stop :: !IsSpace(s[k]))
    && (stop == |s| || IsSpace(s[stop]))
  }

  /** `parseOneArg`: the first word of `s`, or none when `s` is all whitespace. */
  function ParseOneArg(s: string): (r: Option<Token>)
    ensures r.None? <==> forall k | 0 <= k < |s| :: IsSpace(s[k])
    ensures r.Some? ==> IsFirstWord(s, r.value.start, r.value.stop)
  {
    var start := SkipSpace(s, 0);
    if start == |s| then None else Some(Token(start, SkipWord(s, start)))
  }

  /** There is only one first word, so `ParseOneArg` is determined by `IsFirstWord`. */
  lemma FirstWordUnique(s: string, a: nat, b: nat, c: nat, d: nat)
    requires IsFirstWord(s, a, b) && IsFirstWord(s, c, d)
    ensures a == c && b == d
  {
    assert !IsSpace(s[a]) && !IsSpace(s[c]);
    assert b < |s| ==> IsSpace(s[b]);
    assert d < |s| ==> IsSpace(s[d]);
  }

  /** The text of a token. */
  function Word(s: string, t: Token): string
    requires t.start <= t.stop <= |s|
  {
    s[t.start..t.stop]
  }

  /**
   What a handler receives after a token: the C code writes a terminator over
   the delimiter and continues one past it, so the remainder starts after the
   delimiter, and is empty when the token ran to the end of the line.
   */
  function Rest(s: string, t: Token): (r: string)
    requires t.stop <= |s|
    ensures t.stop < |s| ==> r == s[t.stop + 1..]
    ensures t.stop == |s| ==> r == []
  {
    if t.stop < |s| then s[t.stop + 1..] else []
  }

  /** `tolower` on one character: only the ASCII capitals change. */
  function ToLower(c: char): (r: char)
    ensures 'A' <= c <= 'Z' ==> r as int == c as int + 32
    ensures !('A' <= c <= 'Z') ==> r == c
  {
    if 'A' <= c <= 'Z' then (c as int + 32) as char else c
  }

  /** `_strlwr`: the string with every ASCII capital lowered. */
  function Lower(s: string): (r: string)
    ensures |r| == |s|
    ensures forall k | 0 <= k < |s| :: r[k] == ToLower(s[k])
  {
    if s == [] then [] else [ToLower(s[0])] + Lower(s[1..])
  }

  /** `_stricmp(a, b) == 0`. */
  predicate EqualsIgnoreCase(a: string, b: string) {
    |a| == |b| && forall k | 0 <= k < |a| :: ToLower(a[k]) == ToLower(b[k])
  }

  /** Case-insensitive equality is equality after lower-casing both sides. */
  lemma EqualsIgnoreCaseMeansLowerEqual(a: string, b: string)
    ensures EqualsIgnoreCase(a, b) <==> Lower(a) == Lower(b)
  {
    if Lower(a) == Lower(b) {
      assert |a| == |Lower(a)| == |Lower(b)| == |b|;
      forall k | 0 <= k < |a| ensures ToLower(a[k]) == ToLower(b[k]) {
        assert Lower(a)[k] == Lower(b)[k];
      }
    }
  }

  /** Lower-casing is idempotent: a canonical key stays canonical. */
  lemma {:induction false} LowerIdempotent(s: string)
    ensures Lower(Lower(s)) == Lower(s)
  {
    forall k | 0 <= k < |s| ensures Lower(Lower(s))[k] == Lower(s)[k] {
      var c := s[k];
      assert Lower(s)[k] == ToLower(c);
    }
  }

  predicate IsDigit(c: char) {
    '0' <= c <= '9'
  }

  /** Length of the run of decimal digits at the front of `s`. */
  function DigitRun(s: string): (n: nat)
    ensures n <= |s|
    ensures forall k | 0 <= k < n :: IsDigit(s[k])
    ensures n == |s| || !IsDigit(s[n])
  {
    if s == [] || !IsDigit(s[0]) then 0 else 1 + DigitRun(s[1..])
  }

  function DigitValue(c: char): nat
    requires IsDigit(c)
  {
    c as int - '0' as int
  }

  /** The number a string of decimal digits denotes, most significant first. */
  function DigitsValue(ds: string): nat
    requires forall k | 0 <= k < |ds| :: IsDigit(ds[k])
  {
    if ds == [] then 0
    else DigitsValue(ds[..|ds| - 1]) * 10 + DigitValue(ds[|ds| - 1])
  }

  /** The value of the digit run at the front of `u` (0 when there is none). */
  function ReadDigits(u: string): nat {
    DigitsValue(u[..DigitRun(u)])
  }

  /** An optional sign followed by a digit run. */
  function ReadSigned(t: string): int {
    if |t| > 0 && t[0] == '-' then -(ReadDigits(t[1..]) as int)
    else if |t| > 0 && t[0] == '+' then ReadDigits(t[1..])
    else ReadDigits(t)
  }

  /** What `strtol` reads: `s` from its first non-space character on. */
  function AfterSpace(s: string): string {
    s[SkipSpace(s, 0)..]
  }

  /**
   `strtol(s, NULL, 10)` for values that fit: leading whitespace, an optional
   sign, then the longest run of digits; 0 when there are no digits.
   */
  function StrToL(s: string): (r: int)
    // negative only after a minus sign
    ensures r < 0 ==> |AfterSpace(s)| > 0 && AfterSpace(s)[0] == '-'
  {
    ReadSigned(AfterSpace(s))
  }

  /**
   What `strtol` reads: after the whitespace, an optional sign and the
   longest run of digits, negated after a minus; 0 when no digit follows.
   */
  lemma StrToLReads(s: string)
    ensures var t := AfterSpace(s);
      var signed := |t| > 0 && (t[0] == '-' || t[0] == '+');
      var u := if signed then t[1..] else t;
      && (DigitRun(u) == 0 ==> StrToL(s) == 0)
      && (|t| > 0 && t[0] == '-' ==> StrToL(s) == -(DigitsValue(u[..DigitRun(u)]) as int))
      && (!(|t| > 0 && t[0] == '-') ==> StrToL(s) == DigitsValue(u[..DigitRun(u)]))
  {
  }

  /** The first non-space position at or after `i` is unique. */
  lemma {:induction false} SkipSpaceUnique(s: string, i: nat, j: nat)
    requires i <= j <= |s|
    requires forall k | i <= k < j :: IsSpace(s[k])
    requires j == |s| || !IsSpace(s[j])
    ensures SkipSpace(s, i) == j
    decreases j - i
  {
    if i < j {
      SkipSpaceUnique(s, i + 1, j);
    }
  }

  /** Whitespace put in front only moves the first non-space position along. */
  lemma SkipSpacePrefix(ws: string, s: string)
    requires forall k | 0 <= k < |ws| :: IsSpace(ws[k])
    ensures AfterSpace(ws + s) == AfterSpace(s)
  {
    var j := SkipSpace(s, 0);
    var w := ws + s;
    assert forall k | 0 <= k < |ws| + j :: IsSpace(w[k]) by {
      forall k | 0 <= k < |ws| + j ensures IsSpace(w[k]) {
        if k >= |ws| {
          assert w[k] == s[k - |ws|];
        }
      }
    }
    assert |ws| + j == |w| || w[|ws| + j] == s[j];
    SkipSpaceUnique(w, 0, |ws| + j);
    assert w[|ws| + j..] == s[j..];
  }

  /** `strtol` skips any leading whitespace. */
  lemma StrToLLeadingSpace(ws: string, s: string)
    requires forall k | 0 <= k < |ws| :: IsSpace(ws[k])
    ensures StrToL(ws + s) == StrToL(s)
  {
    SkipSpacePrefix(ws, s);
  }

  /** Decimal digits of a natural number, without leading zeros. */
  function ShowNat(n: nat): (r: string)
    ensures |r| > 0
    ensures forall k | 0 <= k < |r| :: IsDigit(r[k])
  {
    if n < 10 then [('0' as int + n) as char]
    else ShowNat(n / 10) + [('0' as int + n % 10) as char]
  }

  /** Decimal text of an integer, with a leading `-` when negative. */
  function ShowInt(n: int): string {
    if n < 0 then "-" + ShowNat(-n) else ShowNat(n)
  }

  lemma {:induction false} DigitsValueShowNat(n: nat)
    ensures DigitsValue(ShowNat(n)) == n
  {
    if n >= 10 {
      DigitsValueShowNat(n / 10);
      var r := ShowNat(n);
      assert r[..|r| - 1] == ShowNat(n / 10);
    }
  }

  lemma {:induction false} DigitRunAll(ds: string, rest: string)
    requires forall k | 0 <= k < |ds| :: IsDigit(ds[k])
    requires rest == [] || !IsDigit(rest[0])
    ensures DigitRun(ds + rest) == |ds|
  {
    if ds != [] {
      assert (ds + rest)[1..] == ds[1..] + rest;
      DigitRunAll(ds[1..], rest);
    }
  }

  /** A run of digits followed by a non-digit reads as the digits' value. */
  lemma ReadDigitsPrefix(ds: string, rest: string)
    requires forall k | 0 <= k < |ds| :: IsDigit(ds[k])
    requires rest == [] || !IsDigit(rest[0])
    ensures ReadDigits(ds + rest) == DigitsValue(ds)
  {
    DigitRunAll(ds, rest);
    assert (ds + rest)[..|ds|] == ds;
  }

  /** Text that does not start with whitespace is read from its first character. */
  lemma StrToLNoSpace(s: string)
    requires |s| > 0 && !IsSpace(s[0])
    ensures StrToL(s) == ReadSigned(s)
  {
    assert SkipSpace(s, 0) == 0;
    assert AfterSpace(s) == s[0..] == s;
  }

  /** Digits followed by a non-digit read back as their value. */
  lemma ReadUnsigned(ds: string, rest: string)
    requires |ds| > 0 && forall k | 0 <= k < |ds| :: IsDigit(ds[k])
    requires rest == [] || !IsDigit(rest[0])
    ensures StrToL(ds + rest) == DigitsValue(ds)
  {
    var s := ds + rest;
    ReadDigitsPrefix(ds, rest);
    assert s[0] == ds[0];
    assert ReadSigned(s) == ReadDigits(s);
    StrToLNoSpace(s);
  }

  /** A minus sign, digits, then a non-digit read back as the negated value. */
  lemma ReadNegative(ds: string, rest: string)
    requires |ds| > 0 && forall k | 0 <= k < |ds| :: IsDigit(ds[k])
    requires rest == [] || !IsDigit(rest[0])
    ensures StrToL("-" + ds + rest) == -(DigitsValue(ds) as int)
  {
    var t := ds + rest;
    var s := "-" + t;
    assert s == "-" + ds + rest;
    ReadDigitsPrefix(ds, rest);
    assert s[0] == '-' && s[1..] == t;
    StrToLNoSpace(s);
  }

  /**
   `strtol` reads back what `ShowInt` writes, also when the number is followed
   by something that is not a digit (the source reads "12abc" as 12).
   */
  lemma StrToLShowInt(n: int, rest: string)
    requires rest == [] || !IsDigit(rest[0])
    ensures StrToL(ShowInt(n) + rest) == n
  {
    if n < 0 {
      DigitsValueShowNat(-n);
      ReadNegative(ShowNat(-n), rest);
    } else {
      DigitsValueShowNat(n);
      ReadUnsigned(ShowNat(n), rest);
    }
  }
}
