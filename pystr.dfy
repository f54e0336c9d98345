/**
  The few Python `str` builtins the node relies on to read its console
  and its peer addresses: `strip()`, `lower()`, `split(sep)`,
  `split(sep, maxsplit)` and `int(text)`.
 */
module PyStr {

  import opened Wrappers

  /** Python's `str.isspace()` for one character: the characters `strip()` removes. */
  predicate IsSpace(c: char) {
    || c == ' '
    || ('\t' <= c <= '\r')
    || ('\U{1C}' <= c <= '\U{1F}')
    || c == '\U{85}' || c == '\U{A0}' || c == '\U{1680}'
    || ('\U{2000}' <= c <= '\U{200A}')
    || c == '\U{2028}' || c == '\U{2029}' || c == '\U{202F}' || c == '\U{205F}' || c == '\U{3000}'
  }

  predicate AllSpace(s: string) {
    forall i :: 0 <= i < |s| ==> IsSpace(s[i])
  }

  /** `s.lstrip()`: `s` without its leading whitespace. */
  function StripLeft(s: string): (r: string)
    ensures |r| <= |s|
    ensures r == [] || !IsSpace(r[0])
    ensures r == [] <==> AllSpace(s)
  {
    if s != [] && IsSpace(s[0]) then StripLeft(s[1..]) else s
  }

  /** `s.rstrip()`: `s` without its trailing whitespace. */
  function StripRight(s: string): (r: string)
    ensures |r| <= |s|
    ensures r == [] || (r[0] == s[0] && !IsSpace(r[|r| - 1]))
    ensures r == [] <==> AllSpace(s)
  {
    if s != [] && IsSpace(s[|s| - 1]) then StripRight(s[..|s| - 1]) else s
  }

  /** `s.lstrip()` is a suffix of `s`, and what it drops is whitespace. */
  lemma {:induction false} StripLeftSuffix(s: string)
    ensures StripLeft(s) == s[|s| - |StripLeft(s)|..]
    ensures forall i :: 0 <= i < |s| - |StripLeft(s)| ==> IsSpace(s[i])
  {
    if s != [] && IsSpace(s[0]) {
      StripLeftSuffix(s[1..]);
      assert s[1..][|s| - 1 - |StripLeft(s)|..] == s[|s| - |StripLeft(s)|..];
      assert forall i :: 1 <= i < |s| - |StripLeft(s)| ==> s[i] == s[1..][i - 1];
    }
  }

  /** `s.rstrip()` is a prefix of `s`, and what it drops is whitespace. */
  lemma {:induction false} StripRightPrefix(s: string)
    ensures StripRight(s) == s[..|StripRight(s)|]
    ensures forall i :: |StripRight(s)| <= i < |s| ==> IsSpace(s[i])
  {
    if s != [] && IsSpace(s[|s| - 1]) {
      StripRightPrefix(s[..|s| - 1]);
      assert s[..|s| - 1][..|StripRight(s)|] == s[..|StripRight(s)|];
      assert forall i :: |StripRight(s)| <= i < |s| - 1 ==> s[i] == s[..|s| - 1][i];
    }
  }

  /** `s.strip()`. */
  function Strip(s: string): (r: string)
    ensures r == [] <==> AllSpace(s)
    ensures r == [] || (!IsSpace(r[0]) && !IsSpace(r[|r| - 1]))
  {
    var l := StripLeft(s);
    var r := StripRight(l);
    r
  }

  /** A string with no whitespace at either end is its own `strip()`. */
  lemma StripUnchanged(s: string)
    requires s == [] || (!IsSpace(s[0]) && !IsSpace(s[|s| - 1]))
    ensures Strip(s) == s
  {
  }

  lemma {:induction false} StripLeftLeadingSpace(w: string, s: string)
    requires AllSpace(w)
    ensures StripLeft(w + s) == StripLeft(s)
  {
    if w != [] {
      assert (w + s)[0] == w[0] && IsSpace(w[0]);
      assert (w + s)[1..] == w[1..] + s;
      assert AllSpace(w[1..]) by {
        assert forall j :: 0 <= j < |w| - 1 ==> w[1..][j] == w[j + 1];
      }
      StripLeftLeadingSpace(w[1..], s);
    } else {
      assert w + s == s;
    }
  }

  /** Whitespace in front of a line does not change what `strip()` makes of it. */
  lemma StripLeadingSpace(w: string, s: string)
    requires AllSpace(w)
    ensures Strip(w + s) == Strip(s)
  {
    StripLeftLeadingSpace(w, s);
  }

  /** Every character of `s` is whitespace or a character of `s.strip()`. */
  lemma StripKeepsOrSpace(s: string, i: nat)
    requires i < |s| && !IsSpace(s[i])
    ensures s[i] in Strip(s)
  {
    var l := StripLeft(s);
    var k := |s| - |l|;
    StripLeftSuffix(s);
    assert i >= k;
    assert l[i - k] == s[i];
    var r := StripRight(l);
    StripRightPrefix(l);
    assert r[i - k] == s[i];
  }

  /** Text that starts with a non-space character is its own `lstrip()`. */
  lemma StripLeftUnchanged(s: string)
    requires s == [] || !IsSpace(s[0])
    ensures StripLeft(s) == s
  {
  }

  /** Trailing whitespace is only removed from the part after a non-space character. */
  lemma {:induction false} StripRightAppend(a: string, b: string)
    requires a != [] && !IsSpace(a[|a| - 1])
    ensures StripRight(a + b) == a + StripRight(b)
  {
    if b == [] {
      assert a + b == a;
    } else {
      assert (a + b)[|a + b| - 1] == b[|b| - 1];
      assert (a + b)[..|a + b| - 1] == a + b[..|b| - 1];
      if IsSpace(b[|b| - 1]) {
        StripRightAppend(a, b[..|b| - 1]);
      }
    }
  }

  /** Python's `c.lower()` on ASCII letters; every other character is left as it is. */
  function LowerChar(c: char): (r: char)
    ensures !('A' <= r <= 'Z')
    ensures r != c <==> 'A' <= c <= 'Z'
    ensures 'A' <= c <= 'Z' ==> 'a' <= r <= 'z'
  {
    if 'A' <= c <= 'Z' then (c as int + 32) as char else c
  }

  /** `s.lower()`. */
  function Lower(s: string): (r: string)
    ensures |r| == |s|
  {
    seq(|s|, i requires 0 <= i < |s| => LowerChar(s[i]))
  }

  /** `sep.join(parts)` for a one-character separator. */
  function Join(parts: seq<string>, sep: char): string {
    if |parts| == 0 then []
    else if |parts| == 1 then parts[0]
    else parts[0] + [sep] + Join(parts[1..], sep)
  }

  /** An empty first piece contributes only its separator. */
  lemma JoinEmptyFirst(parts: seq<string>, sep: char)
    requires |parts| >= 1
    ensures Join([[]] + parts, sep) == [sep] + Join(parts, sep)
  {
    assert ([[]] + parts)[1..] == parts;
  }

  /** A character put in front of the first piece goes in front of the joined text. */
  lemma JoinPrepend(c: char, parts: seq<string>, sep: char)
    requires |parts| >= 1
    ensures Join([[c] + parts[0]] + parts[1..], sep) == [c] + Join(parts, sep)
  {
    var q := [[c] + parts[0]] + parts[1..];
    assert q[1..] == parts[1..];
  }

  /** The number of occurrences of `c` in `s`. */
  function Count(s: string, c: char): nat {
    if s == [] then 0 else Count(s[..|s| - 1], c) + (if s[|s| - 1] == c then 1 else 0)
  }

  lemma {:induction false} CountAppend(a: string, b: string, c: char)
    ensures Count(a + b, c) == Count(a, c) + Count(b, c)
  {
    if b != [] {
      assert (a + b)[..|a + b| - 1] == a + b[..|b| - 1];
      CountAppend(a, b[..|b| - 1], c);
    } else {
      assert a + b == a;
    }
  }

  /**
    `s.split(sep)`: the pieces between the occurrences of `sep`. The
    pieces hold no separator; joined back on it they give `s` again
    (SplitJoinsBack), which determines them (SplitJoin).
   */
  function Split(s: string, sep: char): (r: seq<string>)
    ensures |r| >= 1
    ensures forall i :: 0 <= i < |r| ==> sep !in r[i]
  {
    if s == [] then [[]]
    else
      var rest := Split(s[1..], sep);
      if s[0] == sep then [[]] + rest
      else [[s[0]] + rest[0]] + rest[1..]
  }

  lemma {:induction false} SplitJoinsBack(s: string, sep: char)
    ensures Join(Split(s, sep), sep) == s
  {
    if s != [] {
      var rest := Split(s[1..], sep);
      SplitJoinsBack(s[1..], sep);
      assert s == [s[0]] + s[1..];
      if s[0] == sep {
        JoinEmptyFirst(rest, sep);
      } else {
        JoinPrepend(s[0], rest, sep);
      }
    }
  }

  /**
    `s.split(sep, n)`: at most `n` leftmost splits. All pieces but the
    last are free of the separator; the last may keep separators only
    when all `n` splits were made. Joined back they give `s`
    (SplitAtMostJoinsBack).
   */
  function SplitAtMost(s: string, sep: char, n: nat): (r: seq<string>)
    ensures 1 <= |r| <= n + 1
    ensures forall i :: 0 <= i < |r| - 1 ==> sep !in r[i]
    ensures |r| <= n ==> sep !in r[|r| - 1]
  {
    if n == 0 || s == [] then [s]
    else if s[0] == sep then [[]] + SplitAtMost(s[1..], sep, n - 1)
    else
      var rest := SplitAtMost(s[1..], sep, n);
      [[s[0]] + rest[0]] + rest[1..]
  }

  lemma {:induction false} SplitAtMostJoinsBack(s: string, sep: char, n: nat)
    ensures Join(SplitAtMost(s, sep, n), sep) == s
  {
    if n > 0 && s != [] {
      assert s == [s[0]] + s[1..];
      if s[0] == sep {
        SplitAtMostJoinsBack(s[1..], sep, n - 1);
        JoinEmptyFirst(SplitAtMost(s[1..], sep, n - 1), sep);
      } else {
        SplitAtMostJoinsBack(s[1..], sep, n);
        JoinPrepend(s[0], SplitAtMost(s[1..], sep, n), sep);
      }
    }
  }

  lemma {:induction false} CountPositive(s: string, c: char)
    requires c in s
    ensures Count(s, c) >= 1
  {
    if s[|s| - 1] != c {
      assert s == s[..|s| - 1] + [s[|s| - 1]];
      CountPositive(s[..|s| - 1], c);
    }
  }

  /** There is one piece more than there are separators. */
  lemma {:induction false} SplitCount(s: string, sep: char)
    ensures |Split(s, sep)| == Count(s, sep) + 1
  {
    if s != [] {
      SplitCount(s[1..], sep);
      assert s == [s[0]] + s[1..];
      CountAppend([s[0]], s[1..], sep);
    }
  }

  /** Two pieces joined on the separator, neither holding it, split back into those two. */
  lemma SplitTwo(a: string, sep: char, b: string)
    requires sep !in a && sep !in b
    ensures Split(a + [sep] + b, sep) == [a, b]
  {
    SplitCons(a, sep, b);
    SplitNoSep(b, sep);
  }

  lemma JoinTwo(parts: seq<string>, sep: char)
    requires |parts| == 2
    ensures Join(parts, sep) == parts[0] + [sep] + parts[1]
  {
    assert Join(parts[1..], sep) == parts[1];
  }

  /** A string without the separator splits into itself alone. */
  lemma {:induction false} SplitNoSep(s: string, sep: char)
    requires sep !in s
    ensures Split(s, sep) == [s]
  {
    if s != [] {
      SplitNoSep(s[1..], sep);
      assert s == [s[0]] + s[1..];
    }
  }

  /** Splitting `a + sep + b` with `a` free of `sep` gives `a` first, then the pieces of `b`. */
  lemma {:induction false} SplitCons(a: string, sep: char, b: string)
    requires sep !in a
    ensures Split(a + [sep] + b, sep) == [a] + Split(b, sep)
  {
    if a != [] {
      assert (a + [sep] + b)[1..] == a[1..] + [sep] + b;
      SplitCons(a[1..], sep, b);
      var rest := Split(a[1..] + [sep] + b, sep);
      assert rest[0] == a[1..] && rest[1..] == Split(b, sep);
      assert [a[0]] + a[1..] == a;
    } else {
      assert (a + [sep] + b)[1..] == b;
    }
  }

  /** Splitting undoes joining pieces that hold no separator. */
  lemma {:induction false} SplitJoin(parts: seq<string>, sep: char)
    requires |parts| >= 1
    requires forall i :: 0 <= i < |parts| ==> sep !in parts[i]
    ensures Split(Join(parts, sep), sep) == parts
  {
    if |parts| == 1 {
      SplitNoSep(parts[0], sep);
    } else {
      SplitJoin(parts[1..], sep);
      SplitCons(parts[0], sep, Join(parts[1..], sep));
    }
  }

  lemma {:induction false} SplitAtMostNoSep(s: string, sep: char, n: nat)
    requires sep !in s
    ensures SplitAtMost(s, sep, n) == [s]
  {
    if n > 0 && s != [] {
      SplitAtMostNoSep(s[1..], sep, n);
      assert s == [s[0]] + s[1..];
    }
  }

  /** With a split to spare, `a + sep + b` (no `sep` in `a`) splits off `a` and spends one split on it. */
  lemma {:induction false} SplitAtMostCons(a: string, sep: char, b: string, n: nat)
    requires sep !in a && n >= 1
    ensures SplitAtMost(a + [sep] + b, sep, n) == [a] + SplitAtMost(b, sep, n - 1)
  {
    if a != [] {
      var s := a + [sep] + b;
      assert s[0] == a[0] && s[1..] == a[1..] + [sep] + b;
      SplitAtMostCons(a[1..], sep, b, n);
      var rest := SplitAtMost(s[1..], sep, n);
      assert SplitAtMost(s, sep, n) == [[a[0]] + rest[0]] + rest[1..];
      assert [a[0]] + a[1..] == a;
    } else {
      assert (a + [sep] + b)[1..] == b;
    }
  }

  predicate IsDigit(c: char) {
    '0' <= c <= '9'
  }

  /** Decimal digits, with single underscores allowed between two digits, as `int()` accepts them. */
  predicate IsNumeral(t: string) {
    && |t| >= 1
    && IsDigit(t[0])
    && IsDigit(t[|t| - 1])
    && forall i :: 0 <= i < |t| ==> NumeralCharAt(t, i)
  }

  /** Position `i` of `t` holds a digit, or an underscore with a digit on each side. */
  predicate NumeralCharAt(t: string, i: nat)
    requires i < |t|
  {
    IsDigit(t[i]) || (t[i] == '_' && 0 < i < |t| - 1 && IsDigit(t[i - 1]) && IsDigit(t[i + 1]))
  }

  function DigitValue(c: char): nat
    requires IsDigit(c)
  {
    c as int - '0' as int
  }

  function DigitChar(d: nat): (c: char)
    requires d < 10
    ensures IsDigit(c) && DigitValue(c) == d
  {
    ('0' as int + d) as char
  }

  function DropUnderscores(t: string): (r: string)
    ensures forall i :: 0 <= i < |r| ==> r[i] != '_'
  {
    if t == [] then []
    else if t[|t| - 1] == '_' then DropUnderscores(t[..|t| - 1])
    else DropUnderscores(t[..|t| - 1]) + [t[|t| - 1]]
  }

  /** The number a string of decimal digits denotes. */
  function DigitsValue(d: string): nat
    requires forall i :: 0 <= i < |d| ==> IsDigit(d[i])
  {
    if d == [] then 0 else DigitsValue(d[..|d| - 1]) * 10 + DigitValue(d[|d| - 1])
  }

  lemma {:induction false} DropUnderscoresDigits(t: string)
    requires forall i :: 0 <= i < |t| ==> IsDigit(t[i]) || t[i] == '_'
    ensures forall i :: 0 <= i < |DropUnderscores(t)| ==> IsDigit(DropUnderscores(t)[i])
  {
    if t != [] {
      DropUnderscoresDigits(t[..|t| - 1]);
    }
  }

  lemma NumeralChars(t: string)
    requires IsNumeral(t)
    ensures forall i :: 0 <= i < |t| ==> IsDigit(t[i]) || t[i] == '_'
  {
    forall i | 0 <= i < |t| ensures IsDigit(t[i]) || t[i] == '_' {
      assert NumeralCharAt(t, i);
    }
  }

  function NumeralValue(t: string): nat
    requires IsNumeral(t)
  {
    NumeralChars(t);
    DropUnderscoresDigits(t);
    DigitsValue(DropUnderscores(t))
  }

  /**
    The four ASCII information separators U+001C to U+001F. `strip()`
    removes them, but `int()` only skips the whitespace it recognises
    byte by byte, which leaves them out, and so rejects them.
   */
  predicate IsInfoSeparator(c: char) {
    '\U{1C}' <= c <= '\U{1F}'
  }

  /** A character `int()` can accept somewhere in its argument. */
  predicate IsIntTextChar(c: char) {
    IsDigit(c) || c == '_' || c == '+' || c == '-' || (IsSpace(c) && !IsInfoSeparator(c))
  }

  /**
    The most digits `int()` converts from decimal text: the default of
    `sys.int_info.default_max_str_digits` since Python 3.11. Longer
    numerals raise `ValueError`; underscores do not count, leading zeros do.
   */
  const MaxStrDigits := 4300

  /**
    Text without information separators, whose stripped form holds only
    characters `int()` can accept, holds only such characters itself.
   */
  lemma ParseIntChars(text: string)
    requires forall i :: 0 <= i < |text| ==> !IsInfoSeparator(text[i])
    requires var t := Strip(text);
      || IsNumeral(t)
      || (t != [] && (t[0] == '+' || t[0] == '-') && IsNumeral(t[1..]))
    ensures forall i :: 0 <= i < |text| ==> IsIntTextChar(text[i])
  {
    var t := Strip(text);
    forall j | 0 <= j < |t| ensures IsIntTextChar(t[j]) {
      if IsNumeral(t) {
        NumeralChars(t);
      } else {
        NumeralChars(t[1..]);
        if j > 0 { assert t[j] == t[1..][j - 1]; }
      }
    }
    forall i | 0 <= i < |text| ensures IsIntTextChar(text[i]) {
      if !IsSpace(text[i]) { StripKeepsOrSpace(text, i); }
    }
  }

  /**
    Python's `int(text)` on ASCII decimal text: surrounding whitespace
    other than the information separators, then an optional sign, then a
    numeral of at most `MaxStrDigits` digits. `None` stands for the
    `ValueError` that `int()` raises on anything else.
   */
  function ParseInt(text: string): (r: Option<int>)
    ensures r.Some? ==> forall i :: 0 <= i < |text| ==> IsIntTextChar(text[i])
  {
    if exists i :: 0 <= i < |text| && IsInfoSeparator(text[i]) then None
    else
      var r := ParseSignedNumeral(Strip(text));
      if r.Some? then
        ParseIntChars(text);
        r
      else r
  }

  /** `int()` on text already stripped: an optional sign, then a numeral within the digit limit. */
  function ParseSignedNumeral(t: string): (r: Option<int>)
    ensures r.Some? ==> IsNumeral(t) || (t != [] && (t[0] == '+' || t[0] == '-') && IsNumeral(t[1..]))
  {
    if t != [] && (t[0] == '+' || t[0] == '-') then
      if IsNumeral(t[1..]) && |DropUnderscores(t[1..])| <= MaxStrDigits then
        var v: int := NumeralValue(t[1..]);
        Some(if t[0] == '-' then -v else v)
      else None
    else if IsNumeral(t) && |DropUnderscores(t)| <= MaxStrDigits then Some(NumeralValue(t))
    else None
  }

  /** Python's `str(n)` for a natural number. */
  function NatToString(n: nat): (r: string)
    ensures r != [] && forall i :: 0 <= i < |r| ==> IsDigit(r[i])
  {
    if n < 10 then [DigitChar(n)] else NatToString(n / 10) + [DigitChar(n % 10)]
  }

  lemma {:induction false} DigitsValueOfNatToString(n: nat)
    ensures DigitsValue(NatToString(n)) == n
  {
    if n >= 10 {
      var s := NatToString(n);
      assert s[..|s| - 1] == NatToString(n / 10);
      DigitsValueOfNatToString(n / 10);
    }
  }

  lemma {:induction false} DropUnderscoresNone(t: string)
    requires forall i :: 0 <= i < |t| ==> t[i] != '_'
    ensures DropUnderscores(t) == t
  {
    if t != [] {
      DropUnderscoresNone(t[..|t| - 1]);
    }
  }

  /** `int(str(n)) == n`: the decimal text of a natural number within the digit limit parses back to it. */
  lemma ParseIntNatToString(n: nat)
    requires |NatToString(n)| <= MaxStrDigits
    ensures ParseInt(NatToString(n)) == Some(n)
  {
    var s := NatToString(n);
    assert forall i :: 0 <= i < |s| ==> NumeralCharAt(s, i);
    DropUnderscoresNone(s);
    ParseIntUnsigned(s);
    DigitsValueOfNatToString(n);
  }

  /** An unsigned numeral with nothing around it is what `int()` reads it as. */
  lemma ParseIntUnsigned(t: string)
    requires IsNumeral(t) && |DropUnderscores(t)| <= MaxStrDigits
    ensures ParseInt(t) == Some(NumeralValue(t))
  {
    NumeralChars(t);
    assert !exists i :: 0 <= i < |t| && IsInfoSeparator(t[i]);
    StripUnchanged(t);
  }
}
