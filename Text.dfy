/** The handful of Python string operations the program relies on:
    `str.isspace`/`str.strip`, `str.split` on one separator character
    (with `join` as its inverse), `str(int)`, `str.isdigit` and `int(str)`. */
module Text {

  datatype Option<T> = None | Some(value: T)

  /** Python's `str.isspace` for a single character. */
  predicate IsWhitespace(c: char) {
    || c == ' '
    || ('\U{9}' <= c <= '\U{d}')        // \t \n \v \f \r
    || ('\U{1c}' <= c <= '\U{1f}')      // file, group, record, unit separators
    || c == '\U{85}' || c == '\U{a0}' || c == '\U{1680}'
    || ('\U{2000}' <= c <= '\U{200a}')
    || c == '\U{2028}' || c == '\U{2029}' || c == '\U{202f}' || c == '\U{205f}' || c == '\U{3000}'
  }

  predicate AllWhitespace(s: string) {
    forall i :: 0 <= i < |s| ==> IsWhitespace(s[i])
  }

  /** Number of occurrences of `c` in `s`. */
  function Count(s: string, c: char): (n: nat)
    ensures n <= |s|
    ensures n == 0 <==> c !in s
  {
    if s == [] then 0 else (if s[0] == c then 1 else 0) + Count(s[1..], c)
  }

  lemma {:induction false} CountAppend(a: string, b: string, c: char)
    ensures Count(a + b, c) == Count(a, c) + Count(b, c)
  {
    if a != [] {
      assert (a + b)[0] == a[0];
      assert (a + b)[1..] == a[1..] + b;
      CountAppend(a[1..], b, c);
    } else {
      assert a + b == b;
    }
  }

  // ---------------------------------------------------------------------
  // str.strip()

  /** `str.lstrip()`. */
  function TrimStart(s: string): (r: string)
    ensures |r| <= |s|
  {
    if s != [] && IsWhitespace(s[0]) then TrimStart(s[1..]) else s
  }

  /** `str.rstrip()`. */
  function TrimEnd(s: string): (r: string)
    ensures |r| <= |s|
  {
    if s != [] && IsWhitespace(s[|s| - 1]) then TrimEnd(s[..|s| - 1]) else s
  }

  /** `str.strip()`. */
  function Strip(s: string): string {
    TrimEnd(TrimStart(s))
  }

  /** Neither end of `s` is whitespace: what `strip` leaves. */
  predicate IsStripped(s: string) {
    s == [] || (!IsWhitespace(s[0]) && !IsWhitespace(s[|s| - 1]))
  }

  /** `lstrip` removes a whitespace-only prefix and stops at the first
      character that is not whitespace. */
  lemma {:induction false} TrimStartSpec(s: string)
    ensures var r := TrimStart(s);
      && |r| <= |s| && r == s[|s| - |r|..]
      && AllWhitespace(s[..|s| - |r|])
      && (r == [] || !IsWhitespace(r[0]))
  {
    if s != [] && IsWhitespace(s[0]) {
      var r := TrimStart(s[1..]);
      TrimStartSpec(s[1..]);
      assert s[..|s| - |r|] == [s[0]] + s[1..][..|s| - 1 - |r|];
    }
  }

  /** `rstrip` removes a whitespace-only suffix and stops at the last
      character that is not whitespace. */
  lemma {:induction false} TrimEndSpec(s: string)
    ensures var r := TrimEnd(s);
      && |r| <= |s| && r == s[..|r|]
      && AllWhitespace(s[|r|..])
      && (r == [] || !IsWhitespace(r[|r| - 1]))
  {
    if s != [] && IsWhitespace(s[|s| - 1]) {
      var r := TrimEnd(s[..|s| - 1]);
      TrimEndSpec(s[..|s| - 1]);
      assert s[|r|..] == s[..|s| - 1][|r|..] + [s[|s| - 1]];
    }
  }

  /** `strip` keeps the infix of `s` between a whitespace-only prefix and a
      whitespace-only suffix, and neither end of what it keeps is
      whitespace. */
  lemma StripSpec(s: string)
    ensures var r, k := Strip(s), |s| - |TrimStart(s)|;
      && k + |r| <= |s| && r == s[k..k + |r|]
      && AllWhitespace(s[..k]) && AllWhitespace(s[k + |r|..])
      && IsStripped(r)
  {
    var t := TrimStart(s);
    TrimStartSpec(s);
    TrimEndSpec(t);
    SliceOfSuffix(s, t, TrimEnd(t));
  }

  /** A prefix `r` of a suffix `t` of `s` is a slice of `s`, followed in `s`
      by the rest of `t`. */
  lemma SliceOfSuffix<T>(s: seq<T>, t: seq<T>, r: seq<T>)
    requires |t| <= |s| && t == s[|s| - |t|..]
    requires |r| <= |t| && r == t[..|r|]
    ensures var k := |s| - |t|;
      k + |r| <= |s| && r == s[k..k + |r|] && s[k + |r|..] == t[|r|..]
  {
  }

  /** Stripping twice is stripping once. */
  lemma StripIdempotent(s: string)
    ensures Strip(Strip(s)) == Strip(s)
  {
    StripSpec(s);
    StripNoOp(Strip(s));
  }

  /** A string strips to nothing exactly when it is all whitespace. */
  lemma {:induction false} StripAllWhitespace(s: string)
    ensures Strip(s) == [] <==> AllWhitespace(s)
  {
    StripSpec(s);
    var k := |s| - |TrimStart(s)|;
    if Strip(s) != [] {
      assert Strip(s)[0] == s[k];
    } else {
      assert s == s[..k] + s[k..];
    }
  }

  /** Stripping a string that starts and ends with a non-whitespace
      character leaves it as it is. */
  lemma StripNoOp(s: string)
    requires IsStripped(s)
    ensures Strip(s) == s
  {
  }

  /** Whitespace around a stripped string, empty or not, is removed again
      by `strip`. */
  lemma {:induction false} StripPadded(pre: string, s: string, post: string)
    requires AllWhitespace(pre) && AllWhitespace(post)
    requires IsStripped(s)
    ensures Strip(pre + s + post) == s
  {
    if s == [] {
      var p := pre + s + post;
      assert forall i :: 0 <= i < |p| ==> IsWhitespace(p[i]) by {
        forall i | 0 <= i < |p| ensures IsWhitespace(p[i]) {
          if i < |pre| {
            assert p[i] == pre[i];
          } else {
            assert p[i] == post[i - |pre|];
          }
        }
      }
      StripAllWhitespace(p);
    } else {
      TrimStartPadded(pre, s + post);
      assert pre + s + post == pre + (s + post);
      TrimEndPadded(s, post);
    }
  }

  lemma {:induction false} TrimStartPadded(pre: string, s: string)
    requires AllWhitespace(pre)
    requires s != [] && !IsWhitespace(s[0])
    ensures TrimStart(pre + s) == s
  {
    if pre != [] {
      assert (pre + s)[1..] == pre[1..] + s;
      TrimStartPadded(pre[1..], s);
    }
  }

  lemma {:induction false} TrimEndPadded(s: string, post: string)
    requires AllWhitespace(post)
    requires s != [] && !IsWhitespace(s[|s| - 1])
    ensures TrimEnd(s + post) == s
  {
    if post != [] {
      var p := post[..|post| - 1];
      assert (s + post)[..|s + post| - 1] == s + p;
      TrimEndPadded(s, p);
    }
  }

  // ---------------------------------------------------------------------
  // str.split(sep) and sep.join(parts)

  /** `sep.join(parts)`. */
  function Join(parts: seq<string>, sep: char): string {
    if parts == [] then []
    else if |parts| == 1 then parts[0]
    else parts[0] + [sep] + Join(parts[1..], sep)
  }

  /** `s.split(sep)` for a one-character separator: the maximal pieces of
      `s` between separators, in order, including empty ones; joining them
      back gives `s`. */
  function Split(s: string, sep: char): (parts: seq<string>)
    ensures |parts| == Count(s, sep) + 1
  {
    if s == [] then [[]]
    else
      var rest := Split(s[1..], sep);
      if s[0] == sep then [[]] + rest
      else [[s[0]] + rest[0]] + rest[1..]
  }

  /** No piece of a split holds the separator. */
  lemma {:induction false} SplitPartsNoSep(s: string, sep: char)
    ensures forall i :: 0 <= i < |Split(s, sep)| ==> sep !in Split(s, sep)[i]
  {
    if s != [] {
      SplitPartsNoSep(s[1..], sep);
      var rest := Split(s[1..], sep);
      if s[0] != sep {
        var parts := Split(s, sep);
        assert forall i :: 1 <= i < |parts| ==> parts[i] == rest[i];
      }
    }
  }

  /** Joining the pieces of a split gives the original string back. */
  lemma {:induction false} JoinSplit(s: string, sep: char)
    ensures Join(Split(s, sep), sep) == s
  {
    if s != [] {
      var rest := Split(s[1..], sep);
      JoinSplit(s[1..], sep);
      if s[0] == sep {
        assert [[]] + rest == Split(s, sep);
        assert s == [sep] + s[1..];
      } else {
        JoinCons(s[0], rest, sep);
        assert s == [s[0]] + s[1..];
      }
    }
  }

  lemma JoinCons(c: char, parts: seq<string>, sep: char)
    requires parts != []
    ensures Join([[c] + parts[0]] + parts[1..], sep) == [c] + Join(parts, sep)
  {
    var ps := [[c] + parts[0]] + parts[1..];
    assert ps[1..] == parts[1..];
  }

  /** Splitting undoes joining, for pieces that hold no separator. */
  lemma {:induction false} SplitJoin(parts: seq<string>, sep: char)
    requires parts != []
    requires forall i :: 0 <= i < |parts| ==> sep !in parts[i]
    ensures Split(Join(parts, sep), sep) == parts
  {
    if |parts| == 1 {
      SplitNoSep(parts[0], sep);
    } else {
      SplitJoin(parts[1..], sep);
      SplitPrefix(parts[0], Join(parts[1..], sep), sep);
      assert [parts[0]] + parts[1..] == parts;
    }
  }

  lemma {:induction false} SplitNoSep(p: string, sep: char)
    requires sep !in p
    ensures Split(p, sep) == [p]
  {
    if p != [] {
      SplitNoSep(p[1..], sep);
      assert [p[0]] + p[1..] == p;
    }
  }

  lemma {:induction false} SplitPrefix(p: string, t: string, sep: char)
    requires sep !in p
    ensures Split(p + [sep] + t, sep) == [p] + Split(t, sep)
  {
    var m := p + [sep] + t;
    if p == [] {
      assert m[0] == sep && m[1..] == t;
    } else {
      assert m[0] == p[0] && m[1..] == p[1..] + [sep] + t;
      SplitPrefix(p[1..], t, sep);
      var rest := Split(m[1..], sep);
      assert rest == [p[1..]] + Split(t, sep);
      assert Split(m, sep) == [[p[0]] + rest[0]] + rest[1..];
      assert [p[0]] + p[1..] == p;
      assert rest[1..] == Split(t, sep);
    }
  }

  // ---------------------------------------------------------------------
  // str(n), str.isdigit() and int(s)

  predicate IsDigit(c: char) {
    '0' <= c <= '9'
  }

  /** `s.isdigit()` for ASCII digits: non-empty and digits only. */
  predicate IsDigits(s: string) {
    s != [] && forall i :: 0 <= i < |s| ==> IsDigit(s[i])
  }

  function DigitChar(d: nat): (c: char)
    requires d < 10
    ensures IsDigit(c)
  {
    ('0' as int + d) as char
  }

  function DigitValue(c: char): (d: nat)
    requires IsDigit(c)
    ensures d < 10 && DigitChar(d) == c
  {
    (c as int - '0' as int)
  }

  /** `str(n)` for a non-negative integer: decimal, no leading zero. */
  function NatToString(n: nat): (s: string)
    ensures IsDigits(s)
    ensures s[0] == '0' ==> n == 0 && s == "0"
  {
    if n < 10 then [DigitChar(n)] else NatToString(n / 10) + [DigitChar(n % 10)]
  }

  /** The value of a string of decimal digits (leading zeros allowed). */
  function DigitsValue(s: string): nat
    requires forall i :: 0 <= i < |s| ==> IsDigit(s[i])
  {
    if s == [] then 0 else DigitsValue(s[..|s| - 1]) * 10 + DigitValue(s[|s| - 1])
  }

  /** `str(i)` for any integer. Pixabay identifiers are integers. */
  function IntToString(i: int): (s: string)
    ensures s != [] && forall k :: 0 <= k < |s| ==> IsDigit(s[k]) || s[k] == '-'
  {
    if i < 0 then "-" + NatToString(-i) else NatToString(i)
  }

  lemma {:induction false} NatToStringRoundTrip(n: nat)
    ensures DigitsValue(NatToString(n)) == n
  {
    if n >= 10 {
      NatToStringRoundTrip(n / 10);
      var s := NatToString(n);
      assert s[..|s| - 1] == NatToString(n / 10);
    }
  }

  /** Decimal strings without a leading zero are exactly the images of
      `str` on the naturals. */
  lemma {:induction false} DigitsToStringRoundTrip(s: string)
    requires IsDigits(s) && (s[0] == '0' ==> s == "0")
    ensures NatToString(DigitsValue(s)) == s
  {
    if |s| > 1 {
      var init := s[..|s| - 1];
      DigitsToStringRoundTrip(init);
      DigitsPositive(init);
      var v := DigitsValue(s);
      var d := DigitValue(s[|s| - 1]);
      assert v == DigitsValue(init) * 10 + d;
      assert v / 10 == DigitsValue(init) && v % 10 == d;
      assert s == init + [s[|s| - 1]];
    }
  }

  lemma {:induction false} DigitsPositive(s: string)
    requires IsDigits(s) && s[0] != '0'
    ensures DigitsValue(s) > 0
  {
    if |s| > 1 {
      DigitsPositive(s[..|s| - 1]);
    }
  }

  /** The four information separators U+001C..U+001F. `str.isspace`
      counts them as whitespace, but `int` does not skip them: it skips only
      space, tab, newline, vertical tab, form feed and carriage return, and
      every other `isspace` character above U+007E (each of which it reads
      as a space). So an information separator anywhere makes `int` fail. */
  predicate IsInfoSeparator(c: char) {
    '\U{1c}' <= c <= '\U{1f}'
  }

  predicate HasInfoSeparator(s: string) {
    exists i :: 0 <= i < |s| && IsInfoSeparator(s[i])
  }

  /** `int(s)` for the decimal forms it accepts: optional surrounding
      whitespace other than the information separators, an optional sign,
      one or more ASCII digits. `None` stands for the `ValueError` Python
      raises on anything else. */
  function ParseInt(s: string): (r: Option<int>)
    ensures r.Some? ==> Strip(s) != [] && !HasInfoSeparator(s)
  {
    var t := Strip(s);
    if t == [] || HasInfoSeparator(s) then None
    else
      var negative := t[0] == '-';
      var body := if t[0] == '-' || t[0] == '+' then t[1..] else t;
      if IsDigits(body) then
        var v: int := DigitsValue(body);
        Some(if negative then -v else v)
      else None
  }

  /** A number preceded by an information separator: `strip` removes the
      separator, but `int` rejects the string. */
  lemma InfoSeparatorRejected(m: string, c: char, d: string)
    requires IsInfoSeparator(c) && IsDigits(d) && m == [c] + d
    ensures Strip(m) == d
    ensures ParseInt(m).None?
  {
    assert IsWhitespace(c);
    assert AllWhitespace([c]);
    assert IsStripped(d);
    StripPadded([c], d, []);
    assert [c] + d + [] == m;
    assert m[0] == c;
  }

  /** Whitespace above U+007E around a number is skipped by `int`, as by
      `strip`: a number followed by a no-break space is read as the number. */
  lemma NoBreakSpaceSkipped(m: string, d: string)
    requires IsDigits(d) && m == d + ['\U{a0}']
    ensures ParseInt(m) == Some(DigitsValue(d) as int)
  {
    assert AllWhitespace(['\U{a0}']);
    assert IsStripped(d);
    StripPadded([], d, ['\U{a0}']);
    assert [] + d + ['\U{a0}'] == m;
    assert !HasInfoSeparator(m) by {
      forall i | 0 <= i < |m| ensures !IsInfoSeparator(m[i]) {
        if i < |d| {
          assert m[i] == d[i];
        }
      }
    }
    assert d[0] != '-' && d[0] != '+';
  }

  /** A digit string is read by `int` as its value. */
  lemma DigitStringParses(d: string)
    requires IsDigits(d)
    ensures ParseInt(d) == Some(DigitsValue(d) as int)
  {
    StripNoOp(d);
    assert d[0] != '-' && d[0] != '+';
  }

  /** A digit string after a minus sign is read by `int` as its negated
      value. */
  lemma NegatedDigitStringParses(d: string)
    requires IsDigits(d)
    ensures ParseInt(['-'] + d) == Some(-(DigitsValue(d) as int))
  {
    NegatedDigitsStripped(d);
    SignedParse(['-'] + d, d);
  }

  lemma NegatedDigitsStripped(d: string)
    requires IsDigits(d)
    ensures Strip(['-'] + d) == ['-'] + d
  {
    var m := ['-'] + d;
    assert m[0] == '-' && m[|m| - 1] == d[|d| - 1];
    assert IsDigit(d[|d| - 1]);
    StripNoOp(m);
  }

  lemma SignedParse(m: string, d: string)
    requires IsDigits(d) && m == ['-'] + d && Strip(m) == m
    ensures ParseInt(m) == Some(-(DigitsValue(d) as int))
  {
    assert m[1..] == d;
  }

  /** `int(str(n)) == n` for a natural number. */
  lemma NatToStringParses(n: nat)
    ensures ParseInt(NatToString(n)) == Some(n)
  {
    DigitStringParses(NatToString(n));
    NatToStringRoundTrip(n);
  }

  /** `int(str(i)) == i`. */
  lemma IntToStringRoundTrip(i: int)
    ensures ParseInt(IntToString(i)) == Some(i)
  {
    if i < 0 {
      NegativeParses(IntToString(i), -i);
    } else {
      NatToStringParses(i);
    }
  }

  lemma NegativeParses(s: string, n: nat)
    requires s == ['-'] + NatToString(n)
    ensures ParseInt(s) == Some(-(n as int))
  {
    NegatedDigitStringParses(NatToString(n));
    NatToStringRoundTrip(n);
  }

  /** Distinct integers have distinct decimal forms. */
  lemma IntToStringInjective(i: int, j: int)
    ensures IntToString(i) == IntToString(j) <==> i == j
  {
    IntToStringRoundTrip(i);
    IntToStringRoundTrip(j);
  }
}
