/** The few JavaScript string operations the scheduler relies on: an integer's
    decimal `toString`, the two-digit zero padding applied to hours and minutes,
    and `String.prototype.replace` with a string pattern (first occurrence only). */
module Text {

  /** The character of a decimal digit. */
  function DigitChar(d: nat): (c: char)
    requires d < 10
    ensures IsDigit(c) && c as int - '0' as int == d
  {
    ('0' as int + d) as char
  }

  predicate IsDigit(c: char) {
    '0' as int <= c as int <= '9' as int
  }

  /** Value of a string of decimal digits, most significant first (the reading
      `parseInt` gives such a string). */
  function DigitsValue(s: string): nat
    requires forall k :: 0 <= k < |s| ==> IsDigit(s[k])
  {
    if s == [] then 0
    else
      assert IsDigit(s[|s| - 1]);
      DigitsValue(s[..|s| - 1]) * 10 + (s[|s| - 1] as int - '0' as int)
  }

  /** `n.toString()` for a non-negative integer: at least one digit, no
      leading zero. */
  function NatToString(n: nat): (r: string)
    ensures 1 <= |r|
    ensures forall k :: 0 <= k < |r| ==> IsDigit(r[k])
    ensures n < 10 <==> |r| == 1
    ensures |r| > 1 ==> r[0] != '0'
  {
    if n < 10 then [DigitChar(n)]
    else NatToString(n / 10) + [DigitChar(n % 10)]
  }

  /** `i.toString()` for any integer: a minus sign before the magnitude. */
  function IntToString(i: int): (r: string)
    ensures i >= 0 ==> r == NatToString(i)
    ensures i < 0 ==> r == "-" + NatToString(-i)
  {
    if i < 0 then "-" + NatToString(-i) else NatToString(i)
  }

  /** Reading the decimal string back gives the number: `toString` and
      `parseInt` are inverse on non-negative integers. */
  lemma {:induction false} NatToStringRoundTrip(n: nat)
    ensures DigitsValue(NatToString(n)) == n
  {
    if n >= 10 {
      var s := NatToString(n);
      assert s[..|s| - 1] == NatToString(n / 10);
      NatToStringRoundTrip(n / 10);
    }
  }

  /** `(v < 10) ? '0' + v.toString() : v` — the padding applied to the hour
      and the minute of a formatted moment. */
  function Pad2(v: int): (r: string)
    ensures 0 <= v < 10 ==> |r| == 2 && r[0] == '0'
    ensures v >= 10 ==> r == NatToString(v) && r[0] != '0'
  {
    if v < 10 then "0" + IntToString(v) else IntToString(v)
  }

  /** On 0..99 the padding yields exactly two digits, which read back as `v`. */
  lemma Pad2Digits(v: int)
    requires 0 <= v < 100
    ensures |Pad2(v)| == 2
    ensures forall k :: 0 <= k < 2 ==> IsDigit(Pad2(v)[k])
    ensures DigitsValue(Pad2(v)) == v
  {
    var s := NatToString(v);
    if v < 10 {
      assert Pad2(v) == "0" + s;
      assert ("0" + s)[..1] == "0";
      assert DigitsValue("0") == 0;
    } else {
      assert s == NatToString(v / 10) + [DigitChar(v % 10)];
      assert |NatToString(v / 10)| == 1;
      NatToStringRoundTrip(v);
    }
  }

  /** The padded form of any integer contains no '%', so it never introduces
      a placeholder into a template. */
  lemma Pad2NoPercent(v: int)
    ensures '%' !in Pad2(v)
  {
    var s := NatToString(if v < 0 then -v else v);
    assert forall k :: 0 <= k < |s| ==> s[k] != '%';
  }

  /** `s` holds `pat` starting at index `i`. */
  predicate OccursAt(s: string, pat: string, i: nat) {
    i + |pat| <= |s| && s[i..i + |pat|] == pat
  }

  /** `s.replace(pat, rep)` with a string pattern: the first occurrence of
      `pat` is replaced by `rep`, nothing else changes. The replacement strings
      used here contain no '$', so JavaScript's `$`-patterns play no part. */
  function ReplaceFirst(s: string, pat: string, rep: string): (r: string)
    requires pat != []
    ensures s != [] && rep != [] ==> r != []
    decreases |s|
  {
    if |s| < |pat| then s
    else if s[..|pat|] == pat then rep + s[|pat|..]
    else [s[0]] + ReplaceFirst(s[1..], pat, rep)
  }

  /** Where `pat` does not occur, the string comes back unchanged. */
  lemma {:induction false} ReplaceFirstAbsent(s: string, pat: string, rep: string)
    requires pat != []
    requires forall i: nat :: !OccursAt(s, pat, i)
    ensures ReplaceFirst(s, pat, rep) == s
  {
    if |s| >= |pat| {
      assert !OccursAt(s, pat, 0);
      forall i: nat ensures !OccursAt(s[1..], pat, i) {
        assert !OccursAt(s, pat, i + 1);
        if i + |pat| <= |s[1..]| {
          assert s[1..][i..i + |pat|] == s[i + 1..i + 1 + |pat|];
        }
      }
      ReplaceFirstAbsent(s[1..], pat, rep);
    }
  }

  /** Where `pat` first occurs at `i`, exactly that occurrence is replaced. */
  lemma ReplaceFirstAt(s: string, pat: string, rep: string, i: nat)
    requires pat != []
    requires OccursAt(s, pat, i)
    requires forall j: nat :: j < i ==> !OccursAt(s, pat, j)
    ensures ReplaceFirst(s, pat, rep) == s[..i] + rep + s[i + |pat|..]
  {
    var p, rest := s[..i], s[i..];
    assert p + rest == s;
    ReplaceFirstSkipPrefix(p, rest, pat, rep);
    assert |rest| >= |pat| && rest[..|pat|] == s[i..i + |pat|];
    assert ReplaceFirst(rest, pat, rep) == rep + rest[|pat|..];
    assert rest[|pat|..] == s[i + |pat|..];
  }

  /** Replacing in `p + pat + rest`, where `p` holds no character that starts
      `pat`, rewrites exactly the occurrence that follows `p`. */
  lemma ReplaceAfterPlain(p: string, pat: string, rest: string, rep: string)
    requires pat != []
    requires pat[0] !in p
    ensures ReplaceFirst(p + pat + rest, pat, rep) == p + rep + rest
  {
    var s := p + pat + rest;
    assert OccursAt(s, pat, |p|) by { assert s[|p|..|p| + |pat|] == pat; }
    forall j: nat | j < |p| ensures !OccursAt(s, pat, j) {
      assert s[j] == p[j];
    }
    ReplaceFirstAt(s, pat, rep, |p|);
    assert s[..|p|] == p;
    assert s[|p| + |pat|..] == rest;
  }

  /** When no occurrence of `pat` starts inside `p`, replacing in `p + rest`
      replaces in `rest` and leaves `p` alone. */
  lemma {:induction false} ReplaceFirstSkipPrefix(p: string, rest: string, pat: string, rep: string)
    requires pat != []
    requires forall j: nat :: j < |p| ==> !OccursAt(p + rest, pat, j)
    ensures ReplaceFirst(p + rest, pat, rep) == p + ReplaceFirst(rest, pat, rep)
    decreases |p|
  {
    if p != [] {
      var s := p + rest;
      NoOccurrenceInTail(p, rest, pat);
      ReplaceFirstSkipPrefix(p[1..], rest, pat, rep);
      assert !OccursAt(s, pat, 0);
      ReplaceFirstStep(s, pat, rep);
      assert s[1..] == p[1..] + rest;
      assert p == [p[0]] + p[1..];
      assert [p[0]] + (p[1..] + ReplaceFirst(rest, pat, rep)) == p + ReplaceFirst(rest, pat, rep);
    } else {
      assert p + rest == rest;
    }
  }

  /** Where no occurrence starts at the first character, `replace` keeps it
      and goes on with the rest. */
  lemma ReplaceFirstStep(s: string, pat: string, rep: string)
    requires pat != [] && s != []
    requires !OccursAt(s, pat, 0)
    ensures ReplaceFirst(s, pat, rep) == [s[0]] + ReplaceFirst(s[1..], pat, rep)
  {
    if |s| < |pat| {
      assert s == [s[0]] + s[1..];
    }
  }

  lemma NoOccurrenceInTail(p: string, rest: string, pat: string)
    requires p != []
    requires forall j: nat :: j < |p| ==> !OccursAt(p + rest, pat, j)
    ensures forall j: nat :: j < |p[1..]| ==> !OccursAt(p[1..] + rest, pat, j)
  {
    var s, tail := p + rest, p[1..] + rest;
    forall j: nat | j < |p[1..]| ensures !OccursAt(tail, pat, j) {
      assert !OccursAt(s, pat, j + 1);
      if j + |pat| <= |tail| {
        assert tail[j..j + |pat|] == s[j + 1..j + 1 + |pat|];
      }
    }
  }

  /** A string without '%' holds no occurrence of a pattern starting with
      '%', wherever it is placed. */
  lemma PlainPrefixNoOccurrence(p: string, rest: string, pat: string)
    requires pat != [] && pat[0] == '%' && '%' !in p
    ensures forall j: nat :: j < |p| ==> !OccursAt(p + rest, pat, j)
  {
    forall j: nat | j < |p| ensures !OccursAt(p + rest, pat, j) {
      assert (p + rest)[j] == p[j] != '%';
      if j + |pat| <= |p + rest| {
        assert (p + rest)[j..j + |pat|][0] == (p + rest)[j];
      }
    }
  }
}
