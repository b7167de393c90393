/** The handful of Python `str` operations the modelled code relies on:
    `startswith`, `split()` on whitespace, `split(sep)`, `strip(chars)`,
    `int(text)`, `str(int)`, ordering of strings, and the last-occurrence
    searches that the backtracking regular-expression matcher performs. */
module Text {
  import opened Wrappers

  /** `s.startswith(prefix)`. */
  predicate StartsWith(s: string, prefix: string) {
    |prefix| == 0 || (|s| > 0 && s[0] == prefix[0] && StartsWith(s[1..], prefix[1..]))
  }

  lemma {:induction false} StartsWithSlice(s: string, prefix: string)
    ensures StartsWith(s, prefix) <==> |prefix| <= |s| && s[..|prefix|] == prefix
  {
    if |prefix| > 0 && |s| > 0 {
      StartsWithSlice(s[1..], prefix[1..]);
      if |prefix| <= |s| {
        assert s[..|prefix|] == [s[0]] + s[1..][..|prefix| - 1];
        assert prefix == [prefix[0]] + prefix[1..];
      }
    }
  }

  lemma StartsWithConcat(prefix: string, rest: string)
    ensures StartsWith(prefix + rest, prefix)
  {
    StartsWithSlice(prefix + rest, prefix);
    assert (prefix + rest)[..|prefix|] == prefix;
  }

  /** A longer text keeps the prefix. */
  lemma StartsWithAppend(s: string, prefix: string, t: string)
    requires StartsWith(s, prefix)
    ensures StartsWith(s + t, prefix)
  {
    StartsWithSlice(s, prefix);
    StartsWithSlice(s + t, prefix);
    assert (s + t)[..|prefix|] == s[..|prefix|];
  }

  /** Python's `str.isspace` for one character: the separators used by
      `split()` and `strip()` without arguments. */
  predicate IsSpace(c: char) {
    || c == ' ' || ('\t' <= c <= '\r')
    || ('\U{1c}' <= c <= '\U{1f}') || c == '\U{85}' || c == '\U{a0}'
    || c == '\U{1680}' || ('\U{2000}' <= c <= '\U{200a}')
    || c == '\U{2028}' || c == '\U{2029}' || c == '\U{202f}'
    || c == '\U{205f}' || c == '\U{3000}'
  }

  predicate NoSpace(s: string) {
    forall i :: 0 <= i < |s| ==> !IsSpace(s[i])
  }

  predicate IsDigit(c: char) {
    '0' <= c <= '9'
  }

  // ---------------------------------------------------------------------
  // str.split() with no argument

  /** Length of the longest prefix of `s` without whitespace. */
  function WordLength(s: string): (n: nat)
    ensures n <= |s| && NoSpace(s[..n])
    ensures n < |s| ==> IsSpace(s[n])
  {
    if |s| == 0 || IsSpace(s[0]) then 0 else 1 + WordLength(s[1..])
  }

  /** `s.split()`: the maximal runs of non-whitespace characters, in order. */
  function SplitWs(s: string): (words: seq<string>)
    ensures forall i :: 0 <= i < |words| ==> |words[i]| > 0 && NoSpace(words[i])
    decreases |s|
  {
    if |s| == 0 then []
    else if IsSpace(s[0]) then SplitWs(s[1..])
    else
      var n := WordLength(s);
      [s[..n]] + SplitWs(s[n..])
  }

  lemma {:induction false} WordLengthOfWord(w: string, rest: string)
    requires NoSpace(w)
    requires |rest| == 0 || IsSpace(rest[0])
    ensures WordLength(w + rest) == |w|
    decreases |w|
  {
    var s := w + rest;
    if |w| == 0 {
      assert s == rest;
    } else {
      var t := w[1..];
      assert s[0] == w[0] && s[1..] == t + rest;
      assert NoSpace(t) by {
        forall i | 0 <= i < |t| ensures !IsSpace(t[i]) {
          assert t[i] == w[i + 1];
        }
      }
      WordLengthOfWord(t, rest);
    }
  }

  /** A whitespace character separates: the words of `a + [c] + b` are the
      words of `a` followed by the words of `b`. */
  lemma {:induction false} SplitWsAtSpace(a: string, c: char, b: string)
    requires IsSpace(c)
    ensures SplitWs(a + [c] + b) == SplitWs(a) + SplitWs(b)
    decreases |a|
  {
    var s := a + [c] + b;
    if |a| == 0 {
      assert s[1..] == b;
    } else if IsSpace(a[0]) {
      assert s[1..] == a[1..] + [c] + b;
      SplitWsAtSpace(a[1..], c, b);
    } else {
      var n := WordLength(a);
      var m := WordLength(s);
      WordLengthOfWord(a[..n], a[n..] + [c] + b);
      assert a[..n] + (a[n..] + [c] + b) == s;
      assert m == n;
      assert s[..m] == a[..n];
      assert s[m..] == a[n..] + [c] + b;
      SplitWsAtSpace(a[n..], c, b);
    }
  }

  /** A non-empty run without whitespace is a single word. */
  lemma SplitWsWord(w: string)
    requires |w| > 0 && NoSpace(w)
    ensures SplitWs(w) == [w]
  {
    WordLengthOfWord(w, []);
    assert w + [] == w;
    assert w[|w|..] == [];
  }

  /** Visible ASCII only, checked character by character. */
  predicate Printable(s: string)
    decreases |s|
  {
    |s| == 0 || ('!' <= s[0] <= '~' && Printable(s[1..]))
  }

  lemma {:induction false} PrintableAt(s: string, i: int)
    requires Printable(s) && 0 <= i < |s|
    ensures '!' <= s[i] <= '~'
    decreases i
  {
    if i > 0 {
      PrintableAt(s[1..], i - 1);
    }
  }

  lemma {:induction false} PrintableConcat(a: string, b: string)
    requires Printable(a) && Printable(b)
    ensures Printable(a + b)
    decreases |a|
  {
    if |a| > 0 {
      PrintableConcat(a[1..], b);
      assert (a + b)[1..] == a[1..] + b;
    } else {
      assert a + b == b;
    }
  }

  /** A non-empty run of visible ASCII characters is a single word. */
  lemma PrintableWord(w: string)
    requires |w| > 0 && Printable(w)
    ensures SplitWs(w) == [w]
  {
    forall i | 0 <= i < |w| ensures !IsSpace(w[i]) {
      PrintableAt(w, i);
    }
    SplitWsWord(w);
  }

  lemma PrintableNoLineFeed(s: string)
    requires Printable(s)
    ensures '\n' !in s
  {
    forall i | 0 <= i < |s| ensures s[i] != '\n' {
      PrintableAt(s, i);
    }
  }

  /** Two runs of visible ASCII joined by one space are two words. */
  lemma TwoWords(first: string, second: string)
    requires |first| > 0 && Printable(first) && |second| > 0 && Printable(second)
    ensures SplitWs(first + [' '] + second) == [first, second]
  {
    SplitWsAtSpace(first, ' ', second);
    PrintableWord(first);
    PrintableWord(second);
  }

  // ---------------------------------------------------------------------
  // str.split(sep) for a one-character separator

  /** `s.split(sep)`: the fields between occurrences of `sep`; never empty. */
  function SplitOn(s: string, sep: char): (fields: seq<string>)
    ensures |fields| >= 1
    ensures forall i :: 0 <= i < |fields| ==> sep !in fields[i]
  {
    if |s| == 0 then [""]
    else
      var rest := SplitOn(s[1..], sep);
      if s[0] == sep then [""] + rest
      else [[s[0]] + rest[0]] + rest[1..]
  }

  /** `sep.join(fields)`. */
  function Join(fields: seq<string>, sep: char): string
    requires |fields| >= 1
  {
    if |fields| == 1 then fields[0] else fields[0] + [sep] + Join(fields[1..], sep)
  }

  /** `sep.join(s.split(sep)) == s`: splitting loses nothing. */
  lemma {:induction false} SplitOnJoin(s: string, sep: char)
    ensures Join(SplitOn(s, sep), sep) == s
  {
    if |s| > 0 {
      var rest := SplitOn(s[1..], sep);
      SplitOnJoin(s[1..], sep);
      if s[0] == sep {
        assert SplitOn(s, sep)[1..] == rest;
        assert s == [s[0]] + s[1..];
      } else {
        var fs := SplitOn(s, sep);
        if |rest| == 1 {
          assert fs == [[s[0]] + rest[0]];
        } else {
          assert fs[1..] == rest[1..];
          assert Join(rest, sep) == rest[0] + [sep] + Join(rest[1..], sep);
        }
        assert s == [s[0]] + s[1..];
      }
    }
  }

  /** `s.split(sep)[0]`: the text before the first `sep`, or all of `s`. */
  function FirstField(s: string, sep: char): (f: string)
    ensures |f| <= |s| && s[..|f|] == f && sep !in f
    ensures |f| < |s| ==> s[|f|] == sep
  {
    if |s| == 0 || s[0] == sep then "" else [s[0]] + FirstField(s[1..], sep)
  }

  lemma FirstFieldIsSplit(s: string, sep: char)
    ensures FirstField(s, sep) == SplitOn(s, sep)[0]
  {
  }

  // ---------------------------------------------------------------------
  // str.strip(chars) and str.strip()

  function TrimLeft(s: string, drop: char -> bool): (t: string)
    ensures |t| <= |s| && t == s[|s| - |t|..]
    ensures |t| > 0 ==> !drop(t[0])
  {
    if |s| > 0 && drop(s[0]) then TrimLeft(s[1..], drop) else s
  }

  function TrimRight(s: string, drop: char -> bool): (t: string)
    ensures |t| <= |s| && t == s[..|t|]
    ensures |t| > 0 ==> !drop(t[|t| - 1])
  {
    if |s| > 0 && drop(s[|s| - 1]) then TrimRight(s[..|s| - 1], drop) else s
  }

  /** `s.strip(chars)` where `drop` tells the characters in `chars`. */
  function Strip(s: string, drop: char -> bool): string {
    TrimRight(TrimLeft(s, drop), drop)
  }

  /** Stripping a string that neither starts nor ends with a dropped
      character changes nothing. */
  lemma StripNothing(s: string, drop: char -> bool)
    requires |s| == 0 || (!drop(s[0]) && !drop(s[|s| - 1]))
    ensures Strip(s, drop) == s
  {
  }

  // ---------------------------------------------------------------------
  // int(text) and str(n)

  function DigitChar(d: nat): char
    requires d < 10
  {
    ['0', '1', '2', '3', '4', '5', '6', '7', '8', '9'][d]
  }

  function DigitOf(c: char): nat
    requires IsDigit(c)
  {
    (c as int - '0' as int) as nat
  }

  /** `str(n)` for a non-negative `n`: its decimal digits. */
  function Decimal(n: nat): (s: string)
    ensures |s| > 0 && forall i :: 0 <= i < |s| ==> IsDigit(s[i])
  {
    if n < 10 then [DigitChar(n)] else Decimal(n / 10) + [DigitChar(n % 10)]
  }

  /** The digits and underscores that Python accepts as the body of a
      decimal integer literal: digits, with single underscores between them. */
  predicate DigitBody(d: string) {
    && |d| > 0 && IsDigit(d[0]) && IsDigit(d[|d| - 1])
    && (forall i :: 0 <= i < |d| ==> IsDigit(d[i]) || d[i] == '_')
    && (forall i :: 0 <= i < |d| - 1 && d[i] == '_' ==> IsDigit(d[i + 1]))
  }

  /** The value of a digit body, underscores ignored. */
  function BodyValue(d: string): nat
    requires forall i :: 0 <= i < |d| ==> IsDigit(d[i]) || d[i] == '_'
  {
    if |d| == 0 then 0
    else if d[|d| - 1] == '_' then BodyValue(d[..|d| - 1])
    else BodyValue(d[..|d| - 1]) * 10 + DigitOf(d[|d| - 1])
  }

  /** The value of an unsigned literal body, negated when `negative`;
      anything that is not a digit body raises `ValueError`. */
  function ParseBody(body: string, negative: bool): (r: Result<int>)
    ensures r.Raise? ==> r.error == ValueError
  {
    if !DigitBody(body) then Raise(ValueError)
    else if negative then Ok(-(BodyValue(body) as int))
    else Ok(BodyValue(body))
  }

  /** Python's `int(text)` in base 10: surrounding whitespace is ignored, one
      optional sign, then a digit body; anything else raises `ValueError`. */
  function ParseInt(text: string): (r: Result<int>)
    ensures r.Raise? ==> r.error == ValueError
  {
    var t := Strip(text, IsSpace);
    if |t| > 0 && (t[0] == '+' || t[0] == '-') then ParseBody(t[1..], t[0] == '-')
    else ParseBody(t, false)
  }

  lemma {:induction false} DecimalValue(n: nat)
    ensures BodyValue(Decimal(n)) == n
  {
    if n >= 10 {
      var s := Decimal(n);
      assert s[..|s| - 1] == Decimal(n / 10);
      DecimalValue(n / 10);
    }
  }

  predicate AllDigits(s: string) {
    forall i :: 0 <= i < |s| ==> IsDigit(s[i])
  }

  lemma DigitsAreBody(s: string)
    requires |s| > 0 && AllDigits(s)
    ensures DigitBody(s)
  {
    assert IsDigit(s[0]) && IsDigit(s[|s| - 1]);
  }

  lemma DigitsUnstripped(s: string)
    requires |s| > 0 && AllDigits(s)
    ensures Strip(s, IsSpace) == s
  {
    var first, last := s[0], s[|s| - 1];
    assert IsDigit(first) && IsDigit(last);
    assert !IsSpace(first) && !IsSpace(last);
    StripNothing(s, IsSpace);
  }

  /** `int()` of a non-empty run of digits is their value. */
  lemma ParseDigits(s: string)
    requires |s| > 0 && AllDigits(s)
    ensures ParseInt(s) == Ok(BodyValue(s))
  {
    DigitsUnstripped(s);
    DigitsAreBody(s);
    NotSign(s[0]);
    UnsignedText(s, s);
    BodyReads(s);
  }

  lemma NotSign(c: char)
    requires IsDigit(c)
    ensures c != '+' && c != '-'
  {
  }

  lemma UnsignedText(text: string, t: string)
    requires Strip(text, IsSpace) == t && |t| > 0 && t[0] != '+' && t[0] != '-'
    ensures ParseInt(text) == ParseBody(t, false)
  {
  }

  lemma BodyReads(body: string)
    requires DigitBody(body)
    ensures ParseBody(body, false) == Ok(BodyValue(body))
  {
  }

  /** `int(str(n)) == n`. */
  lemma ParseDecimal(n: nat)
    ensures ParseInt(Decimal(n)) == Ok(n)
  {
    ParseDigits(Decimal(n));
    DecimalValue(n);
  }

  // ---------------------------------------------------------------------
  // Searches from the right, as a backtracking matcher performs them

  predicate OccursAt(s: string, pat: string, i: int) {
    0 <= i && i + |pat| <= |s| && s[i..i + |pat|] == pat
  }

  /** The largest `i <= hi` at which `pat` occurs in `s`, if any. */
  function LastAt(s: string, pat: string, hi: int): (r: Option<nat>)
    ensures r.Some? ==> r.value <= hi && r.value + |pat| <= |s|
    decreases if hi < 0 then 0 else hi + 1
  {
    if hi < 0 then None
    else if OccursAt(s, pat, hi) then Some(hi)
    else LastAt(s, pat, hi - 1)
  }

  /** The search finds the last occurrence: `pat` occurs where it stops,
      at no later place up to `hi`, and nowhere when nothing is found. */
  lemma {:induction false} LastAtLast(s: string, pat: string, hi: int)
    ensures var r := LastAt(s, pat, hi);
      && (r.Some? ==> OccursAt(s, pat, r.value))
      && (r.Some? ==> forall i :: r.value < i <= hi ==> !OccursAt(s, pat, i))
      && (r.None? ==> forall i :: 0 <= i <= hi ==> !OccursAt(s, pat, i))
    decreases if hi < 0 then 0 else hi + 1
  {
    if hi >= 0 && !OccursAt(s, pat, hi) {
      LastAtLast(s, pat, hi - 1);
    }
  }

  /** Conversely, an occurrence with none after it is the one found. */
  lemma {:induction false} LastAtIs(s: string, pat: string, hi: int, k: nat)
    requires k <= hi && OccursAt(s, pat, k)
    requires forall i :: k < i <= hi ==> !OccursAt(s, pat, i)
    ensures LastAt(s, pat, hi) == Some(k)
    decreases hi - k
  {
    if hi > k {
      LastAtIs(s, pat, hi - 1, k);
    }
  }

  /** The text before the first `'\n'`: what `.` can range over. */
  function FirstLine(s: string): (t: string)
    ensures |t| <= |s| && s[..|t|] == t && '\n' !in t
    ensures |t| < |s| ==> s[|t|] == '\n'
  {
    FirstField(s, '\n')
  }

  // ---------------------------------------------------------------------
  // Ordering of strings: Python compares code points, a prefix first

  predicate Less(a: string, b: string)
    decreases |a|
  {
    if |a| == 0 then |b| > 0
    else if |b| == 0 then false
    else if a[0] != b[0] then a[0] < b[0]
    else Less(a[1..], b[1..])
  }

  lemma LessIrreflexive(a: string)
    ensures !Less(a, a)
  {
  }

  lemma LessTransitive(a: string, b: string, c: string)
    requires Less(a, b) && Less(b, c)
    ensures Less(a, c)
    decreases |a|
  {
    if |a| > 0 && |b| > 0 && |c| > 0 && a[0] == b[0] && b[0] == c[0] {
      LessTransitive(a[1..], b[1..], c[1..]);
    }
  }

  lemma LessTotal(a: string, b: string)
    ensures a == b || Less(a, b) || Less(b, a)
    decreases |a|
  {
    if |a| > 0 && |b| > 0 && a[0] == b[0] {
      LessTotal(a[1..], b[1..]);
      if a[1..] == b[1..] {
        assert a == [a[0]] + a[1..] && b == [b[0]] + b[1..];
      }
    }
  }

  lemma LessAsymmetric(a: string, b: string)
    requires Less(a, b)
    ensures !Less(b, a)
    decreases |a|
  {
    if |a| > 0 && |b| > 0 && a[0] == b[0] {
      LessAsymmetric(a[1..], b[1..]);
    }
  }
}
