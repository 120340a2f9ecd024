/** The Python string operations the converter relies on: `strip`/`rstrip`,
    `split(sep)`, `split(sep, 1)`, `replace` and the `{:02d}` number format,
    each given its meaning as a Dafny function on `seq<char>`. `Join`
    (`sep.join`) is not used by the converter; it serves to state what
    `split` and `replace` do. */
module Strings {

  /** The characters Python's `str.isspace()` accepts; `strip()` without
      arguments removes exactly these. */
  predicate IsSpace(c: char) {
    c == ' ' || ('\t' <= c <= '\r') || ('\U{1c}' <= c <= '\U{1f}')
    || c == '\U{85}' || c == '\U{a0}' || c == '\U{1680}'
    || ('\U{2000}' <= c <= '\U{200a}') || c == '\U{2028}' || c == '\U{2029}'
    || c == '\U{202f}' || c == '\U{205f}' || c == '\U{3000}'
  }

  predicate AllSpace(s: string) {
    forall i :: 0 <= i < |s| ==> IsSpace(s[i])
  }

  /** `s.lstrip()`. */
  function LStrip(s: string): string
  {
    if s != [] && IsSpace(s[0]) then LStrip(s[1..]) else s
  }

  /** `s.rstrip()`. */
  function RStrip(s: string): string
  {
    if s != [] && IsSpace(s[|s| - 1]) then RStrip(s[..|s| - 1]) else s
  }

  /** `lstrip` keeps the longest suffix that does not start with whitespace. */
  lemma {:induction false} LStripSpec(s: string)
    ensures |LStrip(s)| <= |s| && LStrip(s) == s[|s| - |LStrip(s)|..]
    ensures AllSpace(s[..|s| - |LStrip(s)|])
    ensures LStrip(s) == [] || !IsSpace(LStrip(s)[0])
    decreases |s|
  {
    if s != [] && IsSpace(s[0]) {
      LStripSpec(s[1..]);
      var t := LStrip(s[1..]);
      assert s[..|s| - |t|] == [s[0]] + s[1..][..|s| - 1 - |t|];
    }
  }

  /** `rstrip` keeps the longest prefix that does not end with whitespace. */
  lemma {:induction false} RStripSpec(s: string)
    ensures |RStrip(s)| <= |s| && RStrip(s) == s[..|RStrip(s)|]
    ensures AllSpace(s[|RStrip(s)|..])
    ensures RStrip(s) == [] || !IsSpace(RStrip(s)[|RStrip(s)| - 1])
    decreases |s|
  {
    if s != [] && IsSpace(s[|s| - 1]) {
      RStripSpec(s[..|s| - 1]);
      var t := RStrip(s[..|s| - 1]);
      assert s[|t|..] == s[..|s| - 1][|t|..] + [s[|s| - 1]];
    }
  }

  /** `s.strip()`. */
  function Strip(s: string): (r: string)
  {
    LStrip(RStrip(s))
  }

  /** Strip removes a blank prefix and a blank suffix of `s` and keeps what lies
      between them, which is empty or begins and ends with a non-blank character. */
  lemma StripSplitsOff(s: string) returns (k: nat)
    ensures k + |Strip(s)| <= |s|
    ensures s == s[..k] + Strip(s) + s[k + |Strip(s)|..]
    ensures AllSpace(s[..k]) && AllSpace(s[k + |Strip(s)|..])
    ensures Strip(s) != [] ==> !IsSpace(Strip(s)[0]) && !IsSpace(Strip(s)[|Strip(s)| - 1])
  {
    var t := RStrip(s);
    var r := LStrip(t);
    RStripSpec(s);
    LStripSpec(t);
    k := |t| - |r|;
    assert r == Strip(s);
    assert k + |r| == |t|;
    assert s[..k] == t[..k];
    assert s[k..|t|] == r;
    assert s == s[..k] + s[k..|t|] + s[|t|..];
    assert r != [] ==> r[|r| - 1] == t[|t| - 1];
  }

  /** A string strips to nothing exactly when it is all whitespace. */
  lemma StripEmptyIffBlank(s: string)
    ensures Strip(s) == [] <==> AllSpace(s)
  {
    var k := StripSplitsOff(s);
    if Strip(s) == [] {
      assert s == s[..k] + s[k..];
      forall i | 0 <= i < |s| ensures IsSpace(s[i]) {
        if i < k { assert s[i] == s[..k][i]; } else { assert s[i] == s[k..][i - k]; }
      }
    } else {
      assert s[k] == Strip(s)[0];
    }
  }

  /** Strip is the only such decomposition: any blank prefix and suffix around a
      middle part that is empty-in-blank or trimmed gives that middle part. */
  lemma StripUnique(a: string, m: string, b: string)
    requires AllSpace(a) && AllSpace(b)
    requires m != [] ==> !IsSpace(m[0]) && !IsSpace(m[|m| - 1])
    ensures Strip(a + m + b) == m
  {
    var s := a + m + b;
    var k := StripSplitsOff(s);
    var r := Strip(s);
    if m == [] {
      assert AllSpace(s) by {
        forall i | 0 <= i < |s| ensures IsSpace(s[i]) {
          if i < |a| { assert s[i] == a[i]; } else { assert s[i] == b[i - |a|]; }
        }
      }
      StripEmptyIffBlank(s);
    } else {
      // the first non-blank character of s is m[0], the last is m[|m| - 1]
      assert s[|a|] == m[0];
      assert s[|a| + |m| - 1] == m[|m| - 1];
      assert r != [] by {
        StripEmptyIffBlank(s);
        assert !IsSpace(s[|a|]);
      }
      assert s[k] == r[0];
      assert s[k + |r| - 1] == r[|r| - 1];
      assert k == |a|;
      assert k + |r| == |a| + |m|;
      assert r == s[k..k + |r|];
      assert s[|a|..|a| + |m|] == m;
    }
  }

  /** `c in s` written with an index, as the proofs below need it. */
  predicate Lacks(s: string, c: char) {
    forall i :: 0 <= i < |s| ==> s[i] != c
  }

  /** `sep` occurs in `s` starting at index `k`. */
  predicate OccursAt(s: string, sep: string, k: nat) {
    k + |sep| <= |s| && s[k..k + |sep|] == sep
  }

  /** `sep` occurs nowhere in `s`. */
  ghost predicate Free(s: string, sep: string) {
    forall k: nat :: !OccursAt(s, sep, k)
  }

  /** `sep.join(parts)`. */
  function Join(parts: seq<string>, sep: string): string
  {
    if |parts| == 0 then []
    else if |parts| == 1 then parts[0]
    else parts[0] + sep + Join(parts[1..], sep)
  }

  /** `s.split(sep)`: cut `s` at every occurrence of `sep`, scanning from the
      left and resuming after each occurrence, so occurrences never overlap. */
  function Split(s: string, sep: string): (r: seq<string>)
    requires sep != []
    ensures |r| >= 1
    decreases |s|
  {
    if |s| < |sep| then [s]
    else if s[..|sep|] == sep then [[]] + Split(s[|sep|..], sep)
    else
      var t := Split(s[1..], sep);
      [[s[0]] + t[0]] + t[1..]
  }

  lemma JoinPrepend(p: string, parts: seq<string>, sep: string)
    requires |parts| >= 1
    ensures Join([p] + parts, sep) == p + sep + Join(parts, sep)
  {
    assert ([p] + parts)[1..] == parts;
  }

  /** Adding a character in front of the first part adds it in front of the join. */
  lemma JoinConsFirst(c: char, parts: seq<string>, sep: string)
    requires |parts| >= 1
    ensures Join([[c] + parts[0]] + parts[1..], sep) == [c] + Join(parts, sep)
  {
    if |parts| > 1 {
      assert parts == [parts[0]] + parts[1..];
      JoinPrepend(parts[0], parts[1..], sep);
      JoinPrepend([c] + parts[0], parts[1..], sep);
    }
  }

  /** Joining the pieces with the separator gives back the text. */
  lemma {:induction false} SplitJoin(s: string, sep: string)
    requires sep != []
    ensures Join(Split(s, sep), sep) == s
    decreases |s|
  {
    if |s| < |sep| {
    } else if s[..|sep|] == sep {
      SplitJoin(s[|sep|..], sep);
      JoinPrepend([], Split(s[|sep|..], sep), sep);
      assert s == sep + s[|sep|..];
    } else {
      SplitJoin(s[1..], sep);
      JoinConsFirst(s[0], Split(s[1..], sep), sep);
      assert s == [s[0]] + s[1..];
    }
  }

  /** No piece contains the separator. */
  lemma {:induction false} SplitFree(s: string, sep: string)
    requires sep != []
    ensures forall k :: 0 <= k < |Split(s, sep)| ==> Free(Split(s, sep)[k], sep)
    decreases |s|
  {
    var r := Split(s, sep);
    if |s| < |sep| {
      forall j: nat ensures !OccursAt(s, sep, j) { }
    } else if s[..|sep|] == sep {
      SplitFree(s[|sep|..], sep);
      assert r[1..] == Split(s[|sep|..], sep);
      forall j: nat ensures !OccursAt(r[0], sep, j) { }
    } else {
      SplitFree(s[1..], sep);
      var t := Split(s[1..], sep);
      SplitJoin(s[1..], sep);
      var first := [s[0]] + t[0];
      assert Join(t, sep) == t[0] + (if |t| > 1 then sep + Join(t[1..], sep) else []);
      assert s[1..][..|t[0]|] == t[0];
      forall j: nat ensures !OccursAt(first, sep, j) {
        if j > 0 {
          if OccursAt(first, sep, j) {
            assert first[j..j + |sep|] == t[0][j - 1..j - 1 + |sep|];
            assert OccursAt(t[0], sep, j - 1);
          }
        }
      }
      forall k | 0 < k < |r| ensures Free(r[k], sep) {
        assert r[k] == t[k];
      }
    }
  }

  /** Cutting at the first occurrence of the separator: the text before it is
      the first piece and the rest is split on. */
  lemma {:induction false} SplitAtFirst(a: string, sep: string, b: string)
    requires sep != []
    requires forall k: nat :: k < |a| ==> !OccursAt(a + sep + b, sep, k)
    ensures Split(a + sep + b, sep) == [a] + Split(b, sep)
    decreases |a|
  {
    var s := a + sep + b;
    if a == [] {
      assert s[..|sep|] == sep;
      assert s[|sep|..] == b;
    } else {
      assert !OccursAt(s, sep, 0);
      assert s[1..] == a[1..] + sep + b;
      forall k: nat | k < |a| - 1 ensures !OccursAt(a[1..] + sep + b, sep, k) {
        assert !OccursAt(s, sep, k + 1);
        assert s[k + 1..k + 1 + |sep|] == s[1..][k..k + |sep|];
      }
      SplitAtFirst(a[1..], sep, b);
      assert [a[0]] + a[1..] == a;
    }
  }

  /** The pieces of a blank text are blank. */
  lemma {:induction false} SplitBlank(s: string, sep: string)
    requires sep != [] && AllSpace(s)
    ensures forall k :: 0 <= k < |Split(s, sep)| ==> AllSpace(Split(s, sep)[k])
    decreases |s|
  {
    var r := Split(s, sep);
    if |s| < |sep| {
    } else if s[..|sep|] == sep {
      SplitBlank(s[|sep|..], sep);
      assert r[1..] == Split(s[|sep|..], sep);
    } else {
      SplitBlank(s[1..], sep);
      var t := Split(s[1..], sep);
      assert AllSpace([s[0]] + t[0]) by {
        forall i | 0 <= i < |t[0]| + 1 ensures IsSpace(([s[0]] + t[0])[i]) {
          if i > 0 { assert ([s[0]] + t[0])[i] == t[0][i - 1]; }
        }
      }
      forall k | 0 < k < |r| ensures AllSpace(r[k]) {
        assert r[k] == t[k];
      }
    }
  }

  /** `s.split(c, 1)` for a one-character separator: one piece when `c` does
      not occur, otherwise the text before and after its first occurrence. */
  function SplitOnce(s: string, c: char): (r: seq<string>)
    ensures |r| == 1 || |r| == 2
  {
    if s == [] then [s]
    else if s[0] == c then [[], s[1..]]
    else
      var t := SplitOnce(s[1..], c);
      if |t| == 1 then [s] else [[s[0]] + t[0], t[1]]
  }

  /** One piece when `c` does not occur; otherwise the text before its first
      occurrence and the text after it. */
  lemma {:induction false} SplitOnceSpec(s: string, c: char)
    ensures |SplitOnce(s, c)| == 1 ==> SplitOnce(s, c)[0] == s && Lacks(s, c)
    ensures |SplitOnce(s, c)| == 2 ==>
              s == SplitOnce(s, c)[0] + [c] + SplitOnce(s, c)[1] && Lacks(SplitOnce(s, c)[0], c)
    decreases |s|
  {
    if s != [] && s[0] != c {
      SplitOnceSpec(s[1..], c);
      assert s == [s[0]] + s[1..];
    }
  }

  /** `s.replace(c, rep)` for a one-character pattern. */
  function ReplaceChar(s: string, c: char, rep: string): string
  {
    if s == [] then []
    else (if s[0] == c then rep else [s[0]]) + ReplaceChar(s[1..], c, rep)
  }

  /** Replacing a character is splitting on it and joining with the replacement,
      as for Python's `str.replace` and `rep.join(s.split(c))`. */
  lemma {:induction false} ReplaceIsSplitJoin(s: string, c: char, rep: string)
    ensures ReplaceChar(s, c, rep) == Join(Split(s, [c]), rep)
    decreases |s|
  {
    if s != [] {
      ReplaceIsSplitJoin(s[1..], c, rep);
      if s[0] == c {
        assert s[..1] == [c];
        JoinPrepend([], Split(s[1..], [c]), rep);
      } else {
        assert s[..1] != [c];
        JoinConsFirst(s[0], Split(s[1..], [c]), rep);
      }
    }
  }

  // ---- decimal numbers -------------------------------------------------

  predicate IsDigit(c: char) {
    '0' <= c <= '9'
  }

  predicate AllDigits(s: string) {
    forall i :: 0 <= i < |s| ==> IsDigit(s[i])
  }

  function DigitChar(d: nat): (c: char)
    requires d < 10
    ensures IsDigit(c) && c as int - '0' as int == d
  {
    ('0' as int + d) as char
  }

  /** The value of a string of decimal digits (leading zeros allowed). */
  function ParseDecimal(s: string): nat
    requires AllDigits(s)
  {
    if s == [] then 0
    else ParseDecimal(s[..|s| - 1]) * 10 + (s[|s| - 1] as int - '0' as int)
  }

  /** `str(n)` for a natural number. */
  function Decimal(n: nat): (r: string)
    ensures |r| >= 1 && AllDigits(r)
  {
    if n < 10 then [DigitChar(n)] else Decimal(n / 10) + [DigitChar(n % 10)]
  }

  /** `"{:02d}".format(n)`: at least two digits, zero-padded on the left. */
  function Pad2(n: nat): (r: string)
    ensures |r| >= 2 && AllDigits(r)
  {
    if n < 10 then "0" + Decimal(n) else Decimal(n)
  }

  lemma {:induction false} DecimalRoundTrip(n: nat)
    ensures ParseDecimal(Decimal(n)) == n
  {
    if n >= 10 {
      DecimalRoundTrip(n / 10);
      var r := Decimal(n);
      assert r[..|r| - 1] == Decimal(n / 10);
    }
  }

  /** Reading back the zero-padded number gives the number. */
  lemma Pad2RoundTrip(n: nat)
    ensures ParseDecimal(Pad2(n)) == n
  {
    DecimalRoundTrip(n);
    if n < 10 {
      var r := Pad2(n);
      assert r[..|r| - 1] == "0";
    }
  }

  /** `str(n)` has no leading zero, except for zero itself. */
  lemma {:induction false} DecimalNoLeadingZero(n: nat)
    ensures n > 0 ==> Decimal(n)[0] != '0'
  {
    if n >= 10 {
      DecimalNoLeadingZero(n / 10);
    }
  }

  /** The `{:02d}` width: numbers below 100 take exactly two digits, larger
      ones are written as `str(n)`, with no leading zero. */
  lemma Pad2Width(n: nat)
    ensures n < 100 ==> |Pad2(n)| == 2
    ensures n >= 100 ==> Pad2(n) == Decimal(n) && Pad2(n)[0] != '0'
  {
    DecimalNoLeadingZero(n);
    if 10 <= n < 100 {
      assert Decimal(n / 10) == [DigitChar(n / 10)];
    }
  }
}
