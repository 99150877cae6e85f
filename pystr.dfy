/** The Python string and path built-ins the two scripts rely on:
    `str.strip()`, `str.lower()`, `str.split(sep, 1)`, `str.endswith`,
    `str.replace(old, "")`, the format `f"{i:04d}"` and `posixpath.join`. */
module PyStr {
  import opened Wrappers

  /** The code points for which Python's `str.isspace()` holds: the
      characters `str.strip()` with no argument removes. */
  const Whitespace: set<char> := {
    '\t', '\n', '\U{B}', '\U{C}', '\r', '\U{1C}', '\U{1D}', '\U{1E}', '\U{1F}', ' ',
    '\U{85}', '\U{A0}', '\U{1680}',
    '\U{2000}', '\U{2001}', '\U{2002}', '\U{2003}', '\U{2004}', '\U{2005}',
    '\U{2006}', '\U{2007}', '\U{2008}', '\U{2009}', '\U{200A}',
    '\U{2028}', '\U{2029}', '\U{202F}', '\U{205F}', '\U{3000}'
  }

  predicate IsSpace(c: char) {
    c in Whitespace
  }

  predicate AllSpace(s: string) {
    forall i :: 0 <= i < |s| ==> IsSpace(s[i])
  }

  /** Neither end of `s` is whitespace: what `str.strip()` returns. */
  predicate Trimmed(s: string) {
    s == [] || (!IsSpace(s[0]) && !IsSpace(s[|s| - 1]))
  }

  /** `str.lstrip()`: drops the leading whitespace. */
  function LStrip(s: string): string {
    if s != [] && IsSpace(s[0]) then LStrip(s[1..]) else s
  }

  /** `str.rstrip()`: drops the trailing whitespace. */
  function RStrip(s: string): string {
    if s != [] && IsSpace(s[|s| - 1]) then RStrip(s[..|s| - 1]) else s
  }

  /** `str.strip()`. */
  function Strip(s: string): string {
    LStrip(RStrip(s))
  }

  /** lstrip keeps a suffix that does not start with whitespace. */
  lemma {:induction false} LStripShape(s: string)
    ensures |LStrip(s)| <= |s| && LStrip(s) == s[|s| - |LStrip(s)|..]
    ensures LStrip(s) == [] || !IsSpace(LStrip(s)[0])
    decreases |s|
  {
    if s != [] && IsSpace(s[0]) {
      LStripShape(s[1..]);
    }
  }

  /** rstrip keeps a prefix that does not end with whitespace. */
  lemma {:induction false} RStripShape(s: string)
    ensures |RStrip(s)| <= |s| && RStrip(s) == s[..|RStrip(s)|]
    ensures RStrip(s) == [] || !IsSpace(RStrip(s)[|RStrip(s)| - 1])
    decreases |s|
  {
    if s != [] && IsSpace(s[|s| - 1]) {
      RStripShape(s[..|s| - 1]);
    }
  }

  /** What strip returns has no whitespace at either end. */
  lemma StripTrimmed(s: string)
    ensures Trimmed(Strip(s))
  {
    var t := RStrip(s);
    var r := LStrip(t);
    RStripShape(s);
    LStripShape(t);
    if r != [] {
      assert r[|r| - 1] == t[|t| - 1];
    }
  }

  lemma {:induction false} LStripPrefix(p: string, t: string)
    requires AllSpace(p) && (t == [] || !IsSpace(t[0]))
    ensures LStrip(p + t) == t
    decreases |p|
  {
    if p != [] {
      assert (p + t)[1..] == p[1..] + t;
      LStripPrefix(p[1..], t);
    } else {
      assert p + t == t;
    }
  }

  lemma {:induction false} RStripSuffix(t: string, q: string)
    requires AllSpace(q) && (t == [] || !IsSpace(t[|t| - 1]))
    ensures RStrip(t + q) == t
    decreases |q|
  {
    if q != [] {
      assert (t + q)[..|t + q| - 1] == t + q[..|q| - 1];
      RStripSuffix(t, q[..|q| - 1]);
    } else {
      assert t + q == t;
    }
  }

  /** Strip removes exactly the surrounding whitespace: whatever whitespace
      surrounds a trimmed text, stripping gives that text back. */
  lemma StripUnique(p: string, t: string, q: string)
    requires AllSpace(p) && AllSpace(q) && Trimmed(t)
    ensures Strip(p + t + q) == t
  {
    if t == [] {
      assert AllSpace(p + q);
      RStripSuffix([], p + q);
      assert p + t + q == [] + (p + q);
      assert LStrip([]) == [];
    } else {
      assert p + t + q == (p + t) + q;
      RStripSuffix(p + t, q);
      LStripPrefix(p, t);
    }
  }

  /** `str.lower()` on one character, for the ASCII letters only. */
  function LowerChar(c: char): char {
    if 'A' <= c <= 'Z' then (c as int + 32) as char else c
  }

  function Lower(s: string): (r: string)
    ensures |r| == |s|
  {
    seq(|s|, i requires 0 <= i < |s| => LowerChar(s[i]))
  }

  /** Lower-casing changes letters only: whitespace stays where it was, so a
      stripped text stays stripped, and no delimiter or line break appears or
      disappears. */
  lemma LowerKeeps(s: string)
    ensures Trimmed(s) ==> Trimmed(Lower(s))
    ensures AllSpace(s) <==> AllSpace(Lower(s))
    ensures forall c :: c in "|\n\r" ==> (c in s <==> c in Lower(s))
    ensures Lower(Lower(s)) == Lower(s)
  {
    var l := Lower(s);
    assert forall i :: 0 <= i < |s| ==> l[i] == LowerChar(s[i]);
    forall c | c in "|\n\r" ensures c in s <==> c in l {
      if c in s { var i :| 0 <= i < |s| && s[i] == c; assert l[i] == c; }
      if c in l { var i :| 0 <= i < |l| && l[i] == c; assert s[i] == c; }
    }
  }

  /** Index of the first occurrence of `c` in `s`, if any. */
  function IndexOf(s: string, c: char): Option<nat> {
    if s == [] then None
    else if s[0] == c then Some(0)
    else match IndexOf(s[1..], c)
      case None => None
      case Some(k) => Some(k + 1)
  }

  /** The index found is that of the first occurrence, and there is none
      exactly when `c` does not occur. */
  lemma {:induction false} IndexOfFirst(s: string, c: char)
    ensures IndexOf(s, c).None? <==> c !in s
    ensures IndexOf(s, c).Some? ==>
      var k := IndexOf(s, c).value;
      k < |s| && s[k] == c && c !in s[..k]
    decreases |s|
  {
    if s != [] && s[0] != c {
      IndexOfFirst(s[1..], c);
      assert s == [s[0]] + s[1..];
      if IndexOf(s[1..], c).Some? {
        var k := IndexOf(s[1..], c).value;
        assert s[..k + 1] == [s[0]] + s[1..][..k];
      }
    }
  }

  /** `s.split(sep, 1)` unpacked into two names: the text before the first
      `sep` and everything after it; None where Python's unpacking raises
      because `sep` does not occur. */
  function SplitOnce(s: string, sep: char): Option<(string, string)> {
    match IndexOf(s, sep)
    case None => None
    case Some(k) => if k < |s| then Some((s[..k], s[k + 1..])) else None
  }

  /** The split fails exactly when the separator is missing; otherwise the
      head holds no separator and head, separator and tail give `s` back. */
  lemma SplitOnceParts(s: string, sep: char)
    ensures SplitOnce(s, sep).None? <==> sep !in s
    ensures SplitOnce(s, sep).Some? ==>
      var (k, v) := SplitOnce(s, sep).value;
      sep !in k && s == k + [sep] + v
  {
    IndexOfFirst(s, sep);
    if IndexOf(s, sep).Some? {
      var k := IndexOf(s, sep).value;
      assert s == s[..k] + [sep] + s[k + 1..];
    }
  }

  lemma {:induction false} IndexOfAt(s: string, c: char, i: nat)
    requires i < |s| && s[i] == c && c !in s[..i]
    ensures IndexOf(s, c) == Some(i)
    decreases i
  {
    if i > 0 {
      assert s[0] == s[..i][0];
      assert s[1..][..i - 1] == s[..i][1..];
      IndexOfAt(s[1..], c, i - 1);
    }
  }

  /** A split at the first separator is the only one with a separator-free
      head. */
  lemma SplitOnceUnique(k: string, sep: char, v: string)
    requires sep !in k
    ensures SplitOnce(k + [sep] + v, sep) == Some((k, v))
  {
    var s := k + [sep] + v;
    assert s[..|k|] == k && s[|k|] == sep && s[|k| + 1..] == v;
    IndexOfAt(s, sep, |k|);
  }

  predicate EndsWith(s: string, suffix: string) {
    |suffix| <= |s| && s[|s| - |suffix|..] == suffix
  }

  /** `s.replace(pat, "")`: every non-overlapping occurrence of `pat`, found
      from left to right, is removed in a single pass. */
  function RemoveAll(s: string, pat: string): (r: string)
    requires pat != []
    ensures |r| <= |s|
    decreases |s|
  {
    if |s| < |pat| then s
    else if s[..|pat|] == pat then RemoveAll(s[|pat|..], pat)
    else [s[0]] + RemoveAll(s[1..], pat)
  }

  /** `pat` occurs in `t` at index `j`. */
  predicate StartsAt(t: string, j: nat, pat: string) {
    j + |pat| <= |t| && t[j..j + |pat|] == pat
  }

  /** `pat` occurs somewhere in `t`. */
  predicate Occurs(t: string, pat: string) {
    exists j: nat :: j <= |t| && StartsAt(t, j, pat)
  }

  /** A text lacking the pattern's first character does not contain it. */
  lemma NoOccurrence(t: string, pat: string)
    requires pat != [] && pat[0] !in t
    ensures !Occurs(t, pat)
  {
    forall j: nat | j + |pat| <= |t| ensures !StartsAt(t, j, pat) {
      assert t[j..j + |pat|][0] == t[j];
    }
  }

  /** When the pattern does not occur in `t` and cannot overlap itself (its
      first character does not recur in it), removing it from `t + pat`
      leaves exactly `t`. */
  lemma {:induction false} RemoveAllSuffix(t: string, pat: string)
    requires pat != [] && pat[0] !in pat[1..] && !Occurs(t, pat)
    ensures RemoveAll(t + pat, pat) == t
    decreases |t|
  {
    var s := t + pat;
    if t == [] {
      assert s[..|pat|] == pat;
      assert s[|pat|..] == [];
    } else {
      NotAtStart(t, pat);
      NoOccurrenceInTail(t, pat);
      assert s[1..] == t[1..] + pat;
      RemoveAllSuffix(t[1..], pat);
      assert [t[0]] + t[1..] == t;
    }
  }

  /** A text that does not contain the pattern is left unchanged. */
  lemma {:induction false} RemoveAllNoOccurrence(t: string, pat: string)
    requires pat != [] && !Occurs(t, pat)
    ensures RemoveAll(t, pat) == t
    decreases |t|
  {
    if |t| >= |pat| {
      assert !StartsAt(t, 0, pat);
      assert t[..|pat|] == t[0..0 + |pat|];
      NoOccurrenceInTail(t, pat);
      RemoveAllNoOccurrence(t[1..], pat);
      assert [t[0]] + t[1..] == t;
    }
  }

  /** The first occurrence of a pattern that cannot overlap itself is
      removed, and the pass continues after it: `x` before it is kept. */
  lemma {:induction false} RemoveAllSplit(x: string, y: string, pat: string)
    requires pat != [] && pat[0] !in pat[1..] && !Occurs(x, pat)
    ensures RemoveAll(x + pat + y, pat) == x + RemoveAll(y, pat)
    decreases |x|
  {
    var s := x + pat + y;
    if x == [] {
      assert s == pat + y;
      assert s[..|pat|] == pat && s[|pat|..] == y;
    } else {
      assert s[..|pat|] == (x + pat)[..|pat|];
      NotAtStart(x, pat);
      NoOccurrenceInTail(x, pat);
      assert s[1..] == x[1..] + pat + y;
      RemoveAllSplit(x[1..], y, pat);
      assert [x[0]] + (x[1..] + RemoveAll(y, pat)) == x + RemoveAll(y, pat);
    }
  }

  lemma NotAtStart(t: string, pat: string)
    requires t != [] && pat != [] && pat[0] !in pat[1..] && !Occurs(t, pat)
    ensures (t + pat)[..|pat|] != pat
  {
    var s := t + pat;
    if |t| >= |pat| {
      assert s[..|pat|] == t[0..0 + |pat|];
      assert !StartsAt(t, 0, pat);
    } else {
      assert s[..|pat|][|t|] == pat[0];
      assert pat[|t|] == pat[1..][|t| - 1];
    }
  }

  lemma NoOccurrenceInTail(t: string, pat: string)
    requires t != [] && !Occurs(t, pat)
    ensures !Occurs(t[1..], pat)
  {
    forall j: nat | j + |pat| <= |t[1..]| ensures !StartsAt(t[1..], j, pat) {
      assert t[1..][j..j + |pat|] == t[j + 1..j + 1 + |pat|];
      assert !StartsAt(t, j + 1, pat);
    }
  }

  function DigitChar(d: nat): char
    requires d < 10
  {
    "0123456789"[d]
  }

  predicate IsDigit(c: char) {
    '0' <= c <= '9'
  }

  /** Decimal digits of `n`, most significant first, without leading zeros. */
  function Decimal(n: nat): (r: string)
    ensures 1 <= |r| && forall i :: 0 <= i < |r| ==> IsDigit(r[i])
    decreases n
  {
    if n < 10 then [DigitChar(n)] else Decimal(n / 10) + [DigitChar(n % 10)]
  }

  /** The value of a string of decimal digits; leading zeros add nothing. */
  function DigitsValue(s: string): nat
    requires forall i :: 0 <= i < |s| ==> IsDigit(s[i])
  {
    if s == [] then 0
    else
      assert IsDigit(s[|s| - 1]);
      DigitsValue(s[..|s| - 1]) * 10 + (s[|s| - 1] as int - '0' as int)
  }

  function Zeros(k: nat): (r: string)
    ensures |r| == k && forall i :: 0 <= i < k ==> r[i] == '0'
  {
    if k == 0 then [] else Zeros(k - 1) + ['0']
  }

  /** `f"{n:04d}"`: the decimal digits of `n`, zero-padded on the left to at
      least four characters. */
  function Pad4(n: nat): (r: string)
    ensures forall i :: 0 <= i < |r| ==> IsDigit(r[i])
  {
    var d := Decimal(n);
    (if |d| < 4 then Zeros(4 - |d|) else []) + d
  }

  lemma {:induction false} DecimalValue(n: nat)
    ensures DigitsValue(Decimal(n)) == n
    decreases n
  {
    var d := Decimal(n);
    if n >= 10 {
      DecimalValue(n / 10);
      assert d[..|d| - 1] == Decimal(n / 10);
    }
  }

  lemma {:induction false} LeadingZerosValue(k: nat, t: string)
    requires forall i :: 0 <= i < |t| ==> IsDigit(t[i])
    ensures forall i :: 0 <= i < |Zeros(k) + t| ==> IsDigit((Zeros(k) + t)[i])
    ensures DigitsValue(Zeros(k) + t) == DigitsValue(t)
    decreases |t|
  {
    var s := Zeros(k) + t;
    if t == [] {
      assert s == Zeros(k);
      ZerosValue(k);
    } else {
      assert s[..|s| - 1] == Zeros(k) + t[..|t| - 1];
      LeadingZerosValue(k, t[..|t| - 1]);
    }
  }

  lemma {:induction false} ZerosValue(k: nat)
    ensures DigitsValue(Zeros(k)) == 0
  {
    if k > 0 {
      assert Zeros(k)[..k - 1] == Zeros(k - 1);
      ZerosValue(k - 1);
    }
  }

  function Pow10(k: nat): nat {
    if k == 0 then 1 else 10 * Pow10(k - 1)
  }

  /** `n` has at most `k` decimal digits exactly when it is below `10^k`. */
  lemma {:induction false} DecimalLength(n: nat, k: nat)
    requires 1 <= k
    ensures |Decimal(n)| <= k <==> n < Pow10(k)
    decreases n
  {
    if k > 1 {
      assert Pow10(k) == 10 * Pow10(k - 1) && Pow10(k - 1) >= 1 by { Pow10Positive(k - 1); }
    }
    if n >= 10 {
      assert |Decimal(n)| == |Decimal(n / 10)| + 1;
      if k > 1 {
        DecimalLength(n / 10, k - 1);
        assert n / 10 < Pow10(k - 1) <==> n < 10 * Pow10(k - 1);
      }
    } else {
      Pow10AtLeastTen(k);
    }
  }

  lemma {:induction false} Pow10Positive(k: nat)
    ensures Pow10(k) >= 1
  {
    if k > 0 { Pow10Positive(k - 1); }
  }

  lemma Pow10AtLeastTen(k: nat)
    requires 1 <= k
    ensures Pow10(k) >= 10
  {
    Pow10Positive(k - 1);
  }

  /** A positive number's digits do not start with `0`. */
  lemma {:induction false} DecimalLeading(n: nat)
    requires n >= 1
    ensures Decimal(n)[0] != '0'
    decreases n
  {
    if n >= 10 {
      DecimalLeading(n / 10);
      assert Decimal(n)[0] == Decimal(n / 10)[0];
    }
  }

  /** The padded index reads back as the number it was made from; it is
      exactly four characters for indices below 10000, and longer ones carry
      no padding zero; so distinct indices give distinct names. */
  lemma Pad4Value(n: nat)
    ensures |Pad4(n)| >= 4
    ensures n < 10000 ==> |Pad4(n)| == 4
    ensures |Pad4(n)| > 4 ==> Pad4(n)[0] != '0'
    ensures DigitsValue(Pad4(n)) == n
  {
    var d := Decimal(n);
    DecimalValue(n);
    LeadingZerosValue(if |d| < 4 then 4 - |d| else 0, d);
    DecimalLength(n, 4);
    if |d| >= 4 {
      assert Zeros(0) + d == d;
      assert n >= 1000 by { DecimalLength(n, 3); }
      DecimalLeading(n);
    }
  }

  lemma Pad4Injective(m: nat, n: nat)
    requires Pad4(m) == Pad4(n)
    ensures m == n
  {
    Pad4Value(m);
    Pad4Value(n);
  }

  /** `posixpath.join(a, b)`. */
  function Join(a: string, b: string): string {
    if |b| > 0 && b[0] == '/' then b
    else if a == [] || a[|a| - 1] == '/' then a + b
    else a + "/" + b
  }

  /** The joined path ends with the name joined on; an absolute name
      replaces the directory. */
  lemma JoinKeepsName(a: string, b: string)
    ensures EndsWith(Join(a, b), b)
    ensures b != [] && b[0] == '/' ==> Join(a, b) == b
  {
    var r := Join(a, b);
    assert r[|r| - |b|..] == b;
  }
}
