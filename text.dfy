/** The pieces of Python's `str` behaviour the backend relies on:
    `startswith`/`endswith`, `strip` with and without a character set,
    `" ".join`, `split` and the decimal rendering of an `int` in an
    f-string. */
module Text {

  predicate StartsWith(s: string, prefix: string)
  {
    |prefix| <= |s| && s[..|prefix|] == prefix
  }

  predicate EndsWith(s: string, suffix: string)
  {
    |suffix| <= |s| && s[|s| - |suffix|..] == suffix
  }

  /** The characters for which Python's `str.isspace()` holds; `strip()`
      with no argument removes exactly these. */
  const PyWhitespace: set<char> :=
    {'\t', '\n', '\U{0B}', '\U{0C}', '\r', '\U{1C}', '\U{1D}', '\U{1E}', '\U{1F}', ' ',
     '\U{85}', '\U{A0}', '\U{1680}',
     '\U{2000}', '\U{2001}', '\U{2002}', '\U{2003}', '\U{2004}', '\U{2005}',
     '\U{2006}', '\U{2007}', '\U{2008}', '\U{2009}', '\U{200A}',
     '\U{2028}', '\U{2029}', '\U{202F}', '\U{205F}', '\U{3000}'}

  /** `s.lstrip(chars)`: drop leading characters that belong to `cs`. */
  function LStrip(s: string, cs: set<char>): (r: string)
    ensures |r| <= |s| && r == s[|s| - |r|..]
    ensures r == [] || r[0] !in cs
    ensures forall i :: 0 <= i < |s| - |r| ==> s[i] in cs
  {
    if |s| > 0 && s[0] in cs then
      var r := LStrip(s[1..], cs);
      assert s[1..][|s| - 1 - |r|..] == s[|s| - |r|..];
      r
    else s
  }

  /** `s.rstrip(chars)`: drop trailing characters that belong to `cs`. */
  function RStrip(s: string, cs: set<char>): (r: string)
    ensures |r| <= |s| && r == s[..|r|]
    ensures r == [] || r[|r| - 1] !in cs
    ensures forall i :: |r| <= i < |s| ==> s[i] in cs
  {
    if |s| > 0 && s[|s| - 1] in cs then
      var r := RStrip(s[..|s| - 1], cs);
      assert s[..|s| - 1][..|r|] == s[..|r|];
      r
    else s
  }

  /** `s.strip(chars)`: Python treats `chars` as a SET of characters, not
      as a prefix or suffix. */
  function Strip(s: string, cs: set<char>): string
  {
    RStrip(LStrip(s, cs), cs)
  }

  /** The result of `strip` is the slice of `s` that starts where `lstrip`
      stopped, everything cut off on either side is in `cs`, and neither end
      of the slice is. */
  lemma StripIsSlice(s: string, cs: set<char>)
    ensures var r := Strip(s, cs);
      var i := |s| - |LStrip(s, cs)|;
      && i + |r| <= |s| && r == s[i..i + |r|]
      && (forall k :: 0 <= k < i ==> s[k] in cs)
      && (forall k :: i + |r| <= k < |s| ==> s[k] in cs)
      && (r == [] || (r[0] !in cs && r[|r| - 1] !in cs))
  {
    var i := |s| - |LStrip(s, cs)|;
    StripSlice(s, cs, i);
    StripCutsSetChars(s, cs, i);
    StripEndsOutside(s, cs);
  }

  /** The slice `strip` keeps starts where `lstrip` stopped. */
  lemma StripSlice(s: string, cs: set<char>, i: nat)
    requires i == |s| - |LStrip(s, cs)|
    ensures i + |Strip(s, cs)| <= |s| && Strip(s, cs) == s[i..i + |Strip(s, cs)|]
  {
    var l := LStrip(s, cs);
    var r := RStrip(l, cs);
    assert l == s[i..] && r == l[..|r|];
  }

  /** What `strip` cuts off on either side is in `cs`. */
  lemma StripCutsSetChars(s: string, cs: set<char>, i: nat)
    requires i == |s| - |LStrip(s, cs)|
    ensures forall k :: 0 <= k < i ==> s[k] in cs
    ensures forall k :: i + |Strip(s, cs)| <= k < |s| ==> s[k] in cs
  {
    var l := LStrip(s, cs);
    var r := RStrip(l, cs);
    forall k | i + |r| <= k < |s| ensures s[k] in cs {
      assert s[k] == l[k - i];
    }
  }

  /** Neither end of what `strip` keeps is in `cs`. */
  lemma StripEndsOutside(s: string, cs: set<char>)
    ensures var r := Strip(s, cs);
      r == [] || (r[0] !in cs && r[|r| - 1] !in cs)
  {
    var l := LStrip(s, cs);
    var r := RStrip(l, cs);
    if r != [] {
      assert r[0] == l[0];
    }
  }

  /** A prefix made only of characters of `cs` is cut off whole. */
  lemma {:induction false} LStripDropsPrefix(a: string, b: string, cs: set<char>)
    requires forall k :: 0 <= k < |a| ==> a[k] in cs
    ensures LStrip(a + b, cs) == LStrip(b, cs)
  {
    if |a| > 0 {
      assert (a + b)[0] == a[0];
      assert (a + b)[1..] == a[1..] + b;
      LStripDropsPrefix(a[1..], b, cs);
      assert LStrip(a + b, cs) == LStrip((a + b)[1..], cs);
    } else {
      assert a + b == b;
    }
  }

  /** A suffix made only of characters of `cs` is cut off whole. */
  lemma {:induction false} RStripDropsSuffix(a: string, b: string, cs: set<char>)
    requires forall k :: 0 <= k < |b| ==> b[k] in cs
    ensures RStrip(a + b, cs) == RStrip(a, cs)
  {
    if |b| > 0 {
      assert (a + b)[|a + b| - 1] == b[|b| - 1];
      assert (a + b)[..|a + b| - 1] == a + b[..|b| - 1];
      RStripDropsSuffix(a, b[..|b| - 1], cs);
      assert RStrip(a + b, cs) == RStrip((a + b)[..|a + b| - 1], cs);
    } else {
      assert a + b == a;
    }
  }

  /** Stripping twice removes nothing more. */
  lemma StripIdempotent(s: string, cs: set<char>)
    ensures Strip(Strip(s, cs), cs) == Strip(s, cs)
  {
    var r := Strip(s, cs);
    StripEndsOutside(s, cs);
    if r != [] {
      assert LStrip(r, cs) == r;
      assert RStrip(r, cs) == r;
    }
  }

  /** `sep.join(ts)`. */
  function Join(ts: seq<string>, sep: string): string
  {
    if |ts| == 0 then ""
    else if |ts| == 1 then ts[0]
    else ts[0] + sep + Join(ts[1..], sep)
  }

  function TotalLength(ts: seq<string>): nat
  {
    if |ts| == 0 then 0 else |ts[0]| + TotalLength(ts[1..])
  }

  /** A join of n > 0 parts is as long as the parts plus n - 1 separators. */
  lemma {:induction false} JoinLength(ts: seq<string>, sep: string)
    requires |ts| > 0
    ensures |Join(ts, sep)| == TotalLength(ts) + (|ts| - 1) * |sep|
  {
    if |ts| > 1 {
      JoinLength(ts[1..], sep);
    }
  }

  /** `s.split(c)` for a one-character separator: the pieces between the
      occurrences of `c`, always at least one. */
  function Split(s: string, c: char): (r: seq<string>)
    ensures |r| >= 1
    decreases |s|
  {
    if c !in s then [s]
    else
      var i := FirstIndex(s, c);
      [s[..i]] + Split(s[i + 1..], c)
  }

  function FirstIndex(s: string, c: char): (i: nat)
    requires c in s
    ensures i < |s| && s[i] == c && c !in s[..i]
  {
    if s[0] == c then 0 else 1 + FirstIndex(s[1..], c)
  }

  /** In `t + [c] + rest` with `c` not in `t`, the first `c` is the one
      right after `t`. */
  lemma FirstIndexAfter(t: string, c: char, rest: string)
    requires c !in t
    ensures c in t + [c] + rest && FirstIndex(t + [c] + rest, c) == |t|
  {
    var s := t + [c] + rest;
    assert s[|t|] == c;
    var i := FirstIndex(s, c);
    assert forall k :: 0 <= k < |t| ==> s[k] == t[k];
    assert i >= |t|;
    forall k | 0 <= k < i ensures s[k] != c {
      assert s[k] == s[..i][k];
    }
  }

  /** Splitting a join on its one-character separator gives the parts back
      whenever no part contains the separator. */
  lemma {:induction false} SplitJoin(ts: seq<string>, c: char)
    requires |ts| > 0
    requires forall k :: 0 <= k < |ts| ==> c !in ts[k]
    ensures Split(Join(ts, [c]), c) == ts
  {
    if |ts| > 1 {
      var rest := Join(ts[1..], [c]);
      var s := Join(ts, [c]);
      assert s == ts[0] + [c] + rest;
      FirstIndexAfter(ts[0], c, rest);
      assert s[..|ts[0]|] == ts[0];
      assert s[|ts[0]| + 1..] == rest;
      SplitJoin(ts[1..], c);
    }
  }

  function DigitChar(d: nat): char
    requires d < 10
  {
    ('0' as int + d) as char
  }

  function DigitValue(ch: char): nat
  {
    if '0' <= ch <= '9' then (ch as int - '0' as int) as nat else 0
  }

  /** `str(n)` for a non-negative `int`: decimal digits, no leading zero. */
  function NatToString(n: nat): (r: string)
    ensures |r| >= 1
    ensures forall k :: 0 <= k < |r| ==> '0' <= r[k] <= '9'
  {
    if n < 10 then [DigitChar(n)] else NatToString(n / 10) + [DigitChar(n % 10)]
  }

  /** The number a string of decimal digits denotes. */
  function DecimalValue(s: string): nat
  {
    if |s| == 0 then 0 else DecimalValue(s[..|s| - 1]) * 10 + DigitValue(s[|s| - 1])
  }

  /** Reading back the decimal rendering gives the number. */
  lemma {:induction false} DecimalRoundTrip(n: nat)
    ensures DecimalValue(NatToString(n)) == n
  {
    var last := DigitChar(n % 10);
    assert DigitValue(last) == n % 10;
    if n >= 10 {
      var init := NatToString(n / 10);
      DecimalRoundTrip(n / 10);
      var s := init + [last];
      assert s[..|s| - 1] == init && s[|s| - 1] == last;
      assert DecimalValue(s) == DecimalValue(init) * 10 + n % 10;
    }
  }

  /** Distinct numbers render to distinct strings. */
  lemma NatToStringInjective(a: nat, b: nat)
    requires NatToString(a) == NatToString(b)
    ensures a == b
  {
    DecimalRoundTrip(a);
    DecimalRoundTrip(b);
  }
}
