/**
 * The text operations the application relies on: Python's str.strip(),
 * int() and str() on integers, and SQLite's LIKE operator.
 */
module Text {
  import opened Wrappers

  // ---------------------------------------------------------------------
  // Whitespace and str.strip()
  // ---------------------------------------------------------------------

  /** Python's str.isspace() restricted to ASCII: tab, line feed, vertical
      tab, form feed, carriage return, the four separators 0x1C-0x1F, space. */
  predicate IsSpace(c: char) {
    c == ' ' || ('\t' <= c <= '\r') || ('\U{1C}' <= c <= '\U{1F}')
  }

  ghost predicate AllSpace(s: string) {
    forall i :: 0 <= i < |s| ==> IsSpace(s[i])
  }

  /** Neither end of s is whitespace. */
  predicate Trimmed(s: string) {
    s == [] || (!IsSpace(s[0]) && !IsSpace(s[|s| - 1]))
  }

  /** Drops leading whitespace. */
  function TrimLeft(s: string): string {
    if s != [] && IsSpace(s[0]) then TrimLeft(s[1..]) else s
  }

  /** Drops trailing whitespace. */
  function TrimRight(s: string): string {
    if s != [] && IsSpace(s[|s| - 1]) then TrimRight(s[..|s| - 1]) else s
  }

  /** TrimLeft gives the suffix of s that starts at its first non-space
      character: what it drops is all whitespace. */
  lemma {:induction false} TrimLeftSpec(s: string)
    ensures var r := TrimLeft(s);
      && |r| <= |s| && r == s[|s| - |r|..]
      && AllSpace(s[..|s| - |r|])
      && (r == [] || !IsSpace(r[0]))
  {
    if s != [] && IsSpace(s[0]) {
      TrimLeftSpec(s[1..]);
      var r := TrimLeft(s[1..]);
      assert s[..|s| - |r|] == [s[0]] + s[1..][..|s| - 1 - |r|];
    }
  }

  /** TrimRight gives the prefix of s that ends at its last non-space
      character: what it drops is all whitespace. */
  lemma {:induction false} TrimRightSpec(s: string)
    ensures var r := TrimRight(s);
      && |r| <= |s| && r == s[..|r|]
      && AllSpace(s[|r|..])
      && (r == [] || !IsSpace(r[|r| - 1]))
  {
    if s != [] && IsSpace(s[|s| - 1]) {
      TrimRightSpec(s[..|s| - 1]);
      var r := TrimRight(s[..|s| - 1]);
      assert s[|r|..] == s[..|s| - 1][|r|..] + [s[|s| - 1]];
    }
  }

  /** str.strip(). */
  function Strip(s: string): (r: string)
    ensures Trimmed(r)
  {
    TrimLeftSpec(s);
    TrimRightSpec(TrimLeft(s));
    TrimRight(TrimLeft(s))
  }

  /** Strip only removes whitespace: s is the stripped text framed by two
      runs of whitespace. */
  lemma {:induction false} StripSplits(s: string) returns (pre: string, post: string)
    ensures AllSpace(pre) && AllSpace(post)
    ensures s == pre + Strip(s) + post
  {
    var l := TrimLeft(s);
    var r := TrimRight(l);
    TrimLeftSpec(s);
    TrimRightSpec(l);
    pre := s[..|s| - |l|];
    post := l[|r|..];
    SplitJoin(s, pre, l, r, post);
  }

  lemma SplitJoin(s: string, pre: string, l: string, r: string, post: string)
    requires |l| <= |s| && |r| <= |l|
    requires pre == s[..|s| - |l|] && l == s[|s| - |l|..]
    requires r == l[..|r|] && post == l[|r|..]
    ensures s == pre + r + post
  {
    assert s == pre + l;
  }

  lemma {:induction false} TrimLeftSkips(pre: string, rest: string)
    requires AllSpace(pre)
    requires rest == [] || !IsSpace(rest[0])
    ensures TrimLeft(pre + rest) == rest
  {
    if pre == [] {
      assert pre + rest == rest;
    } else {
      assert (pre + rest)[1..] == pre[1..] + rest;
      TrimLeftSkips(pre[1..], rest);
    }
  }

  lemma {:induction false} TrimRightSkips(rest: string, post: string)
    requires AllSpace(post)
    requires rest == [] || !IsSpace(rest[|rest| - 1])
    ensures TrimRight(rest + post) == rest
  {
    if post == [] {
      assert rest + post == rest;
    } else {
      var n := |post| - 1;
      assert (rest + post)[..|rest + post| - 1] == rest + post[..n];
      TrimRightSkips(rest, post[..n]);
    }
  }

  /** Strip is characterised by its result: whatever whitespace frames a
      trimmed text, stripping gives back exactly that text. */
  lemma StripFramed(pre: string, core: string, post: string)
    requires AllSpace(pre) && AllSpace(post) && Trimmed(core)
    ensures Strip(pre + core + post) == core
  {
    if core == [] {
      assert pre + core + post == (pre + post) + [];
      TrimLeftSkips(pre + post, []);
    } else {
      assert pre + core + post == pre + (core + post);
      TrimLeftSkips(pre, core + post);
      TrimRightSkips(core, post);
    }
  }

  lemma AllSpaceConcat(a: string, b: string)
    requires AllSpace(a) && AllSpace(b)
    ensures AllSpace(a + b)
  {
    forall i | 0 <= i < |a + b| ensures IsSpace((a + b)[i]) {
      if i >= |a| { assert (a + b)[i] == b[i - |a|]; }
    }
  }

  lemma Regroup(a: string, b: string, c: string, d: string, e: string)
    ensures a + (b + c + d) + e == (a + b) + c + (d + e)
  {
  }

  /** Whitespace added around a text does not survive stripping. */
  lemma StripPadded(s: string, pre: string, post: string)
    requires AllSpace(pre) && AllSpace(post)
    ensures Strip(pre + s + post) == Strip(s)
  {
    var p, q := StripSplits(s);
    AllSpaceConcat(pre, p);
    AllSpaceConcat(q, post);
    Regroup(pre, p, Strip(s), q, post);
    StripFramed(pre + p, Strip(s), q + post);
  }

  lemma StripIdempotent(s: string)
    ensures Strip(Strip(s)) == Strip(s)
  {
    assert [] + Strip(s) + [] == Strip(s);
    StripFramed([], Strip(s), []);
  }

  /** Stripping leaves nothing exactly when the text is all whitespace. */
  lemma StripEmpty(s: string)
    ensures Strip(s) == [] <==> AllSpace(s)
  {
    var pre, post := StripSplits(s);
    if AllSpace(s) {
      assert s == s + [] + [];
      StripFramed(s, [], []);
    }
  }

  // ---------------------------------------------------------------------
  // int() and str() on integers
  // ---------------------------------------------------------------------

  predicate IsDigit(c: char) {
    '0' <= c <= '9'
  }

  predicate AllDigits(s: string) {
    forall i :: 0 <= i < |s| ==> IsDigit(s[i])
  }

  function DigitValue(c: char): nat
    requires IsDigit(c)
  {
    (c as int) - ('0' as int)
  }

  function DigitChar(d: nat): char
    requires d < 10
  {
    ((d + '0' as int) as char)
  }

  /** The value of a decimal numeral, most significant digit first. */
  function DigitsValue(s: string): nat
    requires AllDigits(s)
  {
    if s == [] then 0 else 10 * DigitsValue(s[..|s| - 1]) + DigitValue(s[|s| - 1])
  }

  /** Python's default limit on the number of decimal digits int() reads
      and str() writes (sys.int_info.default_max_str_digits, Python 3.11
      on); leading zeros count toward it. */
  const MAX_STR_DIGITS: nat := 4300

  /** int() on an already stripped text: an optional sign followed by one
      or more ASCII digits, no more of them than the digit limit; anything
      else is a ValueError (None). */
  function ParseInt(s: string): Option<int> {
    if s != [] && (s[0] == '+' || s[0] == '-') then
      if |s| > 1 && AllDigits(s[1..]) && |s| - 1 <= MAX_STR_DIGITS then
        var v: int := DigitsValue(s[1..]);
        Some(if s[0] == '-' then -v else v)
      else None
    else if s != [] && AllDigits(s) && |s| <= MAX_STR_DIGITS then Some(DigitsValue(s))
    else None
  }

  /** A run of digits parses exactly when it is within the digit limit,
      however many of them are leading zeros. */
  lemma ParseIntDigits(s: string)
    requires s != [] && AllDigits(s)
    ensures ParseInt(s).Some? <==> |s| <= MAX_STR_DIGITS
    ensures ParseInt(s).Some? ==> ParseInt(s).value == DigitsValue(s)
  {
    assert IsDigit(s[0]);
  }

  /** str() on a non-negative integer: shortest decimal numeral. */
  function NatToString(n: nat): (r: string)
    ensures r != [] && AllDigits(r)
    ensures r[0] != '0' || n == 0
  {
    if n < 10 then [DigitChar(n)] else NatToString(n / 10) + [DigitChar(n % 10)]
  }

  /** str() on an integer. */
  function IntToString(i: int): string {
    if i < 0 then "-" + NatToString(-i) else NatToString(i)
  }

  /** str(i) writes no more digits than the limit allows (above it,
      Python raises ValueError). */
  predicate StrFits(i: int) {
    |NatToString(if i < 0 then -i else i)| <= MAX_STR_DIGITS
  }

  function Pow10(k: nat): nat {
    if k == 0 then 1 else 10 * Pow10(k - 1)
  }

  /** A number below 10^k has at most k digits. */
  lemma {:induction false} NatToStringLength(n: nat, k: nat)
    requires 1 <= k && n < Pow10(k)
    ensures |NatToString(n)| <= k
  {
    if n >= 10 {
      assert Pow10(k) == 10 * Pow10(k - 1);
      assert n / 10 < Pow10(k - 1);
      NatToStringLength(n / 10, k - 1);
    }
  }

  lemma {:induction false} NatToStringValue(n: nat)
    ensures DigitsValue(NatToString(n)) == n
  {
    var s := NatToString(n);
    if n >= 10 {
      assert s[..|s| - 1] == NatToString(n / 10);
      NatToStringValue(n / 10);
    }
  }

  /** int(str(i)) == i, for every i that str() can write. */
  lemma ParseIntToString(i: int)
    requires StrFits(i)
    ensures ParseInt(IntToString(i)) == Some(i)
  {
    if i < 0 {
      var s := IntToString(i);
      assert s[1..] == NatToString(-i);
      NatToStringValue(-i);
    } else {
      var s := NatToString(i);
      assert IsDigit(s[0]);
      NatToStringValue(i);
    }
  }

  /** str(i) carries no whitespace, so strip() leaves it alone. */
  lemma StripIntToString(i: int)
    ensures Trimmed(IntToString(i)) && Strip(IntToString(i)) == IntToString(i)
  {
    var s := IntToString(i);
    var d := NatToString(if i < 0 then -i else i);
    assert IsDigit(d[|d| - 1]);
    assert s[|s| - 1] == d[|d| - 1];
    assert [] + s + [] == s;
    StripFramed([], s, []);
  }

  // ---------------------------------------------------------------------
  // SQLite LIKE
  // ---------------------------------------------------------------------

  /** SQLite's LIKE folds ASCII letters only. */
  function Fold(c: char): char {
    if 'A' <= c <= 'Z' then ((c as int) + 32) as char else c
  }

  /** `s LIKE p` without an ESCAPE clause: '%' matches any run of characters,
      '_' matches exactly one, every other character matches itself up to
      ASCII case. */
  function Like(s: string, p: string): bool
    decreases |s| + |p|
  {
    if p == [] then s == []
    else if p[0] == '%' then Like(s, p[1..]) || (s != [] && Like(s[1..], p))
    else s != [] && (p[0] == '_' || Fold(s[0]) == Fold(p[0])) && Like(s[1..], p[1..])
  }

  predicate NoWildcards(t: string) {
    forall i :: 0 <= i < |t| ==> t[i] != '%' && t[i] != '_'
  }

  /** t is a prefix of s, up to ASCII case. */
  ghost predicate PrefixFolded(s: string, t: string) {
    t == [] || (s != [] && Fold(s[0]) == Fold(t[0]) && PrefixFolded(s[1..], t[1..]))
  }

  /** t occurs in s, up to ASCII case. */
  ghost predicate ContainsFolded(s: string, t: string) {
    PrefixFolded(s, t) || (s != [] && ContainsFolded(s[1..], t))
  }

  /** An occurrence at any position i makes s contain t. */
  lemma {:induction false} ContainsAt(s: string, t: string, i: nat)
    requires i + |t| <= |s|
    requires forall k :: 0 <= k < |t| ==> Fold(s[i + k]) == Fold(t[k])
    ensures ContainsFolded(s, t)
  {
    if i == 0 {
      PrefixAt(s, t);
    } else {
      ContainsAt(s[1..], t, i - 1);
    }
  }

  lemma {:induction false} PrefixAt(s: string, t: string)
    requires |t| <= |s|
    requires forall k :: 0 <= k < |t| ==> Fold(s[k]) == Fold(t[k])
    ensures PrefixFolded(s, t)
  {
    if t != [] {
      PrefixAt(s[1..], t[1..]);
    }
  }

  /** A case-folded prefix matches character by character. */
  lemma {:induction false} PrefixFoldedAt(s: string, t: string)
    requires PrefixFolded(s, t)
    ensures |t| <= |s|
    ensures forall k :: 0 <= k < |t| ==> Fold(s[k]) == Fold(t[k])
  {
    if t != [] {
      PrefixFoldedAt(s[1..], t[1..]);
      forall k | 1 <= k < |t| ensures Fold(s[k]) == Fold(t[k]) {
        assert s[1..][k - 1] == s[k] && t[1..][k - 1] == t[k];
      }
    }
  }

  /** The converse of ContainsAt: when s contains t, some position of s
      holds an occurrence of t. */
  lemma {:induction false} ContainsFoldedAt(s: string, t: string) returns (i: nat)
    requires ContainsFolded(s, t)
    ensures i + |t| <= |s|
    ensures forall k :: 0 <= k < |t| ==> Fold(s[i + k]) == Fold(t[k])
  {
    if PrefixFolded(s, t) {
      PrefixFoldedAt(s, t);
      i := 0;
    } else {
      var j := ContainsFoldedAt(s[1..], t);
      i := j + 1;
      forall k | 0 <= k < |t| ensures Fold(s[i + k]) == Fold(t[k]) {
        assert s[1..][j + k] == s[i + k];
      }
    }
  }

  lemma {:induction false} LikePercent(s: string)
    ensures Like(s, "%")
  {
    assert "%"[1..] == [];
    if s != [] {
      LikePercent(s[1..]);
    }
  }

  /** `s LIKE t%` holds exactly when t is a prefix of s. */
  lemma {:induction false} LikePrefix(s: string, t: string)
    requires NoWildcards(t)
    ensures Like(s, t + "%") <==> PrefixFolded(s, t)
  {
    if t == [] {
      assert t + "%" == "%";
      LikePercent(s);
    } else {
      var p := t + "%";
      assert p[0] == t[0] && p[1..] == t[1..] + "%";
      if s != [] {
        LikePrefix(s[1..], t[1..]);
      }
    }
  }

  /** `s LIKE %t%` — the pattern the search builds — holds exactly when s
      contains t, for a search text free of wildcards. */
  lemma {:induction false} LikeContains(s: string, t: string)
    requires NoWildcards(t)
    ensures Like(s, "%" + t + "%") <==> ContainsFolded(s, t)
  {
    var p := "%" + t + "%";
    assert p[0] == '%' && p[1..] == t + "%";
    LikePrefix(s, t);
    if s != [] {
      LikeContains(s[1..], t);
    }
  }
}
