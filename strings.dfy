/** The PHP and SQL string operations the core relies on: trim(), strtoupper(),
    substr(_, 0, 1), implode() of integer ids, and the SQL LIKE operator. */
module Strings {

  // ---------------------------------------------------------------- trim()

  /** The characters PHP's trim() strips by default: space, tab, line feed,
      carriage return, NUL and vertical tab. */
  predicate IsTrimmable(c: char) {
    c == ' ' || c == '\t' || c == '\n' || c == '\r' || c == '\0' || c == 11 as char
  }

  /** ltrim(): drops the trimmable characters at the start. */
  function TrimStart(s: string): (r: string)
    ensures |r| <= |s| && r == s[|s| - |r|..]
    ensures r == [] || !IsTrimmable(r[0])
    ensures forall i :: 0 <= i < |s| - |r| ==> IsTrimmable(s[i])
  {
    if s != [] && IsTrimmable(s[0]) then TrimStart(s[1..]) else s
  }

  /** rtrim(): drops the trimmable characters at the end. */
  function TrimEnd(s: string): (r: string)
    ensures |r| <= |s| && r == s[..|r|]
    ensures r == [] || !IsTrimmable(r[|r| - 1])
    ensures forall i :: |r| <= i < |s| ==> IsTrimmable(s[i])
  {
    if s != [] && IsTrimmable(s[|s| - 1]) then TrimEnd(s[..|s| - 1]) else s
  }

  /** Every character of `t` is trimmable. */
  predicate AllTrimmable(t: string) {
    forall i :: 0 <= i < |t| ==> IsTrimmable(t[i])
  }

  /** `r` is the slice `s[a..b]`, and only trimmable characters lie outside it. */
  predicate IsCut(s: string, r: string, a: int, b: int) {
    0 <= a <= b <= |s| && r == s[a..b] && AllTrimmable(s[..a]) && AllTrimmable(s[b..])
  }

  /** `r` is `s` with the trimmable characters cut from both ends: a cut of
      `s` with no trimmable character at either of its ends. Only trim()'s
      result is so related to `s` (TrimmedFromIsTrim). */
  predicate TrimmedFrom(s: string, r: string) {
    && (r == [] || (!IsTrimmable(r[0]) && !IsTrimmable(r[|r| - 1])))
    && exists a, b :: 0 <= a <= b <= |s| && IsCut(s, r, a, b)
  }

  /** Dropping a trimmable prefix of `s` (leaving `front`) and then a
      trimmable suffix of `front` (leaving `r`) cuts `s` to `r`. */
  lemma CutOf(s: string, front: string, r: string)
    requires |front| <= |s| && front == s[|s| - |front|..]
    requires forall i :: 0 <= i < |s| - |front| ==> IsTrimmable(s[i])
    requires |r| <= |front| && r == front[..|r|]
    requires forall i :: |r| <= i < |front| ==> IsTrimmable(front[i])
    ensures IsCut(s, r, |s| - |front|, |s| - |front| + |r|)
  {
    var a := |s| - |front|;
    var b := a + |r|;
    var head := s[..a];
    var tail := s[b..];
    forall i | 0 <= i < |head| ensures IsTrimmable(head[i]) {
      assert head[i] == s[i];
    }
    forall i | 0 <= i < |tail| ensures IsTrimmable(tail[i]) {
      assert tail[i] == front[|r| + i];
    }
    assert r == s[a..b];
  }

  /** trim(): the string with its leading and trailing trimmable characters
      removed; a string already without them is returned unchanged. */
  function Trim(s: string): (r: string)
    ensures |r| <= |s|
    ensures TrimmedFrom(s, r)
    ensures (r == s) <==> (s == [] || (!IsTrimmable(s[0]) && !IsTrimmable(s[|s| - 1])))
  {
    CutOf(s, TrimStart(s), TrimEnd(TrimStart(s)));
    TrimEnd(TrimStart(s))
  }

  /** A non-trimmable character of `s` lies inside every slice that leaves
      only trimmable characters outside. */
  lemma KeptInside(s: string, a: int, b: int, j: int)
    requires 0 <= a <= b <= |s| && 0 <= j < |s| && !IsTrimmable(s[j])
    requires AllTrimmable(s[..a]) && AllTrimmable(s[b..])
    ensures a <= j < b
  {
  }

  /** Two cuts of `s` that keep a non-trimmable character at both ends are
      the same cut; a cut that keeps nothing leaves no such cut. */
  lemma SameCut(s: string, a1: int, b1: int, a2: int, b2: int)
    requires 0 <= a1 < b1 <= |s| && AllTrimmable(s[..a1]) && AllTrimmable(s[b1..])
    requires 0 <= a2 <= b2 <= |s| && AllTrimmable(s[..a2]) && AllTrimmable(s[b2..])
    requires !IsTrimmable(s[a1]) && !IsTrimmable(s[b1 - 1])
    requires a2 < b2 ==> !IsTrimmable(s[a2]) && !IsTrimmable(s[b2 - 1])
    ensures a1 == a2 && b1 == b2
  {
    KeptInside(s, a2, b2, a1);
    KeptInside(s, a2, b2, b1 - 1);
    KeptInside(s, a1, b1, a2);
    KeptInside(s, a1, b1, b2 - 1);
  }

  /** Two cuts of `s` with no trimmable character at their ends are equal. */
  lemma CutsAgree(s: string, r: string, a1: int, b1: int, t: string, a2: int, b2: int)
    requires IsCut(s, r, a1, b1) && (r == [] || (!IsTrimmable(r[0]) && !IsTrimmable(r[|r| - 1])))
    requires IsCut(s, t, a2, b2) && (t == [] || (!IsTrimmable(t[0]) && !IsTrimmable(t[|t| - 1])))
    ensures r == t
  {
    if r != [] {
      assert s[a1] == r[0] && s[b1 - 1] == r[|r| - 1];
      assert t != [] ==> s[a2] == t[0] && s[b2 - 1] == t[|t| - 1];
      SameCut(s, a1, b1, a2, b2);
    }
  }

  /** Every string trimmed from `s` is trim($s): TrimmedFrom pins trim()'s
      result for every input. */
  lemma TrimmedFromIsTrim(s: string, r: string)
    requires TrimmedFrom(s, r)
    ensures r == Trim(s)
  {
    var t := Trim(s);
    var a1, b1 :| 0 <= a1 <= b1 <= |s| && IsCut(s, r, a1, b1);
    var a2, b2 :| 0 <= a2 <= b2 <= |s| && IsCut(s, t, a2, b2);
    CutsAgree(s, r, a1, b1, t, a2, b2);
  }

  /** Laravel's `required` rule on a string: it holds some character that
      is not trimmable, so trim() leaves something (FilledIffTrimmedNonEmpty). */
  predicate Filled(s: string) {
    exists i :: 0 <= i < |s| && !IsTrimmable(s[i])
  }

  /** `required` as the framework writes it: trim($value) is not "". */
  lemma FilledIffTrimmedNonEmpty(s: string)
    ensures Filled(s) <==> Trim(s) != []
  {
    var front := TrimStart(s);
    var t := Trim(s);
    assert t == TrimEnd(front);
    if Filled(s) {
      var i :| 0 <= i < |s| && !IsTrimmable(s[i]);
      assert front != [] && !IsTrimmable(front[0]);
    }
    if t != [] {
      var k := |s| - |front|;
      assert t[0] == front[0] == s[k];
    }
  }

  // ------------------------------------------------- strtoupper(), substr()

  /** strtoupper() on one character: ASCII letters only, locale-independent
      as since PHP 8.2. Each of 'a'..'z' becomes the letter at the same place
      in 'A'..'Z'. */
  function UpperChar(c: char): (r: char)
    ensures !('a' <= r <= 'z')
    ensures 'a' <= c <= 'z' ==> 'A' <= r <= 'Z' && r as int - 'A' as int == c as int - 'a' as int
    ensures !('a' <= c <= 'z') ==> r == c
  {
    if 'a' <= c <= 'z' then (c as int - 32) as char else c
  }

  function Upper(s: string): (r: string)
    ensures |r| == |s|
    ensures forall i :: 0 <= i < |s| ==> r[i] == UpperChar(s[i])
  {
    if s == [] then [] else [UpperChar(s[0])] + Upper(s[1..])
  }

  /** substr($s, 0, 1): the first character, or nothing for an empty string. */
  function FirstChar(s: string): (r: string)
    ensures |r| <= 1 && r <= s
    ensures (r == []) <==> (s == [])
  {
    if s == [] then [] else [s[0]]
  }

  // -------------------------------------------------------- LIKE '%...%'

  /** `q` occurs somewhere in `s` as a contiguous piece. */
  predicate Contains(s: string, q: string) {
    exists i :: 0 <= i <= |s| && q <= s[i..]
  }

  /** `q` uses neither of LIKE's wildcards, nor the backslash MySQL and
      PostgreSQL read as LIKE's default escape character. */
  predicate NoWildcards(q: string) {
    forall i :: 0 <= i < |q| ==> q[i] != '%' && q[i] != '_' && q[i] != '\\'
  }

  /** The SQL LIKE operator without an escape character: `%` matches any run of
      characters, `_` matches exactly one, every other character itself. */
  function Like(s: string, p: string): bool
    decreases |s| + |p|
  {
    if p == [] then s == []
    else if p[0] == '%' then Like(s, p[1..]) || (s != [] && Like(s[1..], p))
    else s != [] && (p[0] == '_' || p[0] == s[0]) && Like(s[1..], p[1..])
  }

  lemma {:induction false} LikeAnything(s: string)
    ensures Like(s, "%")
  {
    assert "%"[1..] == [];
    if s != [] {
      LikeAnything(s[1..]);
    }
  }

  /** A wildcard-free pattern followed by `%` matches exactly the strings it is a prefix of. */
  lemma {:induction false} LikeLiteralThenAnything(s: string, q: string)
    requires NoWildcards(q)
    ensures Like(s, q + "%") <==> q <= s
  {
    if q == [] {
      assert q + "%" == "%";
      LikeAnything(s);
    } else {
      var p := q + "%";
      assert p[0] == q[0] && p[1..] == q[1..] + "%";
      assert NoWildcards(q[1..]) by {
        forall i | 0 <= i < |q[1..]| ensures q[1..][i] != '%' && q[1..][i] != '_' {
          assert q[1..][i] == q[i + 1];
        }
      }
      if s != [] {
        LikeLiteralThenAnything(s[1..], q[1..]);
        assert q <= s <==> (q[0] == s[0] && q[1..] <= s[1..]);
      }
    }
  }

  /** A leading `%` lets the rest of the pattern match at any position. */
  lemma {:induction false} LikeAnyStart(s: string, r: string)
    ensures Like(s, "%" + r) <==> exists i :: 0 <= i <= |s| && Like(s[i..], r)
  {
    var p := "%" + r;
    assert p[0] == '%' && p[1..] == r;
    assert s[0..] == s;
    if s != [] {
      LikeAnyStart(s[1..], r);
      if Like(s, p) && !Like(s, r) {
        var j :| 0 <= j <= |s| - 1 && Like(s[1..][j..], r);
        assert s[1..][j..] == s[j + 1..];
      }
      if exists i :: 0 <= i <= |s| && Like(s[i..], r) {
        var i :| 0 <= i <= |s| && Like(s[i..], r);
        if i > 0 {
          assert s[1..][i - 1..] == s[i..];
        }
      }
    }
  }

  /** For a search string without wildcards, `LIKE '%q%'` is substring search. */
  lemma LikeIsSubstringSearch(s: string, q: string)
    requires NoWildcards(q)
    ensures Like(s, "%" + q + "%") <==> Contains(s, q)
  {
    assert "%" + q + "%" == "%" + (q + "%");
    LikeAnyStart(s, q + "%");
    forall i | 0 <= i <= |s|
      ensures Like(s[i..], q + "%") <==> q <= s[i..]
    {
      LikeLiteralThenAnything(s[i..], q);
    }
  }

  /** With a wildcard in the search string, LIKE is no longer substring search:
      "_" matches "ab", which contains no underscore. */
  lemma UnderscoreIsAWildcard()
    ensures Like("ab", "%" + "_" + "%")
    ensures !Contains("ab", "_")
  {
    var p := "%" + "_" + "%";
    assert p == "%_%";
    assert "%_%"[1..] == "_%";
    assert "_%"[1..] == "%";
    assert "ab"[1..] == "b";
    LikeAnything("b");
    assert Like("ab", "_%");
  }

  // ------------------------------------------------- integers as decimal text

  predicate IsDigit(c: char) {
    '0' <= c <= '9'
  }

  predicate AllDigits(s: string) {
    forall i :: 0 <= i < |s| ==> IsDigit(s[i])
  }

  function DigitChar(d: nat): (c: char)
    requires d < 10
    ensures IsDigit(c) && c as int - '0' as int == d
  {
    ('0' as int + d) as char
  }

  /** PHP's conversion of a non-negative integer to a string. */
  function NatToString(n: nat): (r: string)
    ensures |r| >= 1 && AllDigits(r)
    ensures (r[0] == '0') <==> (n == 0)
    decreases n
  {
    if n < 10 then [DigitChar(n)] else NatToString(n / 10) + [DigitChar(n % 10)]
  }

  /** The value of a string of decimal digits. */
  function DigitsValue(s: string): nat
    requires AllDigits(s)
    decreases |s|
  {
    if s == [] then 0 else DigitsValue(s[..|s| - 1]) * 10 + (s[|s| - 1] as int - '0' as int)
  }

  lemma {:induction false} NatToStringRoundTrip(n: nat)
    ensures DigitsValue(NatToString(n)) == n
  {
    var s := NatToString(n);
    if n < 10 {
      assert s[..|s| - 1] == [];
    } else {
      NatToStringRoundTrip(n / 10);
      assert s[..|s| - 1] == NatToString(n / 10);
    }
  }

  /** Distinct ids are rendered as distinct strings. */
  lemma NatToStringInjective(m: nat, n: nat)
    requires NatToString(m) == NatToString(n)
    ensures m == n
  {
    NatToStringRoundTrip(m);
    NatToStringRoundTrip(n);
  }

  /** implode(', ', $ids) for a list of integer ids. */
  function JoinIds(ids: seq<nat>): string
    decreases |ids|
  {
    if |ids| == 0 then ""
    else if |ids| == 1 then NatToString(ids[0])
    else NatToString(ids[0]) + ", " + JoinIds(ids[1..])
  }

  /** The length of the run of digits at the start of `s`. */
  function DigitRun(s: string): (k: nat)
    ensures k <= |s| && AllDigits(s[..k])
    ensures k == |s| || !IsDigit(s[k])
    decreases |s|
  {
    if s != [] && IsDigit(s[0]) then
      var k := 1 + DigitRun(s[1..]);
      assert s[..k] == [s[0]] + s[1..][..k - 1];
      k
    else 0
  }

  /** Reads back a list written by JoinIds: numbers separated by ", ". */
  function SplitIds(s: string): seq<nat>
    decreases |s|
  {
    var k := DigitRun(s);
    var id := DigitsValue(s[..k]);
    if k + 2 <= |s| && s[k..k + 2] == ", " then [id] + SplitIds(s[k + 2..]) else [id]
  }

  lemma {:induction false} DigitRunOfDigits(d: string, rest: string)
    requires AllDigits(d)
    requires rest == [] || !IsDigit(rest[0])
    ensures DigitRun(d + rest) == |d|
    decreases |d|
  {
    if d != [] {
      assert (d + rest)[0] == d[0];
      assert (d + rest)[1..] == d[1..] + rest;
      DigitRunOfDigits(d[1..], rest);
    } else {
      assert d + rest == rest;
    }
  }

  /** The id list written into an assignment's activity text can be read back. */
  lemma {:induction false} SplitJoinIds(ids: seq<nat>)
    requires ids != []
    ensures SplitIds(JoinIds(ids)) == ids
    decreases |ids|
  {
    var d := NatToString(ids[0]);
    NatToStringRoundTrip(ids[0]);
    var s := JoinIds(ids);
    if |ids| == 1 {
      DigitRunOfDigits(d, "");
      assert d + "" == d;
      assert s[..|d|] == d;
    } else {
      var rest := JoinIds(ids[1..]);
      assert s == d + (", " + rest);
      DigitRunOfDigits(d, ", " + rest);
      assert s[..|d|] == d;
      assert s[|d|..|d| + 2] == ", ";
      assert s[|d| + 2..] == rest;
      SplitJoinIds(ids[1..]);
    }
  }
}
