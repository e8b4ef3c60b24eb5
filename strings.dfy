/** String helpers behind the Python built-ins the core relies on:
    str.strip(), " ".join(...), the `in` substring test and decimal formatting of ints. */
module Strings {

  /** Python's str.isspace() for a single character. */
  predicate IsSpace(c: char) {
    c == ' ' || ('\t' <= c <= '\r') || ('\U{1c}' <= c <= '\U{1f}')
    || c == '\U{85}' || c == '\U{a0}' || c == '\U{1680}'
    || ('\U{2000}' <= c <= '\U{200a}') || c == '\U{2028}' || c == '\U{2029}'
    || c == '\U{202f}' || c == '\U{205f}' || c == '\U{3000}'
  }

  predicate AllSpace(s: string) {
    forall k :: 0 <= k < |s| ==> IsSpace(s[k])
  }

  predicate IsDigit(c: char) {
    '0' <= c <= '9'
  }

  predicate AllDigits(s: string) {
    forall k :: 0 <= k < |s| ==> IsDigit(s[k])
  }

  /** The index of the first non-whitespace character of `s` from `i` on, or |s|. */
  function SkipSpace(s: string, i: nat): (r: nat)
    requires i <= |s|
    ensures i <= r <= |s|
    ensures forall k :: i <= k < r ==> IsSpace(s[k])
    ensures r == |s| || !IsSpace(s[r])
    decreases |s| - i
  {
    if i < |s| && IsSpace(s[i]) then SkipSpace(s, i + 1) else i
  }

  /** The index just after the last non-whitespace character of `s` before `j`, or 0. */
  function SkipSpaceBack(s: string, j: nat): (r: nat)
    requires j <= |s|
    ensures r <= j
    ensures forall k :: r <= k < j ==> IsSpace(s[k])
    ensures r == 0 || !IsSpace(s[r - 1])
  {
    if j > 0 && IsSpace(s[j - 1]) then SkipSpaceBack(s, j - 1) else j
  }

  /** Python's str.strip() with no argument: the text between the first and the last
      non-whitespace character. */
  function Strip(s: string): (r: string)
    ensures r == [] || (!IsSpace(r[0]) && !IsSpace(r[|r| - 1]))
  {
    var i, j := SkipSpace(s, 0), SkipSpaceBack(s, |s|);
    if i < j then s[i..j] else []
  }

  /** `s[i..j]` is what stripping keeps, and only whitespace lies outside it. */
  predicate Middle(s: string, i: nat, j: nat) {
    i <= j <= |s| && Strip(s) == s[i..j] && AllSpace(s[..i]) && AllSpace(s[j..])
  }

  /** `r` is `c` with whitespace, and only whitespace, cut from its two ends. */
  predicate CutOf(c: string, r: string) {
    exists i: nat, j: nat :: i <= j <= |c| && r == c[i..j] && AllSpace(c[..i]) && AllSpace(c[j..])
  }

  /** When nothing lies between the two cuts, the whole string is whitespace. */
  lemma CutsCover(s: string)
    requires SkipSpaceBack(s, |s|) <= SkipSpace(s, 0)
    ensures AllSpace(s)
  {
    var i, j := SkipSpace(s, 0), SkipSpaceBack(s, |s|);
    forall k | 0 <= k < |s| ensures IsSpace(s[k]) {
      if k >= i {
        assert j <= k;
      }
    }
  }

  /** Stripping keeps a contiguous middle part of `s` and cuts only whitespace. */
  lemma StripIsMiddle(s: string)
    ensures exists i: nat, j: nat :: Middle(s, i, j)
  {
    var i, j := SkipSpace(s, 0), SkipSpaceBack(s, |s|);
    if i < j {
      assert AllSpace(s[..i]);
      assert AllSpace(s[j..]);
      assert Middle(s, i, j);
    } else {
      CutsCover(s);
      assert AllSpace(s[..i]);
      assert AllSpace(s[i..]);
      assert Middle(s, i, i);
    }
  }

  /** Stripping cuts whitespace from the ends of `s` and nothing else. */
  lemma StripIsCut(s: string)
    ensures CutOf(s, Strip(s))
  {
    StripIsMiddle(s);
    var i: nat, j: nat :| Middle(s, i, j);
  }

  lemma StripIdempotent(s: string)
    ensures Strip(Strip(s)) == Strip(s)
  {
    var r := Strip(s);
    if r != [] {
      assert SkipSpace(r, 0) == 0;
      assert SkipSpaceBack(r, |r|) == |r|;
      assert r[0..|r|] == r;
    }
  }

  /** A string strips to nothing exactly when it is whitespace only. */
  lemma StripEmptyIffAllSpace(s: string)
    ensures Strip(s) == [] <==> AllSpace(s)
  {
    var i, j := SkipSpace(s, 0), SkipSpaceBack(s, |s|);
    if AllSpace(s) {
      assert i == |s|;
    } else if j <= i {
      CutsCover(s);
    }
  }

  function SumLengths(parts: seq<string>): nat {
    if parts == [] then 0 else SumLengths(parts[..|parts| - 1]) + |parts[|parts| - 1]|
  }

  /** Python's " ".join(parts): the parts in order, one space between neighbours. */
  function JoinSpace(parts: seq<string>): (r: string)
    ensures |r| == SumLengths(parts) + (if parts == [] then 0 else |parts| - 1)
  {
    if parts == [] then ""
    else if |parts| == 1 then parts[0]
    else JoinSpace(parts[..|parts| - 1]) + " " + parts[|parts| - 1]
  }

  /** The joined text is empty exactly when there is no part, or one empty part. */
  lemma JoinSpaceEmpty(parts: seq<string>)
    ensures JoinSpace(parts) == [] <==> parts == [] || (|parts| == 1 && parts[0] == [])
  {
  }

  /** Joining whitespace-only parts gives whitespace only. */
  lemma {:induction false} JoinSpaceAllSpace(parts: seq<string>)
    requires forall k :: 0 <= k < |parts| ==> AllSpace(parts[k])
    ensures AllSpace(JoinSpace(parts))
  {
    if |parts| > 1 {
      var init := parts[..|parts| - 1];
      JoinSpaceAllSpace(init);
      var r := JoinSpace(init) + " " + parts[|parts| - 1];
      forall k | 0 <= k < |r| ensures IsSpace(r[k]) {
        if k < |JoinSpace(init)| {
          assert r[k] == JoinSpace(init)[k];
        } else if k > |JoinSpace(init)| {
          assert r[k] == parts[|parts| - 1][k - |JoinSpace(init)| - 1];
        }
      }
    }
  }

  /** Python's `sub in s` for strings. */
  predicate Contains(s: string, sub: string)
    decreases |s|
  {
    |sub| <= |s| && (s[..|sub|] == sub || Contains(s[1..], sub))
  }

  /** An occurrence of `sub` at position k of `s` is found by the `in` test. */
  lemma {:induction false} ContainsAt(s: string, sub: string, k: nat)
    requires k + |sub| <= |s| && s[k..k + |sub|] == sub
    ensures Contains(s, sub)
    decreases k
  {
    if k > 0 {
      assert s[1..][k - 1..k - 1 + |sub|] == sub;
      ContainsAt(s[1..], sub, k - 1);
    }
  }

  /** A whitespace-only string holds no text that starts with a non-space. */
  lemma {:induction false} AllSpaceContainsNone(s: string, sub: string)
    requires AllSpace(s) && sub != [] && !IsSpace(sub[0])
    ensures !Contains(s, sub)
    decreases |s|
  {
    if |sub| <= |s| {
      assert s[..|sub|][0] == s[0];
      AllSpaceContainsNone(s[1..], sub);
    }
  }

  function DigitChar(d: nat): (c: char)
    requires d < 10
    ensures IsDigit(c)
  {
    ('0' as int + d) as char
  }

  /** Python's f"{n}" / str(n) for a non-negative int. */
  function Decimal(n: nat): (r: string)
    ensures r != [] && AllDigits(r)
    ensures |r| == 1 || r[0] != '0'
  {
    if n < 10 then [DigitChar(n)] else Decimal(n / 10) + [DigitChar(n % 10)]
  }

  /** The value of a string of decimal digits. */
  function DigitsValue(s: string): nat
    requires AllDigits(s)
  {
    if s == [] then 0 else DigitsValue(s[..|s| - 1]) * 10 + (s[|s| - 1] as int - '0' as int)
  }

  /** Reading back a formatted number gives the number. */
  lemma {:induction false} DecimalRoundTrip(n: nat)
    ensures DigitsValue(Decimal(n)) == n
  {
    if n >= 10 {
      DecimalRoundTrip(n / 10);
      var r := Decimal(n);
      assert r[..|r| - 1] == Decimal(n / 10);
    }
  }
}
