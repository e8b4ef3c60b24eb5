/** The two regular expressions of retrievers.py and `re.findall` over them.

    Both patterns are built from runs that regex backtracking cannot split in more than one
    way: in `[A-Z]+DAY ` the upper-case run that starts at a position must end in "DAY" and be
    followed by a space, and in `[0-9]*[0-9]-` (or `/`) the whole digit run must be followed by
    the separator. So whether a match starts at a position, and where it ends, is computed
    directly. `FindAll` then scans left to right, resuming after each match, as `re.findall`
    does for a pattern with one group that spans the whole match. */
module Patterns {
  import opened Wrappers
  import opened Strings

  predicate IsUpper(c: char) {
    'A' <= c <= 'Z'
  }

  predicate AllUpper(s: string) {
    forall k :: 0 <= k < |s| ==> IsUpper(s[k])
  }

  /** End of the longest run of upper-case letters starting at i. */
  function UpperEnd(s: string, i: nat): (j: nat)
    requires i <= |s|
    ensures i <= j <= |s|
    ensures forall k :: i <= k < j ==> IsUpper(s[k])
    ensures j == |s| || !IsUpper(s[j])
    decreases |s| - i
  {
    if i < |s| && IsUpper(s[i]) then UpperEnd(s, i + 1) else i
  }

  /** End of the longest run of digits starting at i. */
  function DigitEnd(s: string, i: nat): (j: nat)
    requires i <= |s|
    ensures i <= j <= |s|
    ensures forall k :: i <= k < j ==> IsDigit(s[k])
    ensures j == |s| || !IsDigit(s[j])
    decreases |s| - i
  {
    if i < |s| && IsDigit(s[i]) then DigitEnd(s, i + 1) else i
  }

  /** A maximal run is determined by where it must stop. */
  lemma UpperEndAt(s: string, i: nat, j: nat)
    requires i <= j < |s| && AllUpper(s[i..j]) && !IsUpper(s[j])
    ensures UpperEnd(s, i) == j
  {
  }

  lemma DigitEndAt(s: string, i: nat, j: nat)
    requires i <= j <= |s| && AllDigits(s[i..j]) && (j == |s| || !IsDigit(s[j]))
    ensures DigitEnd(s, i) == j
  {
  }

  lemma SliceOfSlice(s: string, lo: nat, hi: nat, x: nat, y: nat)
    requires lo <= hi <= |s| && x <= y <= hi - lo
    ensures s[lo..hi][x..y] == s[lo + x..lo + y]
  {
    assert forall k :: 0 <= k < y - x ==> s[lo..hi][x..y][k] == s[lo + x..lo + y][k];
  }

  datatype Pattern =
    | DayKey     // [A-Z]+DAY [0-9]*[0-9]-[0-9]*[0-9]-[0-9][0-9]
    | SlashDate  // [0-9]*[0-9]/[0-9]*[0-9]/[12][09][012][0-9]

  /** End of the day-key match that starts at i, if one does. */
  function DayKeyAt(s: string, i: nat): (e: Option<nat>)
    requires i <= |s|
    ensures e.Some? ==> i < e.value <= |s|
  {
    var j := UpperEnd(s, i);
    if j - i >= 4 && s[j - 3..j] == "DAY" && j < |s| && s[j] == ' ' then
      var a := DigitEnd(s, j + 1);
      if a > j + 1 && a < |s| && s[a] == '-' then
        var b := DigitEnd(s, a + 1);
        if b > a + 1 && b + 2 < |s| && s[b] == '-' && IsDigit(s[b + 1]) && IsDigit(s[b + 2])
        then Some(b + 3)
        else None
      else None
    else None
  }

  predicate IsYearLead(c: char) { c == '1' || c == '2' }
  predicate IsYearSecond(c: char) { c == '0' || c == '9' }
  predicate IsYearThird(c: char) { '0' <= c <= '2' }

  /** End of the slash-date match that starts at i, if one does. */
  function SlashDateAt(s: string, i: nat): (e: Option<nat>)
    requires i <= |s|
    ensures e.Some? ==> i < e.value <= |s|
  {
    var a := DigitEnd(s, i);
    if a > i && a < |s| && s[a] == '/' then
      var b := DigitEnd(s, a + 1);
      if b > a + 1 && b + 4 < |s| && s[b] == '/' && IsYearLead(s[b + 1])
         && IsYearSecond(s[b + 2]) && IsYearThird(s[b + 3]) && IsDigit(s[b + 4])
      then Some(b + 5)
      else None
    else None
  }

  function MatchAt(p: Pattern, s: string, i: nat): (e: Option<nat>)
    requires i <= |s|
    ensures e.Some? ==> i < e.value <= |s|
  {
    match p
    case DayKey => DayKeyAt(s, i)
    case SlashDate => SlashDateAt(s, i)
  }

  /** The positions [start, end) of the matches found scanning from pos. */
  function Spans(p: Pattern, s: string, pos: nat): (r: seq<(nat, nat)>)
    requires pos <= |s|
    ensures forall k :: 0 <= k < |r| ==> pos <= r[k].0 < r[k].1 <= |s|
    decreases |s| - pos
  {
    if pos == |s| then []
    else match MatchAt(p, s, pos)
      case Some(e) => [(pos, e)] + Spans(p, s, e)
      case None => Spans(p, s, pos + 1)
  }

  /** Spans that come left to right and do not overlap. */
  predicate Ordered(r: seq<(nat, nat)>) {
    forall i, j :: 0 <= i < j < |r| ==> r[i].1 <= r[j].0
  }

  lemma OrderedCons(pos: nat, e: nat, rest: seq<(nat, nat)>)
    requires Ordered(rest)
    requires forall k :: 0 <= k < |rest| ==> e <= rest[k].0
    ensures Ordered([(pos, e)] + rest)
  {
    var r := [(pos, e)] + rest;
    forall i, j | 0 <= i < j < |r| ensures r[i].1 <= r[j].0 {
      assert r[j] == rest[j - 1];
      if i > 0 {
        assert r[i] == rest[i - 1];
      }
    }
  }

  /** The matches are found left to right and do not overlap. */
  lemma {:induction false} SpansOrdered(p: Pattern, s: string, pos: nat)
    requires pos <= |s|
    ensures Ordered(Spans(p, s, pos))
    decreases |s| - pos
  {
    if pos < |s| {
      var m := MatchAt(p, s, pos);
      if m.Some? {
        SpansOrdered(p, s, m.value);
        SpansMatch(p, s, pos, m.value);
        OrderedCons(pos, m.value, Spans(p, s, m.value));
      } else {
        SpansSkip(p, s, pos);
        SpansOrdered(p, s, pos + 1);
      }
    }
  }

  /** Each span found is a match of the pattern at its start. */
  lemma {:induction false} SpansAreMatches(p: Pattern, s: string, pos: nat)
    requires pos <= |s|
    ensures var r := Spans(p, s, pos);
            forall k :: 0 <= k < |r| ==> MatchAt(p, s, r[k].0) == Some(r[k].1)
    decreases |s| - pos
  {
    if pos < |s| {
      var m := MatchAt(p, s, pos);
      if m.Some? {
        var e := m.value;
        SpansAreMatches(p, s, e);
        SpansMatch(p, s, pos, e);
        MatchesCons(p, s, pos, e, Spans(p, s, e));
      } else {
        SpansSkip(p, s, pos);
        SpansAreMatches(p, s, pos + 1);
      }
    }
  }

  lemma MatchesCons(p: Pattern, s: string, pos: nat, e: nat, rest: seq<(nat, nat)>)
    requires pos <= |s| && MatchAt(p, s, pos) == Some(e)
    requires forall k :: 0 <= k < |rest| ==> rest[k].0 <= |s|
    requires forall k :: 0 <= k < |rest| ==> MatchAt(p, s, rest[k].0) == Some(rest[k].1)
    ensures var r := [(pos, e)] + rest;
            forall k :: 0 <= k < |r| ==> MatchAt(p, s, r[k].0) == Some(r[k].1)
  {
    var r := [(pos, e)] + rest;
    forall k | 0 <= k < |r| ensures MatchAt(p, s, r[k].0) == Some(r[k].1) {
      if k > 0 {
        assert r[k] == rest[k - 1];
      }
    }
  }

  /** Position q lies inside one of the spans. */
  predicate Covered(r: seq<(nat, nat)>, q: nat) {
    exists k :: 0 <= k < |r| && r[k].0 <= q < r[k].1
  }

  lemma CoveredCons(sp: (nat, nat), rest: seq<(nat, nat)>, q: nat)
    requires (sp.0 <= q < sp.1) || Covered(rest, q)
    ensures Covered([sp] + rest, q)
  {
    var r := [sp] + rest;
    if !(sp.0 <= q < sp.1) {
      var k :| 0 <= k < |rest| && rest[k].0 <= q < rest[k].1;
      assert r[k + 1] == rest[k];
    } else {
      assert r[0] == sp;
    }
  }

  /** No match is skipped: a match that starts at or after pos starts inside some span found
      from pos, either as that span's own start or inside a span that was taken first. */
  lemma {:induction false} SpansCover(p: Pattern, s: string, pos: nat, q: nat)
    requires pos <= q < |s| && MatchAt(p, s, q).Some?
    ensures Covered(Spans(p, s, pos), q)
    decreases |s| - pos
  {
    var m := MatchAt(p, s, pos);
    if m.Some? {
      SpansMatch(p, s, pos, m.value);
      if m.value <= q {
        SpansCover(p, s, m.value, q);
      }
      CoveredCons((pos, m.value), Spans(p, s, m.value), q);
    } else {
      SpansSkip(p, s, pos);
      SpansCover(p, s, pos + 1, q);
    }
  }

  /** `findall` misses no match: every position where the pattern matches lies within one of
      the spans it returns, so a match that overlaps none of them cannot exist. */
  lemma FindAllSkipsNone(p: Pattern, s: string, q: nat)
    requires q < |s| && MatchAt(p, s, q).Some?
    ensures exists k :: 0 <= k < |Spans(p, s, 0)| && Spans(p, s, 0)[k].0 <= q < Spans(p, s, 0)[k].1
  {
    SpansCover(p, s, 0, q);
    assert Covered(Spans(p, s, 0), q);
  }

  /** In particular, findall finds nothing exactly when the pattern matches nowhere. */
  lemma FindAllEmptyIff(p: Pattern, s: string)
    ensures FindAll(p, s) == [] <==> forall q :: 0 <= q < |s| ==> MatchAt(p, s, q).None?
  {
    if FindAll(p, s) != [] {
      SpanIsMatch(p, s, 0);
    } else {
      forall q | 0 <= q < |s| ensures MatchAt(p, s, q).None? {
        if MatchAt(p, s, q).Some? {
          FindAllSkipsNone(p, s, q);
        }
      }
    }
  }

  /** `re.findall(pattern, s)`: the matched substrings, left to right, non-overlapping. */
  function FindAll(p: Pattern, s: string): (r: seq<string>)
    ensures forall k :: 0 <= k < |r| ==> r[k] != []
  {
    var sp := Spans(p, s, 0);
    seq(|sp|, k requires 0 <= k < |sp| => s[sp[k].0..sp[k].1])
  }

  /** What `findall` returns: the text of one match per span, where each span starts at a
      position the pattern matches and ends where that match ends, the spans come left to
      right without overlapping, and every position where the pattern matches lies inside
      one of them. */
  lemma FindAllMeaning(p: Pattern, s: string)
    ensures var r, sp := FindAll(p, s), Spans(p, s, 0);
            && |r| == |sp|
            && Ordered(sp)
            && (forall k :: 0 <= k < |sp| ==>
                  MatchAt(p, s, sp[k].0) == Some(sp[k].1) && r[k] == s[sp[k].0..sp[k].1])
            && (forall q: nat :: q < |s| && MatchAt(p, s, q).Some? ==> Covered(sp, q))
  {
    SpansAreMatches(p, s, 0);
    SpansOrdered(p, s, 0);
    forall q: nat | q < |s| && MatchAt(p, s, q).Some? ensures Covered(Spans(p, s, 0), q) {
      SpansCover(p, s, 0, q);
    }
  }

  // ----- The day-key pattern, stated by its parts -----

  predicate DayKeyParts(u: string, d1: string, d2: string, y: string) {
    |u| >= 1 && AllUpper(u) && |d1| >= 1 && AllDigits(d1) && |d2| >= 1 && AllDigits(d2)
    && |y| == 2 && AllDigits(y)
  }

  function DayKeyText(u: string, d1: string, d2: string, y: string): string {
    u + "DAY " + d1 + "-" + d2 + "-" + y
  }

  /** `t` is a whole text the day-key pattern describes, e.g. "MONDAY 3-14-22". */
  ghost predicate IsDayKey(t: string) {
    exists u, d1, d2, y :: DayKeyParts(u, d1, d2, y) && DayKeyText(u, d1, d2, y) == t
  }

  /** Every day-key match is a day key. */
  lemma DayKeyMatchShape(s: string, i: nat)
    requires i <= |s| && DayKeyAt(s, i).Some?
    ensures IsDayKey(s[i..DayKeyAt(s, i).value])
  {
    var j := UpperEnd(s, i);
    var a := DigitEnd(s, j + 1);
    var b := DigitEnd(s, a + 1);
    var u, d1, d2, y := s[i..j - 3], s[j + 1..a], s[a + 1..b], s[b + 1..b + 3];
    assert DayKeyParts(u, d1, d2, y);
    assert DayKeyText(u, d1, d2, y) == s[i..b + 3];
  }

  /** Where the pieces of a day key sit inside its text. */
  lemma DayKeyTextPieces(u: string, d1: string, d2: string, y: string)
    requires |y| == 2
    ensures var t, p, q := DayKeyText(u, d1, d2, y), |u| + 4 + |d1|, |u| + 6 + |d1| + |d2|;
            |t| == q + 2 && t[..|u| + 3] == u + "DAY" && t[|u| + 3] == ' '
            && t[|u| + 4..p] == d1 && t[p] == '-' && t[p + 1..q - 1] == d2 && t[q - 1] == '-'
            && t[q..] == y
  {
    var t := DayKeyText(u, d1, d2, y);
    var pre := u + "DAY " + d1 + "-";
    assert t == pre + d2 + "-" + y;
    assert t[|pre|..|pre| + |d2|] == d2;
  }

  /** The pieces of a day key written at position i of `s`. */
  lemma DayKeyPiecesAt(s: string, i: nat, u: string, d1: string, d2: string, y: string)
    requires |y| == 2
    requires i + |DayKeyText(u, d1, d2, y)| <= |s|
    requires s[i..i + |DayKeyText(u, d1, d2, y)|] == DayKeyText(u, d1, d2, y)
    ensures var j, a, b := i + |u| + 3, i + |u| + 4 + |d1|, i + |u| + 5 + |d1| + |d2|;
            s[i..j] == u + "DAY" && s[j] == ' ' && s[j + 1..a] == d1 && s[a] == '-'
            && s[a + 1..b] == d2 && s[b] == '-' && s[b + 1..b + 3] == y
  {
    var t := DayKeyText(u, d1, d2, y);
    var j, a, b := i + |u| + 3, i + |u| + 4 + |d1|, i + |u| + 5 + |d1| + |d2|;
    DayKeyTextPieces(u, d1, d2, y);
    SliceOfSlice(s, i, i + |t|, 0, |u| + 3);
    SliceOfSlice(s, i, i + |t|, |u| + 4, a - i);
    SliceOfSlice(s, i, i + |t|, a + 1 - i, b - i);
    SliceOfSlice(s, i, i + |t|, b + 1 - i, |t|);
    assert s[j] == t[j - i];
    assert s[a] == t[a - i];
    assert s[b] == t[b - i];
  }

  lemma SpanIsMatch(p: Pattern, s: string, k: nat)
    requires k < |Spans(p, s, 0)|
    ensures MatchAt(p, s, Spans(p, s, 0)[k].0) == Some(Spans(p, s, 0)[k].1)
  {
    SpansAreMatches(p, s, 0);
  }

  /** Everything `findall` returns for the day-key pattern is a day key. */
  lemma FoundAreDayKeys(s: string)
    ensures forall k :: 0 <= k < |FindAll(DayKey, s)| ==> IsDayKey(FindAll(DayKey, s)[k])
  {
    var r, sp := FindAll(DayKey, s), Spans(DayKey, s, 0);
    forall k | 0 <= k < |r| ensures IsDayKey(r[k]) {
      SpanIsMatch(DayKey, s, k);
      DayKeyMatchShape(s, sp[k].0);
    }
  }

  /** A day key written at position i of `s` is matched there, whatever follows it. */
  lemma DayKeyMatchesAt(s: string, i: nat, u: string, d1: string, d2: string, y: string)
    requires DayKeyParts(u, d1, d2, y)
    requires i + |DayKeyText(u, d1, d2, y)| <= |s|
    requires s[i..i + |DayKeyText(u, d1, d2, y)|] == DayKeyText(u, d1, d2, y)
    ensures DayKeyAt(s, i) == Some(i + |DayKeyText(u, d1, d2, y)|)
  {
    DayKeyTextPieces(u, d1, d2, y);
    DayKeyPiecesAt(s, i, u, d1, d2, y);
    var j, a, b := i + |u| + 3, i + |u| + 4 + |d1|, i + |u| + 5 + |d1| + |d2|;
    UpperEndAt(s, i, j);
    DigitEndAt(s, j + 1, a);
    DigitEndAt(s, a + 1, b);
    assert s[j - 3..j] == "DAY";
    assert s[b + 1] == y[0] && s[b + 2] == y[1];
  }

  /** A paragraph that starts with a day key finds that key first. */
  lemma DayKeyFirstMatch(u: string, d1: string, d2: string, y: string, rest: string)
    requires DayKeyParts(u, d1, d2, y)
    ensures var s := DayKeyText(u, d1, d2, y) + rest;
            |FindAll(DayKey, s)| >= 1 && FindAll(DayKey, s)[0] == DayKeyText(u, d1, d2, y)
  {
    var t := DayKeyText(u, d1, d2, y);
    var s := t + rest;
    assert s[0..|t|] == t;
    DayKeyMatchesAt(s, 0, u, d1, d2, y);
  }

  /** A text that is exactly one day key matches once, as a whole. */
  lemma DayKeyAlone(u: string, d1: string, d2: string, y: string)
    requires DayKeyParts(u, d1, d2, y)
    ensures FindAll(DayKey, DayKeyText(u, d1, d2, y)) == [DayKeyText(u, d1, d2, y)]
  {
    var t := DayKeyText(u, d1, d2, y);
    assert t[0..|t|] == t;
    DayKeyMatchesAt(t, 0, u, d1, d2, y);
    assert Spans(DayKey, t, 0) == [(0, |t|)];
    assert FindAll(DayKey, t)[0] == t;
  }

  lemma SpaceJoinPieces(a: string, b: string)
    ensures var s := a + " " + b;
            |s| == |a| + 1 + |b| && s[0..|a|] == a && s[|a|] == ' ' && s[|a| + 1..|s|] == b
  {
  }

  lemma SpansMatch(p: Pattern, s: string, pos: nat, e: nat)
    requires pos < |s| && MatchAt(p, s, pos) == Some(e)
    ensures Spans(p, s, pos) == [(pos, e)] + Spans(p, s, e)
  {
  }

  lemma SpansSkip(p: Pattern, s: string, pos: nat)
    requires pos < |s| && MatchAt(p, s, pos).None?
    ensures Spans(p, s, pos) == Spans(p, s, pos + 1)
  {
  }

  /** No day key starts at a space. */
  lemma NoDayKeyAtSpace(s: string, pos: nat)
    requires pos < |s| && s[pos] == ' '
    ensures MatchAt(DayKey, s, pos).None?
  {
    assert UpperEnd(s, pos) == pos;
  }

  /** The scan over two matches separated by a space at position k. */
  lemma SpaceSeparatedSpans(s: string, k: nat)
    requires k < |s| && s[k] == ' '
    requires MatchAt(DayKey, s, 0) == Some(k)
    requires MatchAt(DayKey, s, k + 1) == Some(|s|)
    ensures Spans(DayKey, s, 0) == [(0, k), (k + 1, |s|)]
  {
    SpansMatch(DayKey, s, k + 1, |s|);
    NoDayKeyAtSpace(s, k);
    SpansSkip(DayKey, s, k);
    SpansMatch(DayKey, s, 0, k);
  }

  /** Two matches separated by one space are found as the two texts. */
  lemma SpaceJoinedMatches(t1: string, t2: string)
    requires MatchAt(DayKey, t1 + " " + t2, 0) == Some(|t1|)
    requires MatchAt(DayKey, t1 + " " + t2, |t1| + 1) == Some(|t1| + 1 + |t2|)
    ensures FindAll(DayKey, t1 + " " + t2) == [t1, t2]
  {
    var s := t1 + " " + t2;
    SpaceJoinPieces(t1, t2);
    SpaceSeparatedSpans(s, |t1|);
    TwoSpansFound(DayKey, s, |t1|);
    assert s[0..|t1|] == t1 && s[|t1| + 1..|s|] == t2;
  }

  lemma TwoSpansFound(p: Pattern, s: string, k: nat)
    requires k < |s| && Spans(p, s, 0) == [(0, k), (k + 1, |s|)]
    ensures FindAll(p, s) == [s[0..k], s[k + 1..|s|]]
  {
  }

  /** A day key followed by a space and more text is matched at the start. */
  lemma DayKeyBeforeSpace(u: string, d1: string, d2: string, y: string, rest: string)
    requires DayKeyParts(u, d1, d2, y)
    ensures MatchAt(DayKey, DayKeyText(u, d1, d2, y) + " " + rest, 0)
            == Some(|DayKeyText(u, d1, d2, y)|)
  {
    var t := DayKeyText(u, d1, d2, y);
    SpaceJoinPieces(t, rest);
    DayKeyMatchesAt(t + " " + rest, 0, u, d1, d2, y);
  }

  /** A day key after a first text and a space is matched there. */
  lemma DayKeyAfterSpace(first: string, v: string, e1: string, e2: string, z: string)
    requires DayKeyParts(v, e1, e2, z)
    ensures MatchAt(DayKey, first + " " + DayKeyText(v, e1, e2, z), |first| + 1)
            == Some(|first| + 1 + |DayKeyText(v, e1, e2, z)|)
  {
    var t := DayKeyText(v, e1, e2, z);
    SpaceJoinPieces(first, t);
    DayKeyMatchesAt(first + " " + t, |first| + 1, v, e1, e2, z);
  }

  /** Two day keys joined by a space match twice, one after the other. */
  lemma TwoDayKeys(u: string, d1: string, d2: string, y: string,
                   v: string, e1: string, e2: string, z: string)
    requires DayKeyParts(u, d1, d2, y) && DayKeyParts(v, e1, e2, z)
    ensures var t1, t2 := DayKeyText(u, d1, d2, y), DayKeyText(v, e1, e2, z);
            FindAll(DayKey, t1 + " " + t2) == [t1, t2]
  {
    DayKeyBeforeSpace(u, d1, d2, y, DayKeyText(v, e1, e2, z));
    DayKeyAfterSpace(DayKeyText(u, d1, d2, y), v, e1, e2, z);
    SpaceJoinedMatches(DayKeyText(u, d1, d2, y), DayKeyText(v, e1, e2, z));
  }

  /** Every day-key match holds "DAY ", so a text without it has no match. */
  lemma {:induction false} NoMarkerNoSpans(s: string, pos: nat)
    requires pos <= |s| && !Contains(s, "DAY ")
    ensures Spans(DayKey, s, pos) == []
    decreases |s| - pos
  {
    if pos < |s| {
      if DayKeyAt(s, pos).Some? {
        var j := UpperEnd(s, pos);
        assert s[j - 3..j + 1] == "DAY ";
        ContainsAt(s, "DAY ", j - 3);
      } else {
        NoMarkerNoSpans(s, pos + 1);
      }
    }
  }

  lemma NoMarkerNoMatch(s: string)
    requires !Contains(s, "DAY ")
    ensures FindAll(DayKey, s) == []
  {
    NoMarkerNoSpans(s, 0);
  }

  // ----- The slash-date pattern, stated by its parts -----

  predicate SlashDateParts(m: string, d: string, y: string) {
    |m| >= 1 && AllDigits(m) && |d| >= 1 && AllDigits(d)
    && |y| == 4 && IsYearLead(y[0]) && IsYearSecond(y[1]) && IsYearThird(y[2]) && IsDigit(y[3])
  }

  function SlashDateText(m: string, d: string, y: string): string {
    m + "/" + d + "/" + y
  }

  lemma SlashDateMatchesAt(s: string, i: nat, m: string, d: string, y: string)
    requires SlashDateParts(m, d, y)
    requires i + |SlashDateText(m, d, y)| <= |s|
    requires s[i..i + |SlashDateText(m, d, y)|] == SlashDateText(m, d, y)
    ensures SlashDateAt(s, i) == Some(i + |SlashDateText(m, d, y)|)
  {
    var t := SlashDateText(m, d, y);
    var a := i + |m|;
    assert forall k :: i <= k < i + |t| ==> s[k] == t[k - i];
    DigitEndAt(s, i, a);
    var b := a + 1 + |d|;
    DigitEndAt(s, a + 1, b);
    assert s[b + 1] == y[0] && s[b + 2] == y[1] && s[b + 3] == y[2] && s[b + 4] == y[3];
  }

  /** A text that is exactly one date matches once, as a whole. */
  lemma SlashDateAlone(m: string, d: string, y: string)
    requires SlashDateParts(m, d, y)
    ensures FindAll(SlashDate, SlashDateText(m, d, y)) == [SlashDateText(m, d, y)]
  {
    var t := SlashDateText(m, d, y);
    assert t[0..|t|] == t;
    SlashDateMatchesAt(t, 0, m, d, y);
    assert Spans(SlashDate, t, 0) == [(0, |t|)];
    assert FindAll(SlashDate, t)[0] == t;
  }

  predicate AtMostOneSlash(s: string) {
    forall p, q :: 0 <= p < q < |s| && s[p] == '/' ==> s[q] != '/'
  }

  /** Every date match holds two slashes, so a text with at most one has no match. */
  lemma {:induction false} OneSlashNoSpans(s: string, pos: nat)
    requires pos <= |s| && AtMostOneSlash(s)
    ensures Spans(SlashDate, s, pos) == []
    decreases |s| - pos
  {
    if pos < |s| {
      OneSlashNoSpans(s, pos + 1);
    }
  }

  lemma OneSlashNoDate(s: string)
    requires AtMostOneSlash(s)
    ensures FindAll(SlashDate, s) == []
  {
    OneSlashNoSpans(s, 0);
  }
}
