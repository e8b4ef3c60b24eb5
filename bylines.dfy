/** `get_bylines` in tippecanews/utils/retrievers.py without its feed fetches: the choice of
    the pay-period window, and the Slack blocks built from the per-reporter summary. The
    summary itself comes from `process_bylines`, which is not part of this model; today's
    date, read from the clock in the source, is a parameter. */
module Bylines {
  import opened Wrappers
  import opened Strings
  import opened Patterns
  import opened Slack

  /** A calendar day, as `datetime.now()` gives it. */
  datatype Date = Date(day: nat, month: nat, year: nat)

  /** `f"{month}/{day}/{year}"` */
  function DateText(month: nat, day: nat, year: nat): string {
    Decimal(month) + "/" + Decimal(day) + "/" + Decimal(year)
  }

  // ----- The window -----

  /** The window with the first half of the month ending on the 15th. */
  function Window(query: string, today: Date): (string, string) {
    var m := FindAll(SlashDate, query);
    if |m| == 2 then (m[0], m[1])
    else if today.day <= 15 then (DateText(today.month, 1, today.year), DateText(today.month, 15, today.year))
    else (DateText(today.month, 16, today.year), DateText(today.month, today.day, today.year))
  }

  /** The window as written: with no pair of dates in the query, the first half of the month
      ends at `f"{d.month}/15{d.year}"`, which lacks the slash before the year. It starts where
      the corrected window starts, and differs from it only at the end of a first half. */
  function WindowAsWritten(query: string, today: Date): (w: (string, string))
    ensures w.0 == Window(query, today).0
    ensures |FindAll(SlashDate, query)| == 2 || today.day > 15 ==> w == Window(query, today)
  {
    var m := FindAll(SlashDate, query);
    if |m| == 2 then (m[0], m[1])
    else if today.day <= 15 then
      (DateText(today.month, 1, today.year), Decimal(today.month) + "/15" + Decimal(today.year))
    else (DateText(today.month, 16, today.year), DateText(today.month, today.day, today.year))
  }

  /** Without two dates in the query, the window is the half of today's month that holds
      today: the 1st to the 15th, or the 16th up to today. */
  lemma DefaultWindowIsPayPeriod(query: string, today: Date)
    requires |FindAll(SlashDate, query)| != 2 && 1 <= today.day
    ensures var w := Window(query, today);
            exists first: nat, last: nat ::
              w == (DateText(today.month, first, today.year), DateText(today.month, last, today.year))
              && first <= today.day <= last
              && ((first == 1 && last == 15) || (first == 16 && last == today.day))
  {
    var w := Window(query, today);
    if today.day <= 15 {
      assert w == (DateText(today.month, 1, today.year), DateText(today.month, 15, today.year));
    } else {
      assert w == (DateText(today.month, 16, today.year),
                   DateText(today.month, today.day, today.year));
    }
  }

  /** t is written in s from position i on. */
  predicate OccursAt(s: string, t: string, i: nat) {
    i + |t| <= |s| && s[i..i + |t|] == t
  }

  /** Two dates in the query give the window in the order they are written. */
  lemma QueryWindowInTextOrder(query: string, today: Date)
    requires |FindAll(SlashDate, query)| == 2
    ensures var w := Window(query, today);
            exists i: nat, j: nat :: OccursAt(query, w.0, i) && OccursAt(query, w.1, j) && i + |w.0| <= j
  {
    var sp := Spans(SlashDate, query, 0);
    SpansOrdered(SlashDate, query, 0);
    assert sp[0].1 <= sp[1].0;
    var w := Window(query, today);
    assert OccursAt(query, w.0, sp[0].0);
    assert OccursAt(query, w.1, sp[1].0);
  }

  lemma DecimalFourDigits(y: nat)
    requires 1000 <= y <= 9999
    ensures Decimal(y) == [DigitChar(y / 1000), DigitChar(y / 100 % 10),
                           DigitChar(y / 10 % 10), DigitChar(y % 10)]
  {
    assert y / 10 / 10 == y / 100;
    assert y / 100 / 10 == y / 1000;
    assert Decimal(y / 1000) == [DigitChar(y / 1000)];
    assert Decimal(y / 100) == Decimal(y / 1000) + [DigitChar(y / 100 % 10)];
    assert Decimal(y / 10) == Decimal(y / 100) + [DigitChar(y / 10 % 10)];
    assert Decimal(y) == Decimal(y / 10) + [DigitChar(y % 10)];
  }

  /** As written, the end of a first half-month holds only one slash, so it is not a date at
      all by the pattern the same function uses for dates: "3/152022" for 15 March 2022. */
  lemma EndAsWrittenIsNoDate(query: string, today: Date)
    requires |FindAll(SlashDate, query)| != 2 && today.day <= 15
    ensures FindAll(SlashDate, WindowAsWritten(query, today).1) == []
  {
    var e := WindowAsWritten(query, today).1;
    var a, b := Decimal(today.month), Decimal(today.year);
    assert Decimal(15) == "15";
    assert e == a + "/" + ("15" + b);
    var tail := "15" + b;
    assert AllDigits(tail) by {
      forall k | 0 <= k < |tail| ensures IsDigit(tail[k]) {
        if k >= 2 {
          assert tail[k] == b[k - 2];
        }
      }
    }
    forall k | 0 <= k < |e| && k != |a| ensures e[k] != '/' {
      if k < |a| {
        assert e[k] == a[k];
      } else {
        assert e[k] == tail[k - |a| - 1];
      }
    }
    OneSlashNoDate(e);
  }

  /** The corrected end, for a year 2000 to 2029, is one date by the same pattern. */
  lemma EndIsDate(query: string, today: Date)
    requires |FindAll(SlashDate, query)| != 2 && today.day <= 15
    requires 2000 <= today.year <= 2029
    ensures FindAll(SlashDate, Window(query, today).1) == [Window(query, today).1]
  {
    var y := today.year;
    DecimalFourDigits(y);
    assert Decimal(15) == "15";
    var yt := Decimal(y);
    assert yt[0] == '2' && yt[1] == '0';
    assert IsYearThird(yt[2]);
    assert SlashDateParts(Decimal(today.month), "15", yt);
    SlashDateAlone(Decimal(today.month), "15", yt);
  }

  // ----- The blocks -----

  /** One reporter's entry of the summary: the name, the articles and their count. */
  datatype Reporter = Reporter(name: string, articles: seq<string>, count: nat)

  /** `res_articles`: one "* article" line per article. */
  function ArticleList(articles: seq<string>): string {
    if articles == [] then ""
    else ArticleList(articles[..|articles| - 1]) + "* " + articles[|articles| - 1] + "\n"
  }

  /** The number of times c occurs in s. */
  function Occurrences(c: char, s: string): nat {
    if s == [] then 0 else Occurrences(c, s[..|s| - 1]) + (if s[|s| - 1] == c then 1 else 0)
  }

  lemma {:induction false} OccurrencesAppend(c: char, a: string, b: string)
    ensures Occurrences(c, a + b) == Occurrences(c, a) + Occurrences(c, b)
    decreases |b|
  {
    if b == [] {
      assert a + b == a;
    } else {
      assert (a + b)[..|a + b| - 1] == a + b[..|b| - 1];
      assert (a + b)[|a + b| - 1] == b[|b| - 1];
      OccurrencesAppend(c, a, b[..|b| - 1]);
    }
  }

  /** With no line break inside the titles, the list has exactly one line per article. */
  lemma {:induction false} ArticleListLines(articles: seq<string>)
    requires forall k :: 0 <= k < |articles| ==> Occurrences('\n', articles[k]) == 0
    ensures Occurrences('\n', ArticleList(articles)) == |articles|
  {
    if articles != [] {
      var init, last := articles[..|articles| - 1], articles[|articles| - 1];
      ArticleListLines(init);
      OccurrencesAppend('\n', ArticleList(init) + "* " + last, "\n");
      OccurrencesAppend('\n', ArticleList(init) + "* ", last);
      OccurrencesAppend('\n', ArticleList(init), "* ");
    }
  }

  /** The list of several articles is the lists of each, one after the other. */
  lemma {:induction false} ArticleListAppend(a: seq<string>, b: seq<string>)
    ensures ArticleList(a + b) == ArticleList(a) + ArticleList(b)
    decreases |b|
  {
    if b == [] {
      assert a + b == a;
    } else {
      assert (a + b)[..|a + b| - 1] == a + b[..|b| - 1];
      assert (a + b)[|a + b| - 1] == b[|b| - 1];
      ArticleListAppend(a, b[..|b| - 1]);
    }
  }

  function ReporterText(r: Reporter): string {
    r.name + ": " + Decimal(r.count) + " \n" + ArticleList(r.articles)
  }

  function SummaryHeader(n: nat, start: string, end: string): string {
    Decimal(n) + " reporters wrote articles between " + start + " and " + end
  }

  /** One section per reporter, in the summary's order. */
  function Sections(bylines: seq<Reporter>): seq<Block> {
    if bylines == [] then []
    else Sections(bylines[..|bylines| - 1]) + [Section(ReporterText(bylines[|bylines| - 1]), false)]
  }

  lemma {:induction false} SectionsShape(bylines: seq<Reporter>)
    ensures |Sections(bylines)| == |bylines|
    ensures forall k :: 0 <= k < |bylines| ==>
              Sections(bylines)[k] == Section(ReporterText(bylines[k]), false)
  {
    if bylines != [] {
      var init := bylines[..|bylines| - 1];
      SectionsShape(init);
      forall k | 0 <= k < |bylines|
        ensures Sections(bylines)[k] == Section(ReporterText(bylines[k]), false)
      {
        if k < |init| {
          assert bylines[k] == init[k];
        }
      }
    }
  }

  /** The blocks for the window and the summary. */
  function BylineBlocks(start: string, end: string, bylines: seq<Reporter>): seq<Block> {
    [Section(SummaryHeader(|bylines|, start, end), false), Divider] + Sections(bylines)
  }

  /** The header, a divider, then one section per reporter in the summary's order. */
  lemma BylineBlocksShape(start: string, end: string, bylines: seq<Reporter>)
    ensures var bs := BylineBlocks(start, end, bylines);
            |bs| == 2 + |bylines|
            && bs[0] == Section(SummaryHeader(|bylines|, start, end), false) && bs[1] == Divider
            && forall k :: 0 <= k < |bylines| ==> bs[2 + k] == Section(ReporterText(bylines[k]), false)
  {
    SectionsShape(bylines);
    var hd := [Section(SummaryHeader(|bylines|, start, end), false), Divider];
    var ss := Sections(bylines);
    forall k | 0 <= k < |bylines| ensures (hd + ss)[2 + k] == ss[k] {
    }
  }

  /** The inner loop of `get_bylines`: one reporter's article lines. */
  method ArticleLines(articles: seq<string>) returns (resArticles: string)
    ensures resArticles == ArticleList(articles)
  {
    resArticles := "";
    for j := 0 to |articles|
      invariant resArticles == ArticleList(articles[..j])
    {
      assert articles[..j + 1][..j] == articles[..j];
      resArticles := resArticles + "* " + articles[j] + "\n";
    }
    assert articles[..|articles|] == articles;
  }

  /** One reporter's section text, built as the loop body of `get_bylines` builds it. */
  method ReporterLine(reporter: Reporter) returns (resString: string)
    ensures resString == ReporterText(reporter)
  {
    var resArticles := ArticleLines(reporter.articles);
    resString := reporter.name + ": " + Decimal(reporter.count) + " \n" + resArticles;
  }

  /** The loops of `get_bylines` that build the blocks. */
  method BuildBlocks(start: string, end: string, bylines: seq<Reporter>) returns (blocks: seq<Block>)
    ensures blocks == BylineBlocks(start, end, bylines)
  {
    var header := [Section(SummaryHeader(|bylines|, start, end), false)];
    blocks := header + [Divider];
    for i := 0 to |bylines|
      invariant blocks == header + [Divider] + Sections(bylines[..i])
    {
      assert bylines[..i + 1][..i] == bylines[..i];
      var resString := ReporterLine(bylines[i]);
      blocks := blocks + [Section(resString, false)];
    }
    assert bylines[..|bylines|] == bylines;
  }

  /** `get_bylines` as written, from today's date and the summary of the window's feeds. */
  method GetBylinesAsWritten(query: string, today: Date, bylines: seq<Reporter>)
    returns (blocks: seq<Block>)
    ensures var w := WindowAsWritten(query, today); blocks == BylineBlocks(w.0, w.1, bylines)
  {
    var m := FindAll(SlashDate, query);
    var startStr, endStr;
    if |m| == 2 {
      startStr, endStr := m[0], m[1];
    } else if today.day <= 15 {
      startStr := DateText(today.month, 1, today.year);
      endStr := Decimal(today.month) + "/15" + Decimal(today.year);
    } else {
      startStr := DateText(today.month, 16, today.year);
      endStr := DateText(today.month, today.day, today.year);
    }
    blocks := BuildBlocks(startStr, endStr, bylines);
  }

  /** `get_bylines` with the corrected window. */
  method GetBylines(query: string, today: Date, bylines: seq<Reporter>) returns (blocks: seq<Block>)
    ensures var w := Window(query, today); blocks == BylineBlocks(w.0, w.1, bylines)
  {
    var m := FindAll(SlashDate, query);
    var startStr, endStr;
    if |m| == 2 {
      startStr, endStr := m[0], m[1];
    } else if today.day <= 15 {
      startStr := DateText(today.month, 1, today.year);
      endStr := DateText(today.month, 15, today.year);
    } else {
      startStr := DateText(today.month, 16, today.year);
      endStr := DateText(today.month, today.day, today.year);
    }
    blocks := BuildBlocks(startStr, endStr, bylines);
  }
}
