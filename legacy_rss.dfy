/** The legacy script rss.py: for each feed link in turn, every entry of the parsed feed is
    written out, looked up by its title in the sqlite table `purdue_news`, posted to Slack when
    no row has that title, and then offered to `insert or ignore`. A `try`/`except` around each
    feed's entries means that an exception abandons the rest of that feed only.

    The table is a sequence of rows. Whether `insert or ignore` adds a row depends on a
    constraint the script does not show, so it is the parameter `accepts`; whether the
    `requests.post` call returns rather than raising is the parameter `postReturns`, given the
    texts posted before and the text of this post. */
module LegacyRss {
  import opened Wrappers

  /** A parsed feed entry; an element the feed lacks is `None`, and reading it raises. */
  datatype Entry = Entry(title: Option<string>, link: Option<string>,
                         published: Option<string>, summary: Option<string>)

  /** A row of `purdue_news(title, link, published, summary)`. */
  datatype Row = Row(title: string, link: string, published: string, summary: string)

  /** The table and the texts posted to Slack so far, in order. */
  datatype Store = Store(rows: seq<Row>, posted: seq<string>)

  predicate IsAscii(s: string) {
    forall k :: 0 <= k < |s| ==> s[k] < 128 as char
  }

  /** `str(v)` returns, in the Python 2 the script is written for: the element is present and
      encodes as ASCII. */
  predicate Printable(v: Option<string>) {
    v.Some? && IsAscii(v.value)
  }

  /** The four `print str(...)` lines all return. */
  predicate Readable(x: Entry) {
    Printable(x.title) && Printable(x.link) && Printable(x.published) && Printable(x.summary)
  }

  function RowOf(x: Entry): Row
    requires Readable(x)
  {
    Row(x.title.value, x.link.value, x.published.value, x.summary.value)
  }

  /** `select * from purdue_news where title=?` finds a row. */
  predicate HasTitle(rows: seq<Row>, t: string) {
    exists k :: 0 <= k < |rows| && rows[k].title == t
  }

  /** `insert or ignore`: the row is added when the table accepts it. */
  function InsertOrIgnore(rows: seq<Row>, r: Row, accepts: (seq<Row>, Row) -> bool): seq<Row> {
    if accepts(rows, r) then rows + [r] else rows
  }

  /** An insert that the table accepts keeps every row and makes the entry's title found by
      the next lookup; one it ignores changes nothing. */
  lemma InsertedRowFound(rows: seq<Row>, x: Entry, accepts: (seq<Row>, Row) -> bool)
    requires Readable(x)
    ensures var after := InsertOrIgnore(rows, RowOf(x), accepts);
            |rows| <= |after| && after[..|rows|] == rows
            && (accepts(rows, RowOf(x)) ==> HasTitle(after, x.title.value))
            && (!accepts(rows, RowOf(x)) ==> after == rows)
  {
    var after := InsertOrIgnore(rows, RowOf(x), accepts);
    if accepts(rows, RowOf(x)) {
      assert after[|rows|].title == x.title.value;
    }
  }

  /** The state after an entry, and whether the entry raised. */
  datatype Outcome = Outcome(store: Store, raised: bool)

  /** One entry of the inner loop. */
  function EntryStep(st: Store, x: Entry, postReturns: (seq<string>, string) -> bool,
                     accepts: (seq<Row>, Row) -> bool): Outcome
  {
    if !Readable(x) then Outcome(st, true)
    else
      var t := x.title.value;
      var sent := !HasTitle(st.rows, t);
      if sent && !postReturns(st.posted, t) then Outcome(st, true)
      else
        var posted := if sent then st.posted + [t] else st.posted;
        Outcome(Store(InsertOrIgnore(st.rows, RowOf(x), accepts), posted), false)
  }

  /** The entries of one feed, up to the first that raises. */
  function FeedRun(st: Store, es: seq<Entry>, postReturns: (seq<string>, string) -> bool,
                   accepts: (seq<Row>, Row) -> bool): Outcome
  {
    if es == [] then Outcome(st, false)
    else
      var prev := FeedRun(st, es[..|es| - 1], postReturns, accepts);
      if prev.raised then prev else EntryStep(prev.store, es[|es| - 1], postReturns, accepts)
  }

  /** All feeds in link order; the `except` drops whatever a feed raised. */
  function RunAll(st: Store, feeds: seq<seq<Entry>>, postReturns: (seq<string>, string) -> bool,
                  accepts: (seq<Row>, Row) -> bool): Store
  {
    if feeds == [] then st
    else FeedRun(RunAll(st, feeds[..|feeds| - 1], postReturns, accepts), feeds[|feeds| - 1],
                 postReturns, accepts).store
  }

  // ----- One entry -----

  /** A readable entry whose post returns is posted exactly when no row has its title. */
  lemma TitleOnlyLookup(st: Store, x: Entry, postReturns: (seq<string>, string) -> bool,
                        accepts: (seq<Row>, Row) -> bool)
    requires Readable(x) && postReturns(st.posted, x.title.value)
    ensures var o := EntryStep(st, x, postReturns, accepts);
            !o.raised
            && (o.store.posted != st.posted <==> !HasTitle(st.rows, x.title.value))
            && (o.store.posted == st.posted || o.store.posted == st.posted + [x.title.value])
  {
  }

  /** Entries with the same title get the same posting decision, whatever their links. */
  lemma LookupIgnoresLink(st: Store, x: Entry, y: Entry, postReturns: (seq<string>, string) -> bool,
                          accepts: (seq<Row>, Row) -> bool)
    requires Readable(x) && Readable(y) && x.title == y.title
    ensures EntryStep(st, x, postReturns, accepts).store.posted
            == EntryStep(st, y, postReturns, accepts).store.posted
    ensures EntryStep(st, x, postReturns, accepts).raised
            == EntryStep(st, y, postReturns, accepts).raised
  {
  }

  /** Every entry that does not raise is offered to the insert, posted or not. */
  lemma EveryEntryOffered(st: Store, x: Entry, postReturns: (seq<string>, string) -> bool,
                          accepts: (seq<Row>, Row) -> bool)
    requires !EntryStep(st, x, postReturns, accepts).raised
    ensures Readable(x)
    ensures EntryStep(st, x, postReturns, accepts).store.rows
            == InsertOrIgnore(st.rows, RowOf(x), accepts)
  {
  }

  /** An entry that raises changes nothing: the raise comes before the insert. */
  lemma RaiseChangesNothing(st: Store, x: Entry, postReturns: (seq<string>, string) -> bool,
                            accepts: (seq<Row>, Row) -> bool)
    requires EntryStep(st, x, postReturns, accepts).raised
    ensures EntryStep(st, x, postReturns, accepts).store == st
    ensures !Readable(x) || (!HasTitle(st.rows, x.title.value) && !postReturns(st.posted, x.title.value))
  {
  }

  /** An entry with a title the table already holds is never posted. */
  lemma StoredTitleNotPosted(st: Store, x: Entry, postReturns: (seq<string>, string) -> bool,
                             accepts: (seq<Row>, Row) -> bool)
    requires Readable(x) && HasTitle(st.rows, x.title.value)
    ensures EntryStep(st, x, postReturns, accepts).store.posted == st.posted
  {
  }

  // ----- Folding lemmas -----

  /** The table and the posts only grow, and nothing already there changes. */
  predicate Extends(st: Store, r: Store) {
    |st.rows| <= |r.rows| && r.rows[..|st.rows|] == st.rows
    && |st.posted| <= |r.posted| && r.posted[..|st.posted|] == st.posted
  }

  lemma ExtendsTrans(a: Store, b: Store, c: Store)
    requires Extends(a, b) && Extends(b, c)
    ensures Extends(a, c)
  {
    assert c.rows[..|a.rows|] == c.rows[..|b.rows|][..|a.rows|];
    assert c.posted[..|a.posted|] == c.posted[..|b.posted|][..|a.posted|];
  }

  lemma EntryStepExtends(st: Store, x: Entry, postReturns: (seq<string>, string) -> bool,
                         accepts: (seq<Row>, Row) -> bool)
    ensures Extends(st, EntryStep(st, x, postReturns, accepts).store)
  {
    var r := EntryStep(st, x, postReturns, accepts).store;
    if r != st {
      assert r.rows[..|st.rows|] == st.rows;
      assert r.posted[..|st.posted|] == st.posted;
    }
  }

  lemma {:induction false} FeedRunExtends(st: Store, es: seq<Entry>, postReturns: (seq<string>, string) -> bool,
                                          accepts: (seq<Row>, Row) -> bool)
    ensures Extends(st, FeedRun(st, es, postReturns, accepts).store)
  {
    if es != [] {
      var prev := FeedRun(st, es[..|es| - 1], postReturns, accepts);
      FeedRunExtends(st, es[..|es| - 1], postReturns, accepts);
      if !prev.raised {
        EntryStepExtends(prev.store, es[|es| - 1], postReturns, accepts);
        ExtendsTrans(st, prev.store, FeedRun(st, es, postReturns, accepts).store);
      }
    }
  }

  /** Rows are never removed or changed, nor are posts taken back. */
  lemma {:induction false} RunGrows(st: Store, feeds: seq<seq<Entry>>, postReturns: (seq<string>, string) -> bool,
                                    accepts: (seq<Row>, Row) -> bool)
    ensures Extends(st, RunAll(st, feeds, postReturns, accepts))
  {
    if feeds != [] {
      var mid := RunAll(st, feeds[..|feeds| - 1], postReturns, accepts);
      RunGrows(st, feeds[..|feeds| - 1], postReturns, accepts);
      FeedRunExtends(mid, feeds[|feeds| - 1], postReturns, accepts);
      ExtendsTrans(st, mid, RunAll(st, feeds, postReturns, accepts));
    }
  }

  /** Within a feed, the entries after one that raised are not read. */
  lemma {:induction false} RaiseAbandonsFeed(st: Store, es: seq<Entry>, rest: seq<Entry>,
                                             postReturns: (seq<string>, string) -> bool,
                                             accepts: (seq<Row>, Row) -> bool)
    requires FeedRun(st, es, postReturns, accepts).raised
    ensures FeedRun(st, es + rest, postReturns, accepts) == FeedRun(st, es, postReturns, accepts)
    decreases |rest|
  {
    if rest == [] {
      assert es + rest == es;
    } else {
      var init := rest[..|rest| - 1];
      assert (es + rest)[..|es + rest| - 1] == es + init;
      RaiseAbandonsFeed(st, es, init, postReturns, accepts);
    }
  }

  /** Without a raise, a feed's entries are handled one after the other. */
  lemma {:induction false} FeedRunAppend(st: Store, es: seq<Entry>, rest: seq<Entry>,
                                         postReturns: (seq<string>, string) -> bool,
                                         accepts: (seq<Row>, Row) -> bool)
    requires !FeedRun(st, es, postReturns, accepts).raised
    ensures FeedRun(st, es + rest, postReturns, accepts)
            == FeedRun(FeedRun(st, es, postReturns, accepts).store, rest, postReturns, accepts)
    decreases |rest|
  {
    if rest == [] {
      assert es + rest == es;
    } else {
      var init := rest[..|rest| - 1];
      assert (es + rest)[..|es + rest| - 1] == es + init;
      assert (es + rest)[|es + rest| - 1] == rest[|rest| - 1];
      FeedRunAppend(st, es, init, postReturns, accepts);
    }
  }

  /** Feeds are handled in link order, each starting where the one before left off. */
  lemma {:induction false} RunAllAppend(st: Store, a: seq<seq<Entry>>, b: seq<seq<Entry>>,
                                        postReturns: (seq<string>, string) -> bool,
                                        accepts: (seq<Row>, Row) -> bool)
    ensures RunAll(st, a + b, postReturns, accepts)
            == RunAll(RunAll(st, a, postReturns, accepts), b, postReturns, accepts)
    decreases |b|
  {
    if b == [] {
      assert a + b == a;
    } else {
      var init := b[..|b| - 1];
      assert (a + b)[..|a + b| - 1] == a + init;
      assert (a + b)[|a + b| - 1] == b[|b| - 1];
      RunAllAppend(st, a, init, postReturns, accepts);
    }
  }

  // ----- Titles already stored -----

  lemma HasTitleKept(a: seq<Row>, b: seq<Row>, t: string)
    requires HasTitle(a, t) && |a| <= |b| && b[..|a|] == a
    ensures HasTitle(b, t)
  {
    var k :| 0 <= k < |a| && a[k].title == t;
    assert b[k] == b[..|a|][k];
  }

  /** Nothing posted after `st` has title t. */
  predicate NotPostedSince(st: Store, r: Store, t: string) {
    |st.posted| <= |r.posted| && forall k :: |st.posted| <= k < |r.posted| ==> r.posted[k] != t
  }

  lemma NotPostedTrans(a: Store, b: Store, c: Store, t: string)
    requires Extends(a, b) && Extends(b, c)
    requires NotPostedSince(a, b, t) && NotPostedSince(b, c, t)
    ensures NotPostedSince(a, c, t)
  {
    forall k | |a.posted| <= k < |c.posted| ensures c.posted[k] != t {
      if k < |b.posted| {
        assert c.posted[k] == c.posted[..|b.posted|][k];
      }
    }
  }

  lemma {:induction false} FeedStoredTitle(st: Store, es: seq<Entry>, t: string,
                                           postReturns: (seq<string>, string) -> bool,
                                           accepts: (seq<Row>, Row) -> bool)
    requires HasTitle(st.rows, t)
    ensures NotPostedSince(st, FeedRun(st, es, postReturns, accepts).store, t)
  {
    if es != [] {
      var prev := FeedRun(st, es[..|es| - 1], postReturns, accepts);
      FeedStoredTitle(st, es[..|es| - 1], t, postReturns, accepts);
      if !prev.raised {
        FeedRunExtends(st, es[..|es| - 1], postReturns, accepts);
        HasTitleKept(st.rows, prev.store.rows, t);
        var r := EntryStep(prev.store, es[|es| - 1], postReturns, accepts).store;
        EntryStepExtends(prev.store, es[|es| - 1], postReturns, accepts);
        assert NotPostedSince(prev.store, r, t);
        NotPostedTrans(st, prev.store, r, t);
      }
    }
  }

  /** Once a row with title t is in the table, no later entry with that title is posted, in
      this feed or any later one. */
  lemma {:induction false} StoredTitleNeverPosted(st: Store, feeds: seq<seq<Entry>>, t: string,
                                                  postReturns: (seq<string>, string) -> bool,
                                                  accepts: (seq<Row>, Row) -> bool)
    requires HasTitle(st.rows, t)
    ensures NotPostedSince(st, RunAll(st, feeds, postReturns, accepts), t)
  {
    if feeds != [] {
      var mid := RunAll(st, feeds[..|feeds| - 1], postReturns, accepts);
      StoredTitleNeverPosted(st, feeds[..|feeds| - 1], t, postReturns, accepts);
      RunGrows(st, feeds[..|feeds| - 1], postReturns, accepts);
      HasTitleKept(st.rows, mid.rows, t);
      FeedStoredTitle(mid, feeds[|feeds| - 1], t, postReturns, accepts);
      FeedRunExtends(mid, feeds[|feeds| - 1], postReturns, accepts);
      NotPostedTrans(st, mid, RunAll(st, feeds, postReturns, accepts), t);
    }
  }

  /** An entry whose row was inserted keeps every later entry with its title from being
      posted. */
  lemma InsertedTitleNotPostedAgain(st: Store, x: Entry, feeds: seq<seq<Entry>>,
                                    postReturns: (seq<string>, string) -> bool,
                                    accepts: (seq<Row>, Row) -> bool)
    requires Readable(x) && !EntryStep(st, x, postReturns, accepts).raised
    requires accepts(st.rows, RowOf(x))
    ensures var after := EntryStep(st, x, postReturns, accepts).store;
            NotPostedSince(after, RunAll(after, feeds, postReturns, accepts), x.title.value)
  {
    var after := EntryStep(st, x, postReturns, accepts).store;
    assert after.rows[|st.rows|] == RowOf(x);
    StoredTitleNeverPosted(after, feeds, x.title.value, postReturns, accepts);
  }

  /** When the insert ignores a row, a later entry with the same title finds no row: it is
      posted again if that second post returns, and abandons the feed if it raises. */
  lemma IgnoredRowPostedAgain(st: Store, x: Entry, y: Entry,
                              postReturns: (seq<string>, string) -> bool,
                              accepts: (seq<Row>, Row) -> bool)
    requires Readable(x) && Readable(y) && x.title == y.title
    requires !HasTitle(st.rows, x.title.value) && postReturns(st.posted, x.title.value)
    requires !accepts(st.rows, RowOf(x))
    ensures var t, mid := x.title.value, EntryStep(st, x, postReturns, accepts).store;
            var o := EntryStep(mid, y, postReturns, accepts);
            mid == Store(st.rows, st.posted + [t]) && !HasTitle(mid.rows, t)
            && (postReturns(mid.posted, t) ==> !o.raised && o.store.posted == st.posted + [t, t])
            && (!postReturns(mid.posted, t) ==> o.raised && o.store == mid)
  {
  }

  // ----- The script as written -----

  /** The `purdue_news` table and the Slack channel. */
  class PurdueNews {
    var rows: seq<Row>
    var posted: seq<string>

    constructor(table: seq<Row>)
      ensures rows == table && posted == []
    {
      rows := table;
      posted := [];
    }

    /** The `try` block for one feed: true when an entry raised. */
    method Feed(entries: seq<Entry>, postReturns: (seq<string>, string) -> bool,
                accepts: (seq<Row>, Row) -> bool) returns (raised: bool)
      modifies this
      ensures var o := FeedRun(Store(old(rows), old(posted)), entries, postReturns, accepts);
              Store(rows, posted) == o.store && raised == o.raised
    {
      ghost var start := Store(rows, posted);
      raised := false;
      for j := 0 to |entries|
        invariant FeedRun(start, entries[..j], postReturns, accepts) == Outcome(Store(rows, posted), false)
      {
        var x := entries[j];
        assert entries[..j + 1][..j] == entries[..j];
        if !Readable(x) {
          RaiseAbandonsFeed(start, entries[..j + 1], entries[j + 1..], postReturns, accepts);
          assert entries[..j + 1] + entries[j + 1..] == entries;
          return true;
        }
        var t := x.title.value;
        if !HasTitle(rows, t) {
          if !postReturns(posted, t) {
            RaiseAbandonsFeed(start, entries[..j + 1], entries[j + 1..], postReturns, accepts);
            assert entries[..j + 1] + entries[j + 1..] == entries;
            return true;
          }
          posted := posted + [t];
        }
        var row := Row(t, x.link.value, x.published.value, x.summary.value);
        if accepts(rows, row) {
          rows := rows + [row];
        }
      }
      assert entries[..|entries|] == entries;
    }

    /** The loop over `xml_links`; the `except` swallows what a feed raised. */
    method Run(feeds: seq<seq<Entry>>, postReturns: (seq<string>, string) -> bool,
               accepts: (seq<Row>, Row) -> bool)
      modifies this
      ensures Store(rows, posted) == RunAll(Store(old(rows), old(posted)), feeds, postReturns, accepts)
    {
      ghost var start := Store(rows, posted);
      for i := 0 to |feeds|
        invariant RunAll(start, feeds[..i], postReturns, accepts) == Store(rows, posted)
      {
        assert feeds[..i + 1][..i] == feeds[..i];
        var _ := Feed(feeds[i], postReturns, accepts);
      }
      assert feeds[..|feeds|] == feeds;
    }
  }
}
