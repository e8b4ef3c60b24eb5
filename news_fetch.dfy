/** The `/newsfetch` run of app.py: for every feed URL in turn, and every item of that feed,
    look up the item's exact (title, link) pair in the `news` collection; when no document
    has it, add the pair and then send the item to Slack.

    The collection is a sequence of pairs and "send" appends to an outbox. The fetch and parse
    of a feed either gives its items or fails. A failure does not silently skip anything:
    `requests.get`, `atoma`, `pub_date.strftime` on a missing date, `"http" in link` on a
    missing link and `raise_for_status` on a rejected post all raise, and nothing in
    `newsfetch` catches them, so the run ends there. Whether Slack accepts a message is the
    parameter `delivers`. */
module NewsFetch {
  import opened Wrappers

  /** A parsed RSS item; atoma leaves absent elements as `None`. `pubDate` is the item's date
      already formatted as "(%Y/%m/%d)". */
  datatype Item = Item(title: Option<string>, link: Option<string>, pubDate: Option<string>)

  /** `u"{}".format(x)`: an absent value is written "None". */
  function Fmt(x: Option<string>): string {
    match x
    case None => "None"
    case Some(s) => s
  }

  type Pair = (string, string)

  /** The pair the lookup and the insert both use. */
  function Key(it: Item): Pair {
    (Fmt(it.title), Fmt(it.link))
  }

  /** The outcome of fetching and parsing one feed URL. */
  datatype Feed = Fetched(items: seq<Item>) | FetchFailed

  /** What the run meets, in order: a feed that could not be read, or an item. */
  datatype Event = FeedError | Post(item: Item)

  function Posts(items: seq<Item>): (r: seq<Event>)
    ensures |r| == |items| && forall k :: 0 <= k < |items| ==> r[k] == Post(items[k])
  {
    seq(|items|, k requires 0 <= k < |items| => Post(items[k]))
  }

  function FeedEvents(f: Feed): seq<Event> {
    match f
    case FetchFailed => [FeedError]
    case Fetched(items) => Posts(items)
  }

  /** The events of the feeds in URL order, each feed's items in their order. */
  function Events(feeds: seq<Feed>): seq<Event> {
    if feeds == [] then [] else Events(feeds[..|feeds| - 1]) + FeedEvents(feeds[|feeds| - 1])
  }

  /** An item can reach the post only with both its link and its date. */
  predicate Sendable(it: Item) {
    it.link.Some? && it.pubDate.Some?
  }

  /** A call `sendSlack(post.title, post.link, date)`, by its arguments. */
  datatype Notice = Notice(title: Option<string>, link: string, date: string)

  /** The notice for an item that has its link and its date. */
  function Message(it: Item): Notice
    requires Sendable(it)
  {
    Notice(it.title, it.link.value, it.pubDate.value)
  }

  /** The collection, the messages sent so far, and whether the run has ended in an error. */
  datatype RunState = RunState(store: seq<Pair>, outbox: seq<Notice>, failed: bool)

  /** One event of the run. The insert comes before anything that can fail for the item. */
  function Step(st: RunState, ev: Event, delivers: (seq<Notice>, Notice) -> bool): RunState {
    if st.failed then st
    else match ev
      case FeedError => RunState(st.store, st.outbox, true)
      case Post(it) =>
        if Key(it) in st.store then st
        else if !Sendable(it) then RunState(st.store + [Key(it)], st.outbox, true)
        else if delivers(st.outbox, Message(it)) then RunState(st.store + [Key(it)], st.outbox + [Message(it)], false)
        else RunState(st.store + [Key(it)], st.outbox, true)
  }

  function Process(st: RunState, evs: seq<Event>, delivers: (seq<Notice>, Notice) -> bool): RunState {
    if evs == [] then st else Step(Process(st, evs[..|evs| - 1], delivers), evs[|evs| - 1], delivers)
  }

  // ----- Folding lemmas -----

  lemma {:induction false} ProcessAppend(st: RunState, a: seq<Event>, b: seq<Event>,
                                         delivers: (seq<Notice>, Notice) -> bool)
    ensures Process(st, a + b, delivers) == Process(Process(st, a, delivers), b, delivers)
    decreases |b|
  {
    if b == [] {
      assert a + b == a;
    } else {
      assert (a + b)[..|a + b| - 1] == a + b[..|b| - 1];
      assert (a + b)[|a + b| - 1] == b[|b| - 1];
      ProcessAppend(st, a, b[..|b| - 1], delivers);
    }
  }

  /** Once the run has failed nothing more happens. */
  lemma {:induction false} FailedAbsorbs(st: RunState, evs: seq<Event>, delivers: (seq<Notice>, Notice) -> bool)
    requires st.failed
    ensures Process(st, evs, delivers) == st
  {
    if evs != [] {
      FailedAbsorbs(st, evs[..|evs| - 1], delivers);
    }
  }

  lemma {:induction false} EventsAppend(a: seq<Feed>, b: seq<Feed>)
    ensures Events(a + b) == Events(a) + Events(b)
    decreases |b|
  {
    if b == [] {
      assert a + b == a;
    } else {
      assert (a + b)[..|a + b| - 1] == a + b[..|b| - 1];
      assert (a + b)[|a + b| - 1] == b[|b| - 1];
      EventsAppend(a, b[..|b| - 1]);
    }
  }

  lemma EventsPrefix(feeds: seq<Feed>, i: nat)
    requires i < |feeds|
    ensures Events(feeds[..i + 1]) == Events(feeds[..i]) + FeedEvents(feeds[i])
  {
    var a := feeds[..i + 1];
    assert a[..|a| - 1] == feeds[..i];
    assert a[|a| - 1] == feeds[i];
  }

  /** A failure after the events `pre` is the final state of the whole run over `pre + rest`. */
  lemma FailureIsFinal(st: RunState, pre: seq<Event>, rest: seq<Event>, delivers: (seq<Notice>, Notice) -> bool)
    requires Process(st, pre, delivers).failed
    ensures Process(st, pre + rest, delivers) == Process(st, pre, delivers)
  {
    ProcessAppend(st, pre, rest, delivers);
    FailedAbsorbs(Process(st, pre, delivers), rest, delivers);
  }

  // ----- One item -----

  /** In a run that has not failed, an item is sent exactly when its pair is absent and the
      send goes through; when it is sent, its message is the one appended. */
  lemma NotifyIffAbsent(st: RunState, it: Item, delivers: (seq<Notice>, Notice) -> bool)
    requires !st.failed
    ensures var r := Step(st, Post(it), delivers);
            (r.outbox != st.outbox <==> Key(it) !in st.store && Sendable(it) && delivers(st.outbox, Message(it)))
            && (r.outbox == st.outbox || r.outbox == st.outbox + [Message(it)])
  {
  }

  /** If the step did not end the run, the item was sent exactly when its pair was absent. */
  lemma NotifyIffAbsentWhenNoError(st: RunState, it: Item, delivers: (seq<Notice>, Notice) -> bool)
    requires !st.failed && !Step(st, Post(it), delivers).failed
    ensures Key(it) !in st.store ==>
              Sendable(it) && Step(st, Post(it), delivers).outbox == st.outbox + [Message(it)]
    ensures Key(it) in st.store ==> Step(st, Post(it), delivers) == st
  {
  }

  /** The pair is stored before the send: it is stored whatever the send does. */
  lemma InsertBeforeSend(st: RunState, it: Item, delivers: (seq<Notice>, Notice) -> bool)
    requires !st.failed && Key(it) !in st.store
    ensures Step(st, Post(it), delivers).store == st.store + [Key(it)]
  {
  }

  /** A rejected send leaves the pair stored, nothing sent, and the run ended. */
  lemma RejectedSendStaysStored(st: RunState, it: Item, delivers: (seq<Notice>, Notice) -> bool)
    requires !st.failed && Key(it) !in st.store && Sendable(it) && !delivers(st.outbox, Message(it))
    ensures Step(st, Post(it), delivers) == RunState(st.store + [Key(it)], st.outbox, true)
  {
  }

  // ----- The whole run -----

  predicate NoDuplicates(ps: seq<Pair>) {
    forall i, j :: 0 <= i < j < |ps| ==> ps[i] != ps[j]
  }

  /** The collection and the outbox only grow, by at most one entry per event, and a pair is
      never added twice. */
  lemma {:induction false} StoreOnlyGrows(st: RunState, evs: seq<Event>, delivers: (seq<Notice>, Notice) -> bool)
    ensures var r := Process(st, evs, delivers);
            |st.store| <= |r.store| <= |st.store| + |evs| && r.store[..|st.store|] == st.store
            && |st.outbox| <= |r.outbox| && r.outbox[..|st.outbox|] == st.outbox
            && (NoDuplicates(st.store) ==> NoDuplicates(r.store))
  {
    if evs != [] {
      var init := evs[..|evs| - 1];
      StoreOnlyGrows(st, init, delivers);
      var m := Process(st, init, delivers);
      var r := Process(st, evs, delivers);
      assert r == Step(m, evs[|evs| - 1], delivers);
      if r.store != m.store {
        assert r.store[..|m.store|] == m.store;
        assert r.store[..|st.store|] == m.store[..|st.store|];
      }
      if r.outbox != m.outbox {
        assert r.outbox[..|m.outbox|] == m.outbox;
        assert r.outbox[..|st.outbox|] == m.outbox[..|st.outbox|];
      }
    }
  }

  /** The items the run meets, in order. */
  function ItemsOf(evs: seq<Event>): seq<Item> {
    if evs == [] then []
    else ItemsOf(evs[..|evs| - 1]) + if evs[|evs| - 1].Post? then [evs[|evs| - 1].item] else []
  }

  function KeysOf(items: seq<Item>): (r: seq<Pair>)
    ensures |r| == |items| && forall k :: 0 <= k < |items| ==> r[k] == Key(items[k])
  {
    seq(|items|, k requires 0 <= k < |items| => Key(items[k]))
  }

  /** The items whose pair is neither in `store` nor carried by an earlier item. */
  function FirstFresh(store: seq<Pair>, items: seq<Item>): seq<Item> {
    if items == [] then []
    else
      var init, it := items[..|items| - 1], items[|items| - 1];
      FirstFresh(store, init) + if Key(it) in store || Key(it) in KeysOf(init) then [] else [it]
  }

  function Messages(items: seq<Item>): seq<Notice>
    requires forall k :: 0 <= k < |items| ==> Sendable(items[k])
  {
    seq(|items|, k requires 0 <= k < |items| => Message(items[k]))
  }

  /** A step without error met an item, and the store then holds its pair and all it held. */
  lemma StepStores(m: RunState, ev: Event, delivers: (seq<Notice>, Notice) -> bool)
    requires !Step(m, ev, delivers).failed
    ensures !m.failed && ev.Post?
    ensures Key(ev.item) in Step(m, ev, delivers).store
    ensures forall x :: x in m.store ==> x in Step(m, ev, delivers).store
  {
  }

  /** A run that ends without an error met no unreadable feed, and stored every item it met. */
  lemma {:induction false} SuccessStoredAll(st: RunState, evs: seq<Event>, delivers: (seq<Notice>, Notice) -> bool)
    requires !Process(st, evs, delivers).failed
    ensures forall k :: 0 <= k < |evs| ==> evs[k].Post?
    ensures forall k :: 0 <= k < |evs| ==> Key(evs[k].item) in Process(st, evs, delivers).store
  {
    if evs != [] {
      var init, ev := evs[..|evs| - 1], evs[|evs| - 1];
      var m := Process(st, init, delivers);
      var r := Process(st, evs, delivers);
      assert r == Step(m, ev, delivers);
      StepStores(m, ev, delivers);
      SuccessStoredAll(st, init, delivers);
      forall k | 0 <= k < |evs| ensures evs[k].Post? && Key(evs[k].item) in r.store {
        if k < |init| {
          assert evs[k] == init[k];
          assert Key(init[k].item) in m.store;
        }
      }
    }
  }

  /** A run that meets only items already stored changes nothing. */
  lemma {:induction false} AllStoredNothingNew(st: RunState, evs: seq<Event>, delivers: (seq<Notice>, Notice) -> bool)
    requires !st.failed
    requires forall k :: 0 <= k < |evs| ==> evs[k].Post? && Key(evs[k].item) in st.store
    ensures Process(st, evs, delivers) == st
  {
    if evs != [] {
      AllStoredNothingNew(st, evs[..|evs| - 1], delivers);
    }
  }

  /** Running again over the same feeds after a run without error sends nothing and adds
      nothing. */
  lemma SecondRunSendsNothing(st: RunState, feeds: seq<Feed>, delivers: (seq<Notice>, Notice) -> bool)
    requires !Process(st, Events(feeds), delivers).failed
    ensures var r := Process(st, Events(feeds), delivers);
            Process(r, Events(feeds), delivers) == r
  {
    var r := Process(st, Events(feeds), delivers);
    SuccessStoredAll(st, Events(feeds), delivers);
    AllStoredNothingNew(r, Events(feeds), delivers);
  }

  /** Whether Key(it) is already stored after the fresh items of `items` were added. */
  lemma {:induction false} FreshCovers(store: seq<Pair>, items: seq<Item>, x: Pair)
    ensures x in store + KeysOf(FirstFresh(store, items)) <==> x in store || x in KeysOf(items)
  {
    if items != [] {
      var init, it := items[..|items| - 1], items[|items| - 1];
      FreshCovers(store, init, x);
      var f := FirstFresh(store, init);
      var g := FirstFresh(store, items);
      assert KeysOf(items) == KeysOf(init) + [Key(it)];
      if Key(it) in store || Key(it) in KeysOf(init) {
        assert g == f;
      } else {
        assert KeysOf(g) == KeysOf(f) + [Key(it)];
      }
    }
  }

  /** After the events that met `items`, the store holds the pairs of their fresh items and the
      outbox holds those items' messages, all of them sendable. */
  ghost predicate SentFresh(st: RunState, r: RunState, items: seq<Item>) {
    var f := FirstFresh(st.store, items);
    (forall k :: 0 <= k < |f| ==> Sendable(f[k]))
    && r.store == st.store + KeysOf(f) && r.outbox == st.outbox + Messages(f)
  }

  lemma FreshSnoc(store: seq<Pair>, before: seq<Item>, it: Item)
    ensures FirstFresh(store, before + [it])
            == FirstFresh(store, before)
               + if Key(it) in store || Key(it) in KeysOf(before) then [] else [it]
  {
    assert (before + [it])[..|before|] == before;
  }

  /** An item whose pair is stored adds nothing to the fresh items. */
  lemma SentFreshStale(st: RunState, m: RunState, before: seq<Item>, it: Item)
    requires SentFresh(st, m, before) && Key(it) in m.store
    ensures SentFresh(st, m, before + [it])
  {
    FreshCovers(st.store, before, Key(it));
    FreshSnoc(st.store, before, it);
  }

  /** An item whose pair is not stored is the next fresh item. */
  lemma FreshNew(store: seq<Pair>, before: seq<Item>, it: Item)
    requires Key(it) !in store + KeysOf(FirstFresh(store, before))
    ensures FirstFresh(store, before + [it]) == FirstFresh(store, before) + [it]
  {
    FreshCovers(store, before, Key(it));
    FreshSnoc(store, before, it);
  }

  lemma SentFreshNew(st: RunState, m: RunState, before: seq<Item>, it: Item)
    requires SentFresh(st, m, before) && Key(it) !in m.store && Sendable(it)
    ensures SentFresh(st, RunState(m.store + [Key(it)], m.outbox + [Message(it)], false), before + [it])
  {
    var f := FirstFresh(st.store, before);
    FreshNew(st.store, before, it);
    SendableSnoc(f, it);
  }

  /** One more sendable item: one more pair and one more message. */
  lemma SendableSnoc(f: seq<Item>, it: Item)
    requires (forall k :: 0 <= k < |f| ==> Sendable(f[k])) && Sendable(it)
    ensures forall k :: 0 <= k < |f + [it]| ==> Sendable((f + [it])[k])
    ensures KeysOf(f + [it]) == KeysOf(f) + [Key(it)]
    ensures Messages(f + [it]) == Messages(f) + [Message(it)]
  {
    assert forall k :: 0 <= k < |f| ==> (f + [it])[k] == f[k];
  }

  lemma ItemsSnoc(evs: seq<Event>, it: Item)
    ensures ItemsOf(evs + [Post(it)]) == ItemsOf(evs) + [it]
  {
    assert (evs + [Post(it)])[..|evs|] == evs;
  }

  /** The step of `RunOrder` for one more event. */
  lemma RunOrderStep(st: RunState, init: seq<Event>, ev: Event, delivers: (seq<Notice>, Notice) -> bool)
    requires !Step(Process(st, init, delivers), ev, delivers).failed
    requires SentFresh(st, Process(st, init, delivers), ItemsOf(init))
    ensures ev.Post? && ItemsOf(init + [ev]) == ItemsOf(init) + [ev.item]
    ensures SentFresh(st, Step(Process(st, init, delivers), ev, delivers), ItemsOf(init + [ev]))
  {
    var m := Process(st, init, delivers);
    StepStores(m, ev, delivers);
    ItemsSnoc(init, ev.item);
    if Key(ev.item) in m.store {
      SentFreshStale(st, m, ItemsOf(init), ev.item);
    } else {
      SentFreshNew(st, m, ItemsOf(init), ev.item);
    }
  }

  /** A run without error sends the items whose pair was not stored, each pair's first item
      only, in URL order and then item order; and it stores exactly their pairs. */
  lemma {:induction false} RunOrder(st: RunState, evs: seq<Event>, delivers: (seq<Notice>, Notice) -> bool)
    requires !st.failed && !Process(st, evs, delivers).failed
    ensures var r, f := Process(st, evs, delivers), FirstFresh(st.store, ItemsOf(evs));
            (forall k :: 0 <= k < |f| ==> Sendable(f[k]))
            && r.store == st.store + KeysOf(f) && r.outbox == st.outbox + Messages(f)
  {
    if evs == [] {
      assert st.store + [] == st.store;
      assert st.outbox + [] == st.outbox;
    } else {
      var init, ev := evs[..|evs| - 1], evs[|evs| - 1];
      assert init + [ev] == evs;
      assert !Process(st, init, delivers).failed;
      RunOrder(st, init, delivers);
      RunOrderStep(st, init, ev, delivers);
    }
  }

  /** The pairs of the fresh items are all different. */
  lemma {:induction false} FreshKeysDistinct(store: seq<Pair>, items: seq<Item>)
    ensures NoDuplicates(KeysOf(FirstFresh(store, items)))
  {
    if items != [] {
      var init, it := items[..|items| - 1], items[|items| - 1];
      FreshKeysDistinct(store, init);
      FreshSnoc(store, init, it);
      if !(Key(it) in store || Key(it) in KeysOf(init)) {
        var f := FirstFresh(store, init);
        FreshCovers(store, init, Key(it));
        assert Key(it) !in KeysOf(f);
        var g := KeysOf(f + [it]);
        assert g == KeysOf(f) + [Key(it)];
        forall i, j | 0 <= i < j < |g| ensures g[i] != g[j] {
          if j == |f| {
            assert g[i] == KeysOf(f)[i];
          } else {
            assert g[i] == KeysOf(f)[i] && g[j] == KeysOf(f)[j];
          }
        }
      }
    }
  }

  /** A run without error sends no item twice: the notices it adds are all different, so two
      of them never stand for the same (title, link) pair. */
  lemma NoNoticeTwice(st: RunState, evs: seq<Event>, delivers: (seq<Notice>, Notice) -> bool)
    requires !st.failed && !Process(st, evs, delivers).failed
    ensures var r := Process(st, evs, delivers);
            |st.outbox| <= |r.outbox|
            && forall i, j :: |st.outbox| <= i < j < |r.outbox| ==> r.outbox[i] != r.outbox[j]
  {
    RunOrder(st, evs, delivers);
    var r, f := Process(st, evs, delivers), FirstFresh(st.store, ItemsOf(evs));
    FreshKeysDistinct(st.store, ItemsOf(evs));
    var ms := Messages(f);
    var n := |st.outbox|;
    forall i, j | n <= i < j < |r.outbox| ensures r.outbox[i] != r.outbox[j] {
      assert r.outbox[i] == ms[i - n] == Message(f[i - n]);
      assert r.outbox[j] == ms[j - n] == Message(f[j - n]);
      assert KeysOf(f)[i - n] != KeysOf(f)[j - n];
    }
  }

  // ----- The loop as written -----

  /** The run over the events before an item, then the item. */
  lemma ProcessSnoc(st: RunState, evs: seq<Event>, ev: Event, delivers: (seq<Notice>, Notice) -> bool)
    ensures Process(st, evs + [ev], delivers) == Step(Process(st, evs, delivers), ev, delivers)
  {
    assert (evs + [ev])[..|evs|] == evs;
  }

  /** The events of all feeds: those up to feed i, then those after it. */
  lemma SplitAfter(feeds: seq<Feed>, i: nat)
    requires i < |feeds|
    ensures Events(feeds) == Events(feeds[..i + 1]) + Events(feeds[i + 1..])
  {
    assert feeds[..i + 1] + feeds[i + 1..] == feeds;
    EventsAppend(feeds[..i + 1], feeds[i + 1..]);
  }

  /** Where item j falls among the events of a feed's items. */
  lemma PostsSplit(items: seq<Item>, j: nat)
    requires j < |items|
    ensures Posts(items[..j + 1]) == Posts(items[..j]) + [Post(items[j])]
    ensures Posts(items) == Posts(items[..j + 1]) + Posts(items[j + 1..])
  {
  }

  /** The Firestore `news` collection and the Slack channel. */
  class NewsCollection {
    var store: seq<Pair>
    var outbox: seq<Notice>

    constructor(docs: seq<Pair>)
      ensures store == docs && outbox == []
    {
      store := docs;
      outbox := [];
    }

    /** The inner loop of `newsfetch`, over the items of one feed: true when every item went
        through, false when one of them raised. */
    method PostItems(items: seq<Item>, delivers: (seq<Notice>, Notice) -> bool) returns (ok: bool)
      modifies this
      ensures var r := Process(RunState(old(store), old(outbox), false), Posts(items), delivers);
              store == r.store && outbox == r.outbox && ok == !r.failed
    {
      ghost var start := RunState(store, outbox, false);
      assert Posts(items[..0]) == [];
      for j := 0 to |items|
        invariant Process(start, Posts(items[..j]), delivers) == RunState(store, outbox, false)
      {
        var post := items[j];
        PostsSplit(items, j);
        ProcessSnoc(start, Posts(items[..j]), Post(post), delivers);
        var key := Key(post);
        if key !in store {
          store := store + [key];
          if post.pubDate.None? || post.link.None? {
            FailureIsFinal(start, Posts(items[..j + 1]), Posts(items[j + 1..]), delivers);
            return false;
          }
          var msg := Notice(post.title, post.link.value, post.pubDate.value);
          if !delivers(outbox, msg) {
            FailureIsFinal(start, Posts(items[..j + 1]), Posts(items[j + 1..]), delivers);
            return false;
          }
          outbox := outbox + [msg];
        }
      }
      assert items[..|items|] == items;
      ok := true;
    }

    /** `newsfetch`: true when it returns "Done", false when it raised. */
    method NewsFetch(feeds: seq<Feed>, delivers: (seq<Notice>, Notice) -> bool) returns (done: bool)
      modifies this
      ensures var r := Process(RunState(old(store), old(outbox), false), Events(feeds), delivers);
              store == r.store && outbox == r.outbox && done == !r.failed
    {
      ghost var start := RunState(store, outbox, false);
      for i := 0 to |feeds|
        invariant Process(start, Events(feeds[..i]), delivers) == RunState(store, outbox, false)
      {
        ghost var pre := Events(feeds[..i]);
        EventsPrefix(feeds, i);
        SplitAfter(feeds, i);
        if feeds[i].FetchFailed? {
          ProcessSnoc(start, pre, FeedError, delivers);
          FailureIsFinal(start, Events(feeds[..i + 1]), Events(feeds[i + 1..]), delivers);
          return false;
        }
        ProcessAppend(start, pre, Posts(feeds[i].items), delivers);
        var ok := PostItems(feeds[i].items, delivers);
        if !ok {
          FailureIsFinal(start, Events(feeds[..i + 1]), Events(feeds[i + 1..]), delivers);
          return false;
        }
      }
      assert feeds[..|feeds|] == feeds;
      done := true;
    }
  }
}
