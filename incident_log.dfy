/** The incident-log scanner, `crime_scrape` in tippecanews/utils/retrievers.py.

    The page's `<p>` blocks arrive in order, already parsed. Each block is reduced to a
    cleaned text. The cleaned text then either becomes the current day key, is appended to the
    current key's list of descriptions, or is skipped when it is empty. The output is a
    `defaultdict(list)`: a key enters it the first time something is appended under it, and
    keys keep that first-append order. */
module IncidentLog {
  import opened Strings
  import opened Patterns

  /** A child of a `<p>` block: a plain string, or a tag with its own children. */
  datatype Node = Text(s: string) | Tag(children: seq<Node>)

  /** The `contents` of one `<p>` block. */
  type Paragraph = seq<Node>

  /** The plain strings among `nodes`, in order; tags are dropped. */
  function TextRuns(nodes: seq<Node>): (r: seq<string>)
    ensures |r| <= |nodes|
    ensures forall x :: x in r <==> Text(x) in nodes
    ensures (forall k :: 0 <= k < |nodes| ==> nodes[k].Tag?) ==> r == []
  {
    if nodes == [] then []
    else
      assert nodes == [nodes[0]] + nodes[1..];
      (if nodes[0].Text? then [nodes[0].s] else []) + TextRuns(nodes[1..])
  }

  /** The plain strings of several parts are those of each part, in the parts' order. */
  lemma {:induction false} TextRunsAppend(a: seq<Node>, b: seq<Node>)
    ensures TextRuns(a + b) == TextRuns(a) + TextRuns(b)
    decreases |a|
  {
    if a == [] {
      assert a + b == b;
    } else {
      assert (a + b)[1..] == a[1..] + b;
      TextRunsAppend(a[1..], b);
    }
  }

  /** A string keeps its place; a tag contributes nothing of its own children. */
  lemma TextRunsOne(x: string, cs: seq<Node>)
    ensures TextRuns([Text(x)]) == [x] && TextRuns([Tag(cs)]) == []
  {
    assert [Text(x)][1..] == [] && [Tag(cs)][1..] == [];
  }

  /** A block's cleaned text, and whether the lone-string branch took it as a key. */
  datatype Cleaned = Cleaned(text: string, isKey: bool)

  /** The reduction of one block to its cleaned text. */
  function Clean(p: Paragraph): (c: Cleaned)
    ensures c.isKey ==> IsDayKey(c.text)
    ensures c.isKey <==> |p| == 1 && p[0].Text? && FindAll(DayKey, p[0].s) != []
  {
    if |p| == 1 then
      match p[0]
      case Tag(children) => Cleaned(Strip(JoinSpace(TextRuns(children))), false)
      case Text(s) =>
        var m := FindAll(DayKey, s);
        FoundAreDayKeys(s);
        if |m| > 0 then Cleaned(m[0], true) else Cleaned("", false)
    else
      Cleaned(JoinSpace(TextRuns(p)), false)
  }

  /** What the scanner does with a cleaned text. */
  datatype Action = Skip | NewKey(key: string) | Describe(text: string)

  function Classify(c: Cleaned): Action {
    if |c.text| < 1 then Skip
    else if |FindAll(DayKey, c.text)| == 1 || c.isKey then NewKey(c.text)
    else Describe(c.text)
  }

  function ActionOf(p: Paragraph): Action {
    Classify(Clean(p))
  }

  /** Every key the scanner takes holds a day key; a lone plain string is never stored as a
      description; and only an empty cleaned text is skipped. */
  lemma KeysHoldADayKey(p: Paragraph)
    ensures ActionOf(p).Skip? <==> Clean(p).text == []
    ensures ActionOf(p).NewKey? ==>
              ActionOf(p).key == Clean(p).text && FindAll(DayKey, ActionOf(p).key) != []
    ensures ActionOf(p).Describe? ==>
              ActionOf(p).text == Clean(p).text && !(|p| == 1 && p[0].Text?)
  {
    var c := Clean(p);
    if c.isKey {
      var u, d1, d2, y :| DayKeyParts(u, d1, d2, y) && DayKeyText(u, d1, d2, y) == c.text;
      DayKeyAlone(u, d1, d2, y);
    }
  }

  // ----- The output mapping -----

  /** The `defaultdict(list)`: its keys in insertion order, and the list under each. */
  datatype Log = Log(keys: seq<string>, lists: map<string, seq<string>>)

  const EmptyLog := Log([], map[])

  /** Keys are listed once each, exactly the keys of the map, and no list is empty. */
  ghost predicate Valid(log: Log) {
    (forall i, j :: 0 <= i < j < |log.keys| ==> log.keys[i] != log.keys[j])
    && (forall k :: k in log.lists <==> k in log.keys)
    && (forall k :: k in log.lists ==> log.lists[k] != [])
  }

  /** The list under key k: empty when k was never appended to. */
  function Get(log: Log, k: string): seq<string> {
    if k in log.lists then log.lists[k] else []
  }

  /** `ret_dict[k].append(d)`: the key is created on its first append. */
  function Append(log: Log, k: string, d: string): (r: Log)
    ensures Valid(log) ==> Valid(r)
    ensures Get(r, k) == Get(log, k) + [d]
    ensures forall k' :: k' != k ==> Get(r, k') == Get(log, k')
    ensures Valid(log) ==> r.keys == log.keys + (if k in log.keys then [] else [k])
  {
    if k in log.lists then Log(log.keys, log.lists[k := log.lists[k] + [d]])
    else Log(log.keys + [k], log.lists[k := [d]])
  }

  /** The number of descriptions the mapping holds over the listed keys. */
  function SumOver(keys: seq<string>, lists: map<string, seq<string>>): nat {
    if keys == [] then 0
    else SumOver(keys[..|keys| - 1], lists)
         + (if keys[|keys| - 1] in lists then |lists[keys[|keys| - 1]]| else 0)
  }

  function Total(log: Log): nat {
    SumOver(log.keys, log.lists)
  }

  lemma {:induction false} SumOverOther(keys: seq<string>, lists: map<string, seq<string>>,
                                        k: string, l: seq<string>)
    requires k !in keys
    ensures SumOver(keys, lists[k := l]) == SumOver(keys, lists)
  {
    if keys != [] {
      SumOverOther(keys[..|keys| - 1], lists, k, l);
    }
  }

  lemma {:induction false} SumOverGrow(keys: seq<string>, lists: map<string, seq<string>>,
                                       k: string, l: seq<string>)
    requires k in lists && k in keys && |l| == |lists[k]| + 1
    requires forall i, j :: 0 <= i < j < |keys| ==> keys[i] != keys[j]
    ensures SumOver(keys, lists[k := l]) == SumOver(keys, lists) + 1
  {
    var init := keys[..|keys| - 1];
    if keys[|keys| - 1] == k {
      assert k !in init;
      SumOverOther(init, lists, k, l);
    } else {
      assert k in init;
      SumOverGrow(init, lists, k, l);
    }
  }

  /** Appending adds exactly one description to the count. */
  lemma AppendTotal(log: Log, k: string, d: string)
    requires Valid(log)
    ensures Total(Append(log, k, d)) == Total(log) + 1
  {
    if k in log.lists {
      SumOverGrow(log.keys, log.lists, k, log.lists[k] + [d]);
    } else {
      SumOverOther(log.keys, log.lists, k, [d]);
      assert (log.keys + [k])[..|log.keys|] == log.keys;
    }
  }

  // ----- The scan -----

  /** What each block does, in block order. */
  function Actions(ps: seq<Paragraph>): (r: seq<Action>)
    ensures |r| == |ps| && forall i :: 0 <= i < |ps| ==> r[i] == ActionOf(ps[i])
  {
    seq(|ps|, i requires 0 <= i < |ps| => ActionOf(ps[i]))
  }

  lemma ActionsSnoc(ps: seq<Paragraph>, p: Paragraph)
    ensures Actions(ps + [p]) == Actions(ps) + [ActionOf(p)]
  {
  }

  /** The loop's state between blocks: the current key and the mapping so far. */
  datatype Scanner = Scanner(key: string, log: Log)

  /** One iteration of the loop, given what the block does. */
  function Step(st: Scanner, a: Action): Scanner {
    match a
    case Skip => st
    case NewKey(k) => Scanner(k, st.log)
    case Describe(d) => Scanner(st.key, Append(st.log, st.key, d))
  }

  /** The state after the loop, starting from key "" and an empty mapping. */
  function Replay(acts: seq<Action>): Scanner {
    if acts == [] then Scanner("", EmptyLog)
    else Step(Replay(acts[..|acts| - 1]), acts[|acts| - 1])
  }

  /** The mapping `crime_scrape` returns for the blocks `ps`. */
  function Scan(ps: seq<Paragraph>): Log {
    Replay(Actions(ps)).log
  }

  // ----- An independent description of the result -----

  /** The key in force after `acts`: the last key taken, or "" if there is none. */
  function KeyAfter(acts: seq<Action>): string {
    if acts == [] then ""
    else if acts[|acts| - 1].NewKey? then acts[|acts| - 1].key
    else KeyAfter(acts[..|acts| - 1])
  }

  /** The number of blocks that reach the append. */
  function DescribedCount(acts: seq<Action>): nat {
    if acts == [] then 0
    else DescribedCount(acts[..|acts| - 1]) + (if acts[|acts| - 1].Describe? then 1 else 0)
  }

  /** Every description, paired with the key in force when its block was read. */
  function Owned(acts: seq<Action>): (r: seq<(string, string)>)
    ensures |r| == DescribedCount(acts)
  {
    if acts == [] then []
    else
      var init, a := acts[..|acts| - 1], acts[|acts| - 1];
      Owned(init) + if a.Describe? then [(KeyAfter(init), a.text)] else []
  }

  /** The descriptions owned by key k, in order. */
  function Select(pairs: seq<(string, string)>, k: string): seq<string> {
    if pairs == [] then []
    else Select(pairs[..|pairs| - 1], k)
         + (if pairs[|pairs| - 1].0 == k then [pairs[|pairs| - 1].1] else [])
  }

  function Owners(pairs: seq<(string, string)>): (r: seq<string>)
    ensures |r| == |pairs| && forall i :: 0 <= i < |r| ==> r[i] == pairs[i].0
  {
    if pairs == [] then [] else Owners(pairs[..|pairs| - 1]) + [pairs[|pairs| - 1].0]
  }

  /** The elements of xs in order of first occurrence, each once. */
  function FirstSeen(xs: seq<string>): (r: seq<string>)
    ensures forall x :: x in r <==> x in xs
    ensures forall i, j :: 0 <= i < j < |r| ==> r[i] != r[j]
  {
    if xs == [] then []
    else
      var init := xs[..|xs| - 1];
      assert xs == init + [xs[|xs| - 1]];
      if xs[|xs| - 1] in init then FirstSeen(init) else FirstSeen(init) + [xs[|xs| - 1]]
  }

  /** The facts a state keeps about the descriptions read so far, each with its key. */
  ghost predicate Describes(st: Scanner, key: string, pairs: seq<(string, string)>) {
    st.key == key
    && Valid(st.log)
    && st.log.keys == FirstSeen(Owners(pairs))
    && (forall k :: Get(st.log, k) == Select(pairs, k))
    && Total(st.log) == |pairs|
  }

  /** The facts the replay keeps about a run of actions. */
  ghost predicate Meaning(acts: seq<Action>) {
    Describes(Replay(acts), KeyAfter(acts), Owned(acts))
  }

  /** An append under the current key adds one description owned by that key. */
  lemma DescribesAppend(st: Scanner, pairs: seq<(string, string)>, d: string)
    requires Describes(st, st.key, pairs)
    ensures Describes(Step(st, Describe(d)), st.key, pairs + [(st.key, d)])
  {
    var o := st.key;
    var np := pairs + [(o, d)];
    assert np[..|np| - 1] == pairs;
    var os := Owners(pairs);
    assert Owners(np) == os + [o];
    assert (os + [o])[..|os|] == os;
    assert o in st.log.keys <==> o in os;
    AppendTotal(st.log, o, d);
    var log := Append(st.log, o, d);
    forall k ensures Get(log, k) == Select(np, k) {
      assert Select(np, k) == Select(pairs, k) + (if o == k then [d] else []);
    }
  }

  /** A new key changes only the key in force. */
  lemma DescribesRekey(st: Scanner, key: string, pairs: seq<(string, string)>, k: string)
    requires Describes(st, key, pairs)
    ensures Describes(Scanner(k, st.log), k, pairs)
  {
  }

  /** An append keeps the meaning. */
  lemma MeaningDescribe(acts: seq<Action>)
    requires acts != [] && acts[|acts| - 1].Describe?
    requires Meaning(acts[..|acts| - 1])
    ensures Meaning(acts)
  {
    var init, d := acts[..|acts| - 1], acts[|acts| - 1].text;
    assert Owned(acts) == Owned(init) + [(KeyAfter(init), d)];
    DescribesAppend(Replay(init), Owned(init), d);
  }

  /** A skipped block or a new key keeps the meaning. */
  lemma MeaningOther(acts: seq<Action>)
    requires acts != [] && !acts[|acts| - 1].Describe?
    requires Meaning(acts[..|acts| - 1])
    ensures Meaning(acts)
  {
    var init := acts[..|acts| - 1];
    assert Owned(acts) == Owned(init);
    if acts[|acts| - 1].NewKey? {
      DescribesRekey(Replay(init), KeyAfter(init), Owned(init), acts[|acts| - 1].key);
    }
  }

  /** The replay keeps what the reference describes: the current key, each key's
      descriptions in block order, the keys in order of first description, and the count. */
  lemma {:induction false} ReplayMeaning(acts: seq<Action>)
    ensures Meaning(acts)
  {
    if acts != [] {
      var init := acts[..|acts| - 1];
      ReplayMeaning(init);
      if acts[|acts| - 1].Describe? {
        MeaningDescribe(acts);
      } else {
        MeaningOther(acts);
      }
    }
  }

  /** The same facts, for the blocks themselves. */
  lemma ScanMeaning(ps: seq<Paragraph>)
    ensures Valid(Scan(ps))
    ensures Scan(ps).keys == FirstSeen(Owners(Owned(Actions(ps))))
    ensures forall k :: Get(Scan(ps), k) == Select(Owned(Actions(ps)), k)
    ensures Total(Scan(ps)) == DescribedCount(Actions(ps))
  {
    ReplayMeaning(Actions(ps));
  }

  // ----- What the scan promises -----

  /** Descriptions read before any key are kept under the empty key "", in order. */
  lemma {:induction false} OrphansUnderEmptyKey(acts: seq<Action>)
    requires forall i :: 0 <= i < |acts| ==> !acts[i].NewKey?
    ensures Replay(acts).key == ""
    ensures |Get(Replay(acts).log, "")| == DescribedCount(acts)
    ensures Replay(acts).log.keys == if DescribedCount(acts) == 0 then [] else [""]
  {
    if acts != [] {
      var init := acts[..|acts| - 1];
      OrphansUnderEmptyKey(init);
      ReplayMeaning(init);
    }
  }

  /** A key is in the output exactly when some description was read while it was in force. */
  lemma KeyPresentIffDescribed(ps: seq<Paragraph>, k: string)
    ensures k in Scan(ps).keys
            <==> exists i :: 0 <= i < |Owned(Actions(ps))| && Owned(Actions(ps))[i].0 == k
    ensures k in Scan(ps).lists <==> k in Scan(ps).keys
  {
    ScanMeaning(ps);
    var os := Owners(Owned(Actions(ps)));
    if k in os {
      var i :| 0 <= i < |os| && os[i] == k;
      assert Owned(Actions(ps))[i].0 == k;
    }
  }

  /** A key block with nothing after it leaves the key out of the output. */
  lemma TrailingKeyAbsent(ps: seq<Paragraph>, p: Paragraph, k: string)
    requires ActionOf(p) == NewKey(k) && k !in Scan(ps).keys
    ensures Scan(ps + [p]) == Scan(ps)
    ensures Replay(Actions(ps + [p])).key == k
    ensures k !in Scan(ps + [p]).keys && k !in Scan(ps + [p]).lists
  {
    ActionsSnoc(ps, p);
    var acts := Actions(ps) + [ActionOf(p)];
    assert acts[..|ps|] == Actions(ps);
    ScanMeaning(ps);
  }

  /** A block whose cleaned text is empty leaves the key and the output as they were. */
  lemma EmptyCleanedChangesNothing(ps: seq<Paragraph>, p: Paragraph)
    requires Clean(p).text == []
    ensures Replay(Actions(ps + [p])) == Replay(Actions(ps))
  {
    ActionsSnoc(ps, p);
    var acts := Actions(ps) + [ActionOf(p)];
    assert acts[..|ps|] == Actions(ps);
  }

  /** A block with no contents cleans to nothing. */
  lemma EmptyBlockSkipped()
    ensures Clean([]).text == [] && ActionOf([]) == Skip
  {
  }

  /** A lone plain string without a day key cleans to nothing. */
  lemma LonePlainWithoutKeySkipped(s: string)
    requires FindAll(DayKey, s) == []
    ensures ActionOf([Text(s)]) == Skip
  {
  }

  /** A lone tag whose children are all tags cleans to nothing. */
  lemma LoneTagOfTagsSkipped(children: seq<Node>)
    requires forall k :: 0 <= k < |children| ==> children[k].Tag?
    ensures ActionOf([Tag(children)]) == Skip
  {
  }

  /** A block of several parts whose text is whitespace only is not stripped: it is stored. */
  lemma WhitespaceMixedKept(p: Paragraph)
    requires |p| != 1
    requires forall k :: 0 <= k < |TextRuns(p)| ==> AllSpace(TextRuns(p)[k])
    requires JoinSpace(TextRuns(p)) != []
    ensures ActionOf(p) == Describe(JoinSpace(TextRuns(p)))
  {
    var t := JoinSpace(TextRuns(p));
    JoinSpaceAllSpace(TextRuns(p));
    AllSpaceContainsNone(t, "DAY ");
    NoMarkerNoMatch(t);
  }

  /** A lone plain string with a day key makes its first match the key. */
  lemma PlainKeyIsFirstMatch(s: string)
    requires FindAll(DayKey, s) != []
    ensures ActionOf([Text(s)]) == NewKey(FindAll(DayKey, s)[0])
  {
  }

  /** So text after the day key in such a string is not part of the key. */
  lemma PlainKeyDropsTrailer(u: string, d1: string, d2: string, y: string, rest: string)
    requires DayKeyParts(u, d1, d2, y)
    ensures ActionOf([Text(DayKeyText(u, d1, d2, y) + rest)]) == NewKey(DayKeyText(u, d1, d2, y))
  {
    DayKeyFirstMatch(u, d1, d2, y, rest);
  }

  /** Any other block becomes the key exactly when its cleaned text matches once. */
  lemma OtherKeyNeedsOneMatch(p: Paragraph)
    requires !(|p| == 1 && p[0].Text?)
    requires Clean(p).text != []
    ensures ActionOf(p).NewKey? <==> |FindAll(DayKey, Clean(p).text)| == 1
    ensures ActionOf(p).Describe? <==> |FindAll(DayKey, Clean(p).text)| != 1
  {
  }

  /** A block that names two day keys, as in "MONDAY 3-14-22<br/>TUESDAY 3-15-22", is stored
      as a description. */
  lemma TwoKeysStoredAsDescription(u: string, d1: string, d2: string, y: string,
                                   v: string, e1: string, e2: string, z: string)
    requires DayKeyParts(u, d1, d2, y) && DayKeyParts(v, e1, e2, z)
    ensures var t1, t2 := DayKeyText(u, d1, d2, y), DayKeyText(v, e1, e2, z);
            ActionOf([Text(t1), Tag([]), Text(t2)]) == Describe(t1 + " " + t2)
  {
    var t1, t2 := DayKeyText(u, d1, d2, y), DayKeyText(v, e1, e2, z);
    var p := [Text(t1), Tag([]), Text(t2)];
    assert TextRuns(p) == [t1, t2] by {
      assert p[1..] == [Tag([]), Text(t2)];
      assert p[1..][1..] == [Text(t2)];
    }
    assert JoinSpace([t1, t2]) == t1 + " " + t2 by {
      assert [t1, t2][..1] == [t1];
    }
    TwoDayKeys(u, d1, d2, y, v, e1, e2, z);
  }

  /** A block of one text and a line break. */
  function Mixed(d: string): Paragraph {
    [Text(d), Tag([])]
  }

  lemma MixedDescribed(d: string)
    requires d != [] && !Contains(d, "DAY ")
    ensures ActionOf(Mixed(d)) == Describe(d)
  {
    NoMarkerNoMatch(d);
    assert TextRuns(Mixed(d)) == [d] by {
      assert Mixed(d)[1..] == [Tag([])];
    }
  }

  lemma LoneKeyTaken(u: string, d1: string, d2: string, y: string)
    requires DayKeyParts(u, d1, d2, y)
    ensures ActionOf([Text(DayKeyText(u, d1, d2, y))]) == NewKey(DayKeyText(u, d1, d2, y))
  {
    DayKeyAlone(u, d1, d2, y);
  }

  lemma ReplaySnoc(acts: seq<Action>, a: Action)
    ensures Replay(acts + [a]) == Step(Replay(acts), a)
  {
    assert (acts + [a])[..|acts|] == acts;
  }

  /** The five actions of two days replayed, one prefix at a time. */
  lemma TwoDaysStep2(k1: string, a: string)
    ensures Replay([NewKey(k1), Describe(a)]) == Scanner(k1, Append(EmptyLog, k1, a))
  {
    ReplaySnoc([], NewKey(k1));
    assert [] + [NewKey(k1)] == [NewKey(k1)];
    ReplaySnoc([NewKey(k1)], Describe(a));
    assert [NewKey(k1)] + [Describe(a)] == [NewKey(k1), Describe(a)];
  }

  lemma TwoDaysStep3(k1: string, a: string, b: string)
    ensures Replay([NewKey(k1), Describe(a), Describe(b)])
            == Scanner(k1, Append(Append(EmptyLog, k1, a), k1, b))
  {
    var x1, x2, x3 := NewKey(k1), Describe(a), Describe(b);
    TwoDaysStep2(k1, a);
    ReplaySnoc([x1, x2], x3);
    assert [x1, x2] + [x3] == [x1, x2, x3];
  }

  lemma TwoDaysStep4(k1: string, k2: string, a: string, b: string)
    ensures Replay([NewKey(k1), Describe(a), Describe(b), NewKey(k2)])
            == Scanner(k2, Append(Append(EmptyLog, k1, a), k1, b))
  {
    var x1, x2, x3, x4 := NewKey(k1), Describe(a), Describe(b), NewKey(k2);
    TwoDaysStep3(k1, a, b);
    ReplaySnoc([x1, x2, x3], x4);
    assert [x1, x2, x3] + [x4] == [x1, x2, x3, x4];
  }

  lemma TwoDaysSteps(k1: string, k2: string, a: string, b: string, c: string)
    ensures Replay([NewKey(k1), Describe(a), Describe(b), NewKey(k2), Describe(c)])
            == Scanner(k2, Append(Append(Append(EmptyLog, k1, a), k1, b), k2, c))
  {
    var x1, x2, x3, x4, x5 := NewKey(k1), Describe(a), Describe(b), NewKey(k2), Describe(c);
    TwoDaysStep4(k1, k2, a, b);
    ReplaySnoc([x1, x2, x3, x4], x5);
    assert [x1, x2, x3, x4] + [x5] == [x1, x2, x3, x4, x5];
  }

  /** Two appends under one key to the empty mapping. */
  lemma OneDayAppends(k1: string, a: string, b: string)
    ensures var l := Append(Append(EmptyLog, k1, a), k1, b);
            Valid(l) && l.keys == [k1] && Get(l, k1) == [a, b]
            && forall k :: k != k1 ==> Get(l, k) == []
  {
    assert Valid(EmptyLog);
    assert [a] + [b] == [a, b];
  }

  /** The three appends of two days: both keys in order, each with its descriptions. */
  lemma TwoDaysAppends(k1: string, k2: string, a: string, b: string, c: string)
    requires k1 != k2
    ensures var r := Append(Append(Append(EmptyLog, k1, a), k1, b), k2, c);
            Valid(r) && r.keys == [k1, k2] && Get(r, k1) == [a, b] && Get(r, k2) == [c]
  {
    OneDayAppends(k1, a, b);
    assert [k1] + [k2] == [k1, k2];
  }

  lemma TwoDaysReplay(k1: string, k2: string, a: string, b: string, c: string)
    requires k1 != k2
    ensures var r := Replay([NewKey(k1), Describe(a), Describe(b), NewKey(k2), Describe(c)]).log;
            Valid(r) && r.keys == [k1, k2] && Get(r, k1) == [a, b] && Get(r, k2) == [c]
  {
    TwoDaysSteps(k1, k2, a, b, c);
    TwoDaysAppends(k1, k2, a, b, c);
  }

  // ----- The loop as written -----

  /** `crime_scrape` after the fetch: the loop over the blocks with its `key` and `is_key`
      variables and the `defaultdict` held as a key list and a map. */
  method CrimeScrape(paragraphs: seq<Paragraph>) returns (log: Log)
    ensures log == Scan(paragraphs)
    ensures Valid(log)
    ensures log.keys == FirstSeen(Owners(Owned(Actions(paragraphs))))
    ensures forall k :: Get(log, k) == Select(Owned(Actions(paragraphs)), k)
    ensures Total(log) == DescribedCount(Actions(paragraphs))
  {
    ghost var acts := Actions(paragraphs);
    var keys: seq<string> := [];
    var lists: map<string, seq<string>> := map[];
    var key := "";
    var isKey := false;
    for i := 0 to |paragraphs|
      invariant !isKey
      invariant Scanner(key, Log(keys, lists)) == Replay(acts[..i])
    {
      var p := paragraphs[i];
      assert acts[..i + 1][..i] == acts[..i];
      var cleaned := "";
      if |p| == 1 {
        if p[0].Tag? {
          cleaned := Strip(JoinSpace(TextRuns(p[0].children)));
        } else {
          var m := FindAll(DayKey, p[0].s);
          if |m| > 0 {
            cleaned := m[0];
            isKey := true;
          }
        }
      } else {
        cleaned := JoinSpace(TextRuns(p));
      }
      assert Clean(p) == Cleaned(cleaned, isKey);
      if |cleaned| < 1 {
        continue;
      }
      var m := FindAll(DayKey, cleaned);
      if |m| == 1 || isKey {
        key := cleaned;
      } else if key in lists {
        lists := lists[key := lists[key] + [cleaned]];
      } else {
        keys := keys + [key];
        lists := lists[key := [cleaned]];
      }
      isKey := false;
    }
    assert acts[..|paragraphs|] == acts;
    log := Log(keys, lists);
    ScanMeaning(paragraphs);
  }
}
