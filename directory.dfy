/** `directory_search` in tippecanews/utils/retrievers.py after the directory page has been
    fetched and parsed: the result list of the page, one entry per `<li>`, becomes a Slack
    message with a header, a divider and one section per person. */
module Directory {
  import opened Wrappers
  import opened Strings
  import opened Slack

  /** One `<li>` of the result list: the texts of its `<h2>` and of its `<td>` elements. */
  datatype Listing = Listing(names: seq<string>, cells: seq<string>)

  /** `tmp`: the names first, then the cells. */
  function Fields(l: Listing): seq<string> {
    l.names + l.cells
  }

  /** The noun of the header as written: "results" for any non-zero count, "result" for zero. */
  function NounAsWritten(n: nat): (r: string)
    ensures r == "result" || r == "results"
    ensures r == "result" <==> n == 0
  {
    if n != 0 then "results" else "result"
  }

  /** The noun an English header needs: singular for exactly one. */
  function Noun(n: nat): (r: string)
    ensures r == "result" <==> n == 1
  {
    if n == 1 then "result" else "results"
  }

  /** The form as written says "result" exactly for zero rows, so one row reads "1 results". */
  lemma NounAsWrittenInverted()
    ensures NounAsWritten(1) == "results" && NounAsWritten(0) == "result"
    ensures Noun(1) != NounAsWritten(1) && Noun(0) != NounAsWritten(0)
  {
  }

  /** The corrected noun agrees with the one as written except for zero and one rows. */
  lemma NounAgreesAboveOne(n: nat)
    requires n >= 2
    ensures Noun(n) == NounAsWritten(n)
  {
  }

  /** The header line with the count n and the noun given. */
  function HeaderWith(name: string, n: nat, noun: string): string {
    "Found *" + Decimal(n) + "* " + noun + " for: \"" + name + "\""
  }

  /** The header with the corrected noun. */
  function Header(name: string, n: nat): string {
    HeaderWith(name, n, Noun(n))
  }

  /** The header as written. */
  function HeaderAsWritten(name: string, n: nat): string {
    HeaderWith(name, n, NounAsWritten(n))
  }

  /** Headers with the same name and count differ exactly when their nouns do. */
  lemma HeaderWithNoun(name: string, n: nat, a: string, b: string)
    ensures HeaderWith(name, n, a) == HeaderWith(name, n, b) <==> a == b
  {
    var pre := "Found *" + Decimal(n) + "* ";
    var post := " for: \"" + name + "\"";
    assert HeaderWith(name, n, a) == pre + a + post;
    assert HeaderWith(name, n, b) == pre + b + post;
    if HeaderWith(name, n, a) == HeaderWith(name, n, b) {
      assert |a| == |b|;
      assert a == (pre + a + post)[|pre|..|pre| + |a|];
      assert b == (pre + b + post)[|pre|..|pre| + |b|];
    }
  }

  /** The section text of one person: fields 0, 2, 3 and 4; field 1 is not shown. */
  function PersonText(fields: seq<string>): string
    requires |fields| >= 5
  {
    fields[0] + " \nemail: " + fields[2] + "\ncampus: " + fields[3] + "\ncollege: " + fields[4]
  }

  lemma PersonTextSkipsSecondField(fields: seq<string>, other: string)
    requires |fields| >= 5
    ensures PersonText(fields[1 := other]) == PersonText(fields)
  {
  }

  /** One section per row, in order; a row with fewer than five fields raises `IndexError`. */
  function PersonBlocks(rows: seq<seq<string>>): (r: Option<seq<Block>>)
    ensures r.Some? <==> forall k :: 0 <= k < |rows| ==> |rows[k]| >= 5
    ensures r.Some? ==> |r.value| == |rows|
                        && forall k :: 0 <= k < |rows| ==>
                             r.value[k] == Section(PersonText(rows[k]), false)
  {
    if rows == [] then Some([])
    else
      var init, last := rows[..|rows| - 1], rows[|rows| - 1];
      assert forall k :: 0 <= k < |init| ==> init[k] == rows[k];
      match PersonBlocks(init)
      case None => None
      case Some(bs) =>
        if |last| < 5 then None else Some(bs + [Section(PersonText(last), false)])
  }

  /** `ret_list`: the fields of each listing, in order. */
  function Rows(ls: seq<Listing>): (r: seq<seq<string>>)
    ensures |r| == |ls| && forall k :: 0 <= k < |ls| ==> r[k] == Fields(ls[k])
  {
    if ls == [] then [] else Rows(ls[..|ls| - 1]) + [Fields(ls[|ls| - 1])]
  }

  /** The message for the search, or `None` when the page has no result list or a row is
      short; `page` is `None` when the page has no `id="results"` element with a `<ul>`. */
  function MessageFor(name: string, page: Option<seq<Listing>>, noun: nat -> string)
    : Option<seq<Block>>
  {
    match page
    case None => None
    case Some(ls) =>
      match PersonBlocks(Rows(ls))
      case None => None
      case Some(bs) => Some([Section(HeaderWith(name, |ls|, noun(|ls|)), false), Divider] + bs)
  }

  /** The corrected message. */
  function SearchBlocks(name: string, page: Option<seq<Listing>>): Option<seq<Block>> {
    MessageFor(name, page, Noun)
  }

  /** The message as written. */
  function SearchBlocksAsWritten(name: string, page: Option<seq<Listing>>): Option<seq<Block>> {
    MessageFor(name, page, NounAsWritten)
  }

  /** The message as written and the corrected one fail together, and differ only in the
      header, which they share from two listings up. */
  lemma AsWrittenDiffersInHeaderOnly(name: string, page: Option<seq<Listing>>)
    ensures SearchBlocksAsWritten(name, page).Some? <==> SearchBlocks(name, page).Some?
    ensures SearchBlocks(name, page).Some? ==>
              var a, c, n := SearchBlocksAsWritten(name, page).value, SearchBlocks(name, page).value,
                             |page.value|;
              |a| == |c| && a[1..] == c[1..]
              && a[0] == Section(HeaderAsWritten(name, n), false)
              && c[0] == Section(Header(name, n), false)
              && (a == c <==> n >= 2)
  {
    if SearchBlocks(name, page).Some? {
      var a, c, n := SearchBlocksAsWritten(name, page).value, SearchBlocks(name, page).value,
                     |page.value|;
      HeaderWithNoun(name, n, NounAsWritten(n), Noun(n));
      if a == c {
        assert a[0] == c[0];
      }
    }
  }

  /** As written, the header says "result" exactly when there is no listing. */
  lemma AsWrittenSaysResultIffNone(name: string, ls: seq<Listing>)
    requires SearchBlocksAsWritten(name, Some(ls)).Some?
    ensures (SearchBlocksAsWritten(name, Some(ls)).value[0]
             == Section(HeaderWith(name, |ls|, "result"), false)) <==> |ls| == 0
  {
    HeaderWithNoun(name, |ls|, NounAsWritten(|ls|), "result");
  }

  /** The corrected header says "result" exactly when there is one listing. */
  lemma SaysResultIffOne(name: string, ls: seq<Listing>)
    requires SearchBlocks(name, Some(ls)).Some?
    ensures (SearchBlocks(name, Some(ls)).value[0]
             == Section(HeaderWith(name, |ls|, "result"), false)) <==> |ls| == 1
  {
    HeaderWithNoun(name, |ls|, Noun(|ls|), "result");
  }

  /** A found message is the header, the divider and one section per listing, in order. */
  lemma SearchBlocksShape(name: string, ls: seq<Listing>)
    requires SearchBlocks(name, Some(ls)).Some?
    ensures var bs := SearchBlocks(name, Some(ls)).value;
            |bs| == 2 + |ls| && bs[0] == Section(Header(name, |ls|), false) && bs[1] == Divider
            && (forall k :: 0 <= k < |ls| ==> |Fields(ls[k])| >= 5)
            && forall k :: 0 <= k < |ls| ==> bs[2 + k] == Section(PersonText(Fields(ls[k])), false)
  {
    var rows := Rows(ls);
    var ps := PersonBlocks(rows).value;
    var bs := [Section(Header(name, |ls|), false), Divider] + ps;
    forall k | 0 <= k < |ls|
      ensures |Fields(ls[k])| >= 5 && bs[2 + k] == Section(PersonText(Fields(ls[k])), false)
    {
      assert rows[k] == Fields(ls[k]);
      assert bs[2 + k] == ps[k];
    }
  }

  /** The search fails exactly when the result list is missing or some listing is short. */
  lemma SearchFailsIff(name: string, page: Option<seq<Listing>>)
    ensures SearchBlocks(name, page).None?
            <==> page.None? || exists k :: 0 <= k < |page.value| && |Fields(page.value[k])| < 5
  {
  }

  /** The inner loops of `directory_search`: a listing's names, then its cells. */
  method Collect(l: Listing) returns (tmp: seq<string>)
    ensures tmp == Fields(l)
  {
    tmp := [];
    for j := 0 to |l.names|
      invariant tmp == l.names[..j]
    {
      tmp := tmp + [l.names[j]];
    }
    for j := 0 to |l.cells|
      invariant tmp == l.names + l.cells[..j]
    {
      tmp := tmp + [l.cells[j]];
    }
    assert l.names[..|l.names|] == l.names;
    assert l.cells[..|l.cells|] == l.cells;
  }

  /** The outer loop of `directory_search` that builds `ret_list`. */
  method CollectAll(ls: seq<Listing>) returns (retList: seq<seq<string>>)
    ensures retList == Rows(ls)
  {
    retList := [];
    for i := 0 to |ls|
      invariant retList == Rows(ls[..i])
    {
      assert ls[..i + 1][..i] == ls[..i];
      var tmp := Collect(ls[i]);
      retList := retList + [tmp];
    }
    assert ls[..|ls|] == ls;
  }

  /** The loop of `directory_search` over `ret_list`: one section per row, or `None` at the
      first row too short to index. */
  method PersonSections(rows: seq<seq<string>>) returns (r: Option<seq<Block>>)
    ensures r == PersonBlocks(rows)
  {
    var blocks: seq<Block> := [];
    for i := 0 to |rows|
      invariant PersonBlocks(rows[..i]) == Some(blocks)
    {
      assert rows[..i + 1][..i] == rows[..i];
      var row := rows[i];
      if |row| < 5 {
        assert PersonBlocks(rows).None?;
        return None;
      }
      blocks := blocks + [Section(PersonText(row), false)];
    }
    assert rows[..|rows|] == rows;
    r := Some(blocks);
  }

  /** `directory_search` after the fetch, with the header noun given: the header and
      divider, then the person sections. */
  method Search(searchName: string, page: Option<seq<Listing>>, noun: nat -> string)
    returns (r: Option<seq<Block>>)
    ensures r == MessageFor(searchName, page, noun)
  {
    if page.None? {
      return None;
    }
    var retList := CollectAll(page.value);
    var people := PersonSections(retList);
    if people.None? {
      return None;
    }
    r := Some([Section(HeaderWith(searchName, |retList|, noun(|retList|)), false), Divider]
              + people.value);
  }

  /** `directory_search` as written. */
  method DirectorySearchAsWritten(searchName: string, page: Option<seq<Listing>>)
    returns (r: Option<seq<Block>>)
    ensures r == SearchBlocksAsWritten(searchName, page)
  {
    r := Search(searchName, page, NounAsWritten);
  }

  /** `directory_search` with the corrected noun. */
  method DirectorySearch(searchName: string, page: Option<seq<Listing>>)
    returns (r: Option<seq<Block>>)
    ensures r == SearchBlocks(searchName, page)
  {
    r := Search(searchName, page, Noun);
  }
}
