/** The chat messages the two senders build: `send_slack` in tippecanews/utils/retrievers.py
    and `sendSlack` in app.py. Both first make sure the link carries a scheme. The HTTP post
    that follows is not part of this module. */
module Slack {
  import opened Wrappers
  import opened Strings

  /** A link is given "http://" in front unless "http" already occurs somewhere in it. */
  function NormalizeLink(link: string): (r: string)
    ensures Contains(r, "http")
    ensures r == link <==> Contains(link, "http")
    ensures |r| >= |link| && r[|r| - |link|..] == link
  {
    if Contains(link, "http") then link
    else
      var r := "http://" + link;
      ContainsAt(r, "http", 0);
      assert r[|r| - |link|..] == link;
      r
  }

  /** Normalising twice is normalising once. */
  lemma NormalizeIdempotent(link: string)
    ensures NormalizeLink(NormalizeLink(link)) == NormalizeLink(link)
  {
  }

  /** What is added, when anything is, is exactly the "http://" scheme. */
  lemma NormalizeAddsScheme(link: string)
    ensures NormalizeLink(link) == link || NormalizeLink(link) == "http://" + link
  {
  }

  // ----- send_slack (retrievers.py) -----

  /** A Slack block: a markdown section, optionally with the "Take Me!" button, a context
      line, or a divider. */
  datatype Block =
    | Section(text: string, button: bool)
    | Context(text: string)
    | Divider

  /** The JSON payload `send_slack` posts: the fallback text and the blocks. */
  datatype Payload = Payload(text: string, blocks: seq<Block>)

  /** A press release links its title, with a button; anything else shows the bare title.
      Either way the title is shown, and a press release carries the link with its scheme. */
  function SendSlackPayload(title: string, link: string, date: string, isPr: bool): (p: Payload)
    ensures p.text == title && |p.blocks| == 2 && p.blocks[1].Context?
    ensures p.blocks[0].Section? && (p.blocks[0].button <==> isPr)
    ensures Contains(p.blocks[0].text, title) && Contains(p.blocks[1].text, date)
    ensures isPr ==> Contains(p.blocks[0].text, NormalizeLink(link))
    ensures !isPr ==> p.blocks[0].text == title
  {
    var l := NormalizeLink(link);
    LinkedHolds(l, title);
    PostedHolds(title, date);
    Payload(title, [if isPr then Section(Linked(l, title), true) else Section(title, false),
                    Context("Posted on " + date)])
  }

  /** The Slack markup of a title linked to l. */
  function Linked(l: string, title: string): string {
    "<" + l + "|" + title + ">"
  }

  lemma LinkedHolds(l: string, title: string)
    ensures Contains(Linked(l, title), l) && Contains(Linked(l, title), title)
  {
    var linked := Linked(l, title);
    assert linked[1..1 + |l|] == l;
    ContainsAt(linked, l, 1);
    assert linked[2 + |l|..2 + |l| + |title|] == title;
    ContainsAt(linked, title, 2 + |l|);
  }

  lemma PostedHolds(title: string, date: string)
    ensures Contains(title, title) && Contains("Posted on " + date, date)
  {
    assert title[0..|title|] == title;
    ContainsAt(title, title, 0);
    var posted := "Posted on " + date;
    assert posted[10..10 + |date|] == date;
    ContainsAt(posted, date, 10);
  }

  /** Outside press releases the link does not reach the message at all. */
  lemma LinkOnlyInPressReleases(title: string, l1: string, l2: string, date: string)
    ensures SendSlackPayload(title, l1, date, false) == SendSlackPayload(title, l2, date, false)
  {
  }

  /** In a press release a link with and without its "http://" gives the same message. */
  lemma SchemeOptionalInPressReleases(title: string, link: string, date: string)
    requires !Contains(link, "http")
    ensures SendSlackPayload(title, "http://" + link, date, true)
            == SendSlackPayload(title, link, date, true)
  {
    ContainsAt("http://" + link, "http", 0);
  }

  // ----- sendSlack (app.py) -----

  /** The one attachment `sendSlack` posts. The title is passed through as given, so an item
      without a title gives a null title. */
  datatype Attachment = Attachment(fallback: Option<string>, color: string, authorName: string,
                                   title: Option<string>, titleLink: string, footer: string)

  /** The attachment for a news item. The `date` argument is accepted and not used. The title,
      present or not, is both the fallback and the title, and the title links to the item's
      link with a scheme. */
  function SendSlackAttachment(title: Option<string>, link: string, date: string): (a: Attachment)
    ensures a.fallback == title && a.title == title
    ensures Contains(a.titleLink, "http") && Contains(a.titleLink, link)
  {
    var l := NormalizeLink(link);
    ContainsAt(l, link, |l| - |link|);
    Attachment(title, "#36a64f", "Tippecanews", title, l, "tippecanews by ryan chen")
  }

  /** A link already normalised gives the same attachment: sending never adds a second
      scheme. */
  lemma AttachmentNormalisedOnce(title: Option<string>, link: string, date: string)
    ensures SendSlackAttachment(title, NormalizeLink(link), date)
            == SendSlackAttachment(title, link, date)
  {
    NormalizeIdempotent(link);
  }

  /** The publication date never reaches the message. */
  lemma AttachmentIgnoresDate(title: Option<string>, link: string, d1: string, d2: string)
    ensures SendSlackAttachment(title, link, d1) == SendSlackAttachment(title, link, d2)
  {
  }
}
