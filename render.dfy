/** The rendering half of main() in generate_feed.py: one <item> block per extracted item,
    joined with newlines into an RSS 2.0 document whose header carries the channel's title,
    link, description and the build instant. The clock read for lastBuildDate is a
    parameter; writing feed.xml and the closing message are not modelled. */
module Render {
  import opened Wrappers
  import opened Text
  import opened Dates
  import opened Markup
  import opened Extract

  const PageUrl: string := "https://www.fda.gov/cosmetics/cosmetics-news-events"
  const FeedTitle: string := "FDA Cosmetics News & Events"
  const FeedDescription: string := "Unofficial RSS feed generated from FDA Cosmetics News & Events (Recent News & Updates)."

  /** The fixed text of an item block around its four fields, with the indentation the
      block keeps after strip(). */
  const ItemOpen: string := "<item>\n      <title>"
  const TitleToLink: string := "</title>\n      <link>"
  const LinkToGuid: string := "</link>\n      <guid isPermaLink=\"true\">"
  const GuidToDate: string := "</guid>\n      <pubDate>"
  const ItemClose: string := "</pubDate>\n    </item>"

  /** Text with no '<': nothing in it can open or close an element. */
  predicate NoLt(s: string) {
    forall i :: 0 <= i < |s| ==> s[i] != '<'
  }

  /** Escaped text has no '<'. */
  lemma EscapeNoLt(s: string)
    ensures NoLt(Escape(s))
  {
  }

  /** An RFC 822 date has no '<'. */
  lemma Rfc2822NoLt(t: DateTime)
    requires Valid(t)
    ensures NoLt(Rfc2822(t))
  {
    var w := Weekday(DateOf(t));
    assert forall k :: 0 <= k < 7 ==> NoLt(DayNames[k]);
    assert forall k :: 0 <= k < 12 ==> NoLt(MonthNames[k]);
    DigitsNoLt(Pad2(t.day));
    DigitsNoLt(Decimal(t.year));
    DigitsNoLt(Pad2(t.hour));
    DigitsNoLt(Pad2(t.minute));
    DigitsNoLt(Pad2(t.second));
  }

  lemma DigitsNoLt(s: string)
    requires AllDigits(s)
    ensures NoLt(s)
  {
  }

  /** One item block, as the f-string of main() lays it out before strip(). */
  function RawItemText(it: Item): string
    requires Valid(it.pub)
  {
    "\n    " + Block(Escape(it.title), Escape(it.url), Escape(it.url), Rfc2822(it.pub))
  }

  /** The block around four already rendered field texts. */
  function Block(title: string, link: string, guid: string, date: string): string {
    ItemOpen + (title + (TitleToLink + (link + (LinkToGuid + (guid + (GuidToDate + (date + ItemClose)))))))
  }

  /** The item block main() appends to rss_items: the f-string, stripped. */
  function ItemBlock(it: Item): (r: string)
    requires Valid(it.pub)
    ensures r != [] && r[0] == '<' && r[|r| - 1] == '>'
  {
    var b := Block(Escape(it.title), Escape(it.url), Escape(it.url), Rfc2822(it.pub));
    BlockEnds(Escape(it.title), Escape(it.url), Escape(it.url), Rfc2822(it.pub));
    StripIndented(b);
    Strip(RawItemText(it))
  }

  /** strip() removes only the newline and indentation in front of "<item>": the block
      starts with "<item>" and ends with "</item>". */
  lemma ItemBlockIsBlock(it: Item)
    requires Valid(it.pub)
    ensures ItemBlock(it) == Block(Escape(it.title), Escape(it.url), Escape(it.url), Rfc2822(it.pub))
  {
    BlockEnds(Escape(it.title), Escape(it.url), Escape(it.url), Rfc2822(it.pub));
    StripIndented(Block(Escape(it.title), Escape(it.url), Escape(it.url), Rfc2822(it.pub)));
  }

  /** strip() of the block behind its newline and indentation is the block itself. */
  lemma StripIndented(b: string)
    requires b != [] && b[0] == '<' && b[|b| - 1] == '>'
    ensures Strip("\n    " + b) == b
  {
    var ws := "\n    ";
    assert forall i :: 0 <= i < |ws| ==> IsSpace(ws[i]);
    TrimStartSkips(ws, b);
  }

  lemma BlockEnds(title: string, link: string, guid: string, date: string)
    ensures var b := Block(title, link, guid, date);
      b[0] == '<' && b[|b| - 1] == '>'
  {
  }

  /** s begins with the text lit; the rest follows. */
  function After(s: string, lit: string): (r: Option<string>)
    ensures r.Some? <==> |lit| <= |s| && s[..|lit|] == lit
    ensures r.Some? ==> s == lit + r.value
  {
    if |lit| <= |s| && s[..|lit|] == lit then Some(s[|lit|..]) else None
  }

  /** Splits s before its first '<': the text of an element up to its closing tag. */
  function UpToLt(s: string): (r: (string, string))
    ensures NoLt(r.0) && s == r.0 + r.1
    ensures r.1 == [] || r.1[0] == '<'
  {
    if s == [] || s[0] == '<' then ([], s)
    else
      var (a, b) := UpToLt(s[1..]);
      ([s[0]] + a, b)
  }

  lemma {:induction false} UpToLtSplits(a: string, b: string)
    requires NoLt(a) && b != [] && b[0] == '<'
    ensures UpToLt(a + b) == (a, b)
    decreases |a|
  {
    if a == [] {
      assert a + b == b;
    } else {
      assert (a + b)[1..] == a[1..] + b;
      UpToLtSplits(a[1..], b);
      assert [a[0]] + a[1..] == a;
    }
  }

  /** The four field texts of an item block, read back in order: title, link, guid and
      pubDate; None when s is not laid out as main() lays out a block. */
  function ReadBlock(s: string): (r: Option<(string, string, string, string)>)
  {
    match After(s, ItemOpen)
    case None => None
    case Some(s1) =>
      var (title, s2) := UpToLt(s1);
      match After(s2, TitleToLink)
      case None => None
      case Some(s3) =>
        var (link, s4) := UpToLt(s3);
        match After(s4, LinkToGuid)
        case None => None
        case Some(s5) =>
          var (guid, s6) := UpToLt(s5);
          match After(s6, GuidToDate)
          case None => None
          case Some(s7) =>
            var (date, s8) := UpToLt(s7);
            if s8 == ItemClose then Some((title, link, guid, date)) else None
  }

  lemma AfterLit(lit: string, rest: string)
    ensures After(lit + rest, lit) == Some(rest)
  {
    assert (lit + rest)[..|lit|] == lit;
  }

  /** Reading a block back gives the four fields it was built from, provided none of them
      holds a '<'. */
  lemma ReadBlockBlock(title: string, link: string, guid: string, date: string)
    requires NoLt(title) && NoLt(link) && NoLt(guid) && NoLt(date)
    ensures ReadBlock(Block(title, link, guid, date)) == Some((title, link, guid, date))
  {
    var t5 := date + ItemClose;
    var t4 := GuidToDate + t5;
    var t3 := guid + t4;
    var t2 := LinkToGuid + t3;
    var t1 := link + t2;
    var t0 := TitleToLink + t1;
    var s1 := title + t0;
    AfterLit(ItemOpen, s1);
    UpToLtSplits(title, t0);
    AfterLit(TitleToLink, t1);
    UpToLtSplits(link, t2);
    AfterLit(LinkToGuid, t3);
    UpToLtSplits(guid, t4);
    AfterLit(GuidToDate, t5);
    UpToLtSplits(date, ItemClose);
  }

  /** Each rendered item reads back as the item: the title and link decode to the item's
      title and URL, the guid is the link, and the pubDate is the RFC 822 form of its date. */
  lemma ItemBlockReadsBack(it: Item)
    requires Valid(it.pub)
    ensures var r := ReadBlock(ItemBlock(it));
      && r.Some?
      && Unescape(r.value.0) == it.title && IsEscaped(r.value.0)
      && Unescape(r.value.1) == it.url && IsEscaped(r.value.1)
      && r.value.2 == r.value.1
      && r.value.3 == Rfc2822(it.pub)
  {
    ItemBlockIsBlock(it);
    EscapeNoLt(it.title);
    EscapeNoLt(it.url);
    Rfc2822NoLt(it.pub);
    ReadBlockBlock(Escape(it.title), Escape(it.url), Escape(it.url), Rfc2822(it.pub));
    UnescapeEscape(it.title);
    UnescapeEscape(it.url);
  }

  // ---- Counting item blocks ----

  const ItemTag: string := "<item>"

  /** The number of places where an "<item>" tag starts in s. The tag cannot overlap
      itself, so this is also what str.count("<item>") returns. */
  function ItemOpens(s: string): nat
    decreases |s|
  {
    if |s| < |ItemTag| then 0
    else (if s[..|ItemTag|] == ItemTag then 1 else 0) + ItemOpens(s[1..])
  }

  /** No '<' directly followed by 'i': a text in which no "<item>" tag can start. */
  predicate NoItemStart(s: string) {
    forall i :: 0 <= i < |s| - 1 ==> !(s[i] == '<' && s[i + 1] == 'i')
  }

  /** No '<' among the last five characters of s, so no "<item>" tag starts in s and runs
      on into what follows. */
  predicate TailNoLt(s: string) {
    forall k :: 0 <= k < |s| && |s| - 5 <= k ==> s[k] != '<'
  }

  lemma {:induction false} NoItemStartCount(s: string)
    requires NoItemStart(s)
    ensures ItemOpens(s) == 0
    decreases |s|
  {
    if |s| >= |ItemTag| {
      assert s[..|ItemTag|] != ItemTag by {
        if s[0] == '<' { assert s[1] != 'i'; }
      }
      NoItemStartCount(s[1..]);
    }
  }

  lemma NoItemStartConcat(a: string, b: string)
    requires NoItemStart(a) && NoItemStart(b)
    requires a == [] || a[|a| - 1] != '<'
    ensures NoItemStart(a + b)
  {
    var s := a + b;
    forall i | 0 <= i < |s| - 1 ensures !(s[i] == '<' && s[i + 1] == 'i') {
      if i + 1 < |a| {
        assert s[i] == a[i] && s[i + 1] == a[i + 1];
      } else if i + 1 == |a| {
        assert s[i] == a[i];
      } else {
        assert s[i] == b[i - |a|] && s[i + 1] == b[i + 1 - |a|];
      }
    }
  }

  lemma NoLtNoItemStart(s: string)
    requires NoLt(s)
    ensures NoItemStart(s) && (s == [] || s[|s| - 1] != '<')
  {
  }

  /** Counting splits over a concatenation when no tag can straddle the seam. */
  lemma {:induction false} ItemOpensConcat(a: string, b: string)
    requires TailNoLt(a)
    ensures ItemOpens(a + b) == ItemOpens(a) + ItemOpens(b)
    decreases |a|
  {
    var s := a + b;
    if a == [] {
      assert s == b;
    } else if |s| < |ItemTag| {
      assert ItemOpens(a) == 0 && ItemOpens(b) == 0;
    } else {
      assert s[1..] == a[1..] + b;
      assert TailNoLt(a[1..]) by {
        forall k | 0 <= k < |a[1..]| && |a[1..]| - 5 <= k ensures a[1..][k] != '<' {
          assert a[1..][k] == a[k + 1];
        }
      }
      ItemOpensConcat(a[1..], b);
      if |a| >= |ItemTag| {
        assert s[..|ItemTag|] == a[..|ItemTag|];
      } else {
        assert s[0] == a[0] != '<';
        assert ItemOpens(a) == 0 && ItemOpens(a[1..]) == 0;
      }
    }
  }

  lemma TailNoLtConcat(a: string, b: string)
    requires TailNoLt(a) && TailNoLt(b)
    ensures TailNoLt(a + b)
  {
    var s := a + b;
    forall k | 0 <= k < |s| && |s| - 5 <= k ensures s[k] != '<' {
      if k < |a| { assert s[k] == a[k]; } else { assert s[k] == b[k - |a|]; }
    }
  }

  lemma TailNoLtSuffix(a: string, b: string)
    requires TailNoLt(b) && |b| >= 5
    ensures TailNoLt(a + b)
  {
    var s := a + b;
    forall k | 0 <= k < |s| && |s| - 5 <= k ensures s[k] != '<' {
      assert s[k] == b[k - |a|];
    }
  }

  /** An item block opens exactly one "<item>" tag, and none can run on past its end. */
  lemma BlockOpensOne(title: string, link: string, guid: string, date: string)
    requires NoLt(title) && NoLt(link) && NoLt(guid) && NoLt(date)
    ensures ItemOpens(Block(title, link, guid, date)) == 1
    ensures TailNoLt(Block(title, link, guid, date))
  {
    var t4 := GuidToDate + (date + ItemClose);
    var t2 := TitleToLink + (link + (LinkToGuid + (guid + t4)));
    var b := ItemOpen + (title + t2);
    BlockLiterals();
    LiteralThenField(GuidToDate, date, ItemClose);
    LiteralThenField(LinkToGuid, guid, t4);
    LiteralThenField(TitleToLink, link, LinkToGuid + (guid + t4));
    LiteralThenField(ItemOpen[1..], title, t2);
    assert b[1..] == ItemOpen[1..] + (title + t2);
    NoItemStartCount(b[1..]);
    assert b[..|ItemTag|] == ItemTag;
    TailNoLtSuffix(date, ItemClose);
    var front := ItemOpen + (title + (TitleToLink + (link + (LinkToGuid + (guid + GuidToDate)))));
    assert b == front + (date + ItemClose);
    TailNoLtSuffix(front, date + ItemClose);
  }

  /** A literal that ends in '>', then a '<'-free field, then text in which no tag starts:
      no tag starts in the whole. */
  lemma LiteralThenField(lit: string, field: string, rest: string)
    requires NoItemStart(lit) && lit != [] && lit[|lit| - 1] == '>'
    requires NoLt(field) && NoItemStart(rest)
    ensures NoItemStart(lit + (field + rest))
  {
    NoLtNoItemStart(field);
    NoItemStartConcat(field, rest);
    NoItemStartConcat(lit, field + rest);
  }

  /** The fixed text of a block: only its first character can start a tag, and none of
      its pieces ends in '<'. */
  lemma BlockLiterals()
    ensures NoItemStart(ItemOpen[1..]) && NoItemStart(TitleToLink) && NoItemStart(LinkToGuid)
    ensures NoItemStart(GuidToDate) && NoItemStart(ItemClose)
    ensures ItemOpen[|ItemOpen| - 1] == '>' && TitleToLink[|TitleToLink| - 1] == '>'
    ensures LinkToGuid[|LinkToGuid| - 1] == '>' && GuidToDate[|GuidToDate| - 1] == '>'
    ensures ItemClose[..|ItemTag|] != ItemTag && TailNoLt(ItemClose) && |ItemClose| >= 5
  {
    assert ItemClose[..|ItemTag|][1] != ItemTag[1];
    var n := |ItemClose|;
    forall k | 0 <= k < n && n - 5 <= k ensures ItemClose[k] != '<' {
      assert ItemClose[n - 5..] == "item>";
      assert ItemClose[k] == ItemClose[n - 5..][k - (n - 5)];
    }
  }

  /** Joining blocks that each open one tag opens one tag per block. */
  lemma {:induction false} JoinOpens(blocks: seq<string>)
    requires forall k :: 0 <= k < |blocks| ==> ItemOpens(blocks[k]) == 1 && TailNoLt(blocks[k])
    ensures ItemOpens(Join(blocks, '\n')) == |blocks|
    ensures TailNoLt(Join(blocks, '\n'))
    decreases |blocks|
  {
    if |blocks| == 1 {
    } else if |blocks| > 1 {
      var head := blocks[0] + ['\n'];
      var rest := Join(blocks[1..], '\n');
      JoinOpens(blocks[1..]);
      assert TailNoLt(['\n']);
      TailNoLtConcat(blocks[0], ['\n']);
      ItemOpensConcat(blocks[0], ['\n']);
      ItemOpensConcat(head, rest);
      TailNoLtConcat(head, rest);
    }
  }

  // ---- The feed document ----

  /** The fixed text of the document around the channel's fields. */
  const XmlDeclaration: string := "<?xml version=\"1.0\" encoding=\"UTF-8\"?>\n"
  const ChannelOpen: string := "<rss version=\"2.0\">\n  <channel>\n    <title>"
  const ChannelTitleToLink: string := "</title>\n    <link>"
  const ChannelLinkToDescription: string := "</link>\n    <description>"
  const DescriptionToBuildDate: string := "</description>\n    <lastBuildDate>"
  const HeaderClose: string := "</lastBuildDate>\n"
  const Footer: string := "\n  </channel>\n</rss>\n"

  /** The document up to and including the line of lastBuildDate, around four already
      rendered field texts. */
  function Channel(title: string, link: string, description: string, date: string): string {
    XmlDeclaration + (ChannelOpen + (title + (ChannelTitleToLink + (link
    + (ChannelLinkToDescription + (description + (DescriptionToBuildDate
    + (date + HeaderClose))))))))
  }

  /** The header of the feed: its escaped title, page link and description, and the build
      instant in RFC 822 form. */
  function Header(buildTime: DateTime): (r: string)
    requires Valid(buildTime)
    ensures |XmlDeclaration| < |r| && r[..|XmlDeclaration|] == XmlDeclaration
  {
    Channel(Escape(FeedTitle), Escape(PageUrl), Escape(FeedDescription), Rfc2822(buildTime))
  }

  /** Every item carries a date-time the datetime type accepts. */
  predicate ValidPubs(items: seq<Item>) {
    forall k :: 0 <= k < |items| ==> Valid(items[k].pub)
  }

  lemma MidnightPubsValid(items: seq<Item>)
    requires MidnightItems(items)
    ensures ValidPubs(items)
  {
  }

  /** The item blocks of the items, in list order. */
  function ItemBlocks(items: seq<Item>): seq<string>
    requires ValidPubs(items)
  {
    seq(|items|, k requires 0 <= k < |items| => ItemBlock(items[k]))
  }

  /** The text b is what follows a in a + b. */
  lemma EndsWith(a: string, b: string)
    ensures |b| <= |a + b| && (a + b)[|a + b| - |b|..] == b
  {
  }

  /** The rss document main() writes: the header, the blocks joined with newlines, the
      closing tags. */
  function Feed(items: seq<Item>, buildTime: DateTime): (r: string)
    requires ValidPubs(items) && Valid(buildTime)
    ensures |Footer| <= |r| && r[|r| - |Footer|..] == Footer
  {
    var front := Header(buildTime) + Join(ItemBlocks(items), '\n');
    EndsWith(front, Footer);
    front + Footer
  }

  lemma HeaderLiterals()
    ensures NoItemStart(XmlDeclaration) && NoItemStart(ChannelOpen) && NoItemStart(ChannelTitleToLink)
    ensures NoItemStart(ChannelLinkToDescription) && NoItemStart(DescriptionToBuildDate)
    ensures NoItemStart(HeaderClose) && NoItemStart(Footer)
    ensures XmlDeclaration[|XmlDeclaration| - 1] == '\n' && ChannelOpen[|ChannelOpen| - 1] == '>'
    ensures ChannelTitleToLink[|ChannelTitleToLink| - 1] == '>'
    ensures ChannelLinkToDescription[|ChannelLinkToDescription| - 1] == '>'
    ensures DescriptionToBuildDate[|DescriptionToBuildDate| - 1] == '>'
    ensures TailNoLt(HeaderClose) && |HeaderClose| >= 5
  {
    var n := |HeaderClose|;
    forall k | 0 <= k < n && n - 5 <= k ensures HeaderClose[k] != '<' {
      assert HeaderClose[n - 5..] == "ate>\n";
      assert HeaderClose[k] == HeaderClose[n - 5..][k - (n - 5)];
    }
  }

  /** The header opens no "<item>" tag, and none can start in its last characters. */
  lemma ChannelOpensNone(title: string, link: string, description: string, date: string)
    requires NoLt(title) && NoLt(link) && NoLt(description) && NoLt(date)
    ensures ItemOpens(Channel(title, link, description, date)) == 0
    ensures TailNoLt(Channel(title, link, description, date))
  {
    var t6 := DescriptionToBuildDate + (date + HeaderClose);
    var t4 := ChannelLinkToDescription + (description + t6);
    var t2 := ChannelTitleToLink + (link + t4);
    var t0 := ChannelOpen + (title + t2);
    var c := XmlDeclaration + t0;
    HeaderLiterals();
    LiteralThenField(DescriptionToBuildDate, date, HeaderClose);
    LiteralThenField(ChannelLinkToDescription, description, t6);
    LiteralThenField(ChannelTitleToLink, link, t4);
    LiteralThenField(ChannelOpen, title, t2);
    NoItemStartConcat(XmlDeclaration, t0);
    NoItemStartCount(c);
    var front := XmlDeclaration + (ChannelOpen + (title + (ChannelTitleToLink + (link
      + (ChannelLinkToDescription + (description + DescriptionToBuildDate))))));
    assert c == front + (date + HeaderClose);
    TailNoLtSuffix(date, HeaderClose);
    TailNoLtSuffix(front, date + HeaderClose);
  }

  lemma HeaderOpensNone(buildTime: DateTime)
    requires Valid(buildTime)
    ensures ItemOpens(Header(buildTime)) == 0 && TailNoLt(Header(buildTime))
  {
    Rfc2822NoLt(buildTime);
    EscapeNoLt(FeedDescription);
    EscapeNoLt(PageUrl);
    EscapeNoLt(FeedTitle);
    ChannelOpensNone(Escape(FeedTitle), Escape(PageUrl), Escape(FeedDescription), Rfc2822(buildTime));
  }

  /** An item block opens one "<item>" tag. */
  lemma ItemBlockOpensOne(it: Item)
    requires Valid(it.pub)
    ensures ItemOpens(ItemBlock(it)) == 1 && TailNoLt(ItemBlock(it))
  {
    ItemBlockIsBlock(it);
    EscapeNoLt(it.title);
    EscapeNoLt(it.url);
    Rfc2822NoLt(it.pub);
    BlockOpensOne(Escape(it.title), Escape(it.url), Escape(it.url), Rfc2822(it.pub));
  }

  /** The feed holds exactly one "<item>" tag per item: the header and the closing tags
      open none, and each block opens one. */
  lemma {:induction false} FeedOpensOnePerItem(items: seq<Item>, buildTime: DateTime)
    requires ValidPubs(items) && Valid(buildTime)
    ensures ItemOpens(Feed(items, buildTime)) == |items|
  {
    var blocks := ItemBlocks(items);
    forall k | 0 <= k < |blocks| ensures ItemOpens(blocks[k]) == 1 && TailNoLt(blocks[k]) {
      ItemBlockOpensOne(items[k]);
    }
    HeaderOpensNone(buildTime);
    DocumentOpens(Header(buildTime), blocks);
  }

  lemma DocumentOpens(header: string, blocks: seq<string>)
    requires ItemOpens(header) == 0 && TailNoLt(header)
    requires forall k :: 0 <= k < |blocks| ==> ItemOpens(blocks[k]) == 1 && TailNoLt(blocks[k])
    ensures ItemOpens(header + Join(blocks, '\n') + Footer) == |blocks|
  {
    var body := Join(blocks, '\n');
    JoinOpens(blocks);
    ItemOpensConcat(header, body);
    TailNoLtConcat(header, body);
    HeaderLiterals();
    NoItemStartCount(Footer);
    ItemOpensConcat(header + body, Footer);
  }

  // ---- The loop of main() ----

  /** The loop of main() that fills rss_items: one block per item, in list order. */
  method RenderItems(items: seq<Item>) returns (blocks: seq<string>)
    requires ValidPubs(items)
    ensures blocks == ItemBlocks(items)
  {
    // Only the order of the blocks matters here, not their text.
    hide ItemBlock;
    blocks := [];
    for i := 0 to |items|
      invariant blocks == ItemBlocks(items)[..i]
    {
      ghost var all := ItemBlocks(items);
      assert all[..i + 1] == all[..i] + [all[i]];
      blocks := blocks + [ItemBlock(items[i])];
    }
  }

  /** The rss text main() builds from the items and the build instant: the feed document,
      with one "<item>" tag per item. */
  method RenderFeed(items: seq<Item>, buildTime: DateTime) returns (rss: string)
    requires ValidPubs(items) && Valid(buildTime)
    ensures rss == Feed(items, buildTime)
    ensures ItemOpens(rss) == |items|
  {
    var blocks := RenderItems(items);
    rss := Header(buildTime) + Join(blocks, '\n') + Footer;
    FeedOpensOnePerItem(items, buildTime);
  }

  /** main() without its I/O: the page text is a parameter instead of a fetch, the build
      instant instead of a clock read, and the document is returned instead of written.
      The feed holds the recent news items, at most MaxItems of them, newest first. */
  method GenerateFeed(page: string, scan: string -> seq<Match>, otherJoin: string -> string, buildTime: DateTime)
    returns (rss: string)
    requires Valid(buildTime)
    ensures var items := RecentNewsItems(page, scan, otherJoin);
      && ValidPubs(items) && NewestFirst(items)
      && rss == Feed(items, buildTime)
      && ItemOpens(rss) == |items| <= MaxItems
  {
    var items := ExtractRecentNewsItems(page, scan, otherJoin);
    assert |items| <= MaxItems;
    MidnightPubsValid(items);
    rss := RenderFeed(items, buildTime);
  }
}
