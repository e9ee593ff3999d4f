/**
 * The string steps of the daily generation run (generator.js): pick the
 * first news item out of the RSS feed text, read its headline and link,
 * strip code fences from the language model's reply, and assemble the
 * record that is written to data/senryu_today.json.
 *
 * The network calls, JSON parsing and the clock are parameters: `ask`
 * stands for the generation service answering a prompt built from the
 * headline, `parse` for `JSON.parse`, and `date` for today's date.
 */
module Generator {
  import opened Wrappers
  import opened Strings
  import opened LazyMatch

  const ItemTag: string := "<item>"
  const TitleOpen: string := "<title>"
  const TitleClose: string := "</title>"
  const LinkOpen: string := "<link>"
  const LinkClose: string := "</link>"
  const CDataOpen: string := "<![CDATA["
  const CDataClose: string := "]]>"
  const Fence: string := "```"
  const JsonFence: string := "```json"

  /** The headline picked from the feed. */
  datatype Headline = Headline(title: string, url: string)

  /**
   * What the reply parses to. A key missing from the reply's JSON is `None`:
   * the run does not check for it, and `JSON.stringify` then leaves the key
   * out of the written file.
   */
  datatype AiResult = AiResult(senryu: Option<string>, explanation: Option<string>)

  /**
   * The record written to the output file; the JSON keys are `date`,
   * `senryu`, `explanation`, `news_title` and `news_url`.
   */
  datatype DailyRecord = DailyRecord(
    date: string,
    senryu: Option<string>,
    explanation: Option<string>,
    newsTitle: string,
    newsUrl: string)

  /** Why a run stops without writing anything. */
  datatype Failure =
    | NoNews          // the feed has no <item>
    | UnreadableNews  // the first item lacks a <title> or a <link>
    | GenerationFailed  // the generation service answered with an error status
    | MalformedReply  // the sanitized reply is not JSON (the exception the run catches)

  // ---------------------------------------------------------------------------
  // The news item
  // ---------------------------------------------------------------------------

  /**
   * `xmlText.split('<item>')[1]`: the text after the first `<item>`, up to
   * the next `<item>` or the end, when there are at least two pieces.
   */
  function FirstItem(feed: string): (item: Option<string>)
    ensures item.None? <==> !Contains(feed, ItemTag)
    ensures item.Some? ==> !Contains(item.value, ItemTag)
  {
    var items := Split(feed, ItemTag);
    if |items| < 2 then
      assert IndexOf(feed, ItemTag, 0).None?;
      None
    else
      Some(items[1])
  }

  /** No proper suffix of `<item>` starts a new `<item>`. */
  lemma ItemTagLeadsUniquely()
    ensures LeadsUniquely(ItemTag)
  {
    assert ItemTag[1] == 'i' && ItemTag[2] == 't' && ItemTag[3] == 'e';
    assert ItemTag[4] == 'm' && ItemTag[5] == '>';
  }

  /** The first item is read from the text after the first `<item>` only. */
  lemma FirstItemAfter(prefix: string, rest: string)
    requires !Contains(prefix, ItemTag)
    ensures FirstItem(prefix + ItemTag + rest) == Some(Split(rest, ItemTag)[0])
  {
    var feed := prefix + ItemTag + rest;
    assert feed == prefix + (ItemTag + rest);
    assert StartsWith(ItemTag + rest, ItemTag) by { assert (ItemTag + rest)[..|ItemTag|] == ItemTag; }
    ItemTagLeadsUniquely();
    FirstOccurrenceAfter(prefix, ItemTag + rest, ItemTag);
    assert feed[|prefix| + |ItemTag|..] == rest;
    assert Split(feed, ItemTag) == [feed[..|prefix|]] + Split(rest, ItemTag);
  }

  /**
   * The searched item is exactly the text between the first `<item>` and
   * the next `<item>`, or the end of the feed.
   */
  lemma FirstItemIsFirstBlock(prefix: string, body: string, rest: string)
    requires !Contains(prefix, ItemTag) && !Contains(body, ItemTag)
    requires rest == [] || StartsWith(rest, ItemTag)
    ensures FirstItem(prefix + ItemTag + body + rest) == Some(body)
  {
    assert prefix + ItemTag + body + rest == prefix + ItemTag + (body + rest);
    FirstItemAfter(prefix, body + rest);
    if rest == [] {
      assert body + rest == body;
      assert IndexOf(body, ItemTag, 0).None?;
    } else {
      ItemTagLeadsUniquely();
      FirstOccurrenceAfter(body, rest, ItemTag);
      assert (body + rest)[..|body|] == body;
    }
  }

  // ---------------------------------------------------------------------------
  // The headline
  // ---------------------------------------------------------------------------

  /** `title.replace(/<!\[CDATA\[(.*?)\]\]>/g, '$1')`. */
  function UnwrapCData(title: string): (r: string)
    ensures multiset(r) <= multiset(title)
  {
    UnwrapFrom(title, CDataOpen, CDataClose, 0)
  }

  /** A title wrapped in one CDATA section is unwrapped to its text. */
  lemma UnwrapCDataOfWrapped(x: string)
    requires SingleLine(x) && !Contains(x, CDataClose)
    ensures UnwrapCData(CDataOpen + x + CDataClose) == x
  {
    UnwrapWrapped(x, CDataOpen, CDataClose);
  }

  /** A title with no CDATA section is returned as it is. */
  lemma UnwrapCDataOfPlain(title: string)
    requires !Contains(title, CDataOpen)
    ensures UnwrapCData(title) == title
  {
    UnwrapAbsent(title, CDataOpen, CDataClose);
  }

  /**
   * The headline of the first item: its first single-line `<title>…</title>`
   * with CDATA sections unwrapped, and its first single-line `<link>…</link>`.
   */
  function ExtractHeadline(feed: string): (r: Result<Headline, Failure>)
    ensures r == Failure(NoNews) <==> !Contains(feed, ItemTag)
    ensures r.Failure? ==> r.error == NoNews || r.error == UnreadableNews
    ensures r.Success? ==> SingleLine(r.value.title) && SingleLine(r.value.url)
    ensures r.Success? ==> !Contains(r.value.url, LinkClose)
  {
    match FirstItem(feed)
    case None => Failure(NoNews)
    case Some(item) =>
      var title := Capture(item, TitleOpen, TitleClose);
      var link := Capture(item, LinkOpen, LinkClose);
      if title.None? || link.None? then
        Failure(UnreadableNews)
      else
        UnwrapSingleLine(title.value, CDataOpen, CDataClose);
        Success(Headline(UnwrapCData(title.value), link.value))
  }

  /**
   * Extraction fails with `UnreadableNews` exactly when the first item
   * lacks a title or a link, and otherwise returns the captured link and
   * the unwrapped captured title.
   */
  lemma ExtractHeadlineOfItem(feed: string, item: string)
    requires FirstItem(feed) == Some(item)
    ensures var title, link := Capture(item, TitleOpen, TitleClose), Capture(item, LinkOpen, LinkClose);
      && (ExtractHeadline(feed) == Failure(UnreadableNews) <==> title.None? || link.None?)
      && (title.Some? && link.Some? ==>
            ExtractHeadline(feed) == Success(Headline(UnwrapCData(title.value), link.value)))
  {
  }

  /** Neither tag of the title or the link can overlap itself. */
  lemma TagsDoNotOverlap()
    ensures LeadsUniquely(TitleOpen) && EndsUniquely(TitleClose)
    ensures LeadsUniquely(LinkOpen) && EndsUniquely(LinkClose)
  {
    assert TitleOpen[1..] == "title>" && LinkOpen[1..] == "link>";
    assert TitleClose[..|TitleClose| - 1] == "</title" && LinkClose[..|LinkClose| - 1] == "</link";
    forall k | 0 < k < |TitleOpen| ensures TitleOpen[k] != TitleOpen[0] {
      assert TitleOpen[k] == TitleOpen[1..][k - 1];
    }
    forall k | 0 < k < |LinkOpen| ensures LinkOpen[k] != LinkOpen[0] {
      assert LinkOpen[k] == LinkOpen[1..][k - 1];
    }
    forall k | 0 <= k < |TitleClose| - 1 ensures TitleClose[k] != TitleClose[|TitleClose| - 1] {
      assert TitleClose[k] == TitleClose[..|TitleClose| - 1][k];
    }
    forall k | 0 <= k < |LinkClose| - 1 ensures LinkClose[k] != LinkClose[|LinkClose| - 1] {
      assert LinkClose[k] == LinkClose[..|LinkClose| - 1][k];
    }
  }

  /**
   * The headline of a feed whose first item holds a one-line title and a
   * one-line link: the CDATA-unwrapped title text and the link text, each
   * taken from the first `<title>` and the first `<link>` of the item.
   */
  lemma ExtractHeadlineOfFeed(
    prefix: string, body: string, rest: string,
    titlePre: string, title: string, titlePost: string,
    linkPre: string, link: string, linkPost: string)
    requires !Contains(prefix, ItemTag) && !Contains(body, ItemTag)
    requires rest == [] || StartsWith(rest, ItemTag)
    requires body == titlePre + TitleOpen + title + TitleClose + titlePost
    requires !Contains(titlePre, TitleOpen) && SingleLine(title) && !Contains(title, TitleClose)
    requires body == linkPre + LinkOpen + link + LinkClose + linkPost
    requires !Contains(linkPre, LinkOpen) && SingleLine(link) && !Contains(link, LinkClose)
    ensures ExtractHeadline(prefix + ItemTag + body + rest) == Success(Headline(UnwrapCData(title), link))
  {
    FirstItemIsFirstBlock(prefix, body, rest);
    TagsDoNotOverlap();
    CaptureOf(titlePre, title, titlePost, TitleOpen, TitleClose);
    CaptureOf(linkPre, link, linkPost, LinkOpen, LinkClose);
  }

  /**
   * Whatever precedes the first `<item>` (the channel's own `<title>` and
   * `<link>`, for instance) has no effect on the headline.
   */
  lemma HeadlineIgnoresChannel(prefix: string, other: string, rest: string)
    requires !Contains(prefix, ItemTag) && !Contains(other, ItemTag)
    ensures ExtractHeadline(prefix + ItemTag + rest) == ExtractHeadline(other + ItemTag + rest)
  {
    FirstItemAfter(prefix, rest);
    FirstItemAfter(other, rest);
  }

  // ---------------------------------------------------------------------------
  // The reply
  // ---------------------------------------------------------------------------

  /** `.replace(/```$/, '')`: one fence at the very end goes. */
  function DropTrailingFence(s: string): (r: string)
    ensures EndsWith(s, Fence) ==> s == r + Fence
    ensures !EndsWith(s, Fence) ==> r == s
  {
    if EndsWith(s, Fence) then s[..|s| - |Fence|] else s
  }

  /**
   * The reply sanitizer: trim; then a leading ```` ```json ````, or else a
   * leading ```` ``` ````, is dropped together with one trailing
   * ```` ``` ````, and the rest is trimmed again.
   */
  function StripFences(reply: string): (r: string)
    ensures r == [] || (!IsWhitespace(r[0]) && !IsWhitespace(r[|r| - 1]))
    ensures !StartsWith(Trim(reply), Fence) ==> r == Trim(reply)
  {
    var text := Trim(reply);
    JsonFenceIsFence(text);
    if StartsWith(text, JsonFence) then
      Trim(DropTrailingFence(text[|JsonFence|..]))
    else if StartsWith(text, Fence) then
      Trim(DropTrailingFence(text[|Fence|..]))
    else
      text
  }

  /** A ```` ```json ```` fence is also a ```` ``` ```` fence. */
  lemma JsonFenceIsFence(s: string)
    ensures StartsWith(s, JsonFence) ==> StartsWith(s, Fence)
  {
    if StartsWith(s, JsonFence) {
      assert s[..3] == s[..7][..3] == JsonFence[..3] == Fence;
    }
  }

  /** A reply fenced as ```` ```json … ``` ```` yields its trimmed inside. */
  lemma StripJsonFence(s: string)
    ensures StripFences(JsonFence + s + Fence) == Trim(s)
  {
    var reply := JsonFence + s + Fence;
    assert StartsWith(reply, JsonFence) by { assert reply[..|JsonFence|] == JsonFence; }
    assert reply[|JsonFence|..] == s + Fence;
    assert DropTrailingFence(s + Fence) == s by { assert (s + Fence)[..|s|] == s; }
    TrimOfTrimmed(reply);
  }

  /**
   * A reply fenced as ```` ``` … ``` ```` without a `json` tag yields its
   * trimmed inside.
   */
  lemma StripPlainFence(s: string)
    requires !StartsWith(s, "json")
    ensures StripFences(Fence + s + Fence) == Trim(s)
  {
    var reply := Fence + s + Fence;
    assert !StartsWith(reply, JsonFence) by {
      if |s| >= 4 {
        assert reply[3..7] == s[..4];
      } else {
        assert reply[3 + |s|] == '`';
      }
    }
    assert StartsWith(reply, Fence) by { assert reply[..|Fence|] == Fence; }
    assert reply[|Fence|..] == s + Fence;
    assert DropTrailingFence(s + Fence) == s by { assert (s + Fence)[..|s|] == s; }
    TrimOfTrimmed(reply);
  }

  /**
   * A reply that opens with a fence but never closes it yields the trimmed
   * text after the opening fence.
   */
  lemma StripUnclosedFence(s: string)
    requires !StartsWith(s, "json") && !EndsWith(s, Fence)
    requires s == [] || !IsWhitespace(s[|s| - 1])
    ensures StripFences(Fence + s) == Trim(s)
  {
    var reply := Fence + s;
    assert reply[0] == '`' && reply[|reply| - 1] == (if s == [] then '`' else s[|s| - 1]);
    TrimOfTrimmed(reply);
    assert !StartsWith(reply, JsonFence) by {
      if |s| >= 4 {
        assert reply[3..7] == s[..4];
      } else if |reply| >= 7 {
        assert false;
      }
    }
    assert StartsWith(reply, Fence) by { assert reply[..|Fence|] == Fence; }
    assert reply[|Fence|..] == s;
  }

  /**
   * Only one fence is removed at each end: a doubly fenced reply keeps its
   * inner fences.
   */
  lemma StripRemovesOneFence(m: string)
    ensures StripFences(Fence + Fence + m + Fence + Fence) == Fence + m + Fence
  {
    var inner := Fence + m + Fence;
    assert Fence + Fence + m + Fence + Fence == Fence + inner + Fence;
    FencedIsTrimmed(m);
    StripPlainFence(inner);
  }

  /** Text between two fences has no whitespace at either end to trim. */
  lemma FencedIsTrimmed(m: string)
    ensures !StartsWith(Fence + m + Fence, "json")
    ensures Trim(Fence + m + Fence) == Fence + m + Fence
  {
    var inner := Fence + m + Fence;
    assert inner[0] == '`' && inner[|inner| - 1] == '`';
    assert !StartsWith(inner, "json") by { assert inner[..4][0] == '`'; }
    TrimOfTrimmed(inner);
  }

  /**
   * The usual reply, a ```` ```json ```` line, the JSON text and a closing
   * fence line, sanitizes to the JSON text.
   */
  lemma StripFencedBlock(json: string)
    requires json == [] || (!IsWhitespace(json[0]) && !IsWhitespace(json[|json| - 1]))
    ensures StripFences(JsonFence + "\n" + json + "\n" + Fence) == json
  {
    var s := "\n" + json + "\n";
    assert JsonFence + "\n" + json + "\n" + Fence == JsonFence + s + Fence;
    StripJsonFence(s);
    TrimSurrounded("\n", json, "\n");
  }

  // ---------------------------------------------------------------------------
  // The record and the run
  // ---------------------------------------------------------------------------

  /** The record written to the output file, with exactly five fields. */
  function BuildRecord(date: string, ai: AiResult, news: Headline): (rec: DailyRecord)
    ensures rec.date == date
    ensures rec.senryu == ai.senryu && rec.explanation == ai.explanation
    ensures rec.newsTitle == news.title && rec.newsUrl == news.url
  {
    DailyRecord(date, ai.senryu, ai.explanation, news.title, news.url)
  }

  /**
   * One generation run, up to the file write: read the headline from the
   * feed, ask for a senryu about it, sanitize and parse the reply, and build
   * the record. Each failing step ends the run with nothing built.
   */
  function GenerateDailySenryu(
    date: string,
    feed: string,
    ask: string -> Option<string>,
    parse: string -> Option<AiResult>
  ): (r: Result<DailyRecord, Failure>)
    ensures !Contains(feed, ItemTag) ==> r == Failure(NoNews)
    ensures ExtractHeadline(feed).Failure? ==> r == Failure(ExtractHeadline(feed).error)
    ensures r.Success? ==>
      && ExtractHeadline(feed) == Success(Headline(r.value.newsTitle, r.value.newsUrl))
      && r.value.date == date
      && ask(r.value.newsTitle).Some?
      && parse(StripFences(ask(r.value.newsTitle).value)) == Some(AiResult(r.value.senryu, r.value.explanation))
    ensures r.Success? ==> SingleLine(r.value.newsTitle) && SingleLine(r.value.newsUrl)
    ensures var news := ExtractHeadline(feed);
      news.Success? && ask(news.value.title).Some? && parse(StripFences(ask(news.value.title).value)).Some? ==>
        r == Success(BuildRecord(date, parse(StripFences(ask(news.value.title).value)).value, news.value))
    ensures r == Failure(GenerationFailed) <==>
      ExtractHeadline(feed).Success? && ask(ExtractHeadline(feed).value.title).None?
    ensures r == Failure(MalformedReply) <==>
      && ExtractHeadline(feed).Success?
      && ask(ExtractHeadline(feed).value.title).Some?
      && parse(StripFences(ask(ExtractHeadline(feed).value.title).value)).None?
  {
    match ExtractHeadline(feed)
    case Failure(e) => Failure(e)
    case Success(news) =>
      match ask(news.title)
      case None => Failure(GenerationFailed)
      case Some(reply) =>
        match parse(StripFences(reply))
        case None => Failure(MalformedReply)
        case Some(ai) => Success(BuildRecord(date, ai, news))
  }

  /**
   * A reply that parses but lacks the poem still produces a record: the run
   * does not check the parsed fields, so the written file then has no
   * `senryu` key.
   */
  lemma MissingPoemIsWritten(date: string, feed: string, ask: string -> Option<string>, parse: string -> Option<AiResult>, news: Headline, reply: string, explanation: Option<string>)
    requires ExtractHeadline(feed) == Success(news)
    requires ask(news.title) == Some(reply)
    requires parse(StripFences(reply)) == Some(AiResult(None, explanation))
    ensures GenerateDailySenryu(date, feed, ask, parse)
      == Success(DailyRecord(date, None, explanation, news.title, news.url))
  {
  }
}
