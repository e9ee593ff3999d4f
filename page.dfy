/**
 * The browser page (script.js) once the day's record has been fetched: the
 * poem is shown one paragraph per line, the explanation and the source
 * headline beside it, and the share button posts the poem on one line
 * between a fixed header and a fixed set of hashtags.
 *
 * The page's display elements are the fields of `SenryuPage`; the fetch of
 * the record is an input (`None` when it failed), and the fade-in delay,
 * `encodeURIComponent` and `window.open` are not part of this model.
 */
module Page {
  import opened Wrappers
  import opened Strings
  import opened Generator

  const PoemOpen: string := "<div class=\"senryu-text\">"
  const PoemClose: string := "</div>"
  const ParagraphTag: string := "<p>"

  /** The text of the share message before and after the poem. */
  const ShareHeader: string := "【今日のAI風刺川柳】\n\n"
  const ShareFooter: string := "\n\n#風刺川柳 #AI川柳 #ニュース"

  /** The markup shown when the record could not be loaded. */
  const FallbackPoemHtml: string :=
    "\n                <div class=\"senryu-text\">"
    + "\n                    <p>詠み込みに</p>"
    + "\n                    <p>失敗をして</p>"
    + "\n                    <p>詫びる朝</p>"
    + "\n                </div>"
    + "\n            "
  const FallbackExplanationHtml: string :=
    "<p>システムの不具合により今日の川柳が取得できませんでした。しばらく時間をおいてお試しください。</p>"

  /** One line of the poem as a paragraph. */
  function Paragraph(line: string): string
  {
    ParagraphTag + line + "</p>"
  }

  /** The paragraphs for `lines`, in order. */
  function Paragraphs(lines: seq<string>): string
  {
    if lines == [] then "" else Paragraphs(lines[..|lines| - 1]) + Paragraph(lines[|lines| - 1])
  }

  /** `senryu.split('\n')`: the lines of the poem. */
  function PoemLines(poem: string): (lines: seq<string>)
    ensures |lines| == CountChar(poem, '\n') + 1
    ensures Join(lines, "\n") == poem
    ensures forall k :: 0 <= k < |lines| ==> '\n' !in lines[k]
  {
    var lines := Split(poem, "\n");
    SplitCharCount(poem, '\n');
    JoinSplit(poem, "\n");
    forall k, j | 0 <= k < |lines| && 0 <= j < |lines[k]| ensures lines[k][j] != '\n' {
      assert !OccursAt(lines[k], "\n", j);
      assert lines[k][j..j + 1] == [lines[k][j]];
    }
    lines
  }

  /**
   * Splitting is the only way to cut a poem into newline-free lines: lines
   * without newlines, joined by newlines, split back into the same lines.
   */
  lemma PoemLinesOfLines(lines: seq<string>)
    requires |lines| >= 1
    requires forall k :: 0 <= k < |lines| ==> '\n' !in lines[k]
    ensures PoemLines(Join(lines, "\n")) == lines
  {
    forall k, j: nat | 0 <= k < |lines| ensures !OccursAt(lines[k], "\n", j) {
      if j < |lines[k]| {
        assert lines[k][j..j + 1][0] == lines[k][j];
      }
    }
    SplitJoinChar(lines, '\n');
  }

  /**
   * The markup `renderSenryu` builds for the poem: the senryu-text block
   * holding one paragraph per line of the poem, in order.
   */
  method PoemHtml(poem: string) returns (html: string)
    ensures html == PoemOpen + Paragraphs(PoemLines(poem)) + PoemClose
  {
    var lines := PoemLines(poem);
    html := PoemOpen;
    for i := 0 to |lines|
      invariant html == PoemOpen + Paragraphs(lines[..i])
    {
      assert lines[..i + 1][..i] == lines[..i];
      html := html + Paragraph(lines[i]);
    }
    assert lines[..|lines|] == lines;
    html := html + PoemClose;
  }

  lemma {:induction false} ParagraphsStartWithTag(lines: seq<string>)
    requires lines != []
    ensures Paragraphs(lines) != [] && Paragraphs(lines)[0] == '<'
    decreases |lines|
  {
    if |lines| > 1 {
      ParagraphsStartWithTag(lines[..|lines| - 1]);
    }
  }

  /** A paragraph holds one `<p>` tag when its line holds none. */
  lemma ParagraphHasOneTag(line: string)
    requires !Contains(line, ParagraphTag)
    ensures CountOccurrences(Paragraph(line), ParagraphTag) == 1
  {
    var x := line + "</p>";
    var p := Paragraph(line);
    assert p == ParagraphTag + x;
    assert p[1..] == "p>" + x && p[1..][1..] == ">" + x && p[1..][1..][1..] == x;
    assert p[1..][0] == 'p' && p[1..][1..][0] == '>';
    assert p[..3] == ParagraphTag;
    assert !OccursAt(p[1..], ParagraphTag, 0) && !OccursAt(p[1..][1..], ParagraphTag, 0);
    assert CountOccurrences(p, ParagraphTag) == 1 + CountOccurrences(p[1..], ParagraphTag);
    assert CountOccurrences(p[1..], ParagraphTag) == CountOccurrences(p[1..][1..], ParagraphTag);
    assert CountOccurrences(p[1..][1..], ParagraphTag) == CountOccurrences(x, ParagraphTag);
    CountOccurrencesAppend(line, "</p>", ParagraphTag);
    CountOccurrencesAbsent(line, ParagraphTag);
    assert !Contains("</p>", ParagraphTag) by {
      forall j: nat ensures !OccursAt("</p>", ParagraphTag, j) {
        if j == 0 {
          assert "</p>"[1] != ParagraphTag[1];
        } else if j == 1 {
          assert "</p>"[1] != ParagraphTag[0];
        }
      }
    }
    CountOccurrencesAbsent("</p>", ParagraphTag);
  }

  /** The paragraphs for `lines` hold one `<p>` tag per line. */
  lemma {:induction false} ParagraphsTagCount(lines: seq<string>)
    requires forall k :: 0 <= k < |lines| ==> !Contains(lines[k], ParagraphTag)
    ensures CountOccurrences(Paragraphs(lines), ParagraphTag) == |lines|
    decreases |lines|
  {
    if lines != [] {
      var init, last := lines[..|lines| - 1], lines[|lines| - 1];
      ParagraphsTagCount(init);
      ParagraphHasOneTag(last);
      CountOccurrencesAppend(Paragraphs(init), Paragraph(last), ParagraphTag);
    }
  }

  /**
   * The poem markup holds as many `<p>` tags as the poem has lines, which
   * is one more than its newlines, as long as the poem's own text holds no
   * `<p>` (the poem is inserted as markup, not as text).
   */
  lemma PoemHtmlTagCount(poem: string)
    requires !Contains(poem, ParagraphTag)
    ensures CountOccurrences(PoemOpen + Paragraphs(PoemLines(poem)) + PoemClose, ParagraphTag)
      == CountChar(poem, '\n') + 1
  {
    var lines := PoemLines(poem);
    LinesAvoidTag(poem);
    ParagraphsTagCount(lines);
    ParagraphsStartWithTag(lines);
    FramedTagCount(Paragraphs(lines));
  }

  /** No line of a poem without `<p>` holds `<p>`. */
  lemma LinesAvoidTag(poem: string)
    requires !Contains(poem, ParagraphTag)
    ensures forall k :: 0 <= k < |PoemLines(poem)| ==> !Contains(PoemLines(poem)[k], ParagraphTag)
  {
    SplitPartsAvoid(poem, "\n", ParagraphTag);
  }

  /** Wrapping paragraphs in the senryu-text block adds no `<p>` tag. */
  lemma FramedTagCount(body: string)
    requires body != [] && body[0] == '<'
    ensures CountOccurrences(PoemOpen + body + PoemClose, ParagraphTag) == CountOccurrences(body, ParagraphTag)
  {
    FrameHasNoTag();
    TagLeadsUniquely();
    CountBetween(PoemOpen, body, PoemClose, ParagraphTag);
  }

  lemma CountBetween(a: string, body: string, c: string, pat: string)
    requires LeadsUniquely(pat) && body != [] && body[0] == pat[0] && c != [] && c[0] == pat[0]
    requires CountOccurrences(a, pat) == 0 && CountOccurrences(c, pat) == 0
    ensures CountOccurrences(a + body + c, pat) == CountOccurrences(body, pat)
  {
    CountOccurrencesAppend(body, c, pat);
    CountOccurrencesAppend(a, body + c, pat);
    assert a + body + c == a + (body + c);
  }

  /** `<p>` cannot overlap itself. */
  lemma TagLeadsUniquely()
    ensures LeadsUniquely(ParagraphTag)
  {
    assert ParagraphTag[1] == 'p' && ParagraphTag[2] == '>';
  }

  /** The block around the paragraphs holds no `<p>` tag. */
  lemma FrameHasNoTag()
    ensures CountOccurrences(PoemOpen, ParagraphTag) == 0
    ensures CountOccurrences(PoemClose, ParagraphTag) == 0
  {
    PoemOpenHasNoTag();
    PoemCloseHasNoTag();
  }

  lemma PoemOpenHasNoTag()
    ensures CountOccurrences(PoemOpen, ParagraphTag) == 0
  {
    assert PoemOpen == [ParagraphTag[0]] + "div class=\"senryu-text\">";
    CountWithLeadOnlyFirst("div class=\"senryu-text\">", ParagraphTag);
  }

  lemma PoemCloseHasNoTag()
    ensures CountOccurrences(PoemClose, ParagraphTag) == 0
  {
    assert PoemClose == [ParagraphTag[0]] + "/div>";
    CountWithLeadOnlyFirst("/div>", ParagraphTag);
  }

  /** `senryu.replace(/\n/g, ' ')`: the poem on one line, for sharing. */
  function ShareLine(poem: string): (text: string)
    ensures |text| == |poem|
    ensures forall k :: 0 <= k < |poem| ==> text[k] == (if poem[k] == '\n' then ' ' else poem[k])
    ensures '\n' !in text
  {
    ReplaceChar(poem, '\n', ' ')
  }

  /** The share text is the poem's lines joined with spaces. */
  lemma ShareLineJoinsLines(poem: string)
    ensures ShareLine(poem) == Join(PoemLines(poem), " ")
  {
    ReplaceCharIsSplitJoin(poem, '\n', ' ');
  }

  /** How a template literal shows a value that may be missing: `undefined`. */
  function Shown(value: Option<string>): string
  {
    if value.Some? then value.value else "undefined"
  }

  /** The markup naming the news item the poem is about. */
  function NewsSourceBlock(title: string, url: string): string
  {
    "\n                    <span class=\"news-label\">元ネタになったニュース</span>"
    + "\n                    <a href=\"" + url + "\" target=\"_blank\" rel=\"noopener noreferrer\">" + title + "</a>"
    + "\n                "
  }

  /** The page's display elements and the text kept for sharing. */
  class SenryuPage {
    var poemHtml: string         // contents of the senryu display
    var explanationHtml: string  // contents of the explanation display
    var newsSourceHtml: string   // contents of the news source display
    var shareEnabled: bool       // the share button is enabled
    var currentSenryuText: string

    /** The page as loaded: its markup is the page's own; nothing is kept for sharing yet. */
    constructor (poemHtml0: string, explanationHtml0: string, newsSourceHtml0: string, shareEnabled0: bool)
      ensures poemHtml == poemHtml0 && explanationHtml == explanationHtml0
      ensures newsSourceHtml == newsSourceHtml0 && shareEnabled == shareEnabled0
      ensures currentSenryuText == ""
    {
      poemHtml := poemHtml0;
      explanationHtml := explanationHtml0;
      newsSourceHtml := newsSourceHtml0;
      shareEnabled := shareEnabled0;
      currentSenryuText := "";
    }

    /**
     * `renderSenryu(data)`. A record without a poem makes the call fail
     * before anything is changed (`ok` is false); otherwise the poem, the
     * explanation and, when both the headline and the link are non-empty,
     * the news source are shown, the share text is kept and sharing is
     * enabled.
     */
    method Render(data: DailyRecord) returns (ok: bool)
      modifies this
      ensures ok == data.senryu.Some?
      ensures !ok ==> unchanged(this)
      ensures ok ==> poemHtml == PoemOpen + Paragraphs(PoemLines(data.senryu.value)) + PoemClose
      ensures ok ==> currentSenryuText == ShareLine(data.senryu.value)
      ensures ok ==> explanationHtml == "<p>" + Shown(data.explanation) + "</p>"
      ensures ok && data.newsTitle != "" && data.newsUrl != "" ==>
                newsSourceHtml == NewsSourceBlock(data.newsTitle, data.newsUrl)
      ensures ok && (data.newsTitle == "" || data.newsUrl == "") ==> newsSourceHtml == old(newsSourceHtml)
      ensures ok ==> shareEnabled
    {
      if data.senryu.None? {
        return false;
      }
      var poem := data.senryu.value;
      var html := PoemHtml(poem);
      currentSenryuText := ShareLine(poem);
      poemHtml := html;
      explanationHtml := "<p>" + Shown(data.explanation) + "</p>";
      if data.newsTitle != "" && data.newsUrl != "" {
        newsSourceHtml := NewsSourceBlock(data.newsTitle, data.newsUrl);
      }
      shareEnabled := true;
      ok := true;
    }

    /** The placeholder poem and apology shown when loading fails. */
    method ShowFallback()
      modifies this
      ensures poemHtml == FallbackPoemHtml && explanationHtml == FallbackExplanationHtml
      ensures newsSourceHtml == old(newsSourceHtml) && shareEnabled == old(shareEnabled)
      ensures currentSenryuText == old(currentSenryuText)
    {
      poemHtml := FallbackPoemHtml;
      explanationHtml := FallbackExplanationHtml;
    }

    /**
     * `fetchTodaySenryu` once the request has finished: `fetched` is `None`
     * when the request failed, its status was not OK or its body was not
     * JSON. Any failure, including a record without a poem, shows the
     * fallback and keeps the share text as it was.
     */
    method Load(fetched: Option<DailyRecord>)
      modifies this
      ensures fetched.Some? && fetched.value.senryu.Some? ==>
        && poemHtml == PoemOpen + Paragraphs(PoemLines(fetched.value.senryu.value)) + PoemClose
        && currentSenryuText == ShareLine(fetched.value.senryu.value)
        && explanationHtml == "<p>" + Shown(fetched.value.explanation) + "</p>"
        && shareEnabled
      ensures fetched.Some? && fetched.value.senryu.Some? && fetched.value.newsTitle != "" && fetched.value.newsUrl != "" ==>
        newsSourceHtml == NewsSourceBlock(fetched.value.newsTitle, fetched.value.newsUrl)
      ensures fetched.Some? && fetched.value.senryu.Some? && (fetched.value.newsTitle == "" || fetched.value.newsUrl == "") ==>
        newsSourceHtml == old(newsSourceHtml)
      ensures !(fetched.Some? && fetched.value.senryu.Some?) ==>
        && poemHtml == FallbackPoemHtml && explanationHtml == FallbackExplanationHtml
        && currentSenryuText == old(currentSenryuText)
        && newsSourceHtml == old(newsSourceHtml) && shareEnabled == old(shareEnabled)
    {
      var ok := false;
      if fetched.Some? {
        ok := Render(fetched.value);
      }
      if !ok {
        ShowFallback();
      }
    }

    /**
     * `shareToX`: nothing when there is no share text; otherwise the
     * message is the header, the share text and the hashtag footer.
     */
    method ShareToX() returns (message: Option<string>)
      ensures message.None? <==> currentSenryuText == ""
      ensures message.Some? ==> message.value == ShareHeader + currentSenryuText + ShareFooter
    {
      if currentSenryuText == "" {
        return None;
      }
      message := Some(ShareHeader + currentSenryuText + ShareFooter);
    }
  }

  /**
   * After a record with a poem is loaded, sharing posts that poem on one
   * line, unless the poem is empty; after a failed load on a fresh page,
   * sharing does nothing.
   */
  method LoadThenShare(fetched: Option<DailyRecord>) returns (message: Option<string>)
    ensures fetched.Some? && fetched.value.senryu.Some? && fetched.value.senryu.value != "" ==>
      message == Some(ShareHeader + ShareLine(fetched.value.senryu.value) + ShareFooter)
    ensures !(fetched.Some? && fetched.value.senryu.Some? && fetched.value.senryu.value != "") ==>
      message == None
  {
    var page := new SenryuPage("", "", "", false);
    page.Load(fetched);
    message := page.ShareToX();
  }
}
