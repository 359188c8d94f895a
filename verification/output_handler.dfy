/**
  `output_handler.py`: the HTML clean-up and file naming of
  `BannerHtmlRenderer`, and the validation and checker sequencing of
  `HtmlRenderOutputHandler.handle_output`.

  The browser screenshot is an oracle (whether it produced a file), the
  current time enters as its formatted text, and each checker is given by
  its verdict.
 */
module OutputHandler {
  import opened Outcomes
  import opened PyStr

  // ---------------------------------------------------------------------
  // prepare_html

  /** `html[:html.rfind(">") + 1]` after cutting everything before the first `<`. */
  function Trim(html: string): (t: string)
    ensures |t| <= |html|
    ensures '<' !in html ==> t == html
    ensures '<' in html && t != [] ==> t[0] == '<' && t[|t| - 1] == '>'
  {
    var open := Find(html, '<');
    if open < 0 then html
    else
      var cut := html[open..];
      cut[..RFind(cut, '>') + 1]
  }

  /** The two unescapings, `\'` first and then `\"`. */
  function Unescape(s: string): (r: string)
    ensures |r| <= |s|
  {
    ReplaceAll(ReplaceAll(s, ['\\', '\''], ['\'']), ['\\', '"'], ['"'])
  }

  /**
    Text whose single quotes were escaped with a backslash, and which holds no
    other backslash, comes back as it was before escaping.
   */
  lemma UnescapeSingleQuotes(t: string)
    requires '\\' !in t
    ensures Unescape(EscapeBefore(t, '\\', '\'')) == t
  {
    UnescapeEscaped(t, '\\', '\'');
    NoPairWithoutLead(t, '\\', '"');
    ReplaceAbsent(t, ['\\', '"'], ['"']);
  }

  /** `BannerHtmlRenderer.prepare_html`; `None` stands for Python's `None`. */
  function PrepareHtml(html: Option<string>): (r: Option<string>)
    ensures html.None? <==> r.None?
    ensures html == Some([]) ==> r == html
    ensures r.Some? ==> |r.value| <= |html.value|
  {
    match html
    case None => None
    case Some(s) => if s == [] then html else Some(Unescape(Trim(s)))
  }

  /** Without a `<` nothing is cut: only the unescaping applies. */
  lemma PrepareNoTag(s: string)
    requires '<' !in s
    ensures PrepareHtml(Some(s)) == Some(Unescape(s))
  {
  }

  /** A `<` with no `>` anywhere after the first one leaves nothing. */
  lemma PrepareUnclosed(s: string)
    requires '<' in s
    requires forall j :: Find(s, '<') < j < |s| ==> s[j] != '>'
    ensures PrepareHtml(Some(s)) == Some([])
  {
    var open := Find(s, '<');
    var cut := s[open..];
    assert '>' !in cut by {
      forall j | 0 <= j < |cut| ensures cut[j] != '>' {
        assert cut[j] == s[open + j];
      }
    }
    assert ReplaceAll([], ['\\', '\''], ['\'']) == [];
    assert ReplaceAll([], ['\\', '"'], ['"']) == [];
  }

  /** The last occurrence at or after `open`, seen from the suffix starting there. */
  lemma RFindSuffix(s: string, open: nat, c: char)
    requires open <= RFind(s, c)
    ensures RFind(s[open..], c) == RFind(s, c) - open
  {
    var cut, close := s[open..], RFind(s, c);
    assert cut[close - open] == c;
    forall j | close - open < j < |cut| ensures cut[j] != c {
      assert cut[j] == s[open + j];
    }
    RFindIsLast(cut, c, close - open);
  }

  lemma TrimCuts(s: string)
    requires '<' in s
    ensures Trim(s) == s[Find(s, '<')..][..RFind(s[Find(s, '<')..], '>') + 1]
  {
  }

  lemma SliceOfSuffix(s: string, a: nat, b: nat)
    requires a <= b <= |s|
    ensures s[a..][..b - a] == s[a..b]
  {
  }

  /** With a `>` after the first `<`, the text kept runs from the first `<` to the last `>`. */
  lemma PrepareKeepsTagSpan(s: string)
    requires '<' in s && Find(s, '<') < RFind(s, '>')
    ensures Trim(s) == s[Find(s, '<')..RFind(s, '>') + 1]
  {
    var open, close := Find(s, '<'), RFind(s, '>');
    calc {
      Trim(s);
      { TrimCuts(s); }
      s[open..][..RFind(s[open..], '>') + 1];
      { RFindSuffix(s, open, '>'); }
      s[open..][..close + 1 - open];
      { SliceOfSuffix(s, open, close + 1); }
      s[open..close + 1];
    }
  }

  /** A non-empty cleaned text cut from input with a `<` starts with `<` and ends with `>`. */
  lemma PrepareFramed(s: string)
    requires '<' in s
    ensures var r := PrepareHtml(Some(s)).value;
            r == [] || (r[0] == '<' && r[|r| - 1] == '>')
  {
    var t := Trim(s);
    assert PrepareHtml(Some(s)).value == Unescape(t);
    if t != [] {
      assert t[0] == '<' && t[|t| - 1] == '>';
      var pat1, pat2 := ['\\', '\''], ['\\', '"'];
      ReplaceKeepsFirst(t, pat1, ['\'']);
      ReplaceKeepsLast(t, pat1, ['\'']);
      var u := ReplaceAll(t, pat1, ['\'']);
      assert u[0] == '<' && u[|u| - 1] == '>';
      ReplaceKeepsFirst(u, pat2, ['"']);
      ReplaceKeepsLast(u, pat2, ['"']);
    }
  }

  // ---------------------------------------------------------------------
  // build_save_file_paths and render_image

  /** `file_name or <timestamp>`: an empty or missing name falls back to the time. */
  function Stem(fileName: Option<string>, now: string): string {
    OrElse(fileName, now)
  }

  /** `build_save_file_paths`: `<html_dir>/<stem>.html` and `<images_dir>/<stem>.png`. */
  function SaveFilePaths(htmlDir: string, imagesDir: string, fileName: Option<string>, now: string): (p: (string, string))
    ensures EndsWith(p.0, ".html") && EndsWith(p.1, ".png")
    ensures StartsWith(p.0, htmlDir + "/") && StartsWith(p.1, imagesDir + "/")
    ensures |p.0| == |htmlDir| + |Stem(fileName, now)| + 6 && |p.1| == |imagesDir| + |Stem(fileName, now)| + 5
    ensures p.0[|htmlDir| + 1..|p.0| - 5] == p.1[|imagesDir| + 1..|p.1| - 4] == Stem(fileName, now)
  {
    var stem := Stem(fileName, now);
    var html := htmlDir + "/" + stem + ".html";
    var image := imagesDir + "/" + stem + ".png";
    assert html[|html| - 5..] == ".html";
    assert image[|image| - 4..] == ".png";
    (html, image)
  }

  /** The message `render_image` returns when the screenshot failed. */
  const RenderFailed: string := "Failed to render image from HTML code"

  /** What `render_image` wrote and returned. */
  datatype Rendering = Rendering(htmlPath: string, html: string, result: string)

  /**
    `render_image(html)`: the cleaned HTML is saved to the html path, and the
    image path comes back when the browser saved a screenshot.
   */
  function RenderImage(html: string, fileName: Option<string>, now: string, htmlDir: string, imagesDir: string,
                       screenshotSaved: bool): (r: Rendering)
    ensures Some(r.html) == PrepareHtml(Some(html))
    ensures r.htmlPath == SaveFilePaths(htmlDir, imagesDir, fileName, now).0
    ensures r.result == if screenshotSaved then SaveFilePaths(htmlDir, imagesDir, fileName, now).1 else RenderFailed
  {
    var (htmlPath, imagePath) := SaveFilePaths(htmlDir, imagesDir, fileName, now);
    Rendering(htmlPath, PrepareHtml(Some(html)).value, if screenshotSaved then imagePath else RenderFailed)
  }

  // ---------------------------------------------------------------------
  // handle_output

  /** `"<{}>".format(tag) in output or "</{}>".format(tag) in output`. */
  predicate HasTag(output: string, tag: string) {
    Contains(output, "<" + tag + ">") || Contains(output, "</" + tag + ">")
  }

  /** One of `<html>`, `</html>`, `<head>`, `</head>` occurs. */
  predicate HasHtmlTags(output: string) {
    Contains(output, "<html>") || Contains(output, "</html>")
    || Contains(output, "<head>") || Contains(output, "</head>")
  }

  /** The loop over `("html", "head")` that sets `is_html`. */
  function TagScan(output: string, tags: seq<string>): (found: bool)
    ensures found <==> exists k :: 0 <= k < |tags| && HasTag(output, tags[k])
  {
    if |tags| == 0 then false
    else if HasTag(output, tags[0]) then true
    else
      var rest := TagScan(output, tags[1..]);
      assert forall k :: 1 <= k < |tags| ==> tags[k] == tags[1..][k - 1];
      rest
  }

  /** Scanning the two tag names is checking the four literal tags. */
  lemma TagScanIsHtml(output: string)
    ensures TagScan(output, ["html", "head"]) <==> HasHtmlTags(output)
  {
    var tags := ["html", "head"];
    assert "<" + tags[0] + ">" == "<html>" && "</" + tags[0] + ">" == "</html>";
    assert "<" + tags[1] + ">" == "<head>" && "</" + tags[1] + ">" == "</head>";
  }

  /**
    Runs checkers whose verdicts are `verdicts` (`None` passes, `Some(e)`
    raises `e`) in order. Returns the error that propagated, if any, and how
    many checkers were called.
   */
  function RunCheckers(verdicts: seq<Option<Error>>): (r: (Option<Error>, nat))
    ensures r.1 <= |verdicts|
    ensures r.0.None? <==> forall k :: 0 <= k < |verdicts| ==> verdicts[k].None?
    ensures r.0.None? ==> r.1 == |verdicts|
    ensures r.0.Some? ==> 0 < r.1 && r.0 == verdicts[r.1 - 1]
                          && forall k :: 0 <= k < r.1 - 1 ==> verdicts[k].None?
  {
    if |verdicts| == 0 then (None, 0)
    else if verdicts[0].Some? then (verdicts[0], 1)
    else
      var (e, n) := RunCheckers(verdicts[1..]);
      assert forall k :: 1 <= k < |verdicts| ==> verdicts[k] == verdicts[1..][k - 1];
      (e, n + 1)
  }

  /**
    A checker, given by what its `check` does with the text it is handed:
    `None` when it passes, `Some(e)` when it raises `e`.
   */
  type Checker = string -> Option<Error>

  /** The verdicts of `checkers` when each is handed `checked`. */
  function Verdicts(checkers: seq<Checker>, checked: string): (verdicts: seq<Option<Error>>)
    ensures |verdicts| == |checkers|
    ensures forall k :: 0 <= k < |checkers| ==> verdicts[k] == checkers[k](checked)
  {
    seq(|checkers|, k requires 0 <= k < |checkers| => checkers[k](checked))
  }

  /**
    What `handle_output` returned or raised, which checkers it called, the
    text it handed them, and what it rendered.
   */
  datatype Handled = Handled(result: Result<map<string, string>>, checkersCalled: nat, checkedWith: Option<string>,
                             rendering: Option<Rendering>)

  const TagsNotFound: string := "Html tags not found"

  /**
    `HtmlRenderOutputHandler.handle_output(output)` with the handler's
    `checkers`; `screenshotSaved` says whether the browser saved the image.
   */
  function HandleOutput(output: string, now: string, htmlDir: string, imagesDir: string, screenshotSaved: bool,
                        checkers: seq<Checker>): (h: Handled)
    ensures !HasHtmlTags(output) <==> h.rendering.None?
    ensures !HasHtmlTags(output) ==>
              h.result == Failure(InvalidOutput(TagsNotFound)) && h.checkersCalled == 0 && h.checkedWith.None?
    ensures HasHtmlTags(output) ==>
              h.rendering == Some(RenderImage(output, None, now, htmlDir, imagesDir, screenshotSaved))
              && h.checkedWith == Some(h.rendering.value.result)
    ensures HasHtmlTags(output) && h.result.Success? ==>
              h.checkersCalled == |checkers|
              && (forall k :: 0 <= k < |checkers| ==> checkers[k](h.checkedWith.value).None?)
              && h.result.value == map["checked_output" := h.checkedWith.value]
    ensures HasHtmlTags(output) && h.result.Failure? ==>
              0 < h.checkersCalled <= |checkers|
              && Some(h.result.error) == checkers[h.checkersCalled - 1](h.checkedWith.value)
              && forall k :: 0 <= k < h.checkersCalled - 1 ==> checkers[k](h.checkedWith.value).None?
  {
    TagScanIsHtml(output);
    if !TagScan(output, ["html", "head"]) then Handled(Failure(InvalidOutput(TagsNotFound)), 0, None, None)
    else
      var rendering := RenderImage(output, None, now, htmlDir, imagesDir, screenshotSaved);
      var checked := rendering.result;
      var (raised, called) := RunCheckers(Verdicts(checkers, checked));
      if raised.Some? then
        Handled(Failure(raised.value), called, Some(checked), Some(rendering))
      else
        Handled(Success(map["checked_output" := checked]), called, Some(checked), Some(rendering))
  }

  /**
    When the screenshot fails, the checkers are handed the failure message
    instead of an image path, and a run they all pass returns that message
    as the checked output.
   */
  lemma FailedRenderIsChecked(output: string, now: string, htmlDir: string, imagesDir: string,
                              checkers: seq<Checker>)
    requires HasHtmlTags(output)
    ensures var h := HandleOutput(output, now, htmlDir, imagesDir, false, checkers);
            h.checkedWith == Some(RenderFailed)
            && ((forall k :: 0 <= k < |checkers| ==> checkers[k](RenderFailed).None?) ==>
                  h.result == Success(map["checked_output" := RenderFailed]))
  {
    var h := HandleOutput(output, now, htmlDir, imagesDir, false, checkers);
    assert h.checkedWith == Some(RenderFailed);
    if h.result.Failure? {
      assert checkers[h.checkersCalled - 1](RenderFailed).Some?;
    }
  }

  /** After a successful screenshot the checkers are handed the image path. */
  lemma SavedRenderIsChecked(output: string, now: string, htmlDir: string, imagesDir: string,
                             checkers: seq<Checker>)
    requires HasHtmlTags(output)
    ensures var h := HandleOutput(output, now, htmlDir, imagesDir, true, checkers);
            h.checkedWith == Some(SaveFilePaths(htmlDir, imagesDir, None, now).1)
            && EndsWith(h.checkedWith.value, ".png")
  {
  }
}
