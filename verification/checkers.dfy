/**
  The verdict rules of the three checkers of `checkers.py`. A checker
  returns `True` or raises; here that is `Success(true)` or a `Failure`.

  What a person types, what the vision model replies and what arrives on a
  remarks queue are inputs. Showing the image and the Streamlit views are
  outside the model.
 */
module Checkers {
  import opened Outcomes
  import opened PyStr
  import opened ImageDescription
  import opened Base64

  // ---------------------------------------------------------------------
  // CliHumanChecker

  /** The features asked about, in order. */
  const Features: seq<string> := ["color", "size", "position", "font", "additions", "recommendation"]

  const RecommendationPrefix: string := "ask recommendations how"
  /** The postfix of the recommendation remark, held in short pieces so that their characters can be checked one by one. */
  const PostfixWhere: string := "Need text coordinates "
  const PostfixBox: string := "(x, y, width, height), "
  const PostfixStyle: string := "color, size, slant text block, font, "
  const PostfixSlogan: string := "add the slogan text to the "
  const PostfixRequest: string := "recommendation request"
  const RecommendationPostfix: string := PostfixWhere + PostfixBox + PostfixStyle + PostfixSlogan + PostfixRequest

  /** The `remarks_prefix` and `remarks_postfix` dictionaries of `CliHumanChecker`. */
  const RemarksPrefix: map<string, string> := map["recommendation" := RecommendationPrefix]
  const RemarksPostfix: map<string, string> := map["recommendation" := RecommendationPostfix]

  /** `remarks_prefix.get(feature, feature)`. */
  function Prefix(feature: string): string {
    if feature in RemarksPrefix then RemarksPrefix[feature] else feature
  }

  /** `remarks_postfix.get(feature, "")`. */
  function Postfix(feature: string): string {
    if feature in RemarksPostfix then RemarksPostfix[feature] else ""
  }

  /** `"    {}: {} {}".format(prefix, answer, postfix)`. */
  function Remark(feature: string, answer: string): string {
    "    " + Prefix(feature) + ": " + answer + " " + Postfix(feature)
  }

  /** Every answer was left empty. */
  predicate AllEmpty(answers: seq<string>) {
    forall k :: 0 <= k < |answers| ==> answers[k] == []
  }

  /** The remarks for the non-empty answers, feature by feature. */
  function Remarks(features: seq<string>, answers: seq<string>): (rs: seq<string>)
    requires |answers| == |features|
    ensures |rs| <= |features|
    ensures rs == [] <==> AllEmpty(answers)
    decreases |features|
  {
    if |features| == 0 then []
    else
      assert forall k :: 1 <= k < |answers| ==> answers[k] == answers[1..][k - 1];
      (if answers[0] != [] then [Remark(features[0], answers[0])] else [])
      + Remarks(features[1..], answers[1..])
  }

  /** No string of `ss` holds a line break. */
  predicate Unbroken(ss: seq<string>) {
    forall k :: 0 <= k < |ss| ==> '\n' !in ss[k]
  }

  lemma UnbrokenParts(a: seq<string>, b: seq<string>)
    requires Unbroken(a) && Unbroken(b)
    ensures Unbroken(a + b)
  {
    forall k | 0 <= k < |a + b| ensures '\n' !in (a + b)[k] {
      if k >= |a| {
        assert (a + b)[k] == b[k - |a|];
      }
    }
  }

  lemma UnbrokenTail(a: seq<string>)
    requires Unbroken(a) && a != []
    ensures Unbroken(a[1..])
  {
    forall k | 0 <= k < |a[1..]| ensures '\n' !in a[1..][k] {
      assert a[1..][k] == a[k + 1];
    }
  }

  /** Remarks built from features and answers without line breaks have none either. */
  lemma {:induction false} RemarksHaveNoLineBreak(features: seq<string>, answers: seq<string>)
    requires |answers| == |features|
    requires Unbroken(features) && Unbroken(answers)
    ensures Unbroken(Remarks(features, answers))
    decreases |features|
  {
    if |features| > 0 {
      var head := if answers[0] != [] then [Remark(features[0], answers[0])] else [];
      assert Remarks(features, answers) == head + Remarks(features[1..], answers[1..]);
      UnbrokenTail(features);
      UnbrokenTail(answers);
      RemarksHaveNoLineBreak(features[1..], answers[1..]);
      if answers[0] != [] {
        NoLineBreakInRemark(features[0], answers[0]);
      }
      UnbrokenParts(head, Remarks(features[1..], answers[1..]));
    }
  }

  /** The first feature's remark, if any, comes before the rest. */
  lemma RemarksCons(features: seq<string>, answers: seq<string>)
    requires |answers| == |features| > 0
    ensures Remarks(features, answers)
            == (if answers[0] != [] then [Remark(features[0], answers[0])] else [])
               + Remarks(features[1..], answers[1..])
  {
  }

  /** Remarks are collected feature by feature, in the features' order. */
  lemma {:induction false} RemarksAppend(f1: seq<string>, a1: seq<string>, f2: seq<string>, a2: seq<string>)
    requires |a1| == |f1| && |a2| == |f2|
    ensures Remarks(f1 + f2, a1 + a2) == Remarks(f1, a1) + Remarks(f2, a2)
    decreases |f1|
  {
    if |f1| > 0 {
      var head := if a1[0] != [] then [Remark(f1[0], a1[0])] else [];
      var r1, r2 := Remarks(f1[1..], a1[1..]), Remarks(f2, a2);
      assert (f1 + f2)[0] == f1[0] && (a1 + a2)[0] == a1[0];
      assert (f1 + f2)[1..] == f1[1..] + f2;
      assert (a1 + a2)[1..] == a1[1..] + a2;
      RemarksCons(f1 + f2, a1 + a2);
      RemarksCons(f1, a1);
      RemarksAppend(f1[1..], a1[1..], f2, a2);
      assert head + (r1 + r2) == (head + r1) + r2;
    } else {
      assert f1 + f2 == f2 && a1 + a2 == a2;
    }
  }

  /** A single feature yields its remark exactly when its answer is not empty. */
  lemma RemarksSingle(feature: string, answer: string)
    ensures Remarks([feature], [answer]) == if answer != [] then [Remark(feature, answer)] else []
  {
    assert [feature][1..] == [] && [answer][1..] == [];
  }

  const UpdateHeader: string := "update html text:\n"

  /** `CliHumanChecker.check` given the six answers typed in. */
  function CliCheck(answers: seq<string>): (r: Result<bool>)
    requires |answers| == |Features|
    ensures r.Success? <==> forall k :: 0 <= k < |answers| ==> answers[k] == []
    ensures r.Success? ==> r.value
    ensures r.Failure? ==> r.error.InvalidOutput? && StartsWith(r.error.message, UpdateHeader)
  {
    var remarks := Remarks(Features, answers);
    if remarks == [] then Success(true)
    else
      var message := UpdateHeader + Join(remarks, "\n");
      assert message[..|UpdateHeader|] == UpdateHeader;
      Failure(InvalidOutput(message))
  }

  /** Lines without line breaks, joined under the header, split back into themselves. */
  lemma HeaderJoinReadBack(lines: seq<string>)
    requires Unbroken(lines) && lines != []
    ensures Split((UpdateHeader + Join(lines, "\n"))[|UpdateHeader|..], '\n') == lines
  {
    assert (UpdateHeader + Join(lines, "\n"))[|UpdateHeader|..] == Join(lines, "\n");
    SplitJoin(lines, '\n');
  }

  /**
    The raised text can be read back: after the header, its lines are the
    remarks, one per non-empty answer. Typed answers hold no line break.
   */
  lemma CliRemarksReadBack(answers: seq<string>)
    requires |answers| == |Features|
    requires Unbroken(answers)
    requires CliCheck(answers).Failure?
    ensures var message := CliCheck(answers).error.message;
            Split(message[|UpdateHeader|..], '\n') == Remarks(Features, answers)
  {
    var remarks := Remarks(Features, answers);
    FeaturesHaveNoLineBreak();
    RemarksHaveNoLineBreak(Features, answers);
    assert CliCheck(answers).error.message == UpdateHeader + Join(remarks, "\n");
    HeaderJoinReadBack(remarks);
  }

  lemma AffixesHaveNoLineBreak()
    ensures '\n' !in RecommendationPrefix && '\n' !in RecommendationPostfix
  {
    PrefixHasNoLineBreak();
    WhereHasNoLineBreak();
    BoxHasNoLineBreak();
    StyleHasNoLineBreak();
    SloganHasNoLineBreak();
    RequestHasNoLineBreak();
  }

  // One literal per lemma: checked together, the literals are costly to unfold.
  lemma PrefixHasNoLineBreak() ensures '\n' !in RecommendationPrefix {}
  lemma WhereHasNoLineBreak() ensures '\n' !in PostfixWhere {}
  lemma BoxHasNoLineBreak() ensures '\n' !in PostfixBox {}
  lemma StyleHasNoLineBreak() ensures '\n' !in PostfixStyle {}
  lemma SloganHasNoLineBreak() ensures '\n' !in PostfixSlogan {}
  lemma RequestHasNoLineBreak() ensures '\n' !in PostfixRequest {}

  lemma FeaturesHaveNoLineBreak()
    ensures Unbroken(Features)
  {
  }

  /** The fixed parts of a remark hold no line break. */
  lemma NoLineBreakInRemark(feature: string, answer: string)
    requires '\n' !in feature && '\n' !in answer
    ensures '\n' !in Remark(feature, answer)
  {
    AffixesHaveNoLineBreak();
  }

  // ---------------------------------------------------------------------
  // GptImageChecker

  /** `f"'{text}'" or ""`: always the quoted text, since the quotes make it truthy. */
  function CheckedText(text: string): (q: string)
    ensures |q| == |text| + 2 && q[0] == '\'' && q[|q| - 1] == '\''
    ensures q[1..|q| - 1] == text
  {
    "'" + text + "'"
  }

  const OkSymbols: string := "THERE ARE NO COMMENTS"

  /** The two fixed parts of the prompt around the checked text. */
  const PromptHead: string := "Look at the image, evaluate the quality of the text display "
  const PromptTail: string :=
    ", \n        and if there are comments recommendations for better display such as (color, size, location, decoration) \n        of the text have come. If the text is displayed well, \n        then they only came "

  /** The prompt `GptImageChecker.check` builds for the vision model. */
  function CheckPrompt(checkedText: string): (p: string)
    ensures OccursAt(p, checkedText, |PromptHead|)
    ensures EndsWith(p, OkSymbols + ".")
  {
    var p := PromptHead + checkedText + PromptTail + (OkSymbols + ".");
    assert p[|PromptHead|..][..|checkedText|] == checkedText;
    assert p[|p| - |OkSymbols + "."|..] == OkSymbols + ".";
    p
  }

  /** Case-insensitive (ASCII) search for the all-clear phrase. */
  predicate AllClear(reply: string) {
    Contains(Lower(reply), Lower(OkSymbols))
  }

  /** The verdict on the vision model's `reply`. */
  function GptVerdict(reply: string): (r: Result<bool>)
    ensures r.Success? <==> AllClear(reply)
    ensures r.Success? ==> r.value
    ensures r.Failure? ==> r.error == InvalidOutput(reply)
  {
    if AllClear(reply) then Success(true) else Failure(InvalidOutput(reply))
  }

  /** The lower-cased phrase the reply is searched for. */
  lemma OkPhraseLowered()
    ensures Lower(OkSymbols) == "there are no comments"
  {
  }

  /**
    `GptImageChecker(text).check(image_path)`: the request sent, if the file
    exists, and the verdict on the model's `reply` to it.
   */
  function GptImageCheck(text: string, imagePath: string, files: map<string, seq<byte>>, reply: string)
    : (r: (Result<Message>, Result<bool>))
    ensures r.0 == ProcessImage(imagePath, None, CheckPrompt(CheckedText(text)), files)
    ensures r.0.Failure? ==> r.1 == Failure(r.0.error)
    ensures r.0.Success? ==> r.1 == GptVerdict(reply)
  {
    var request := ProcessImage(imagePath, None, CheckPrompt(CheckedText(text)), files);
    if request.Failure? then (request, Failure(request.error)) else (request, GptVerdict(reply))
  }

  /** The request's text part is the checker's prompt, with the quoted text right after its opening. */
  lemma GptRequestQuotesText(text: string, imagePath: string, files: map<string, seq<byte>>, reply: string)
    requires Strip(imagePath) in files
    ensures var request := GptImageCheck(text, imagePath, files, reply).0;
            request.Success? && request.value.content[0] == TextPart(CheckPrompt(CheckedText(text)))
            && OccursAt(request.value.content[0].text, CheckedText(text), |PromptHead|)
  {
    var prompt := CheckPrompt(CheckedText(text));
    var request := GptImageCheck(text, imagePath, files, reply).0;
    assert request == ProcessImage(imagePath, None, prompt, files);
    assert OrElse(None, prompt) == prompt;
    assert request.value.content[0] == TextPart(prompt);
  }

  // ---------------------------------------------------------------------
  // StreamLitHumanChecker

  const ViewerError: string := "Viewer must be init  StreamLitItemQueueViewer"
  const HtmlRemarksTitle: string := "Remarks for html generation:"

  /** The checker's state: its iteration counter and its remarks queue, if any. */
  datatype StreamLitChecker = StreamLitChecker(iteration: int, viewerIsQueueViewer: bool,
                                               remarksQueue: Option<seq<Option<string>>>)

  /**
    One `check` call: the new state and the verdict, or `None` for the
    verdict when `get` blocks on an empty queue.
   */
  function StreamLitCheck(c: StreamLitChecker): (r: (StreamLitChecker, Option<Result<bool>>))
    ensures r.0.iteration == c.iteration + 1
    ensures r.0.viewerIsQueueViewer == c.viewerIsQueueViewer
    ensures !c.viewerIsQueueViewer ==> r == (r.0, Some(Failure(ValueError(ViewerError)))) && r.0.remarksQueue == c.remarksQueue
    ensures c.viewerIsQueueViewer && c.remarksQueue.None? ==> r.1 == Some(Success(true)) && r.0.remarksQueue.None?
    ensures c.viewerIsQueueViewer && c.remarksQueue == Some([]) ==> r.1.None? && r.0.remarksQueue == Some([])
    ensures c.viewerIsQueueViewer && c.remarksQueue.Some? && c.remarksQueue.value != [] ==>
              r.0.remarksQueue == Some(c.remarksQueue.value[1..])
              && var item := c.remarksQueue.value[0];
                 r.1 == Some(if item.Some? && item.value != [] then Failure(InvalidOutput(HtmlRemarksTitle + ": " + item.value))
                             else Success(true))
  {
    var next := c.(iteration := c.iteration + 1);
    if !c.viewerIsQueueViewer then (next, Some(Failure(ValueError(ViewerError))))
    else match c.remarksQueue
      case None => (next, Some(Success(true)))
      case Some(q) =>
        if q == [] then (next, None)
        else
          var item := q[0];
          var after := next.(remarksQueue := Some(q[1..]));
          if item.Some? && item.value != [] then
            (after, Some(Failure(InvalidOutput(HtmlRemarksTitle + ": " + item.value))))
          else (after, Some(Success(true)))
  }

  /** The raised message repeats the title's colon: `Remarks for html generation:: <remarks>`. */
  lemma StreamLitMessageShape(remarks: string)
    ensures HtmlRemarksTitle + ": " + remarks == "Remarks for html generation:: " + remarks
  {
  }

  /** After `n` checks the counter has moved by `n`, whatever the verdicts were. */
  function StreamLitChecks(c: StreamLitChecker, n: nat): (d: StreamLitChecker)
    ensures d.iteration == c.iteration + n
    ensures d.viewerIsQueueViewer == c.viewerIsQueueViewer
    decreases n
  {
    if n == 0 then c else StreamLitChecks(StreamLitCheck(c).0, n - 1)
  }

  /** The verdicts of `n` successive checks, in call order. */
  function StreamLitVerdicts(c: StreamLitChecker, n: nat): (vs: seq<Option<Result<bool>>>)
    ensures |vs| == n
    ensures n > 0 ==> vs[0] == StreamLitCheck(c).1
    decreases n
  {
    if n == 0 then [] else [StreamLitCheck(c).1] + StreamLitVerdicts(StreamLitCheck(c).0, n - 1)
  }

  /** A remark the human left empty, or none at all, lets the check pass. */
  predicate Passing(item: Option<string>) {
    item.None? || item.value == []
  }

  /**
    Checking `k` times against a queue whose first `k` remarks all pass gives
    `k` verdicts of `True` and consumes exactly those `k` remarks.
   */
  lemma {:induction false} PassingRemarksDrain(c: StreamLitChecker, k: nat)
    requires c.viewerIsQueueViewer && c.remarksQueue.Some? && k <= |c.remarksQueue.value|
    requires forall i :: 0 <= i < k ==> Passing(c.remarksQueue.value[i])
    ensures StreamLitChecks(c, k) == c.(iteration := c.iteration + k, remarksQueue := Some(c.remarksQueue.value[k..]))
    ensures forall i :: 0 <= i < k ==> StreamLitVerdicts(c, k)[i] == Some(Success(true))
    decreases k
  {
    if k > 0 {
      var q := c.remarksQueue.value;
      var next := StreamLitCheck(c).0;
      assert Passing(q[0]);
      assert next.remarksQueue == Some(q[1..]);
      forall i | 0 <= i < k - 1
        ensures Passing(next.remarksQueue.value[i])
      {
        assert next.remarksQueue.value[i] == q[i + 1];
      }
      PassingRemarksDrain(next, k - 1);
      assert q[1..][k - 1..] == q[k..];
      var vs := StreamLitVerdicts(c, k);
      assert vs == [Some(Success(true))] + StreamLitVerdicts(next, k - 1);
      forall i | 0 <= i < k
        ensures vs[i] == Some(Success(true))
      {
        if i > 0 {
          assert vs[i] == StreamLitVerdicts(next, k - 1)[i - 1];
        }
      }
    }
  }
}
