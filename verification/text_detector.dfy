/**
  Text boxes and the two text detectors of `clear_image/text_detector.py`.

  The OCR engines themselves are outside the model: each detector is given
  the raw output its engine would return and the model derives the boxes
  from it exactly as the source does.
 */
module TextDetector {
  import opened Outcomes
  import opened PyStr

  /**
    A detected text region. The fields are declared in the order
    x, y, h, w, so positional construction fills them in that order.
   */
  datatype TextBox = TextBox(x: int, y: int, h: int, w: int, text: Option<string>)

  // ---------------------------------------------------------------------
  // Tesseract

  /** The per-word lists returned by `pytesseract.image_to_data` as a dict. */
  datatype OcrData = OcrData(
    left: seq<int>, top: seq<int>, width: seq<int>, height: seq<int>, text: seq<string>)

  /** One row of `zip(left, top, width, height, text)`. */
  datatype OcrWord = OcrWord(left: int, top: int, width: int, height: int, text: string)

  function Min(a: int, b: int): int {
    if a <= b then a else b
  }

  /** `zip` stops at the shortest of the five lists. */
  function Zip(d: OcrData): (words: seq<OcrWord>)
    ensures |words| == Min(Min(Min(|d.left|, |d.top|), Min(|d.width|, |d.height|)), |d.text|)
    ensures forall i :: 0 <= i < |words| ==>
              words[i] == OcrWord(d.left[i], d.top[i], d.width[i], d.height[i], d.text[i])
  {
    var n := Min(Min(Min(|d.left|, |d.top|), Min(|d.width|, |d.height|)), |d.text|);
    seq(n, i requires 0 <= i < n => OcrWord(d.left[i], d.top[i], d.width[i], d.height[i], d.text[i]))
  }

  /** `text.strip()` is truthy. */
  predicate NonBlank(t: string) {
    Strip(t) != []
  }

  /**
    `TextBox(l, top, w, h, text)`: positional, so the reported width lands
    in the field `h` and the reported height in the field `w`.
   */
  function WordBox(word: OcrWord): TextBox {
    TextBox(word.left, word.top, word.width, word.height, Some(word.text))
  }

  /** The box evidently meant: `TextBox(l, top, h, w, text)`, with the height in `h`. */
  function IntendedWordBox(word: OcrWord): TextBox {
    TextBox(word.left, word.top, word.height, word.width, Some(word.text))
  }

  /** The word a box was made from: `WordBox` loses nothing of a word. */
  function WordOf(b: TextBox): OcrWord {
    OcrWord(b.x, b.y, b.h, b.w, if b.text.Some? then b.text.value else "")
  }

  /** `b` is the box of a word of `words` whose text is not blank. */
  predicate BoxOfWord(b: TextBox, words: seq<OcrWord>) {
    b == WordBox(WordOf(b)) && WordOf(b) in words && NonBlank(WordOf(b).text)
  }

  /** A box of one of the words after the first is a box of the words. */
  lemma BoxOfWordTail(b: TextBox, words: seq<OcrWord>)
    requires |words| > 0 && BoxOfWord(b, words[1..])
    ensures BoxOfWord(b, words)
  {
    var j :| 0 <= j < |words[1..]| && words[1..][j] == WordOf(b);
    assert words[j + 1] == WordOf(b);
  }

  /** Boxes of the words after the first are boxes of the words; so is the first word's box, when it is kept. */
  lemma BoxesOfWordsCons(words: seq<OcrWord>, rest: seq<TextBox>)
    requires |words| > 0 && NonBlank(words[0].text)
    requires forall k :: 0 <= k < |rest| ==> BoxOfWord(rest[k], words[1..])
    ensures forall k :: 0 <= k < |rest| + 1 ==> BoxOfWord(([WordBox(words[0])] + rest)[k], words)
  {
    var boxes := [WordBox(words[0])] + rest;
    assert WordOf(boxes[0]) == words[0];
    forall k | 0 < k < |boxes| ensures BoxOfWord(boxes[k], words) {
      assert boxes[k] == rest[k - 1];
      BoxOfWordTail(rest[k - 1], words);
    }
  }

  lemma BoxesOfWordsTail(words: seq<OcrWord>, rest: seq<TextBox>)
    requires |words| > 0
    requires forall k :: 0 <= k < |rest| ==> BoxOfWord(rest[k], words[1..])
    ensures forall k :: 0 <= k < |rest| ==> BoxOfWord(rest[k], words)
  {
    forall k | 0 <= k < |rest| ensures BoxOfWord(rest[k], words) {
      BoxOfWordTail(rest[k], words);
    }
  }

  /** The list comprehension of `TesseractTextDetector.detect_text`. */
  function KeepWords(words: seq<OcrWord>): (boxes: seq<TextBox>)
    ensures |boxes| <= |words|
    ensures forall k :: 0 <= k < |boxes| ==> BoxOfWord(boxes[k], words)
  {
    if |words| == 0 then []
    else
      var rest := KeepWords(words[1..]);
      if NonBlank(words[0].text) then
        BoxesOfWordsCons(words, rest);
        [WordBox(words[0])] + rest
      else
        BoxesOfWordsTail(words, rest);
        rest
  }

  /** Keeping words distributes over concatenation: the order is preserved. */
  lemma {:induction false} KeepWordsAppend(a: seq<OcrWord>, b: seq<OcrWord>)
    ensures KeepWords(a + b) == KeepWords(a) + KeepWords(b)
    decreases |a|
  {
    if |a| > 0 {
      assert (a + b)[1..] == a[1..] + b;
      KeepWordsAppend(a[1..], b);
    } else {
      assert a + b == b;
    }
  }

  /** A single word is kept, as a box, exactly when its text is not blank. */
  lemma KeepWordsSingle(word: OcrWord)
    ensures KeepWords([word]) == if NonBlank(word.text) then [WordBox(word)] else []
  {
    assert [word][1..] == [];
  }

  /** `TesseractTextDetector.detect_text` on the engine's output `d`. */
  function TesseractDetect(d: OcrData): (boxes: seq<TextBox>)
    ensures |boxes| <= |d.text|
    ensures forall k :: 0 <= k < |boxes| ==> BoxOfWord(boxes[k], Zip(d))
  {
    KeepWords(Zip(d))
  }

  /**
    Every reported box is `TextBox(left[i], top[i], width[i], height[i], text[i])`
    for some row `i` of the engine's output whose text is not blank.
   */
  lemma TesseractBoxRow(d: OcrData, k: int)
    requires 0 <= k < |TesseractDetect(d)|
    ensures exists i :: 0 <= i < |d.text| && i < |d.left| && i < |d.top| && i < |d.width| && i < |d.height|
              && NonBlank(d.text[i])
              && TesseractDetect(d)[k] == TextBox(d.left[i], d.top[i], d.width[i], d.height[i], Some(d.text[i]))
  {
    var words := Zip(d);
    var b := TesseractDetect(d)[k];
    assert BoxOfWord(b, words);
    var i :| 0 <= i < |words| && words[i] == WordOf(b);
    assert words[i] == OcrWord(d.left[i], d.top[i], d.width[i], d.height[i], d.text[i]);
  }

  /** With no words, or only blank ones, Tesseract reports no box. */
  lemma {:induction false} TesseractAllBlank(words: seq<OcrWord>)
    requires forall i :: 0 <= i < |words| ==> !NonBlank(words[i].text)
    ensures KeepWords(words) == []
    decreases |words|
  {
    if |words| > 0 {
      TesseractAllBlank(words[1..]);
    }
  }

  // ---------------------------------------------------------------------
  // keras-ocr

  datatype Point = Point(px: int, py: int)

  /** One `(text, coords)` pair of a keras-ocr prediction group. */
  datatype Prediction = Prediction(text: string, coords: seq<Point>)

  /** `np.min(coords[:, 0])`. */
  function MinX(c: seq<Point>): (m: int)
    requires |c| > 0
    ensures forall i :: 0 <= i < |c| ==> m <= c[i].px
    ensures exists i :: 0 <= i < |c| && m == c[i].px
  {
    if |c| == 1 then c[0].px
    else
      var m := MinX(c[1..]);
      assert forall i :: 1 <= i < |c| ==> c[i] == c[1..][i - 1];
      if c[0].px <= m then c[0].px else m
  }

  /** `np.max(coords[:, 0])`. */
  function MaxX(c: seq<Point>): (m: int)
    requires |c| > 0
    ensures forall i :: 0 <= i < |c| ==> c[i].px <= m
    ensures exists i :: 0 <= i < |c| && m == c[i].px
  {
    if |c| == 1 then c[0].px
    else
      var m := MaxX(c[1..]);
      assert forall i :: 1 <= i < |c| ==> c[i] == c[1..][i - 1];
      if c[0].px >= m then c[0].px else m
  }

  /** `np.min(coords[:, 1])`. */
  function MinY(c: seq<Point>): (m: int)
    requires |c| > 0
    ensures forall i :: 0 <= i < |c| ==> m <= c[i].py
    ensures exists i :: 0 <= i < |c| && m == c[i].py
  {
    if |c| == 1 then c[0].py
    else
      var m := MinY(c[1..]);
      assert forall i :: 1 <= i < |c| ==> c[i] == c[1..][i - 1];
      if c[0].py <= m then c[0].py else m
  }

  /** `np.max(coords[:, 1])`. */
  function MaxY(c: seq<Point>): (m: int)
    requires |c| > 0
    ensures forall i :: 0 <= i < |c| ==> c[i].py <= m
    ensures exists i :: 0 <= i < |c| && m == c[i].py
  {
    if |c| == 1 then c[0].py
    else
      var m := MaxY(c[1..]);
      assert forall i :: 1 <= i < |c| ==> c[i] == c[1..][i - 1];
      if c[0].py >= m then c[0].py else m
  }

  /** The axis-aligned bounding rectangle of one polygon, as keras-ocr's detector builds it. */
  function PolygonBox(p: Prediction): (b: TextBox)
    requires |p.coords| > 0
    ensures b.w >= 0 && b.h >= 0
    ensures b.text == Some(p.text)
    ensures forall i :: 0 <= i < |p.coords| ==>
              b.x <= p.coords[i].px <= b.x + b.w && b.y <= p.coords[i].py <= b.y + b.h
    ensures exists i :: 0 <= i < |p.coords| && p.coords[i].px == b.x
    ensures exists i :: 0 <= i < |p.coords| && p.coords[i].px == b.x + b.w
    ensures exists i :: 0 <= i < |p.coords| && p.coords[i].py == b.y
    ensures exists i :: 0 <= i < |p.coords| && p.coords[i].py == b.y + b.h
  {
    var xMin, xMax := MinX(p.coords), MaxX(p.coords);
    var yMin, yMax := MinY(p.coords), MaxY(p.coords);
    TextBox(xMin, yMin, yMax - yMin, xMax - xMin, Some(p.text))
  }

  /** The predictions of all groups, group after group. */
  function Flatten(groups: seq<seq<Prediction>>): seq<Prediction> {
    if |groups| == 0 then [] else groups[0] + Flatten(groups[1..])
  }

  lemma {:induction false} FlattenAppend(a: seq<seq<Prediction>>, b: seq<seq<Prediction>>)
    ensures Flatten(a + b) == Flatten(a) + Flatten(b)
    decreases |a|
  {
    if |a| > 0 {
      assert (a + b)[1..] == a[1..] + b;
      FlattenAppend(a[1..], b);
    } else {
      assert a + b == b;
    }
  }

  predicate AllPolygonsNonEmpty(preds: seq<Prediction>) {
    forall i :: 0 <= i < |preds| ==> |preds[i].coords| > 0
  }

  /** numpy's message when `np.min` meets an empty array. */
  const EmptyReduction := "zero-size array to reduction operation minimum which has no identity"

  /**
    `KerasOcrTextDetector.detect_text` on the pipeline's prediction groups:
    one box per prediction, in order; an empty polygon makes `np.min` raise.
   */
  function KerasDetect(groups: seq<seq<Prediction>>): (r: Result<seq<TextBox>>)
    ensures r.Success? <==> AllPolygonsNonEmpty(Flatten(groups))
    ensures r.Failure? ==> r.error == ValueError(EmptyReduction)
    ensures var preds := Flatten(groups);
            r.Success? ==>
              (|r.value| == |preds| && forall i :: 0 <= i < |preds| ==> r.value[i] == PolygonBox(preds[i]))
  {
    var preds := Flatten(groups);
    if AllPolygonsNonEmpty(preds) then
      Success(seq(|preds|, i requires 0 <= i < |preds| => PolygonBox(preds[i])))
    else
      Failure(ValueError(EmptyReduction))
  }

  /** With no prediction groups, or only empty ones, keras-ocr reports no box. */
  lemma {:induction false} KerasNoPredictions(groups: seq<seq<Prediction>>)
    requires forall g :: 0 <= g < |groups| ==> groups[g] == []
    ensures KerasDetect(groups) == Success([])
    decreases |groups|
  {
    if |groups| > 0 {
      KerasNoPredictions(groups[1..]);
    }
  }
}
