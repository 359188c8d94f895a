/**
  `TextRemover.remove_text` of `tools/remove_text_tool.py`: normalise the
  path, check that the file exists, derive the output path next to it and
  run the text-deletion loop with the in-painter's default prompt and five
  retries.
 */
module RemoveText {
  import opened Outcomes
  import opened PyStr
  import opened PosixPath
  import opened TextDetector
  import opened Inpainter
  import opened TextDeleter

  /** The marker inserted between the file's stem and its extension. */
  const Marker: string := "_remove_text"

  /** `delete_text`'s default `max_retries`. */
  const Retries: nat := 5

  /** `"{}_remove_text{}".format(*os.path.splitext(path))`. */
  function OutputPath(path: string): (out: string)
    ensures out == SplitExt(path).0 + Marker + SplitExt(path).1
    ensures |out| == |path| + |Marker|
  {
    var (root, ext) := SplitExt(path);
    root + Marker + ext
  }

  /** Appending text after `hi` does not change which characters lie in `[lo, hi)`. */
  lemma HasNonDotAppend(a: string, b: string, lo: int, hi: int)
    requires hi <= |a|
    ensures HasNonDot(a + b, lo, hi) <==> HasNonDot(a, lo, hi)
  {
    if HasNonDot(a + b, lo, hi) {
      var i :| lo <= i < hi && 0 <= i < |a + b| && (a + b)[i] != '.';
      assert a[i] == (a + b)[i];
    }
    if HasNonDot(a, lo, hi) {
      var i :| lo <= i < hi && 0 <= i < |a| && a[i] != '.';
      assert a[i] == (a + b)[i];
    }
  }

  /** Without an extension, the output path has none either. */
  lemma OutputKeepsNoExtension(path: string)
    requires SplitExt(path).1 == []
    ensures SplitExt(path + Marker) == (path + Marker, [])
  {
    var out := path + Marker;
    assert '.' !in Marker && '/' !in Marker;
    RFindAppendAbsent(path, Marker, '.');
    RFindAppendAbsent(path, Marker, '/');
    var sep, dot := RFind(path, '/'), RFind(path, '.');
    if dot >= 0 {
      HasNonDotAppend(path, Marker, sep + 1, dot);
    }
  }

  /** With an extension, the output path splits right before the same extension. */
  lemma OutputKeepsSomeExtension(root: string, ext: string)
    requires SplitExt(root + ext) == (root, ext) && ext != []
    ensures SplitExt(root + Marker + ext) == (root + Marker, ext)
  {
    var out := root + Marker + ext;
    var front := root + Marker;
    assert out == front + ext;
    ExtensionNoSlash(ext);
    assert '/' !in Marker;
    var sep := RFind(root, '/');
    assert RFind(root + ext, '/') == sep by {
      RFindAppendAbsent(root, ext, '/');
    }
    assert RFind(out, '/') == sep by {
      RFindAppendAbsent(root, Marker + ext, '/');
      assert out == root + (Marker + ext);
    }
    ExtensionDot(front, ext);
    assert HasNonDot(out, sep + 1, |front|) by {
      HasNonDotAppend(root, ext, sep + 1, |root|);
      HasNonDotAppend(root, Marker + ext, sep + 1, |root|);
      assert out == root + (Marker + ext);
    }
    SplitExtAt(out, |front|);
    assert out[..|front|] == front && out[|front|..] == ext;
  }

  /** An extension holds no slash: its first character is the dot. */
  lemma ExtensionNoSlash(ext: string)
    requires ext != [] && ext[0] == '.' && '/' !in ext[1..]
    ensures '/' !in ext
  {
    assert forall k :: 0 < k < |ext| ==> ext[k] == ext[1..][k - 1];
  }

  /** The last dot of `front + ext` is the one opening `ext`. */
  lemma ExtensionDot(front: string, ext: string)
    requires ext != [] && ext[0] == '.' && '.' !in ext[1..]
    ensures RFind(front + ext, '.') == |front|
  {
    var s := front + ext;
    forall k | |front| < k < |s| ensures s[k] != '.' {
      assert s[k] == ext[1..][k - |front| - 1];
    }
    RFindIsLast(s, '.', |front|);
  }

  /**
    The output path has the same extension as the input: `splitext` splits
    it right before the extension, with the marker at the end of the stem.
   */
  lemma OutputKeepsExtension(path: string)
    ensures SplitExt(OutputPath(path)) == (SplitExt(path).0 + Marker, SplitExt(path).1)
  {
    var (root, ext) := SplitExt(path);
    if ext == [] {
      assert OutputPath(path) == path + Marker;
      OutputKeepsNoExtension(path);
    } else {
      OutputKeepsSomeExtension(root, ext);
    }
  }

  /**
    `remove_text(image_path)`: the detector and the in-painter answer as
    `detections` and `effects`, and `files` are the paths that exist.
   */
  function RemoveText(imagePath: string, detections: seq<seq<TextBox>>, effects: seq<Effect>,
                      files: set<string>): (r: Run)
    requires Retries <= |detections| && Retries <= |effects|
    ensures Strip(imagePath) !in files <==> r.result == Failure(FileNotFound(Strip(imagePath)))
    ensures Strip(imagePath) !in files ==> r.calls == [] && r.files == files
    ensures r.result.Success? ==>
              (r.result.value == Strip(imagePath) && r.calls == [Detect(Strip(imagePath), [])])
              || (r.result.value == OutputPath(Strip(imagePath)) && OutputPath(Strip(imagePath)) in r.files)
    ensures |r.calls| <= 2 * Retries
    ensures files <= r.files <= files + {OutputPath(Strip(imagePath))}
  {
    var path := Strip(imagePath);
    if path !in files then Run(Failure(FileNotFound(path)), [], files)
    else DeleteText(path, OutputPath(path), DefaultPrompt, Retries, detections, effects, files)
  }

  /** Every detection and in-painting the tool performs uses the default prompt and at most five rounds. */
  lemma RemoveTextBounded(imagePath: string, detections: seq<seq<TextBox>>, effects: seq<Effect>,
                          files: set<string>)
    requires Retries <= |detections| && Retries <= |effects|
    ensures var r := RemoveText(imagePath, detections, effects, files);
            |r.calls| <= 2 * Retries
            && forall k :: 0 <= k < |r.calls| && r.calls[k].Inpaint? ==>
                 r.calls[k].prompt == DefaultPrompt && r.calls[k].target == OutputPath(Strip(imagePath))
  {
    var path := Strip(imagePath);
    if path in files {
      var r := RemoveText(imagePath, detections, effects, files);
      forall k | 0 <= k < |r.calls| && r.calls[k].Inpaint?
        ensures r.calls[k].prompt == DefaultPrompt && r.calls[k].target == OutputPath(path)
      {
        DeleteTextCalls(path, OutputPath(path), DefaultPrompt, Retries, detections, effects, files, k);
      }
    }
  }
}
