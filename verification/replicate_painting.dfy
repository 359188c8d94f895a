/**
  `ReplicateImagePainter` of
  `tools/outpainting_tools/replicate_image_painting_tool.py`: the file-name
  core taken from the object image, the input sent to the painting model,
  and which of the returned image URLs end up as result files.

  The model call and the downloads are inputs: the URL list the model
  returns and, per URL, what the download returned.
 */
module ReplicatePainting {
  import opened Outcomes
  import opened PyStr
  import opened PosixPath

  // ---------------------------------------------------------------------
  // file_name_core

  /** Where the object image comes from: a path, or an in-memory buffer with a `name`. */
  datatype ImageSource = PathSource(path: string) | BufferSource(name: string)

  /** `".".join(name.split(".")[:-1])`. */
  function NameCore(name: string): string {
    var parts := Split(name, '.');
    Join(parts[..|parts| - 1], ".")
  }

  /** The core is the text before the last dot, and empty when there is no dot. */
  lemma NameCoreBeforeLastDot(name: string)
    ensures NameCore(name) == if '.' !in name then "" else name[..RFind(name, '.')]
  {
    JoinSplitDropLast(name, '.');
  }

  /** `file_name_core`: a path contributes its last component, a buffer its whole name. */
  function FileNameCore(source: ImageSource): (core: string)
    ensures source.PathSource? ==> '/' !in core
    ensures |core| <= |if source.PathSource? then Basename(source.path) else source.name|
  {
    match source
    case PathSource(path) =>
      var base := Basename(path);
      NameCoreBeforeLastDot(base);
      NameCore(base)
    case BufferSource(name) =>
      NameCoreBeforeLastDot(name);
      NameCore(name)
  }

  /**
    When the file name has an extension in the sense of `splitext`, the core
    is exactly the name without it.
   */
  lemma NameCoreIsRoot(name: string)
    requires '/' !in name && SplitExt(name).1 != []
    ensures NameCore(name) == SplitExt(name).0
  {
    NameCoreBeforeLastDot(name);
  }

  /** A hidden file without a further dot, such as `.png`, has an empty core, although `splitext` sees no extension. */
  lemma DotFileCoreEmpty()
    ensures NameCore(".png") == "" && SplitExt(".png") == (".png", "")
  {
    NameCoreBeforeLastDot(".png");
    var s := ".png";
    assert s[0] == '.';
    forall k | 0 < k < |s| ensures s[k] != '.' {}
    RFindIsLast(s, '.', 0);
  }

  // ---------------------------------------------------------------------
  // run_input

  /** A value of the model's input dictionary. */
  datatype Value = Text(text: string) | Number(n: int) | OpenFile(path: string)

  /** The input before `run_input.update(self.kwargs)`. */
  function DefaultInput(description: string, noBgPath: string): map<string, Value> {
    map["prompt" := Text(description), "image_path" := OpenFile(noBgPath), "image_num" := Number(1),
        "pixel" := Text("512 * 512"), "product_size" := Text("0.5 * width")]
  }

  /** The input sent to the model: the defaults, overridden key by key by the painter's keyword arguments. */
  function RunInput(description: string, noBgPath: string, kwargs: map<string, Value>): (input: map<string, Value>)
    ensures input.Keys == DefaultInput(description, noBgPath).Keys + kwargs.Keys
    ensures forall k :: k in kwargs ==> input[k] == kwargs[k]
    ensures forall k :: k in DefaultInput(description, noBgPath) && k !in kwargs ==>
              input[k] == DefaultInput(description, noBgPath)[k]
  {
    DefaultInput(description, noBgPath) + kwargs
  }

  /** Without keyword arguments the model gets one 512 by 512 image of the product at half width. */
  lemma RunInputDefaults(description: string, noBgPath: string)
    ensures var input := RunInput(description, noBgPath, map[]);
            input.Keys == {"prompt", "image_path", "image_num", "pixel", "product_size"}
            && input["prompt"] == Text(description) && input["image_path"] == OpenFile(noBgPath)
            && input["image_num"] == Number(1) && input["pixel"] == Text("512 * 512")
            && input["product_size"] == Text("0.5 * width")
  {
  }

  // ---------------------------------------------------------------------
  // paint

  /** `download_image`'s answer counts when it is a non-empty path. */
  predicate Truthy(d: Option<string>) {
    d.Some? && d.value != []
  }

  /** The truthy download results, in order. */
  function KeptDownloads(downloads: seq<Option<string>>): (paths: seq<string>)
    ensures |paths| <= |downloads|
    ensures forall k :: 0 <= k < |paths| ==> paths[k] != [] && Some(paths[k]) in downloads
    ensures paths == [] <==> forall k :: 0 <= k < |downloads| ==> !Truthy(downloads[k])
    decreases |downloads|
  {
    if downloads == [] then []
    else
      var rest := KeptDownloads(downloads[1..]);
      assert forall k :: 1 <= k < |downloads| ==> downloads[k] == downloads[1..][k - 1];
      assert forall x :: x in downloads[1..] ==> x in downloads;
      if Truthy(downloads[0]) then [downloads[0].value] + rest else rest
  }

  /** Downloads are kept in the order of their URLs. */
  lemma {:induction false} KeptDownloadsAppend(a: seq<Option<string>>, b: seq<Option<string>>)
    ensures KeptDownloads(a + b) == KeptDownloads(a) + KeptDownloads(b)
    decreases |a|
  {
    if a != [] {
      assert (a + b)[1..] == a[1..] + b;
      KeptDownloadsAppend(a[1..], b);
    } else {
      assert a + b == b;
    }
  }

  /** One download is kept exactly when it is truthy. */
  lemma KeptDownloadsSingle(d: Option<string>)
    ensures KeptDownloads([d]) == if Truthy(d) then [d.value] else []
  {
    assert [d][1..] == [];
  }

  /** What `paint` did: the URLs it downloaded, in order, and the paths it returned. */
  datatype Painted = Painted(downloaded: seq<string>, paths: seq<string>)

  /**
    `paint(description)` after the model returned `urls`; `downloads[i]`
    is what downloading `urls[i]` returned.
   */
  function Paint(urls: seq<string>, downloads: seq<Option<string>>): (p: Painted)
    requires |downloads| == |urls|
    ensures urls == [] ==> p == Painted([], [])
    ensures urls != [] ==> p.downloaded == urls[1..] && p.paths == KeptDownloads(downloads[1..])
    ensures |p.paths| <= if |urls| == 0 then 0 else |urls| - 1
  {
    if urls == [] then Painted([], [])
    else Painted(urls[1..], KeptDownloads(downloads[1..]))
  }

  /** The first URL's download plays no part: changing it changes nothing. */
  lemma PaintIgnoresFirst(urls: seq<string>, downloads: seq<Option<string>>, first: string, d: Option<string>)
    requires |downloads| == |urls| && urls != []
    ensures Paint([first] + urls[1..], [d] + downloads[1..]) == Paint(urls, downloads)
  {
    assert ([first] + urls[1..])[1..] == urls[1..];
    assert ([d] + downloads[1..])[1..] == downloads[1..];
  }

  /** When every download after the first succeeds, one path comes back per URL after the first. */
  lemma {:induction false} AllDownloadsKept(downloads: seq<Option<string>>)
    requires forall k :: 0 <= k < |downloads| ==> Truthy(downloads[k])
    ensures |KeptDownloads(downloads)| == |downloads|
    ensures forall k :: 0 <= k < |downloads| ==> KeptDownloads(downloads)[k] == downloads[k].value
    decreases |downloads|
  {
    if downloads != [] {
      var rest := downloads[1..];
      forall k | 0 <= k < |rest| ensures Truthy(rest[k]) {
        assert rest[k] == downloads[k + 1];
      }
      AllDownloadsKept(rest);
      var kept := KeptDownloads(downloads);
      assert kept == [downloads[0].value] + KeptDownloads(rest);
      forall k | 0 < k < |kept| ensures kept[k] == downloads[k].value {
        assert kept[k] == KeptDownloads(rest)[k - 1];
        assert rest[k - 1] == downloads[k];
      }
    }
  }
}
