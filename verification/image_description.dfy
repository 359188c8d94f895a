/**
  `GptImageProcessor.process_image` of `tools/image_description_tool.py`:
  the chat request it sends for an image file. The image travels inline as
  a `data:` URL (section 3 of RFC 2397) with a Base64 payload (section 4 of
  RFC 4648).

  The file system is a map from existing paths to their bytes; the chat
  completion itself is outside the model.
 */
module ImageDescription {
  import opened Outcomes
  import opened PyStr
  import opened PosixPath
  import opened Base64

  /** One entry of the message's `content` list. */
  datatype ContentPart =
    | TextPart(text: string)
    | ImageUrlPart(url: string)

  /** The single user message of the request. */
  datatype Message = Message(role: string, content: seq<ContentPart>)

  /** `os.path.splitext(path)[1][1:]`: the extension without its dot. */
  function ImageExtension(path: string): (ext: string)
    ensures '.' !in ext && '/' !in ext
    ensures SplitExt(path).1 == if SplitExt(path).1 == [] then [] else ['.'] + ext
  {
    var e := SplitExt(path).1;
    if e == [] then [] else e[1..]
  }

  const DataPrefix: string := "data:image/"
  const Base64Marker: string := ";base64,"

  /** `f"data:image/{ext};base64,{payload}"` with the Base64 text of `data`. */
  function DataUrl(ext: string, data: seq<byte>): (url: string)
    ensures StartsWith(url, DataPrefix)
    ensures |url| == |DataPrefix| + |ext| + |Base64Marker| + 4 * ((|data| + 2) / 3)
  {
    var url := DataPrefix + ext + Base64Marker + Encode(data);
    assert url[..|DataPrefix|] == DataPrefix;
    url
  }

  /**
    Reads a `data:image/<ext>;base64,<payload>` URL back: the media subtype
    ends at the last `;`, which the Base64 alphabet cannot contain.
   */
  function ParseDataUrl(url: string): Option<(string, seq<byte>)> {
    if !StartsWith(url, DataPrefix) then None
    else
      var semi := RFind(url, ';');
      if semi < |DataPrefix| || !StartsWith(url[semi..], Base64Marker) then None
      else
        match Decode(url[semi + |Base64Marker|..])
        case None => None
        case Some(data) => Some((url[|DataPrefix|..semi], data))
  }

  /** Base64 text never holds the `;` that ends the media subtype. */
  lemma PayloadHasNoSemicolon(data: seq<byte>)
    ensures ';' !in Encode(data)
  {
    var payload := Encode(data);
    forall k | 0 <= k < |payload| ensures payload[k] != ';' {
      assert InAlphabet(payload[k]) || payload[k] == '=';
    }
  }

  /** The last `;` of a data URL is the one that opens the marker. */
  lemma DataUrlLastSemicolon(ext: string, data: seq<byte>)
    ensures RFind(DataUrl(ext, data), ';') == |DataPrefix| + |ext|
  {
    var head := DataPrefix + ext + [';'];
    var tail := Base64Marker[1..] + Encode(data);
    assert DataUrl(ext, data) == head + tail;
    PayloadHasNoSemicolon(data);
    assert ';' !in tail;
    RFindAppendAbsent(head, tail, ';');
    RFindIsLast(head, ';', |head| - 1);
  }

  /** Parsing the URL gives back the extension and the file's bytes. */
  lemma DataUrlRoundTrip(ext: string, data: seq<byte>)
    ensures ParseDataUrl(DataUrl(ext, data)) == Some((ext, data))
  {
    var payload := Encode(data);
    var url := DataUrl(ext, data);
    var semi := |DataPrefix| + |ext|;
    assert url == DataPrefix + ext + Base64Marker + payload;
    DataUrlLastSemicolon(ext, data);
    assert url[semi..][..|Base64Marker|] == Base64Marker;
    assert url[semi + |Base64Marker|..] == payload;
    assert url[|DataPrefix|..semi] == ext;
    RoundTrip(data);
  }

  /**
    The request `process_image(image_path, prompt)` sends, for a processor
    built with `defaultPrompt`, when the existing files and their bytes are
    `files`.
   */
  function ProcessImage(imagePath: string, prompt: Option<string>, defaultPrompt: string,
                        files: map<string, seq<byte>>): (r: Result<Message>)
    ensures Strip(imagePath) !in files <==> r == Failure(FileNotFound(Strip(imagePath)))
    ensures r.Success? ==> r.value.role == "user" && |r.value.content| == 2
                           && r.value.content[0] == TextPart(OrElse(prompt, defaultPrompt))
                           && r.value.content[1].ImageUrlPart?
  {
    var path := Strip(imagePath);
    if path !in files then Failure(FileNotFound(path))
    else
      var url := DataUrl(ImageExtension(path), files[path]);
      Success(Message("user", [TextPart(OrElse(prompt, defaultPrompt)), ImageUrlPart(url)]))
  }

  /**
    The image part of a request carries the stripped file's extension and
    exactly its bytes: parsing the URL recovers both.
   */
  lemma ProcessImageCarriesFile(imagePath: string, prompt: Option<string>, defaultPrompt: string,
                                files: map<string, seq<byte>>)
    requires Strip(imagePath) in files
    ensures var r := ProcessImage(imagePath, prompt, defaultPrompt, files);
            r.Success?
            && ParseDataUrl(r.value.content[1].url)
               == Some((ImageExtension(Strip(imagePath)), files[Strip(imagePath)]))
  {
    var path := Strip(imagePath);
    DataUrlRoundTrip(ImageExtension(path), files[path]);
  }

  /** The payload after the marker is well-formed Base64 of the expected length. */
  lemma DataUrlPayload(ext: string, data: seq<byte>)
    ensures var payload := DataUrl(ext, data)[|DataPrefix| + |ext| + |Base64Marker|..];
            |payload| == 4 * ((|data| + 2) / 3)
            && forall i :: 0 <= i < |payload| ==> InAlphabet(payload[i]) || (payload[i] == '=' && i >= |payload| - 2)
  {
    var url := DataUrl(ext, data);
    assert url[|DataPrefix| + |ext| + |Base64Marker|..] == Encode(data);
  }
}
