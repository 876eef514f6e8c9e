/** The market-research agents' handling of model replies: the JSON span is
    cut out of a reply with the greedy pattern `\{.*\}` under `re.DOTALL`,
    the graphic designer builds its result record from it, and the
    copywriter falls back to an error record and tags its result with the
    image path. */
module MarketAgents {
  import opened PyBase
  import opened PyStr

  /** The first offset at or after `from` holding `c`. */
  function FirstIndex(s: string, c: char, from: nat): (r: Option<nat>)
    requires from <= |s|
    ensures r.Some? ==> from <= r.value < |s| && s[r.value] == c
    ensures forall k :: from <= k < |s| && (r.None? || k < r.value) ==> s[k] != c
    decreases |s| - from
  {
    if from == |s| then None else if s[from] == c then Some(from) else FirstIndex(s, c, from + 1)
  }

  /** The last offset before `end` holding `c`. */
  function LastIndex(s: string, c: char, end: nat): (r: Option<nat>)
    requires end <= |s|
    ensures r.Some? ==> r.value < end && s[r.value] == c
    ensures forall k :: 0 <= k < end && (r.None? || r.value < k) ==> s[k] != c
  {
    if end == 0 then None else if s[end - 1] == c then Some(end - 1) else LastIndex(s, c, end - 1)
  }

  /** `s[p..q + 1]` runs from the first `{` of `s` to its last `}`. */
  predicate IsOuterBraces(s: string, p: int, q: int) {
    && 0 <= p < q < |s| && s[p] == '{' && s[q] == '}'
    && (forall k :: 0 <= k < p ==> s[k] != '{')
    && (forall k :: q < k < |s| ==> s[k] != '}')
  }

  /** `re.search(r'\{.*\}', s, re.DOTALL)`: the leftmost match starts at the
      first `{` (a later `{` has no more `}` after it than the first), and
      the greedy `.*` runs to the last `}`. */
  function BraceSpan(s: string): Option<string> {
    match FirstIndex(s, '{', 0)
    case None => None
    case Some(p) =>
      match LastIndex(s, '}', |s|)
      case None => None
      case Some(q) => if p < q then Some(s[p..q + 1]) else None
  }

  /** A span exists exactly when some `}` follows some `{`; it is the text
      from the first `{` to the last `}`, so it starts with `{` and ends
      with `}`. */
  lemma BraceSpanIsOuter(s: string)
    ensures BraceSpan(s).Some? <==> exists i, j :: 0 <= i < j < |s| && s[i] == '{' && s[j] == '}'
    ensures BraceSpan(s).Some? ==> exists p, q :: IsOuterBraces(s, p, q) && BraceSpan(s).value == s[p..q + 1]
    ensures BraceSpan(s).Some? ==>
      var span := BraceSpan(s).value;
      |span| >= 2 && span[0] == '{' && span[|span| - 1] == '}'
  {
    match FirstIndex(s, '{', 0)
    case None =>
    case Some(p) =>
      match LastIndex(s, '}', |s|)
      case None =>
      case Some(q) =>
        if p < q {
          var span := s[p..q + 1];
          assert span[0] == s[p] && span[|span| - 1] == s[q];
          assert IsOuterBraces(s, p, q);
        }
  }

  /** The part of `s` after its last `c`: `os.path.basename` for `c == '/'`. */
  function AfterLast(s: string, c: char): (r: string)
    ensures |r| <= |s| && r == s[|s| - |r|..] && c !in r
    ensures |r| == |s| || s[|s| - |r| - 1] == c
  {
    if s == [] || s[|s| - 1] == c then []
    else
      var front := AfterLast(s[..|s| - 1], c);
      assert s[..|s| - 1][|s| - 1 - |front|..] + [s[|s| - 1]] == s[|s| - 1 - |front|..];
      front + [s[|s| - 1]]
  }

  /** `os.path.basename(image_url.split("?")[0])`: the last path piece of
      the URL with its query string removed. */
  function ImageFileName(url: string): (name: string)
    ensures '/' !in name && '?' !in name
  {
    AfterLast(TakeUntil(url, '?'), '/')
  }

  /** The image generator: the URL of the image drawn for a prompt. */
  type ImageGenerator = Json -> string

  /** The record the graphic designer returns. */
  function DesignerRecordOf(url: string, prompt: Json, caption: Json): map<string, Json> {
    map["image_url" := JStr(url), "prompt" := prompt, "caption" := caption,
        "image_path" := JStr(ImageFileName(url))]
  }

  /** What `parsed` is in the graphic designer: the decoded span, or the
      fallback record when the reply has no span; a decoding exception
      propagates. */
  function DesignerParsed(content: string, loads: JsonLoads): Result<Parsed, PyError> {
    match BraceSpan(content)
    case None => Success(Object(map["error" := JStr("No JSON returned"), "raw" := JStr(content)]))
    case Some(span) =>
      match loads(span)
      case Failure(msg) => Failure(JSONDecodeError(msg))
      case Success(p) => Success(p)
  }

  /** `graphic_designer_agent` from the model's reply onwards: strip it,
      take the prompt and caption from the parsed record (a value that is
      not a dict cannot be indexed by a string), draw the image, and return
      the four-entry record. */
  function GraphicDesignerResult(reply: string, loads: JsonLoads, generate: ImageGenerator)
    : Result<map<string, Json>, PyError>
  {
    match DesignerParsed(Strip(reply), loads)
    case Failure(e) => Failure(e)
    case Success(NonObject) => Failure(TypeError)
    case Success(Object(f)) =>
      if "prompt" !in f then Failure(KeyError("prompt"))
      else if "caption" !in f then Failure(KeyError("caption"))
      else
        Success(DesignerRecordOf(generate(f["prompt"]), f["prompt"], f["caption"]))
  }

  /** A reply without a brace span gets the fallback record, which has no
      `prompt`, so the designer raises `KeyError('prompt')` instead of
      drawing anything; a span that does not decode raises the decoder's
      error. */
  lemma DesignerFailures(reply: string, loads: JsonLoads, generate: ImageGenerator)
    ensures BraceSpan(Strip(reply)).None? ==> GraphicDesignerResult(reply, loads, generate) == Failure(KeyError("prompt"))
    ensures BraceSpan(Strip(reply)).Some? && loads(BraceSpan(Strip(reply)).value).Failure? ==>
      GraphicDesignerResult(reply, loads, generate)
        == Failure(JSONDecodeError(loads(BraceSpan(Strip(reply)).value).error))
  {
    var content := Strip(reply);
    if BraceSpan(content).None? {
      var fallback := map["error" := JStr("No JSON returned"), "raw" := JStr(content)];
      assert "prompt" !in fallback;
    }
  }

  /** A designer result has exactly the four entries, the prompt and
      caption of the decoded reply, and an image path that is a bare file
      name taken from the image URL. */
  lemma DesignerRecord(reply: string, loads: JsonLoads, generate: ImageGenerator)
    requires GraphicDesignerResult(reply, loads, generate).Success?
    ensures var d := GraphicDesignerResult(reply, loads, generate).value;
      var f := DesignerParsed(Strip(reply), loads).value.fields;
      && d.Keys == {"image_url", "prompt", "caption", "image_path"}
      && d["prompt"] == f["prompt"] && d["caption"] == f["caption"]
      && d["image_url"].JStr?
      && d["image_path"] == JStr(ImageFileName(d["image_url"].s))
  {
    var f := DesignerParsed(Strip(reply), loads).value.fields;
    RecordShape(generate(f["prompt"]), f["prompt"], f["caption"]);
  }

  /** The four entries of the designer's record. */
  lemma RecordShape(url: string, prompt: Json, caption: Json)
    ensures var d := DesignerRecordOf(url, prompt, caption);
      && d.Keys == {"image_url", "prompt", "caption", "image_path"}
      && d["image_url"] == JStr(url) && d["prompt"] == prompt && d["caption"] == caption
      && d["image_path"] == JStr(ImageFileName(url))
  {
    assert |"image_url"| == 9 && |"prompt"| == 6 && |"caption"| == 7 && |"image_path"| == 10;
  }

  /** What `parsed` is in the copywriter before the image path is added:
      the decoded span, an error record when the reply has no span, or an
      error record carrying the decoder's message and the reply when the
      span does not decode. */
  function CopywriterParsed(content: string, loads: JsonLoads): Parsed {
    match BraceSpan(content)
    case None => Object(map["error" := JStr("No valid JSON returned")])
    case Some(span) =>
      match loads(span)
      case Failure(msg) => Object(map["error" := JStr("Failed to parse: " + msg), "raw" := JStr(content)])
      case Success(p) => p
  }

  /** The copywriter's fallbacks: no span gives the one-entry error record;
      a span that does not decode gives an error record with the message
      and the stripped reply under `raw`. */
  lemma CopywriterFallbacks(content: string, loads: JsonLoads)
    ensures BraceSpan(content).None? ==>
      CopywriterParsed(content, loads) == Object(map["error" := JStr("No valid JSON returned")])
    ensures BraceSpan(content).Some? && loads(BraceSpan(content).value).Failure? ==>
      var p := CopywriterParsed(content, loads);
      && p.Object? && p.fields.Keys == {"error", "raw"}
      && p.fields["raw"] == JStr(content)
      && p.fields["error"] == JStr("Failed to parse: " + loads(BraceSpan(content).value).error)
  {
  }

  /** What `json.loads` guarantees of a text that starts with `{`: when it
      decodes at all, it decodes to a dict. */
  ghost predicate BracesDecodeToObjects(loads: JsonLoads) {
    forall s :: |s| > 0 && s[0] == '{' && loads(s).Success? ==> loads(s).value.Object?
  }

  /** With such a decoder the parsed value is always a dict: the span starts
      with `{`, so it decodes to a dict or falls back to an error record. */
  lemma CopywriterAlwaysTags(reply: string, loads: JsonLoads)
    requires BracesDecodeToObjects(loads)
    ensures CopywriterParsed(Strip(reply), loads).Object?
  {
    BraceSpanIsOuter(Strip(reply));
  }

  /** `copywriter_agent` from the model's reply onwards: strip it, parse it
      with the fallbacks, and set `image_path` on the parsed dict in place.
      Item assignment on a decoded value that is not a dict raises. */
  method CopywriterAgent(imagePath: string, reply: string, loads: JsonLoads)
    returns (r: Result<map<string, Json>, PyError>)
    ensures CopywriterParsed(Strip(reply), loads).NonObject? ==> r == Failure(TypeError)
    ensures CopywriterParsed(Strip(reply), loads).Object? ==>
      r == Success(CopywriterParsed(Strip(reply), loads).fields[("image_path") := JStr(imagePath)])
    ensures BracesDecodeToObjects(loads) ==> r.Success? && r.value["image_path"] == JStr(imagePath)
  {
    var content := Strip(reply);
    if BracesDecodeToObjects(loads) {
      CopywriterAlwaysTags(reply, loads);
    }
    var parsed := CopywriterParsed(content, loads);
    if parsed.NonObject? {
      return Failure(TypeError);
    }
    var result := new PyDict(parsed.fields);
    result.SetItem("image_path", JStr(imagePath));
    return Success(result.items);
  }

  /** The copywriter fails only when the reply holds a span that decodes to
      something other than an object; otherwise the result carries
      `image_path` equal to the given path, on success and on both
      fallbacks, and every other entry of the parsed record unchanged. */
  lemma CopywriterTagsImage(imagePath: string, reply: string, loads: JsonLoads)
    ensures var content := Strip(reply);
      var p := CopywriterParsed(content, loads);
      && (p.NonObject? <==> BraceSpan(content).Some? && loads(BraceSpan(content).value) == Success(NonObject))
      && (p.Object? ==>
            var d := p.fields[("image_path") := JStr(imagePath)];
            && d["image_path"] == JStr(imagePath)
            && d.Keys == p.fields.Keys + {"image_path"}
            && forall k :: k in p.fields && k != "image_path" ==> d[k] == p.fields[k])
  {
  }
}
