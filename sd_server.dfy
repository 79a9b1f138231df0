/**
 * The txt2img endpoint of real_sd_server.py: the request record and its
 * defaults, the dispatch between the Stable Diffusion pipeline and the
 * enhanced placeholder, and the response record both paths return.
 *
 * The pipeline call and the placeholder's rendering (PIL drawing, PNG save,
 * base64) are parameters: `generate` yields the base64 image or None when
 * it raises, `render` likewise for the placeholder's layout.
 */
module SdServer {
  import opened Wrappers
  import opened WordWrap
  import Pixels

  /** The POST body of /sdapi/v1/txt2img; cfg_scale is a Python float. */
  datatype ImageRequest = ImageRequest(prompt: string, width: int, height: int, steps: int, cfgScale: real)

  const DefaultWidth: int := 512
  const DefaultHeight: int := 512
  const DefaultSteps: int := 20
  const DefaultCfgScale: real := 7.5

  /** A request that gives only the prompt. */
  function DefaultRequest(prompt: string): (r: ImageRequest)
    ensures r == ImageRequest(prompt, 512, 512, 20, 7.5)
  {
    ImageRequest(prompt, DefaultWidth, DefaultHeight, DefaultSteps, DefaultCfgScale)
  }

  /** The "parameters" record of a response. */
  datatype Parameters = Parameters(prompt: string, width: int, height: int, steps: int, cfgScale: real)

  /** The "info" record of a response, before json.dumps. */
  datatype Info =
    | SdInfo(prompt: string, width: int, height: int, steps: int, cfgScale: real, sampler: string, model: string)
    | PlaceholderInfo(prompt: string, model: string, note: string)

  datatype Response = Response(images: seq<string>, parameters: Parameters, info: Info)

  /** An HTTPException raised out of the endpoint. */
  datatype Failure = HttpError(status: int, detail: string)

  type Reply = Result<Response, Failure>

  const PlaceholderFailure := HttpError(500, "Failed to generate image")

  /** A loaded Stable Diffusion pipeline, identified by its model. */
  datatype Pipeline = Pipeline(modelId: string)

  function ParametersOf(req: ImageRequest): Parameters
  {
    Parameters(req.prompt, req.width, req.height, req.steps, req.cfgScale)
  }

  /** The response when the pipeline produced `image`. */
  function SdResponse(req: ImageRequest, image: string): (r: Response)
    ensures r.images == [image] && r.parameters == ParametersOf(req)
    ensures r.info.SdInfo? && r.info.sampler == "Euler" && r.info.model == "stable-diffusion-v1-5"
    ensures Parameters(r.info.prompt, r.info.width, r.info.height, r.info.steps, r.info.cfgScale) == r.parameters
  {
    Response([image], ParametersOf(req),
      SdInfo(req.prompt, req.width, req.height, req.steps, req.cfgScale, "Euler", "stable-diffusion-v1-5"))
  }

  /** The response when the placeholder rendered `image`. */
  function PlaceholderResponse(req: ImageRequest, image: string): (r: Response)
    ensures r.images == [image] && r.parameters == ParametersOf(req)
    ensures r.info.PlaceholderInfo? && r.info.prompt == r.parameters.prompt && r.info.model == "enhanced-placeholder"
  {
    Response([image], ParametersOf(req),
      PlaceholderInfo(req.prompt, "enhanced-placeholder", "Real SD model not available, using enhanced placeholder"))
  }

  // ---------------------------------------------------------------- seed

  /** sum(ord(c) for c in s) */
  function CodeSum(s: string): (sum: nat)
    ensures sum <= 0x10_FFFF * |s|
    ensures forall k :: 0 <= k < |s| ==> s[k] as int <= sum
  {
    if s == [] then 0 else CodeSum(s[..|s| - 1]) + s[|s| - 1] as int
  }

  /** The placeholder's random seed: the sum of the prompt's code points modulo 1000. */
  function Seed(prompt: string): (r: nat)
    ensures r < 1000
  {
    CodeSum(prompt) % 1000
  }

  lemma {:induction false} CodeSumAppend(a: string, b: string)
    ensures CodeSum(a + b) == CodeSum(a) + CodeSum(b)
    decreases |b|
  {
    if b == [] {
      assert a + b == a;
    } else {
      var init := b[..|b| - 1];
      CodeSumAppend(a, init);
      assert (a + b)[..|a + b| - 1] == a + init;
    }
  }

  /** The seed depends on the prompt only through its sum: swapping two halves keeps it. */
  lemma SeedOfConcat(a: string, b: string)
    ensures Seed(a + b) == (Seed(a) + Seed(b)) % 1000
    ensures Seed(a + b) == Seed(b + a)
  {
    CodeSumAppend(a, b);
    CodeSumAppend(b, a);
    SumMod(CodeSum(a), CodeSum(b));
  }

  lemma SumMod(x: nat, y: nat)
    ensures (x + y) % 1000 == (x % 1000 + y % 1000) % 1000
  {
    assert x + y == (x % 1000 + y % 1000) + 1000 * (x / 1000 + y / 1000);
  }

  // ---------------------------------------------------------------- drawn lines

  /** At most this many wrapped lines are drawn. */
  const MaxDrawn: nat := 4
  const TextLeft: int := 20
  const LineSpacing: int := 30

  /** A string drawn by the placeholder, with its top-left corner. */
  datatype TextItem = TextItem(x: int, y: int, text: string)

  /** The lines drawn: lines[:4], line i at (20, height // 3 + 30 * i). */
  function DrawnLines(lines: seq<string>, height: int): (items: seq<TextItem>)
    ensures |items| <= MaxDrawn && |items| <= |lines|
    ensures |items| == |lines| || |items| == MaxDrawn
    ensures forall i :: 0 <= i < |items| ==> items[i].text == lines[i] && items[i].x == TextLeft
    ensures |items| > 0 ==> items[0].y == height / 3
    ensures forall i :: 0 < i < |items| ==> items[i].y == items[i - 1].y + LineSpacing
  {
    var n := if |lines| < MaxDrawn then |lines| else MaxDrawn;
    seq(n, i requires 0 <= i < n => TextItem(TextLeft, height / 3 + LineSpacing * i, lines[i]))
  }

  // ---------------------------------------------------------------- placeholder

  /** What the placeholder draws, apart from its random gradient colours. */
  datatype Layout = Layout(width: nat, height: nat, seed: nat, text: seq<TextItem>)

  /** The text before the size; its bullet is the UTF-8 bytes of U+2022 read as cp1252. */
  const SizePrefix := "AI-Style Placeholder \U{00E2}\U{20AC}\U{00A2} "

  /**
   * The first footer line: after the prefix, the width's digits, an "x" and
   * the height's digits, so the two numbers read back from the text.
   */
  function SizeFooter(width: nat, height: nat): (line: string)
    ensures |line| > |SizePrefix| && line[..|SizePrefix|] == SizePrefix
    ensures var size, k := line[|SizePrefix|..], |Pixels.DecimalString(width)|;
      && 0 < k < |size| - 1 && size[k] == 'x'
      && (forall j :: 0 <= j < |size| && j != k ==> '0' <= size[j] <= '9')
      && Pixels.DecimalValue(size[..k]) == width
      && Pixels.DecimalValue(size[k + 1..]) == height
  {
    var w, h := Pixels.DecimalString(width), Pixels.DecimalString(height);
    Pixels.DecimalRoundTrip(width);
    Pixels.DecimalRoundTrip(height);
    SizeReadsBack(SizePrefix, w, h, width, height);
    SizePrefix + w + "x" + h
  }

  /** After any prefix, digits w, an "x" and digits h split back at the only "x" into w's and h's values. */
  lemma SizeReadsBack(prefix: string, w: string, h: string, width: nat, height: nat)
    requires |w| >= 1 && forall j :: 0 <= j < |w| ==> '0' <= w[j] <= '9'
    requires |h| >= 1 && forall j :: 0 <= j < |h| ==> '0' <= h[j] <= '9'
    requires Pixels.DecimalValue(w) == width && Pixels.DecimalValue(h) == height
    ensures var line := prefix + w + "x" + h;
      && |line| > |prefix| && line[..|prefix|] == prefix
      && var size, k := line[|prefix|..], |w|;
      && 0 < k < |size| - 1 && size[k] == 'x'
      && (forall j :: 0 <= j < |size| && j != k ==> '0' <= size[j] <= '9')
      && Pixels.DecimalValue(size[..k]) == width
      && Pixels.DecimalValue(size[k + 1..]) == height
  {
    var size := w + "x" + h;
    DigitsAroundX(w, h);
    assert prefix + w + "x" + h == prefix + size;
    SplitAt(prefix, size);
  }

  /** Two digit strings joined by "x": the "x" is the only non-digit, and each side comes back whole. */
  lemma DigitsAroundX(w: string, h: string)
    requires forall j :: 0 <= j < |w| ==> '0' <= w[j] <= '9'
    requires forall j :: 0 <= j < |h| ==> '0' <= h[j] <= '9'
    ensures var size := w + "x" + h;
      && size[|w|] == 'x'
      && (forall j :: 0 <= j < |size| && j != |w| ==> '0' <= size[j] <= '9')
      && size[..|w|] == w && size[|w| + 1..] == h
  {
    var size := w + "x" + h;
    forall j | 0 <= j < |size| && j != |w|
      ensures '0' <= size[j] <= '9'
    {
      if j < |w| {
        assert size[j] == w[j];
      } else {
        assert size[j] == h[j - |w| - 1];
      }
    }
    assert size[..|w|] == w;
    assert size[|w| + 1..] == h;
  }

  /** A concatenation splits back into its two parts. */
  lemma SplitAt(a: string, b: string)
    ensures (a + b)[..|a|] == a && (a + b)[|a|..] == b
  {
  }

  const ConnectFooter := "Connect real SD model for actual AI generation"

  /**
   * The placeholder's layout: the seed, the wrapped prompt lines that are
   * drawn, then the two footers 60 and 30 pixels above the bottom edge.
   */
  function PlaceholderLayout(req: ImageRequest): (l: Layout)
    requires req.width >= 0 && req.height >= 0
    ensures l.seed < 1000 && l.seed == Seed(req.prompt)
    ensures l.width == req.width && l.height == req.height
    ensures |l.text| >= 2
    ensures l.text[..|l.text| - 2] == DrawnLines(Wrap(Words(req.prompt)), req.height)
    ensures l.text[|l.text| - 2] == TextItem(TextLeft, req.height - 60, SizeFooter(req.width, req.height))
    ensures l.text[|l.text| - 1] == TextItem(TextLeft, req.height - 30, ConnectFooter)
  {
    var drawn := DrawnLines(Wrap(Words(req.prompt)), req.height);
    var footers := [TextItem(TextLeft, req.height - 60, SizeFooter(req.width, req.height)),
                    TextItem(TextLeft, req.height - 30, ConnectFooter)];
    assert (drawn + footers)[..|drawn|] == drawn;
    Layout(req.width, req.height, Seed(req.prompt), drawn + footers)
  }

  /**
   * generate_enhanced_placeholder: Image.new refuses a negative size, and any
   * failure while drawing or saving is reported as HTTP 500.
   */
  function Placeholder(req: ImageRequest, render: Layout -> Option<string>): (r: Reply)
    ensures r.Ok? <==> req.width >= 0 && req.height >= 0 && render(PlaceholderLayout(req)).Some?
    ensures r.Err? ==> r.error == HttpError(500, "Failed to generate image")
    ensures r.Ok? ==>
      && r.value.images == [render(PlaceholderLayout(req)).value]
      && r.value.parameters == Parameters(req.prompt, req.width, req.height, req.steps, req.cfgScale)
      && r.value.info.model == "enhanced-placeholder"
  {
    if req.width < 0 || req.height < 0 then Err(PlaceholderFailure)
    else match render(PlaceholderLayout(req))
      case None => Err(PlaceholderFailure)
      case Some(image) => Ok(PlaceholderResponse(req, image))
  }

  // ---------------------------------------------------------------- server

  class Server {
    /** The module-global pipeline; None until load_pipeline succeeds. */
    var pipeline: Option<Pipeline>

    constructor()
      ensures pipeline == None
    {
      pipeline := None;
    }

    /**
     * txt2img: without a pipeline, or when the pipeline raises, the
     * placeholder answers. Without a pipeline the placeholder runs inside the
     * try block, so its HTTP 500 is caught by `except Exception` and the
     * placeholder runs a second time, whose HTTP 500 escapes. When the
     * pipeline raises, the placeholder runs once, from the except branch.
     */
    function Txt2Img(req: ImageRequest, generate: (Pipeline, ImageRequest) -> Option<string>,
                     render: Layout -> Option<string>): (r: Reply)
      reads this
      ensures r.Ok? ==> |r.value.images| == 1 && r.value.parameters == ParametersOf(req)
      ensures r.Err? ==> r.error == PlaceholderFailure
    {
      if pipeline.None? then
        var attempt := Placeholder(req, render);
        if attempt.Ok? then attempt else Placeholder(req, render)
      else match generate(pipeline.value, req)
        case Some(image) => Ok(SdResponse(req, image))
        case None => Placeholder(req, render)
    }
  }

  /**
   * The dispatch of txt2img: the pipeline's image when there is a pipeline
   * and it succeeds, the placeholder's reply in every other case.
   */
  lemma Txt2ImgDispatch(s: Server, req: ImageRequest, generate: (Pipeline, ImageRequest) -> Option<string>,
                        render: Layout -> Option<string>)
    ensures s.pipeline.None? ==> s.Txt2Img(req, generate, render) == Placeholder(req, render)
    ensures s.pipeline.Some? && generate(s.pipeline.value, req).None? ==>
      s.Txt2Img(req, generate, render) == Placeholder(req, render)
    ensures s.pipeline.Some? && generate(s.pipeline.value, req).Some? ==>
      s.Txt2Img(req, generate, render) == Ok(SdResponse(req, generate(s.pipeline.value, req).value))
  {
  }

  /**
   * Every reply of txt2img: a success holds exactly one image and echoes the
   * request's parameters unchanged; the only error is the placeholder's 500,
   * and it happens exactly when the pipeline is missing or fails and the
   * placeholder fails too.
   */
  lemma Txt2ImgReply(s: Server, req: ImageRequest, generate: (Pipeline, ImageRequest) -> Option<string>,
                     render: Layout -> Option<string>)
    ensures var r := s.Txt2Img(req, generate, render);
      && (r.Ok? ==> |r.value.images| == 1 && r.value.parameters == Parameters(req.prompt, req.width, req.height, req.steps, req.cfgScale))
      && (r.Err? ==> r.error == HttpError(500, "Failed to generate image"))
      && (r.Err? <==>
           (s.pipeline.None? || generate(s.pipeline.value, req).None?) && Placeholder(req, render).Err?)
  {
    Txt2ImgDispatch(s, req, generate, render);
  }

  /** A request with only a prompt is answered, when it is answered, with width 512, height 512, 20 steps and cfg_scale 7.5. */
  lemma DefaultsEchoed(s: Server, prompt: string, generate: (Pipeline, ImageRequest) -> Option<string>,
                       render: Layout -> Option<string>)
    ensures var r := s.Txt2Img(DefaultRequest(prompt), generate, render);
      r.Ok? ==> r.value.parameters == Parameters(prompt, 512, 512, 20, 7.5)
  {
    Txt2ImgReply(s, DefaultRequest(prompt), generate, render);
  }
}
