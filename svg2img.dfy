/**
 * The option handling of `svg2img` (index.js:18-66) and `convert`
 * (index.js:68-79): the defaults for a missing options object, whether the
 * document is rescaled, the canvas size, and the encoder chosen from
 * `format`. Rendering and encoding themselves are not modelled.
 */
module Svg2Img {
  import opened Wrappers
  import opened JsString
  import opened AspectRatio
  import opened Rewriter
  import opened Loader

  /** The fields of the options object that the core reads. */
  datatype Options = Options(
    width: Dim,
    height: Dim,
    preserveAspectRatio: AspectPolicy,
    format: Option<string>,
    quality: Option<int>,
    compressionLevel: Option<int>)

  /** The second argument of `svg2img`: absent or null, the callback itself, or an object. */
  datatype OptionsArg = NoOptions | CallbackAsOptions | Given(options: Options)

  /** `{}`: every field `undefined`. */
  const Defaults: Options := Options(None, None, Unset, None, None, None)

  /** The encoder `svg2img` asks the canvas for, with the one setting it passes on. */
  datatype Encoder = Jpeg(quality: Option<int>) | Png(compressionLevel: Option<int>)

  /** What is rendered: the (possibly rescaled) document, the canvas size and the encoder. */
  datatype Plan = Plan(content: string, canvasWidth: int, canvasHeight: int, encoder: Encoder)

  datatype Result = Ok(plan: Plan) | Err(error: string)

  /**
   * index.js:19-25: a function in the options position is the callback, and
   * no options object means `{}`.
   */
  function Normalize(arg: OptionsArg): (o: Options)
    ensures arg.Given? ==> o == arg.options
    ensures !arg.Given? ==> o == Defaults
  {
    match arg
    case Given(o) => o
    case _ => Defaults
  }

  /** `options.width || options.height`. */
  predicate ShouldScale(o: Options) {
    Truthy(o.width) || Truthy(o.height)
  }

  /** `format || 'png'`. */
  function FormatName(o: Options): (f: string)
    ensures f != ""
    ensures o.format.Some? && o.format.value != "" ==> f == o.format.value
    ensures !(o.format.Some? && o.format.value != "") ==> f == "png"
  {
    if o.format.Some? && o.format.value != "" then o.format.value else "png"
  }

  /**
   * index.js:45-53: JPEG for `jpg` or `jpeg` with the quality option, PNG
   * otherwise with the compression level option.
   */
  function EncoderFor(o: Options): (e: Encoder)
    ensures e.Jpeg? <==> o.format == Some("jpg") || o.format == Some("jpeg")
    ensures e.Jpeg? ==> e.quality == o.quality
    ensures e.Png? ==> e.compressionLevel == o.compressionLevel
  {
    var f := FormatName(o);
    if f == "jpg" || f == "jpeg" then Jpeg(o.quality) else Png(o.compressionLevel)
  }

  /** `x || 100` for a size. */
  function SizeOr100(d: Dim): (n: int)
    ensures n != 0
    ensures Truthy(d) ==> n == d.value
    ensures !Truthy(d) ==> n == 100
  {
    if Truthy(d) then d.value else 100
  }

  /** The content handed to `convert`: rescaled only when a size is given. */
  method PrepareContent(content: string, o: Options) returns (r: string)
    ensures ShouldScale(o) ==> r == Scaled(content, o.width, o.height, o.preserveAspectRatio)
    ensures !ShouldScale(o) ==> r == content
  {
    r := content;
    if Truthy(o.width) || Truthy(o.height) {
      r := Scale(content, o.width, o.height, o.preserveAspectRatio);
    }
  }

  /** The plan `svg2img` follows once `loadSVGContent` has answered. */
  function Svg2ImgPlan(loaded: Outcome, arg: OptionsArg): (r: Result)
    ensures r.Err? <==> loaded.Failed?
    ensures r.Ok? ==> r.plan.canvasWidth != 0 && r.plan.canvasHeight != 0
    ensures r.Ok? && !ShouldScale(Normalize(arg)) ==> r.plan.content == loaded.content
  {
    var o := Normalize(arg);
    match loaded
    case Failed(e) => Err(e)
    case Loaded(c) =>
      var content := if ShouldScale(o) then Scaled(c, o.width, o.height, o.preserveAspectRatio) else c;
      Ok(Plan(content, SizeOr100(o.width), SizeOr100(o.height), EncoderFor(o)))
  }

  /**
   * A load error is reported as it is; otherwise the document is rescaled
   * exactly when a size is given, the canvas takes the given sizes (100 for
   * a missing or zero one), and the encoder follows the format.
   */
  lemma PlanFacts(loaded: Outcome, arg: OptionsArg)
    ensures loaded.Failed? ==> Svg2ImgPlan(loaded, arg) == Err(loaded.error)
    ensures loaded.Loaded? ==>
              var o := Normalize(arg);
              var p := Svg2ImgPlan(loaded, arg).plan;
              && Svg2ImgPlan(loaded, arg).Ok?
              && (!ShouldScale(o) ==> p.content == loaded.content)
              && (ShouldScale(o) ==> p.content == Scaled(loaded.content, o.width, o.height, o.preserveAspectRatio))
              && p.canvasWidth == SizeOr100(o.width) && p.canvasHeight == SizeOr100(o.height)
              && p.encoder == EncoderFor(o)
  {
  }

  /** Without options the document is rendered as loaded, on a 100 by 100 canvas, as PNG. */
  lemma NoOptionsPlan(content: string, arg: OptionsArg)
    requires !arg.Given?
    ensures Svg2ImgPlan(Loaded(content), arg) == Ok(Plan(content, 100, 100, Png(None)))
  {
  }
}
