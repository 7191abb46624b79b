/** A button face: the pre-rendered image shown on a button. The source as
    shown draws only the background colour, so a face is a solid grid. */
module Face {
  import opened Wrappers
  import opened Ints
  import opened Errors
  import opened Color
  import opened Device

  datatype Rgb = Rgb(r: u8, g: u8, b: u8)

  /** An RGB image of `width` x `height` pixels, stored row by row. */
  datatype RgbImage = RgbImage(width: nat, height: nat, pixels: seq<seq<Rgb>>) {

    predicate Valid() {
      |pixels| == height && forall y :: 0 <= y < height ==> |pixels[y]| == width
    }

    function Pixel(x: nat, y: nat): Rgb
      requires Valid() && x < width && y < height
    {
      pixels[y][x]
    }
  }

  datatype LabelConfig = JustText(text: string) | WithColor(color: Option<ColorConfig>, labelText: string)

  /** What to draw on a face, as written in the configuration. */
  datatype ButtonFaceConfig = ButtonFaceConfig(
    color: Option<ColorConfig>,
    file: Option<string>,
    centerLabel: Option<LabelConfig>,
    sublabel: Option<LabelConfig>,
    superlabel: Option<LabelConfig>)

  datatype ButtonFace = ButtonFace(device: Device, face: RgbImage)

  /** The background colour the source fills with when none is configured. */
  const BLACK: Rgba := Rgba(0, 0, 0, 0xFF)

  /** Converting an RGBA canvas to RGB keeps the colour channels. */
  function DropAlpha(c: Rgba): Rgb {
    Rgb(c.r, c.g, c.b)
  }

  /** A canvas of the given size filled with one colour. */
  function SolidFill(width: nat, height: nat, c: Rgb): (img: RgbImage)
    ensures img.Valid() && img.width == width && img.height == height
    ensures forall x, y :: 0 <= x < width && 0 <= y < height ==> img.Pixel(x, y) == c
  {
    RgbImage(width, height, seq(height, _ => seq(width, _ => c)))
  }

  /** `ButtonFace::from_config`: a canvas of the device's button image size
      filled with the configured background colour (black when absent),
      flattened to RGB. */
  function FromConfig(device: Device, config: ButtonFaceConfig): (r: Result<ButtonFace, StateError>)
    ensures r.Failure? <==> config.color.Some? && ToImageRgba(config.color.value).Failure?
    ensures r.Failure? ==> r.error == StateError.ConfigError(ToImageRgba(config.color.value).error)
    ensures r.Success? ==>
      var img := r.value.face;
      && r.value.device == device
      && img.Valid() && img.width == device.imageWidth && img.height == device.imageHeight
      && forall x, y :: 0 <= x < img.width && 0 <= y < img.height ==>
           img.Pixel(x, y) == DropAlpha(if config.color.None? then BLACK else ToImageRgba(config.color.value).value)
  {
    var back :- if config.color.None? then Success(BLACK)
                else match ToImageRgba(config.color.value)
                     case Success(c) => Success(c)
                     case Failure(e) => Failure(StateError.ConfigError(e));
    Success(ButtonFace(device, SolidFill(device.imageWidth, device.imageHeight, DropAlpha(back))))
  }

  /** `#FF0000` gives a face whose every pixel is pure red, whatever the
      device's image size. */
  lemma RedFace(device: Device)
    ensures var config := ButtonFaceConfig(Some(HexString("#FF0000")), None, None, None, None);
      && FromConfig(device, config).Success?
      && var img := FromConfig(device, config).value.face;
      && img.width == device.imageWidth && img.height == device.imageHeight
      && forall x, y :: 0 <= x < img.width && 0 <= y < img.height ==> img.Pixel(x, y) == Rgb(0xFF, 0, 0)
  {
    RgbRoundTrip(0xFF, 0, 0);
    assert FormatRgb(0xFF, 0, 0) == "#FF0000";
  }
}
