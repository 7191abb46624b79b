/** Fallback colours for faces and labels, resolved from the optional
    `defaults` section of the configuration. */
module Defaults {
  import opened Wrappers
  import opened Errors
  import opened Color

  datatype DefaultsConfig = DefaultsConfig(
    backgroundColor: Option<ColorConfig>,
    labelColor: Option<ColorConfig>,
    superlabelColor: Option<ColorConfig>,
    sublabelColor: Option<ColorConfig>)

  datatype Defaults = Defaults(
    backgroundColor: Rgba,
    labelColor: Rgba,
    superlabelColor: Rgba,
    sublabelColor: Rgba)

  /** Opaque black background, white label, yellow superlabel, cyan sublabel. */
  const FALLBACK: Defaults := Defaults(
    Rgba(0, 0, 0, 0xFF),
    Rgba(0xFF, 0xFF, 0xFF, 0xFF),
    Rgba(0xFF, 0xFF, 0, 0xFF),
    Rgba(0, 0xFF, 0xFF, 0xFF))

  /** The four colour fields in the order the source checks them. */
  function Fields(c: DefaultsConfig): seq<Option<ColorConfig>> {
    [c.backgroundColor, c.labelColor, c.superlabelColor, c.sublabelColor]
  }

  /** A provided field that does not convert to a colour (or panics). */
  predicate FieldFails(field: Option<ColorConfig>)
  {
    field.Some? && ToImageRgba(field.value).Failure?
  }

  /** One field: absent keeps the fallback, present must convert. */
  function ResolveField(field: Option<ColorConfig>, fallback: Rgba): (r: Result<Rgba, StateError>)
    ensures field.None? ==> r == Success(fallback)
    ensures r.Failure? <==> FieldFails(field)
    ensures r.Failure? ==> r.error == StateError.ConfigError(ToImageRgba(field.value).error)
    ensures field.Some? && r.Success? ==> r.value == ToImageRgba(field.value).value
  {
    match field
    case None => Success(fallback)
    case Some(c) =>
      match ToImageRgba(c)
      case Success(rgba) => Success(rgba)
      case Failure(e) => Failure(StateError.ConfigError(e))
  }

  /** `Defaults::from_config`. Each provided field replaces only its own
      fallback; the first malformed field, in the order background, label,
      superlabel, sublabel, is the error returned. */
  function FromConfig(config: Option<DefaultsConfig>): (r: Result<Defaults, StateError>)
    ensures config.None? ==> r == Success(FALLBACK)
    ensures config.Some? ==>
      (r.Failure? <==> exists i :: 0 <= i < 4 && FieldFails(Fields(config.value)[i]))
    ensures config.Some? && r.Failure? ==>
      exists i :: 0 <= i < 4 && FieldFails(Fields(config.value)[i])
        && (forall j :: 0 <= j < i ==> !FieldFails(Fields(config.value)[j]))
        && r.error == StateError.ConfigError(ToImageRgba(Fields(config.value)[i].value).error)
    ensures config.Some? && r.Success? ==>
      && Replaces(config.value.backgroundColor, FALLBACK.backgroundColor, r.value.backgroundColor)
      && Replaces(config.value.labelColor, FALLBACK.labelColor, r.value.labelColor)
      && Replaces(config.value.superlabelColor, FALLBACK.superlabelColor, r.value.superlabelColor)
      && Replaces(config.value.sublabelColor, FALLBACK.sublabelColor, r.value.sublabelColor)
  {
    if config.None? then Success(FALLBACK)
    else
      var c := config.value;
      var fs := Fields(c);
      if FieldFails(c.backgroundColor) then
        assert FieldFails(fs[0]);
        Failure(StateError.ConfigError(ToImageRgba(c.backgroundColor.value).error))
      else if FieldFails(c.labelColor) then
        assert FieldFails(fs[1]) && !FieldFails(fs[0]);
        Failure(StateError.ConfigError(ToImageRgba(c.labelColor.value).error))
      else if FieldFails(c.superlabelColor) then
        assert FieldFails(fs[2]) && !FieldFails(fs[0]) && !FieldFails(fs[1]);
        Failure(StateError.ConfigError(ToImageRgba(c.superlabelColor.value).error))
      else if FieldFails(c.sublabelColor) then
        assert FieldFails(fs[3]) && !FieldFails(fs[0]) && !FieldFails(fs[1]) && !FieldFails(fs[2]);
        Failure(StateError.ConfigError(ToImageRgba(c.sublabelColor.value).error))
      else
        assert forall i :: 0 <= i < 4 ==> !FieldFails(fs[i]);
        Success(Defaults(
          ResolveField(c.backgroundColor, FALLBACK.backgroundColor).value,
          ResolveField(c.labelColor, FALLBACK.labelColor).value,
          ResolveField(c.superlabelColor, FALLBACK.superlabelColor).value,
          ResolveField(c.sublabelColor, FALLBACK.sublabelColor).value))
  }

  /** The resolved colour is the fallback when the field is absent and the
      converted colour when it is present. */
  predicate Replaces(field: Option<ColorConfig>, fallback: Rgba, resolved: Rgba)
  {
    if field.None? then resolved == fallback else ToImageRgba(field.value) == Success(resolved)
  }

  /** A defaults section with every field absent resolves exactly as no section. */
  lemma AllAbsentIsFallback()
    ensures FromConfig(Some(DefaultsConfig(None, None, None, None))) == FromConfig(None)
    ensures FromConfig(None) == Success(FALLBACK)
  {
  }
}
