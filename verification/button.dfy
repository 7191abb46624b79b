/** Button setups, the "setup or name" occupant of a slot, and the per-slot
    state machine: press state, render cache, handler and face selection. */
module Button {
  import opened Wrappers
  import opened Errors
  import opened Device
  import Face

  /** A script handed to the script engine; its text is opaque here. */
  datatype EventHandler = EventHandler(script: string)

  /** Handler configuration, kept as the script text it yields. */
  datatype EventHandlerConfig = EventHandlerConfig(script: string)

  /** Faces and handlers of a button, each independently optional. */
  datatype ButtonSetup = ButtonSetup(
    upFace: Option<Face.ButtonFace>,
    downFace: Option<Face.ButtonFace>,
    upHandler: Option<EventHandler>,
    downHandler: Option<EventHandler>)

  /** The fields shared by `ButtonConfigWithName` and `ButtonConfigOptionalName`. */
  datatype SetupConfig = SetupConfig(
    upFace: Option<Face.ButtonFaceConfig>,
    downFace: Option<Face.ButtonFaceConfig>,
    upHandler: Option<EventHandlerConfig>,
    downHandler: Option<EventHandlerConfig>)

  datatype ButtonConfigWithName = ButtonConfigWithName(name: string, setup: SetupConfig)

  datatype ButtonConfigOptionalName = ButtonConfigOptionalName(name: Option<string>, setup: SetupConfig)

  /** A page entry names a registered button or describes one inline. */
  datatype ButtonOrButtonName = ButtonName(buttonName: string) | Button(button: ButtonConfigOptionalName)

  /** What occupies a slot: a name looked up on every use, or an inline setup. */
  datatype ButtonSetupOrName = Name(name: string) | Setup(setup: ButtonSetup)

  /** The named-button registry. */
  type Registry = map<string, ButtonSetup>

  const EMPTY_NAME: string := "empty"

  // ---------------------------------------------------------------------
  // Construction from configuration
  // ---------------------------------------------------------------------

  predicate FaceFails(device: Device, f: Option<Face.ButtonFaceConfig>)
  {
    f.Some? && Face.FromConfig(device, f.value).Failure?
  }

  /** Builds an optional face; absent stays absent. */
  function OptionalFace(device: Device, f: Option<Face.ButtonFaceConfig>): (r: Result<Option<Face.ButtonFace>, StateError>)
    ensures r.Failure? <==> FaceFails(device, f)
    ensures r.Failure? ==> r.error == Face.FromConfig(device, f.value).error
    ensures r.Success? ==> (r.value.Some? <==> f.Some?)
    ensures r.Success? && f.Some? ==> Face.FromConfig(device, f.value) == Success(r.value.value)
  {
    match f
    case None => Success(None)
    case Some(fc) =>
      var face :- Face.FromConfig(device, fc);
      Success(Some(face))
  }

  function HandlerFromConfig(h: Option<EventHandlerConfig>): (r: Option<EventHandler>)
    ensures r.Some? <==> h.Some?
    ensures r.Some? ==> r.value.script == h.value.script
  {
    match h
    case None => None
    case Some(c) => Some(EventHandler(c.script))
  }

  /** `ButtonSetup::from_config_with_name` / `from_optional_name_config`:
      the up face is built before the down face and the first failure is
      returned; handlers carry their script text. */
  function SetupFromConfig(device: Device, c: SetupConfig): (r: Result<ButtonSetup, StateError>)
    ensures r.Failure? <==> FaceFails(device, c.upFace) || FaceFails(device, c.downFace)
    ensures r.Failure? && FaceFails(device, c.upFace) ==> r.error == Face.FromConfig(device, c.upFace.value).error
    ensures r.Failure? && !FaceFails(device, c.upFace) ==> r.error == Face.FromConfig(device, c.downFace.value).error
    ensures r.Success? ==>
      && (r.value.upFace.Some? <==> c.upFace.Some?)
      && (r.value.downFace.Some? <==> c.downFace.Some?)
      && (c.upFace.Some? ==> Face.FromConfig(device, c.upFace.value) == Success(r.value.upFace.value))
      && (c.downFace.Some? ==> Face.FromConfig(device, c.downFace.value) == Success(r.value.downFace.value))
      && r.value.upHandler == HandlerFromConfig(c.upHandler)
      && r.value.downHandler == HandlerFromConfig(c.downHandler)
  {
    var upFace :- OptionalFace(device, c.upFace);
    var downFace :- OptionalFace(device, c.downFace);
    Success(ButtonSetup(upFace, downFace, HandlerFromConfig(c.upHandler), HandlerFromConfig(c.downHandler)))
  }

  /** `ButtonSetupOrName::from_config_with_named_button`: a bare name stays a
      name; an unnamed inline button becomes an inline setup; a named inline
      button becomes a reference to that name plus the entry to register. */
  function FromConfigWithNamedButton(device: Device, config: ButtonOrButtonName)
    : (r: Result<(ButtonSetupOrName, Option<(string, ButtonSetup)>), StateError>)
    ensures config.ButtonName? ==> r == Success((Name(config.buttonName), None))
    ensures config.Button? ==>
      (r.Failure? <==> SetupFromConfig(device, config.button.setup).Failure?)
    ensures config.Button? && r.Failure? ==> r.error == SetupFromConfig(device, config.button.setup).error
    ensures config.Button? && r.Success? ==>
      var s := SetupFromConfig(device, config.button.setup).value;
      match config.button.name
      case None => r.value == (Setup(s), None)
      case Some(n) => r.value == (Name(n), Some((n, s)))
  {
    match config
    case ButtonName(name) => Success((Name(name), None))
    case Button(setupConfig) =>
      var s :- SetupFromConfig(device, setupConfig.setup);
      match setupConfig.name
      case None => Success((Setup(s), None))
      case Some(name) => Success((Name(name), Some((name, s))))
  }

  // ---------------------------------------------------------------------
  // Slot state
  // ---------------------------------------------------------------------

  datatype PressState = Down | Up

  /** One physical slot: occupant, press state and the press state it was
      last rendered in (`None`: never rendered since the occupant changed). */
  datatype ButtonState = ButtonState(setup: ButtonSetupOrName, pressState: PressState, renderState: Option<PressState>)

  /** `needs_rendering`: a slot never rendered needs it; a rendered one needs
      it when the press state has changed since. */
  function NeedsRendering(s: ButtonState): (r: bool)
    ensures r <==> s.renderState != Some(s.pressState)
    ensures s.renderState.None? ==> r
  {
    match s.renderState
    case None => true
    case Some(rs) => rs != s.pressState
  }

  function New(setup: ButtonSetupOrName): (s: ButtonState)
    ensures s.setup == setup && s.pressState == Up && s.renderState.None?
    ensures NeedsRendering(s)
  {
    ButtonState(setup, Up, None)
  }

  /** A released, unrendered slot showing the `"empty"` button. */
  function Empty(): (s: ButtonState)
    ensures s.setup == Name(EMPTY_NAME) && s.pressState == Up && s.renderState.None?
    ensures NeedsRendering(s)
  {
    New(Name(EMPTY_NAME))
  }

  /** Resolves the occupant: names go through the registry every time. */
  function GetSetup(s: ButtonState, registry: Registry): (r: Option<ButtonSetup>)
    ensures s.setup.Setup? ==> r == Some(s.setup.setup)
    ensures s.setup.Name? ==> (r.Some? <==> s.setup.name in registry)
    ensures s.setup.Name? && r.Some? ==> r.value == registry[s.setup.name]
  {
    match s.setup
    case Name(name) => if name in registry then Some(registry[name]) else None
    case Setup(setup) => Some(setup)
  }

  /** Presses the button and returns the resolved setup's down handler. */
  function SetPressed(s: ButtonState, registry: Registry): (r: (ButtonState, Option<EventHandler>))
    ensures r.0 == s.(pressState := Down)
    ensures GetSetup(s, registry).None? ==> r.1.None?
    ensures GetSetup(s, registry).Some? ==> r.1 == GetSetup(s, registry).value.downHandler
  {
    var s' := s.(pressState := Down);
    (s', match GetSetup(s', registry) { case None => None case Some(setup) => setup.downHandler })
  }

  /** Releases the button and returns the resolved setup's up handler. */
  function SetReleased(s: ButtonState, registry: Registry): (r: (ButtonState, Option<EventHandler>))
    ensures r.0 == s.(pressState := Up)
    ensures GetSetup(s, registry).None? ==> r.1.None?
    ensures GetSetup(s, registry).Some? ==> r.1 == GetSetup(s, registry).value.upHandler
  {
    var s' := s.(pressState := Up);
    (s', match GetSetup(s', registry) { case None => None case Some(setup) => setup.upHandler })
  }

  /** Replaces the occupant and forgets how the slot was rendered. */
  function SetSetup(s: ButtonState, setup: ButtonSetupOrName): (s': ButtonState)
    ensures s'.setup == setup && s'.pressState == s.pressState
    ensures s'.renderState.None?
    ensures NeedsRendering(s')
  {
    s.(setup := setup, renderState := None)
  }

  /** The face of a setup for a press state: the matching face, else the other one. */
  function ChooseFace(setup: ButtonSetup, press: PressState): (f: Option<Face.ButtonFace>)
    ensures f.None? <==> setup.upFace.None? && setup.downFace.None?
    ensures f == setup.upFace || f == setup.downFace
    ensures press == Up && setup.upFace.Some? ==> f == setup.upFace
    ensures press == Down && setup.downFace.Some? ==> f == setup.downFace
  {
    match press
    case Up => if setup.upFace.None? then setup.downFace else setup.upFace
    case Down => if setup.downFace.None? then setup.upFace else setup.downFace
  }

  /** `set_rendered_and_get_face_for_rendering`: a clean slot yields nothing
      and stays as it is; a dirty slot is marked rendered in its press state
      (even when its occupant does not resolve) and yields its face. */
  function SetRenderedAndGetFace(s: ButtonState, registry: Registry): (r: (ButtonState, Option<Face.ButtonFace>))
    ensures !NeedsRendering(r.0)
    ensures !NeedsRendering(s) ==> r == (s, None)
    ensures NeedsRendering(s) ==> r.0 == s.(renderState := Some(s.pressState))
    ensures NeedsRendering(s) && GetSetup(s, registry).None? ==> r.1.None?
    ensures NeedsRendering(s) && GetSetup(s, registry).Some? ==>
      r.1 == ChooseFace(GetSetup(s, registry).value, s.pressState)
  {
    if NeedsRendering(s) then
      var s' := s.(renderState := Some(s.pressState));
      match GetSetup(s', registry)
      case None => (s', None)
      case Some(setup) => (s', ChooseFace(setup, s'.pressState))
    else
      (s, None)
  }

  // ---------------------------------------------------------------------
  // Properties relating several operations
  // ---------------------------------------------------------------------

  /** A name is resolved on each use: re-registering it changes what every
      slot naming it resolves to. */
  lemma NameResolvedOnEveryUse(s: ButtonState, registry: Registry, name: string, setup: ButtonSetup)
    requires s.setup == Name(name)
    ensures GetSetup(s, registry[name := setup]) == Some(setup)
  {
  }

  /** Pressing or releasing a rendered slot into the other press state makes it dirty again. */
  lemma PressChangeNeedsRendering(s: ButtonState, registry: Registry)
    ensures var rendered := SetRenderedAndGetFace(s, registry).0;
      (rendered.pressState == Up ==> NeedsRendering(SetPressed(rendered, registry).0))
      && (rendered.pressState == Down ==> NeedsRendering(SetReleased(rendered, registry).0))
  {
  }

  /** A press followed by a release with no render in between leaves a slot
      rendered in the up state clean. */
  lemma PressReleaseWithoutRenderIsClean(s: ButtonState, registry: Registry)
    requires s.renderState == Some(Up)
    ensures !NeedsRendering(SetReleased(SetPressed(s, registry).0, registry).0)
  {
  }

  /** Rendering twice yields nothing the second time and changes nothing. */
  lemma RenderIdempotent(s: ButtonState, registry: Registry)
    ensures var s' := SetRenderedAndGetFace(s, registry).0;
      SetRenderedAndGetFace(s', registry) == (s', None)
  {
  }
}
