/** Pages: a set of button bindings that can be pushed onto the device,
    with optional foreground-window conditions that load it automatically. */
module Page {
  import opened Wrappers
  import opened Errors
  import opened Device
  import opened Position
  import opened Condition
  import opened Button

  // ---------------------------------------------------------------------
  // Configuration shapes
  // ---------------------------------------------------------------------

  datatype PageLoadConditions = PageLoadConditions(conditions: seq<ConditionConfig>, remove: Option<bool>)

  datatype PageButtonConfig = PageButtonConfig(position: ButtonPositionConfig, button: ButtonOrButtonName)

  datatype PageConfig = PageConfig(name: string, onApp: Option<PageLoadConditions>, buttons: seq<PageButtonConfig>)

  // ---------------------------------------------------------------------
  // Runtime shapes
  // ---------------------------------------------------------------------

  /** A binding of a slot position to an occupant. */
  datatype PositionedButtonSetup = PositionedButtonSetup(position: ButtonPosition, setup: ButtonSetupOrName)

  datatype Page = Page(buttons: seq<PositionedButtonSetup>,
                       onForegroundWindow: seq<ForegroundWindowCondition>,
                       unloadIfNotLoaded: bool)

  /** What the source's types guarantee of a binding: `i32` coordinates. */
  predicate ButtonConfigWellFormed(c: PageButtonConfig) {
    ConfigInRange(c.position)
  }

  predicate PageConfigWellFormed(c: PageConfig) {
    forall i :: 0 <= i < |c.buttons| ==> ButtonConfigWellFormed(c.buttons[i])
  }

  /** The name a binding introduces, if it is a named inline button. */
  function IntroducedName(c: PageButtonConfig): Option<string> {
    if c.button.Button? then c.button.button.name else None
  }

  // ---------------------------------------------------------------------
  // Positioned setups
  // ---------------------------------------------------------------------

  /** `PositionedButtonSetup::from_config_with_named_button`: the occupant and
      the named entry come from the button conversion, the position from the
      position conversion; a conversion error is passed on unchanged. */
  function PositionedFromConfig(device: Device, config: PageButtonConfig)
    : (r: Result<(PositionedButtonSetup, Option<(string, ButtonSetup)>), StateError>)
    requires ButtonConfigWellFormed(config)
    ensures r.Failure? <==> FromConfigWithNamedButton(device, config.button).Failure?
    ensures r.Failure? ==> r.error == FromConfigWithNamedButton(device, config.button).error
    ensures r.Success? ==>
      && r.value.0.position == Position.FromConfig(config.position)
      && r.value.0.setup == FromConfigWithNamedButton(device, config.button).value.0
      && r.value.1 == FromConfigWithNamedButton(device, config.button).value.1
  {
    var (setup, named) :- FromConfigWithNamedButton(device, config.button);
    Success((PositionedButtonSetup(Position.FromConfig(config.position), setup), named))
  }

  /** A bare name always converts, and introduces no named button. */
  lemma BareNameBinding(device: Device, position: ButtonPositionConfig, name: string)
    requires ConfigInRange(position)
    ensures var r := PositionedFromConfig(device, PageButtonConfig(position, ButtonName(name)));
      r.Success? && r.value.0.setup == Name(name) && r.value.1.None?
  {
  }

  /** Does converting the binding fail? */
  predicate BindingFails(device: Device, c: PageButtonConfig)
    requires ButtonConfigWellFormed(c)
  {
    PositionedFromConfig(device, c).Failure?
  }

  // ---------------------------------------------------------------------
  // Conditions
  // ---------------------------------------------------------------------

  /** The conditions are compiled in order and the first failure aborts. */
  function CompileConditions(cs: seq<ConditionConfig>, compiles: string -> bool)
    : (r: Result<seq<ForegroundWindowCondition>, StateError>)
    ensures r.Failure? <==> exists i :: 0 <= i < |cs| && Condition.FromConfig(cs[i], compiles).Failure?
    ensures r.Failure? ==> exists i ::
      && 0 <= i < |cs|
      && Condition.FromConfig(cs[i], compiles).Failure?
      && (forall j :: 0 <= j < i ==> Condition.FromConfig(cs[j], compiles).Success?)
      && r.error == Condition.FromConfig(cs[i], compiles).error
    ensures r.Success? ==> |r.value| == |cs|
    ensures r.Success? ==> forall i :: 0 <= i < |cs| ==> Condition.FromConfig(cs[i], compiles) == Success(r.value[i])
  {
    if |cs| == 0 then Success([])
    else
      var c :- Condition.FromConfig(cs[0], compiles);
      var rest :- CompileConditions(cs[1..], compiles);
      assert forall i :: 1 <= i < |cs| ==> cs[i] == cs[1..][i - 1];
      Success([c] + rest)
  }

  // ---------------------------------------------------------------------
  // Bindings and named buttons
  // ---------------------------------------------------------------------

  /** Binding `i` is the last in `cs` to introduce name `n`. */
  predicate LastToName(cs: seq<PageButtonConfig>, i: int, n: string) {
    && 0 <= i < |cs|
    && IntroducedName(cs[i]) == Some(n)
    && forall j :: i < j < |cs| ==> IntroducedName(cs[j]) != Some(n)
  }

  /** The setup a binding that introduces a name registers under it. */
  function InlineSetup(device: Device, c: PageButtonConfig): Result<ButtonSetup, StateError>
    requires ButtonConfigWellFormed(c) && c.button.Button?
  {
    SetupFromConfig(device, c.button.button.setup)
  }

  /** The bindings of a page, converted in config order. Every binding gives
      one positioned setup; a named inline button is inserted into the map,
      so a later button of the same name replaces an earlier one. The
      lemmas below state what the result holds. */
  function ConvertBindings(device: Device, cs: seq<PageButtonConfig>)
    : (r: Result<(seq<PositionedButtonSetup>, Registry), StateError>)
    requires forall i :: 0 <= i < |cs| ==> ButtonConfigWellFormed(cs[i])
    ensures r.Success? ==> |r.value.0| == |cs|
    decreases |cs|
  {
    if |cs| == 0 then Success(([], map[]))
    else
      var n := |cs| - 1;
      var (setups, named) :- ConvertBindings(device, cs[..n]);
      var (setup, entry) :- PositionedFromConfig(device, cs[n]);
      Success((setups + [setup], if entry.Some? then named[entry.value.0 := entry.value.1] else named))
  }

  /** Converting fails exactly when some binding fails, and then with the
      error of the first failing binding. */
  lemma {:induction false} ConvertFailure(device: Device, cs: seq<PageButtonConfig>)
    requires forall i :: 0 <= i < |cs| ==> ButtonConfigWellFormed(cs[i])
    ensures ConvertBindings(device, cs).Failure? <==> exists i :: 0 <= i < |cs| && BindingFails(device, cs[i])
    ensures ConvertBindings(device, cs).Failure? ==> exists i ::
      && 0 <= i < |cs|
      && BindingFails(device, cs[i])
      && (forall j :: 0 <= j < i ==> !BindingFails(device, cs[j]))
      && ConvertBindings(device, cs).error == PositionedFromConfig(device, cs[i]).error
    decreases |cs|
  {
    if |cs| > 0 {
      var n := |cs| - 1;
      var init := cs[..n];
      assert forall i :: 0 <= i < n ==> init[i] == cs[i];
      ConvertFailure(device, init);
      var prev := ConvertBindings(device, init);
      if prev.Failure? {
        var i :| && 0 <= i < n && BindingFails(device, init[i])
                 && (forall j :: 0 <= j < i ==> !BindingFails(device, init[j]))
                 && prev.error == PositionedFromConfig(device, init[i]).error;
        assert BindingFails(device, cs[i]);
      } else if BindingFails(device, cs[n]) {
        assert forall j :: 0 <= j < n ==> !BindingFails(device, cs[j]);
      } else {
        assert forall j :: 0 <= j < |cs| ==> !BindingFails(device, cs[j]);
      }
    }
  }

  /** On success, binding `i` gives the `i`th positioned setup. */
  lemma {:induction false} ConvertPositions(device: Device, cs: seq<PageButtonConfig>)
    requires forall i :: 0 <= i < |cs| ==> ButtonConfigWellFormed(cs[i])
    ensures ConvertBindings(device, cs).Success? ==> forall i :: 0 <= i < |cs| ==>
      && PositionedFromConfig(device, cs[i]).Success?
      && PositionedFromConfig(device, cs[i]).value.0 == ConvertBindings(device, cs).value.0[i]
    decreases |cs|
  {
    if |cs| > 0 {
      var n := |cs| - 1;
      var init := cs[..n];
      assert forall i :: 0 <= i < n ==> init[i] == cs[i];
      ConvertPositions(device, init);
    }
  }

  /** On success, the map holds exactly the names the bindings introduce,
      each with the setup of the last binding that introduces it. */
  lemma {:induction false} ConvertNamed(device: Device, cs: seq<PageButtonConfig>)
    requires forall i :: 0 <= i < |cs| ==> ButtonConfigWellFormed(cs[i])
    ensures ConvertBindings(device, cs).Success? ==>
      forall n :: n in ConvertBindings(device, cs).value.1 <==> exists i :: 0 <= i < |cs| && IntroducedName(cs[i]) == Some(n)
    ensures ConvertBindings(device, cs).Success? ==> forall i, n :: LastToName(cs, i, n) ==>
      n in ConvertBindings(device, cs).value.1 && InlineSetup(device, cs[i]) == Success(ConvertBindings(device, cs).value.1[n])
    decreases |cs|
  {
    if |cs| > 0 && ConvertBindings(device, cs).Success? {
      var n := |cs| - 1;
      var init := cs[..n];
      assert forall i :: 0 <= i < n ==> init[i] == cs[i];
      ConvertNamed(device, init);
      EntryOf(device, cs[n]);
      NamedStep(device, cs, ConvertBindings(device, init).value.1, ConvertBindings(device, cs).value.1);
    }
  }

  /** The entry a binding introduces: its own name and its built setup. */
  lemma EntryOf(device: Device, c: PageButtonConfig)
    requires ButtonConfigWellFormed(c) && !BindingFails(device, c)
    ensures IntroducedName(c).None? ==> PositionedFromConfig(device, c).value.1.None?
    ensures IntroducedName(c).Some? ==>
      && InlineSetup(device, c).Success?
      && PositionedFromConfig(device, c).value.1 == Some((IntroducedName(c).value, InlineSetup(device, c).value))
  {
  }

  /** The map after the last binding: the last binding's entry is inserted
      into the map of the earlier ones. */
  lemma NamedStep(device: Device, cs: seq<PageButtonConfig>, named: Registry, named': Registry)
    requires |cs| > 0
    requires forall k :: 0 <= k < |cs| ==> ButtonConfigWellFormed(cs[k])
    requires var init := cs[..|cs| - 1];
      && (forall n :: n in named <==> exists i :: 0 <= i < |init| && IntroducedName(init[i]) == Some(n))
      && (forall i, n :: LastToName(init, i, n) ==> n in named && InlineSetup(device, init[i]) == Success(named[n]))
    requires var c := cs[|cs| - 1];
      && (IntroducedName(c).None? ==> named' == named)
      && (IntroducedName(c).Some? ==>
            InlineSetup(device, c).Success? && named' == named[IntroducedName(c).value := InlineSetup(device, c).value])
    ensures forall n :: n in named' <==> exists i :: 0 <= i < |cs| && IntroducedName(cs[i]) == Some(n)
    ensures forall i, n :: LastToName(cs, i, n) ==> n in named' && InlineSetup(device, cs[i]) == Success(named'[n])
  {
    var init := cs[..|cs| - 1];
    var last := |cs| - 1;
    assert forall i :: 0 <= i < |init| ==> init[i] == cs[i];
    forall n
      ensures n in named' <==> exists i :: 0 <= i < |cs| && IntroducedName(cs[i]) == Some(n)
    {
      if IntroducedName(cs[last]) == Some(n) {
        assert n in named';
      }
    }
    forall i, n | LastToName(cs, i, n)
      ensures n in named' && InlineSetup(device, cs[i]) == Success(named'[n])
    {
      if i < last {
        assert LastToName(init, i, n);
      }
    }
  }

  /** `Page::from_config_with_named_buttons`: conditions are compiled first,
      then the bindings are converted; the unload flag is set only by an
      explicit `remove: true`. */
  function FromConfig(device: Device, config: PageConfig, compiles: string -> bool)
    : (r: Result<(Page, Registry), StateError>)
    requires PageConfigWellFormed(config)
    ensures config.onApp.Some? && CompileConditions(config.onApp.value.conditions, compiles).Failure? ==>
      r == Failure(CompileConditions(config.onApp.value.conditions, compiles).error)
    ensures r.Success? ==>
      && (config.onApp.None? ==> r.value.0.onForegroundWindow == [] && !r.value.0.unloadIfNotLoaded)
      && (config.onApp.Some? ==>
            && r.value.0.unloadIfNotLoaded == (config.onApp.value.remove == Some(true))
            && Success(r.value.0.onForegroundWindow) == CompileConditions(config.onApp.value.conditions, compiles))
      && ConvertBindings(device, config.buttons) == Success((r.value.0.buttons, r.value.1))
    ensures r.Failure? <==>
      (config.onApp.Some? && CompileConditions(config.onApp.value.conditions, compiles).Failure?) ||
      ConvertBindings(device, config.buttons).Failure?
    ensures
      && (config.onApp.None? || CompileConditions(config.onApp.value.conditions, compiles).Success?)
      && ConvertBindings(device, config.buttons).Failure?
      ==> r == Failure(ConvertBindings(device, config.buttons).error)
    ensures r.Success? ==> forall n :: n in r.value.1 <==>
      exists i :: 0 <= i < |config.buttons| && IntroducedName(config.buttons[i]) == Some(n)
  {
    ConvertNamed(device, config.buttons);
    var conditions :- match config.onApp
      case None => Success([])
      case Some(on) => CompileConditions(on.conditions, compiles);
    var unload := config.onApp.Some? && config.onApp.value.remove == Some(true);
    var (buttons, named) :- ConvertBindings(device, config.buttons);
    Success((Page(buttons, conditions, unload), named))
  }

  /** A page without buttons and without conditions converts to an empty page. */
  lemma EmptyPage(device: Device, name: string, compiles: string -> bool)
    ensures FromConfig(device, PageConfig(name, None, []), compiles) == Success((Page([], [], false), map[]))
  {
  }

  // ---------------------------------------------------------------------
  // Lookup
  // ---------------------------------------------------------------------

  /** `Page::get_button`: the first binding, in list order, whose position
      resolves to the given slot. */
  function GetButton(page: Page, device: Device, index: nat): (r: Option<PositionedButtonSetup>)
    requires device.Valid()
    ensures r.None? <==> forall k :: 0 <= k < |page.buttons| ==> ToButtonIndex(page.buttons[k].position, device) != index
    ensures r.Some? ==> exists k ::
      && 0 <= k < |page.buttons|
      && r.value == page.buttons[k]
      && ToButtonIndex(page.buttons[k].position, device) == index
      && forall j :: 0 <= j < k ==> ToButtonIndex(page.buttons[j].position, device) != index
    decreases |page.buttons|
  {
    if |page.buttons| == 0 then None
    else if ToButtonIndex(page.buttons[0].position, device) == index then Some(page.buttons[0])
    else
      var r := GetButton(page.(buttons := page.buttons[1..]), device, index);
      assert forall k :: 1 <= k < |page.buttons| ==> page.buttons[k] == page.buttons[1..][k - 1];
      r
  }

  /** A lookup beyond the last slot finds nothing, whatever the page binds. */
  lemma NoButtonBeyondDevice(page: Page, device: Device, index: nat)
    requires device.Valid() && index >= device.TotalButtons()
    ensures GetButton(page, device, index).None?
  {
  }
}
