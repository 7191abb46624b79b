/** The application state: the registry of named buttons, the pages, one
    slot per device button and the stack of loaded pages. Every operation is
    a pure transition from one state to the next. */
module App {
  import opened Wrappers
  import opened Ints
  import opened Errors
  import opened Color
  import Defaults
  import opened Device
  import Face
  import opened Position
  import Condition
  import opened Button
  import P = Page

  /** The parts of `config::Config` the state is built from. */
  datatype Config = Config(
    defaults: Option<Defaults.DefaultsConfig>,
    buttons: Option<seq<ButtonConfigWithName>>,
    pages: seq<P.PageConfig>,
    defaultPages: Option<seq<string>>,
    initScript: Option<EventHandlerConfig>)

  datatype AppState = AppState(
    defaults: Defaults.Defaults,
    namedButtons: Registry,
    pages: map<string, P.Page>,
    buttons: seq<ButtonState>,
    loadedPages: seq<string>,
    device: Device,
    initHandler: Option<EventHandler>,
    foregroundWindow: Option<Condition.WindowInformation>)
  {
    /** One slot per device button, and only known pages on the stack. */
    predicate Valid() {
      && device.Valid()
      && |buttons| == device.TotalButtons()
      && forall k :: 0 <= k < |loadedPages| ==> loadedPages[k] in pages
    }
  }

  // ---------------------------------------------------------------------
  // Registering the named buttons of the configuration
  // ---------------------------------------------------------------------

  /** Button `i` is declared under a name already taken, by the registry the
      loop starts from or by an earlier button. */
  predicate Clash(taken: set<string>, bs: seq<ButtonConfigWithName>, i: int)
    requires 0 <= i < |bs|
  {
    bs[i].name in taken || exists j :: 0 <= j < i && bs[j].name == bs[i].name
  }

  /** Button `i` stops the loop: its name is taken (an error), or its setup
      does not build (the `.unwrap()` panics). */
  predicate Halts(device: Device, taken: set<string>, bs: seq<ButtonConfigWithName>, i: int)
    requires 0 <= i < |bs|
  {
    Clash(taken, bs, i) || SetupFromConfig(device, bs[i].setup).Failure?
  }

  predicate NoHaltBefore(device: Device, taken: set<string>, bs: seq<ButtonConfigWithName>, i: int)
    requires i <= |bs|
  {
    forall j :: 0 <= j < i ==> !Halts(device, taken, bs, j)
  }

  /** Button `i` is the first to stop the loop. */
  predicate FirstHalt(device: Device, taken: set<string>, bs: seq<ButtonConfigWithName>, i: int) {
    0 <= i < |bs| && Halts(device, taken, bs, i) && NoHaltBefore(device, taken, bs, i)
  }

  /** How button `i` stops the loop: the duplicate check comes before the
      build, so a taken name is reported even when the setup is broken. */
  function HaltError(taken: set<string>, bs: seq<ButtonConfigWithName>, i: int): StateError
    requires 0 <= i < |bs|
  {
    if Clash(taken, bs, i) then DuplicateNamedButton(bs[i].name) else UnwrapPanic(bs[i].name)
  }

  /** The registry holds the old entries and one built entry per button. */
  ghost predicate RegisteredAll(device: Device, registry: Registry, bs: seq<ButtonConfigWithName>, r: Registry) {
    && (forall n :: n in r <==> n in registry || exists i :: 0 <= i < |bs| && bs[i].name == n)
    && (forall n :: n in registry ==> r[n] == registry[n])
    && (forall i :: 0 <= i < |bs| ==> bs[i].name in r && Success(r[bs[i].name]) == SetupFromConfig(device, bs[i].setup))
  }

  /** The loop over the configured named buttons: a name already present
      aborts with `DuplicateNamedButton`; a setup that does not build panics
      at the `.unwrap()`; otherwise the built setup is inserted. */
  function RegisterButtons(device: Device, registry: Registry, bs: seq<ButtonConfigWithName>): (r: Result<Registry, StateError>)
    ensures r.Failure? <==> exists i :: 0 <= i < |bs| && Halts(device, registry.Keys, bs, i)
    ensures r.Failure? ==> exists i :: FirstHalt(device, registry.Keys, bs, i) && r.error == HaltError(registry.Keys, bs, i)
    ensures r.Success? ==> RegisteredAll(device, registry, bs, r.value)
    decreases |bs|
  {
    if |bs| == 0 then Success(registry)
    else
      var n := |bs| - 1;
      PrefixHalts(device, registry.Keys, bs, n);
      var prev := RegisterButtons(device, registry, bs[..n]);
      if prev.Failure? then
        PrefixFails(device, registry.Keys, bs, n, prev.error);
        Failure(prev.error)
      else
        PrefixPasses(device, registry.Keys, bs, n);
        if bs[n].name in prev.value then
          LastClashes(device, registry, bs, prev.value);
          Failure(DuplicateNamedButton(bs[n].name))
        else
          LastFresh(device, registry, bs, prev.value);
          match SetupFromConfig(device, bs[n].setup)
          case Failure(_) => Failure(UnwrapPanic(bs[n].name))
          case Success(setup) =>
            InsertRegistered(device, registry, bs, prev.value, setup);
            Success(prev.value[bs[n].name := setup])
  }

  /** Which of the first `n` buttons stop the loop does not depend on the rest. */
  lemma PrefixHalts(device: Device, taken: set<string>, bs: seq<ButtonConfigWithName>, n: nat)
    requires n <= |bs|
    ensures forall i :: 0 <= i < n ==> (Clash(taken, bs[..n], i) <==> Clash(taken, bs, i))
    ensures forall i :: 0 <= i < n ==> (Halts(device, taken, bs[..n], i) <==> Halts(device, taken, bs, i))
    ensures forall i :: 0 <= i <= n ==> (NoHaltBefore(device, taken, bs[..n], i) <==> NoHaltBefore(device, taken, bs, i))
    ensures forall i :: 0 <= i < n ==> HaltError(taken, bs[..n], i) == HaltError(taken, bs, i)
  {
    assert forall i :: 0 <= i < n ==> bs[..n][i] == bs[i];
  }

  /** The first of the first `n` buttons to stop the loop is the first of all. */
  lemma PrefixFails(device: Device, taken: set<string>, bs: seq<ButtonConfigWithName>, n: nat, e: StateError)
    requires n <= |bs|
    requires exists i :: FirstHalt(device, taken, bs[..n], i) && e == HaltError(taken, bs[..n], i)
    ensures exists i :: 0 <= i < |bs| && Halts(device, taken, bs, i)
    ensures exists i :: FirstHalt(device, taken, bs, i) && e == HaltError(taken, bs, i)
  {
    var i :| FirstHalt(device, taken, bs[..n], i) && e == HaltError(taken, bs[..n], i);
    PrefixHalts(device, taken, bs, n);
    assert FirstHalt(device, taken, bs, i);
  }

  /** None of the first `n` buttons stops the loop. */
  lemma PrefixPasses(device: Device, taken: set<string>, bs: seq<ButtonConfigWithName>, n: nat)
    requires n <= |bs|
    requires !exists i :: 0 <= i < n && Halts(device, taken, bs[..n], i)
    ensures NoHaltBefore(device, taken, bs, n)
  {
    PrefixHalts(device, taken, bs, n);
  }

  /** With the earlier buttons registered, the last clashes iff its name is present. */
  lemma LastClashes(device: Device, registry: Registry, bs: seq<ButtonConfigWithName>, prev: Registry)
    requires |bs| > 0 && RegisteredAll(device, registry, bs[..|bs| - 1], prev)
    requires NoHaltBefore(device, registry.Keys, bs, |bs| - 1)
    requires bs[|bs| - 1].name in prev
    ensures FirstHalt(device, registry.Keys, bs, |bs| - 1)
    ensures HaltError(registry.Keys, bs, |bs| - 1) == DuplicateNamedButton(bs[|bs| - 1].name)
  {
    var n := |bs| - 1;
    assert forall i :: 0 <= i < n ==> bs[..n][i] == bs[i];
    if bs[n].name !in registry {
      var i :| 0 <= i < n && bs[..n][i].name == bs[n].name;
      assert bs[i].name == bs[n].name;
    }
  }

  /** A name absent from the registry of the earlier buttons is no clash:
      the last button then stops the loop iff its setup does not build. */
  lemma LastFresh(device: Device, registry: Registry, bs: seq<ButtonConfigWithName>, prev: Registry)
    requires |bs| > 0 && RegisteredAll(device, registry, bs[..|bs| - 1], prev)
    requires NoHaltBefore(device, registry.Keys, bs, |bs| - 1)
    requires bs[|bs| - 1].name !in prev
    ensures !Clash(registry.Keys, bs, |bs| - 1)
    ensures SetupFromConfig(device, bs[|bs| - 1].setup).Failure? ==>
      && FirstHalt(device, registry.Keys, bs, |bs| - 1)
      && HaltError(registry.Keys, bs, |bs| - 1) == UnwrapPanic(bs[|bs| - 1].name)
    ensures SetupFromConfig(device, bs[|bs| - 1].setup).Success? ==>
      forall i :: 0 <= i < |bs| ==> !Halts(device, registry.Keys, bs, i)
  {
    var n := |bs| - 1;
    forall j | 0 <= j < n ensures bs[j].name != bs[n].name {
      assert bs[..n][j] == bs[j];
    }
  }

  /** Inserting the last button's built setup under its fresh name extends
      the registration of the earlier buttons to all of them. */
  lemma InsertRegistered(device: Device, registry: Registry, bs: seq<ButtonConfigWithName>, prev: Registry, setup: ButtonSetup)
    requires |bs| > 0 && RegisteredAll(device, registry, bs[..|bs| - 1], prev)
    requires bs[|bs| - 1].name !in prev
    requires SetupFromConfig(device, bs[|bs| - 1].setup) == Success(setup)
    ensures RegisteredAll(device, registry, bs, prev[bs[|bs| - 1].name := setup])
  {
    var n := |bs| - 1;
    var init := bs[..n];
    var r := prev[bs[n].name := setup];
    forall name ensures name in r <==> name in registry || exists i :: 0 <= i < |bs| && bs[i].name == name {
      if name != bs[n].name && exists i :: 0 <= i < |bs| && bs[i].name == name {
        var i :| 0 <= i < |bs| && bs[i].name == name;
        assert init[i].name == name;
      }
    }
    forall name | name in registry ensures r[name] == registry[name] {
      assert name in prev;
    }
    forall i | 0 <= i < |bs| ensures bs[i].name in r && Success(r[bs[i].name]) == SetupFromConfig(device, bs[i].setup) {
      if i < n {
        assert init[i] == bs[i];
      }
    }
  }

  // ---------------------------------------------------------------------
  // The synthesized "empty" button
  // ---------------------------------------------------------------------

  /** An up face filled with `#000000` and nothing else. */
  const EMPTY_SETUP_CONFIG: SetupConfig :=
    SetupConfig(Some(Face.ButtonFaceConfig(Some(HexString("#000000")), None, None, None, None)), None, None, None)

  lemma BlackParses()
    ensures Sliceable("#000000")
    ensures HexStringToRgba("#000000") == Success(Rgba(0, 0, 0, OPAQUE))
  {
    RgbRoundTrip(0, 0, 0);
    assert FormatRgb(0, 0, 0) == "#000000";
  }

  /** The setup registered under `"empty"` when the configuration does not
      declare one: its construction cannot fail, so the `.unwrap()` is safe. */
  function EmptySetup(device: Device): (s: ButtonSetup)
    ensures SetupFromConfig(device, EMPTY_SETUP_CONFIG) == Success(s)
    ensures s.upFace.Some? && s.downFace.None? && s.upHandler.None? && s.downHandler.None?
    ensures s.upFace.value.face.width == device.imageWidth && s.upFace.value.face.height == device.imageHeight
  {
    BlackParses();
    SetupFromConfig(device, EMPTY_SETUP_CONFIG).value
  }

  /** A declared `"empty"` is kept; otherwise the black one is added. */
  function WithEmpty(device: Device, registry: Registry): (r: Registry)
    ensures EMPTY_NAME in r
    ensures EMPTY_NAME in registry ==> r == registry
    ensures EMPTY_NAME !in registry ==> r == registry[EMPTY_NAME := EmptySetup(device)]
  {
    if EMPTY_NAME in registry then registry else registry[EMPTY_NAME := EmptySetup(device)]
  }

  // ---------------------------------------------------------------------
  // Pages
  // ---------------------------------------------------------------------

  /** The names a page's bindings introduce, in config order. */
  function IntroducedNames(cs: seq<P.PageButtonConfig>): (ns: seq<string>)
    ensures forall n :: n in ns <==> exists i :: 0 <= i < |cs| && P.IntroducedName(cs[i]) == Some(n)
  {
    if |cs| == 0 then []
    else
      var rest := IntroducedNames(cs[1..]);
      assert forall i :: 1 <= i < |cs| ==> cs[i] == cs[1..][i - 1];
      match P.IntroducedName(cs[0])
      case None => rest
      case Some(n) => [n] + rest
  }

  /** The first of `order` already in the registry. */
  function FirstTaken(registry: Registry, order: seq<string>): (r: Option<string>)
    ensures r.None? <==> forall k :: 0 <= k < |order| ==> order[k] !in registry
    ensures r.Some? ==> r.value in registry && r.value in order
  {
    if |order| == 0 then None
    else if order[0] in registry then Some(order[0])
    else
      var r := FirstTaken(registry, order[1..]);
      assert forall k :: 1 <= k < |order| ==> order[k] == order[1..][k - 1];
      r
  }

  /** The loop merging a page's new named buttons: any name already
      registered aborts with `DuplicateNamedButton`. The source visits the
      page's names in hash-map order; the model reports the first colliding
      name in config order. */
  function MergePageNamed(registry: Registry, more: Registry, order: seq<string>): (r: Result<Registry, StateError>)
    requires forall n :: n in more <==> n in order
    ensures r.Failure? <==> exists n :: n in more && n in registry
    ensures r.Failure? ==> r.error.DuplicateNamedButton? && r.error.name in more && r.error.name in registry
    ensures r.Success? ==> forall n :: n in r.value <==> n in registry || n in more
    ensures r.Success? ==> forall n :: n in registry ==> r.value[n] == registry[n]
    ensures r.Success? ==> forall n :: n in more ==> r.value[n] == more[n]
  {
    match FirstTaken(registry, order)
    case Some(n) => Failure(DuplicateNamedButton(n))
    case None =>
      assert forall n :: n in more ==> n !in registry by {
        forall n | n in more ensures n !in registry {
          var k :| 0 <= k < |order| && order[k] == n;
        }
      }
      Success(registry + more)
  }

  /** What the source's types guarantee of every page configuration. */
  predicate PagesWellFormed(pcs: seq<P.PageConfig>) {
    forall i :: 0 <= i < |pcs| ==> P.PageConfigWellFormed(pcs[i])
  }

  /** Page configuration `pc` introduces `n` through a named inline button. */
  predicate Introduces(pc: P.PageConfig, n: string) {
    exists k :: 0 <= k < |pc.buttons| && P.IntroducedName(pc.buttons[k]) == Some(n)
  }

  /** Page `i` introduces a name that is already registered: by the registry
      the loop starts from, or by an earlier page. Names repeated within one
      page are no clash; the page's own map keeps the last. */
  predicate PageClashes(registry: Registry, pcs: seq<P.PageConfig>, i: int, n: string)
    requires 0 <= i < |pcs|
  {
    Introduces(pcs[i], n) && (n in registry || exists j :: 0 <= j < i && Introduces(pcs[j], n))
  }

  /** Page `i` stops the loop: it does not build, or it clashes. */
  ghost predicate PageHalts(device: Device, registry: Registry, pcs: seq<P.PageConfig>, i: int, compiles: string -> bool)
    requires 0 <= i < |pcs| && PagesWellFormed(pcs)
  {
    P.FromConfig(device, pcs[i], compiles).Failure? || exists n :: PageClashes(registry, pcs, i, n)
  }

  /** Page `i` is the first to stop the loop. */
  ghost predicate FirstPageHalt(device: Device, registry: Registry, pcs: seq<P.PageConfig>, i: int, compiles: string -> bool)
    requires PagesWellFormed(pcs)
  {
    && 0 <= i < |pcs|
    && PageHalts(device, registry, pcs, i, compiles)
    && forall j :: 0 <= j < i ==> !PageHalts(device, registry, pcs, j, compiles)
  }

  /** The error page `i` stops the loop with: its own conversion error, or
      else `DuplicateNamedButton` for one of its clashing names. */
  ghost predicate PageHaltError(device: Device, registry: Registry, pcs: seq<P.PageConfig>, i: int,
                          compiles: string -> bool, e: StateError)
    requires 0 <= i < |pcs| && PagesWellFormed(pcs)
  {
    if P.FromConfig(device, pcs[i], compiles).Failure? then e == P.FromConfig(device, pcs[i], compiles).error
    else e.DuplicateNamedButton? && PageClashes(registry, pcs, i, e.name)
  }

  /** The named-button maps the pages build, in config order (empty for a
      page that does not build). */
  ghost function NamedMaps(device: Device, pcs: seq<P.PageConfig>, compiles: string -> bool): (ms: seq<Registry>)
    ensures |ms| == |pcs|
  {
    if |pcs| == 0 then [] else [BuiltNamed(device, pcs[0], compiles)] + NamedMaps(device, pcs[1..], compiles)
  }

  /** The named-button map one page builds, or none when it does not build. */
  ghost function BuiltNamed(device: Device, pc: P.PageConfig, compiles: string -> bool): Registry {
    if P.PageConfigWellFormed(pc) && P.FromConfig(device, pc, compiles).Success? then P.FromConfig(device, pc, compiles).value.1
    else map[]
  }

  /** `out` is `registry` plus every map of `maps`. */
  ghost predicate MergedMaps(registry: Registry, maps: seq<Registry>, out: Registry) {
    && (forall n :: n in out <==> n in registry || exists i :: 0 <= i < |maps| && n in maps[i])
    && (forall n :: n in registry ==> n in out && out[n] == registry[n])
    && (forall i, n :: 0 <= i < |maps| && n in maps[i] ==> n in out && out[n] == maps[i][n])
  }

  /** Every page builds, and `out` is `registry` plus the named buttons of
      every page, each entry as the page that introduces it built it. */
  ghost predicate MergedAll(device: Device, registry: Registry, pcs: seq<P.PageConfig>, compiles: string -> bool,
                            out: Registry)
    requires PagesWellFormed(pcs)
  {
    && (forall i :: 0 <= i < |pcs| ==> P.FromConfig(device, pcs[i], compiles).Success?)
    && MergedMaps(registry, NamedMaps(device, pcs, compiles), out)
  }

  /** Page configuration `i` is the last one of its name. */
  predicate LastPageNamed(pcs: seq<P.PageConfig>, i: int) {
    0 <= i < |pcs| && forall j :: i < j < |pcs| ==> pcs[j].name != pcs[i].name
  }

  /** The pages the configurations build, in config order (an empty page for
      one that does not build). */
  ghost function PagesBuilt(device: Device, pcs: seq<P.PageConfig>, compiles: string -> bool): (ps: seq<P.Page>)
    requires PagesWellFormed(pcs)
    ensures |ps| == |pcs|
  {
    seq(|pcs|, i requires 0 <= i < |pcs| =>
      if P.FromConfig(device, pcs[i], compiles).Success? then P.FromConfig(device, pcs[i], compiles).value.0
      else P.Page([], [], false))
  }

  /** `out` is `pages` with `built[i]` stored under the name of `pcs[i]`, the
      last configuration of a name winning. */
  ghost predicate StoredSeq(pages: map<string, P.Page>, pcs: seq<P.PageConfig>, built: seq<P.Page>, out: map<string, P.Page>)
    requires |built| == |pcs|
  {
    && (forall n :: n in out <==> n in pages || exists i :: 0 <= i < |pcs| && pcs[i].name == n)
    && (forall i :: LastPageNamed(pcs, i) ==> pcs[i].name in out && out[pcs[i].name] == built[i])
    && (forall n :: n in pages && (forall i :: 0 <= i < |pcs| ==> pcs[i].name != n) ==> out[n] == pages[n])
  }

  /** `out` is `pages` with every configured page stored under its name, the
      last configuration of a name winning. */
  ghost predicate StoredAll(device: Device, pages: map<string, P.Page>, pcs: seq<P.PageConfig>, compiles: string -> bool,
                            out: map<string, P.Page>)
    requires PagesWellFormed(pcs)
  {
    StoredSeq(pages, pcs, PagesBuilt(device, pcs, compiles), out)
  }

  /** The loop over the page configurations: each page is built, stored
      under its name, and its named buttons are merged into the registry.
      The lemmas below state what it computes. */
  function BuildPages(device: Device, registry: Registry, pages: map<string, P.Page>,
                      pcs: seq<P.PageConfig>, compiles: string -> bool)
    : (r: Result<(Registry, map<string, P.Page>), StateError>)
    requires PagesWellFormed(pcs)
    decreases |pcs|
  {
    if |pcs| == 0 then Success((registry, pages))
    else
      var built :- P.FromConfig(device, pcs[0], compiles);
      var (page, more) := built;
      var registry' :- MergePageNamed(registry, more, IntroducedNames(pcs[0].buttons));
      BuildPages(device, registry', pages[pcs[0].name := page], pcs[1..], compiles)
  }

  /** After the first page merged into `registry'`, the clashes of the rest
      are the clashes of the later pages of the whole list. */
  lemma ShiftPages(device: Device, registry: Registry, registry': Registry, pcs: seq<P.PageConfig>,
                   compiles: string -> bool)
    requires |pcs| > 0 && PagesWellFormed(pcs)
    requires forall n :: n in registry' <==> n in registry || Introduces(pcs[0], n)
    ensures PagesWellFormed(pcs[1..])
    ensures forall i, n :: 0 <= i < |pcs| - 1 ==>
      (PageClashes(registry', pcs[1..], i, n) <==> PageClashes(registry, pcs, i + 1, n))
    ensures forall i :: 0 <= i < |pcs| - 1 ==>
      (PageHalts(device, registry', pcs[1..], i, compiles) <==> PageHalts(device, registry, pcs, i + 1, compiles))
    ensures forall i, e :: 0 <= i < |pcs| - 1 ==>
      (PageHaltError(device, registry', pcs[1..], i, compiles, e) <==> PageHaltError(device, registry, pcs, i + 1, compiles, e))
  {
    var rest := pcs[1..];
    assert forall i :: 0 <= i < |rest| ==> rest[i] == pcs[i + 1];
    ShiftClashes(registry, registry', pcs);
    ShiftHalts(device, registry, registry', pcs, compiles);
    ShiftErrors(device, registry, registry', pcs, compiles);
  }

  /** The halts part of `ShiftPages`. */
  lemma ShiftHalts(device: Device, registry: Registry, registry': Registry, pcs: seq<P.PageConfig>,
                   compiles: string -> bool)
    requires |pcs| > 0 && PagesWellFormed(pcs) && PagesWellFormed(pcs[1..])
    requires forall i :: 0 <= i < |pcs| - 1 ==> pcs[1..][i] == pcs[i + 1]
    requires forall i, n :: 0 <= i < |pcs| - 1 ==>
      (PageClashes(registry', pcs[1..], i, n) <==> PageClashes(registry, pcs, i + 1, n))
    ensures forall i :: 0 <= i < |pcs| - 1 ==>
      (PageHalts(device, registry', pcs[1..], i, compiles) <==> PageHalts(device, registry, pcs, i + 1, compiles))
  {
    var rest := pcs[1..];
    forall i | 0 <= i < |rest|
      ensures PageHalts(device, registry', rest, i, compiles) <==> PageHalts(device, registry, pcs, i + 1, compiles)
    {
      var next := i + 1;
      if exists n :: PageClashes(registry, pcs, next, n) {
        var n :| PageClashes(registry, pcs, next, n);
        assert PageClashes(registry', rest, i, n);
      }
      if exists n :: PageClashes(registry', rest, i, n) {
        var n :| PageClashes(registry', rest, i, n);
        assert PageClashes(registry, pcs, next, n);
      }
    }
  }

  /** The error part of `ShiftPages`. */
  lemma ShiftErrors(device: Device, registry: Registry, registry': Registry, pcs: seq<P.PageConfig>,
                    compiles: string -> bool)
    requires |pcs| > 0 && PagesWellFormed(pcs) && PagesWellFormed(pcs[1..])
    requires forall i :: 0 <= i < |pcs| - 1 ==> pcs[1..][i] == pcs[i + 1]
    requires forall i, n :: 0 <= i < |pcs| - 1 ==>
      (PageClashes(registry', pcs[1..], i, n) <==> PageClashes(registry, pcs, i + 1, n))
    ensures forall i, e :: 0 <= i < |pcs| - 1 ==>
      (PageHaltError(device, registry', pcs[1..], i, compiles, e) <==> PageHaltError(device, registry, pcs, i + 1, compiles, e))
  {
  }

  /** Page `i + 1` clashes from `registry` exactly when page `i` of the rest
      clashes from the registry after the first page. */
  lemma ShiftClashes(registry: Registry, registry': Registry, pcs: seq<P.PageConfig>)
    requires |pcs| > 0
    requires forall n :: n in registry' <==> n in registry || Introduces(pcs[0], n)
    ensures forall i, n :: 0 <= i < |pcs| - 1 ==>
      (PageClashes(registry', pcs[1..], i, n) <==> PageClashes(registry, pcs, i + 1, n))
  {
    var rest := pcs[1..];
    assert forall i :: 0 <= i < |rest| ==> rest[i] == pcs[i + 1];
    forall i, n | 0 <= i < |rest|
      ensures PageClashes(registry', rest, i, n) <==> PageClashes(registry, pcs, i + 1, n)
    {
      if exists j :: 0 <= j < i + 1 && Introduces(pcs[j], n) {
        var j :| 0 <= j < i + 1 && Introduces(pcs[j], n);
        if j > 0 {
          assert Introduces(rest[j - 1], n);
        }
      }
      if exists j :: 0 <= j < i && Introduces(rest[j], n) {
        var j :| 0 <= j < i && Introduces(rest[j], n);
        assert Introduces(pcs[j + 1], n);
      }
    }
  }

  /** The first page's clashes are exactly its names already registered. */
  lemma FirstPageClashes(device: Device, registry: Registry, pcs: seq<P.PageConfig>, compiles: string -> bool)
    requires |pcs| > 0 && PagesWellFormed(pcs) && P.FromConfig(device, pcs[0], compiles).Success?
    ensures forall n :: PageClashes(registry, pcs, 0, n) <==>
      n in P.FromConfig(device, pcs[0], compiles).value.1 && n in registry
    ensures forall n :: n in P.FromConfig(device, pcs[0], compiles).value.1 <==> Introduces(pcs[0], n)
  {
  }

  /** Building fails exactly when some page does not build or clashes, and
      then with the error of the first such page. */
  lemma {:induction false} BuildPagesFailure(device: Device, registry: Registry, pages: map<string, P.Page>,
                                             pcs: seq<P.PageConfig>, compiles: string -> bool)
    requires PagesWellFormed(pcs)
    ensures var r := BuildPages(device, registry, pages, pcs, compiles);
      && (r.Failure? <==> exists i :: 0 <= i < |pcs| && PageHalts(device, registry, pcs, i, compiles))
      && (r.Failure? ==> exists i ::
            FirstPageHalt(device, registry, pcs, i, compiles) && PageHaltError(device, registry, pcs, i, compiles, r.error))
    decreases |pcs|
  {
    if |pcs| > 0 {
      var r := BuildPages(device, registry, pages, pcs, compiles);
      var built := P.FromConfig(device, pcs[0], compiles);
      if built.Failure? {
        assert FirstPageHalt(device, registry, pcs, 0, compiles);
      } else {
        var (page, more) := built.value;
        FirstPageClashes(device, registry, pcs, compiles);
        var merged := MergePageNamed(registry, more, IntroducedNames(pcs[0].buttons));
        if merged.Failure? {
          assert PageClashes(registry, pcs, 0, merged.error.name);
          assert FirstPageHalt(device, registry, pcs, 0, compiles);
        } else {
          assert !PageHalts(device, registry, pcs, 0, compiles);
          ShiftPages(device, registry, merged.value, pcs, compiles);
          BuildPagesFailure(device, merged.value, pages[pcs[0].name := page], pcs[1..], compiles);
          LiftFailure(device, registry, merged.value, pcs, compiles, r);
        }
      }
    }
  }

  /** When the first page neither fails nor clashes, the outcome for the
      rest, seen from the registry after the first page, is the outcome for
      the whole list. */
  lemma LiftFailure(device: Device, registry: Registry, registry': Registry, pcs: seq<P.PageConfig>,
                    compiles: string -> bool, r: Result<(Registry, map<string, P.Page>), StateError>)
    requires |pcs| > 0 && PagesWellFormed(pcs) && !PageHalts(device, registry, pcs, 0, compiles)
    requires forall n :: n in registry' <==> n in registry || Introduces(pcs[0], n)
    requires PagesWellFormed(pcs[1..])
    requires forall i :: 0 <= i < |pcs| - 1 ==>
      (PageHalts(device, registry', pcs[1..], i, compiles) <==> PageHalts(device, registry, pcs, i + 1, compiles))
    requires forall i, e :: 0 <= i < |pcs| - 1 ==>
      (PageHaltError(device, registry', pcs[1..], i, compiles, e) <==> PageHaltError(device, registry, pcs, i + 1, compiles, e))
    requires r.Failure? <==> exists i :: 0 <= i < |pcs| - 1 && PageHalts(device, registry', pcs[1..], i, compiles)
    requires r.Failure? ==> exists i ::
      FirstPageHalt(device, registry', pcs[1..], i, compiles) && PageHaltError(device, registry', pcs[1..], i, compiles, r.error)
    ensures r.Failure? <==> exists i :: 0 <= i < |pcs| && PageHalts(device, registry, pcs, i, compiles)
    ensures r.Failure? ==> exists i ::
      FirstPageHalt(device, registry, pcs, i, compiles) && PageHaltError(device, registry, pcs, i, compiles, r.error)
  {
    var rest := pcs[1..];
    if r.Failure? {
      var i :| FirstPageHalt(device, registry', rest, i, compiles) && PageHaltError(device, registry', rest, i, compiles, r.error);
      forall j | 0 <= j < i + 1 ensures !PageHalts(device, registry, pcs, j, compiles) {
        if j > 0 {
          assert !PageHalts(device, registry', rest, j - 1, compiles);
        }
      }
      assert FirstPageHalt(device, registry, pcs, i + 1, compiles);
    } else {
      forall i | 0 <= i < |pcs| ensures !PageHalts(device, registry, pcs, i, compiles) {
        if i > 0 {
          assert !PageHalts(device, registry', rest, i - 1, compiles);
        }
      }
    }
  }

  /** On success the registry is the starting one plus every page's named
      buttons. */
  lemma {:induction false} BuildPagesMerged(device: Device, registry: Registry, pages: map<string, P.Page>,
                                            pcs: seq<P.PageConfig>, compiles: string -> bool)
    requires PagesWellFormed(pcs)
    ensures var r := BuildPages(device, registry, pages, pcs, compiles);
      r.Success? ==> MergedAll(device, registry, pcs, compiles, r.value.0)
    decreases |pcs|
  {
    var r := BuildPages(device, registry, pages, pcs, compiles);
    if |pcs| > 0 && r.Success? {
      var (page, more) := P.FromConfig(device, pcs[0], compiles).value;
      var registry' := MergePageNamed(registry, more, IntroducedNames(pcs[0].buttons)).value;
      var rest := pcs[1..];
      assert forall i :: 0 <= i < |rest| ==> rest[i] == pcs[i + 1];
      BuildPagesMerged(device, registry', pages[pcs[0].name := page], rest, compiles);
      NamedMapsCons(device, pcs, compiles);
      MergedMapsStep(registry, registry', more, NamedMaps(device, rest, compiles), r.value.0);
      forall i | 0 <= i < |pcs| ensures P.FromConfig(device, pcs[i], compiles).Success? {
        if i > 0 {
          assert P.FromConfig(device, rest[i - 1], compiles).Success?;
        }
      }
    }
  }

  /** The first page's map followed by the rest's maps are all the maps. */
  lemma NamedMapsCons(device: Device, pcs: seq<P.PageConfig>, compiles: string -> bool)
    requires |pcs| > 0 && PagesWellFormed(pcs) && P.FromConfig(device, pcs[0], compiles).Success?
    ensures NamedMaps(device, pcs, compiles) == [P.FromConfig(device, pcs[0], compiles).value.1] + NamedMaps(device, pcs[1..], compiles)
  {
    assert P.PageConfigWellFormed(pcs[0]);
  }

  /** Merging a first map and then the rest merges all of them. */
  lemma MergedMapsStep(registry: Registry, registry': Registry, first: Registry, maps: seq<Registry>, out: Registry)
    requires forall n :: n in registry' <==> n in registry || n in first
    requires forall n :: n in registry ==> registry'[n] == registry[n]
    requires forall n :: n in first ==> registry'[n] == first[n]
    requires MergedMaps(registry', maps, out)
    ensures MergedMaps(registry, [first] + maps, out)
  {
    var all := [first] + maps;
    assert all[0] == first;
    assert forall i :: 0 <= i < |maps| ==> all[i + 1] == maps[i];
    forall n ensures n in out <==> n in registry || exists i :: 0 <= i < |all| && n in all[i] {
      if exists i :: 0 <= i < |all| && n in all[i] {
        var i :| 0 <= i < |all| && n in all[i];
        if i > 0 {
          assert n in maps[i - 1];
        }
      }
      if exists i :: 0 <= i < |maps| && n in maps[i] {
        var i :| 0 <= i < |maps| && n in maps[i];
        assert n in all[i + 1];
      }
    }
    forall n | n in registry ensures n in out && out[n] == registry[n] {
      assert n in registry';
    }
    forall i, n | 0 <= i < |all| && n in all[i] ensures n in out && out[n] == all[i][n] {
      if i > 0 {
        assert all[i] == maps[i - 1];
      } else {
        assert n in registry';
      }
    }
  }

  /** On success every configured page is stored under its name, the last
      configuration of a name winning. */
  lemma {:induction false} BuildPagesStored(device: Device, registry: Registry, pages: map<string, P.Page>,
                                            pcs: seq<P.PageConfig>, compiles: string -> bool)
    requires PagesWellFormed(pcs)
    ensures var r := BuildPages(device, registry, pages, pcs, compiles);
      r.Success? ==> StoredAll(device, pages, pcs, compiles, r.value.1)
    decreases |pcs|
  {
    var r := BuildPages(device, registry, pages, pcs, compiles);
    if |pcs| > 0 && r.Success? {
      var (page, more) := P.FromConfig(device, pcs[0], compiles).value;
      var registry' := MergePageNamed(registry, more, IntroducedNames(pcs[0].buttons)).value;
      var rest := pcs[1..];
      assert forall i :: 0 <= i < |rest| ==> rest[i] == pcs[i + 1];
      BuildPagesStored(device, registry', pages[pcs[0].name := page], rest, compiles);
      PagesBuiltCons(device, pcs, compiles);
      StoredStep(pages, pcs, PagesBuilt(device, pcs, compiles), r.value.1);
    }
  }

  /** The first page built followed by the rest's are all the pages built. */
  lemma PagesBuiltCons(device: Device, pcs: seq<P.PageConfig>, compiles: string -> bool)
    requires |pcs| > 0 && PagesWellFormed(pcs) && P.FromConfig(device, pcs[0], compiles).Success?
    ensures PagesBuilt(device, pcs, compiles) == [P.FromConfig(device, pcs[0], compiles).value.0] + PagesBuilt(device, pcs[1..], compiles)
  {
    var ps := PagesBuilt(device, pcs, compiles);
    var tail := PagesBuilt(device, pcs[1..], compiles);
    forall i | 0 <= i < |tail| ensures tail[i] == ps[i + 1] {
      assert pcs[1..][i] == pcs[i + 1];
    }
  }

  /** Storing the first page and then the rest stores every page. */
  lemma StoredStep(pages: map<string, P.Page>, pcs: seq<P.PageConfig>, built: seq<P.Page>, out: map<string, P.Page>)
    requires |pcs| > 0 && |built| == |pcs|
    requires StoredSeq(pages[pcs[0].name := built[0]], pcs[1..], built[1..], out)
    ensures StoredSeq(pages, pcs, built, out)
  {
    StoredKeysStep(pages, pcs, built, out);
    StoredLastStep(pages, pcs, built, out);
    StoredKeptStep(pages, pcs, built, out);
  }

  /** The keys part of `StoredStep`. */
  lemma StoredKeysStep(pages: map<string, P.Page>, pcs: seq<P.PageConfig>, built: seq<P.Page>, out: map<string, P.Page>)
    requires |pcs| > 0 && |built| == |pcs|
    requires forall n :: n in out <==> n in pages[pcs[0].name := built[0]] || exists i :: 0 <= i < |pcs| - 1 && pcs[1..][i].name == n
    ensures forall n :: n in out <==> n in pages || exists i :: 0 <= i < |pcs| && pcs[i].name == n
  {
    var rest := pcs[1..];
    forall n ensures n in out <==> n in pages || exists i :: 0 <= i < |pcs| && pcs[i].name == n {
      if exists i :: 0 <= i < |pcs| && pcs[i].name == n {
        var i :| 0 <= i < |pcs| && pcs[i].name == n;
        if i > 0 {
          assert rest[i - 1].name == n;
        }
      }
      if exists i :: 0 <= i < |rest| && rest[i].name == n {
        var i :| 0 <= i < |rest| && rest[i].name == n;
        assert pcs[i + 1].name == n;
      }
    }
  }

  /** The last-configuration part of `StoredStep`. */
  lemma StoredLastStep(pages: map<string, P.Page>, pcs: seq<P.PageConfig>, built: seq<P.Page>, out: map<string, P.Page>)
    requires |pcs| > 0 && |built| == |pcs|
    requires pcs[0].name in out
    requires StoredSeq(pages[pcs[0].name := built[0]], pcs[1..], built[1..], out)
    ensures forall i :: LastPageNamed(pcs, i) ==> pcs[i].name in out && out[pcs[i].name] == built[i]
  {
    var rest := pcs[1..];
    forall i | LastPageNamed(pcs, i) ensures pcs[i].name in out && out[pcs[i].name] == built[i] {
      if i > 0 {
        assert rest[i - 1] == pcs[i];
        assert LastPageNamed(rest, i - 1);
        assert built[1..][i - 1] == built[i];
      } else {
        assert forall j :: 0 <= j < |rest| ==> rest[j].name != pcs[0].name;
      }
    }
  }

  /** The untouched-pages part of `StoredStep`. */
  lemma StoredKeptStep(pages: map<string, P.Page>, pcs: seq<P.PageConfig>, built: seq<P.Page>, out: map<string, P.Page>)
    requires |pcs| > 0 && |built| == |pcs|
    requires StoredSeq(pages[pcs[0].name := built[0]], pcs[1..], built[1..], out)
    ensures forall n :: n in pages && (forall i :: 0 <= i < |pcs| ==> pcs[i].name != n) ==> out[n] == pages[n]
  {
    var rest := pcs[1..];
    forall n | n in pages && (forall i :: 0 <= i < |pcs| ==> pcs[i].name != n) ensures out[n] == pages[n] {
      assert forall j :: 0 <= j < |rest| ==> rest[j].name != n;
    }
  }

  // ---------------------------------------------------------------------
  // Construction
  // ---------------------------------------------------------------------

  function ConfigButtons(config: Config): seq<ButtonConfigWithName> {
    if config.buttons.Some? then config.buttons.value else []
  }

  /** The registry after the configured buttons and `"empty"`, before pages. */
  function BaseRegistry(device: Device, config: Config): (r: Result<Registry, StateError>)
    ensures var bs := ConfigButtons(config);
      r.Failure? <==> exists i :: 0 <= i < |bs| && Halts(device, {}, bs, i)
    ensures var bs := ConfigButtons(config);
      r.Failure? ==> exists i :: FirstHalt(device, {}, bs, i) && r.error == HaltError({}, bs, i)
    ensures r.Success? ==> forall n :: n in r.value <==>
      n == EMPTY_NAME || exists i :: 0 <= i < |ConfigButtons(config)| && ConfigButtons(config)[i].name == n
    ensures r.Success? ==> forall i :: 0 <= i < |ConfigButtons(config)| ==>
      ConfigButtons(config)[i].name in r.value &&
      Success(r.value[ConfigButtons(config)[i].name]) == SetupFromConfig(device, ConfigButtons(config)[i].setup)
    ensures r.Success? && (forall i :: 0 <= i < |ConfigButtons(config)| ==> ConfigButtons(config)[i].name != EMPTY_NAME) ==>
      r.value[EMPTY_NAME] == EmptySetup(device)
  {
    var none: Registry := map[];
    assert none.Keys == {};
    var named :- RegisterButtons(device, none, ConfigButtons(config));
    Success(WithEmpty(device, named))
  }

  /** The state `AppState::from_config` builds before loading any page:
      defaults, then the configured named buttons, then `"empty"`, then the
      pages and their named buttons; every slot starts empty. Each stage's
      first error (or panic) is the result. */
  function InitialState(device: Device, config: Config, compiles: string -> bool): (r: Result<AppState, StateError>)
    requires device.Valid() && PagesWellFormed(config.pages)
    ensures Defaults.FromConfig(config.defaults).Failure? ==> r == Failure(Defaults.FromConfig(config.defaults).error)
    ensures Defaults.FromConfig(config.defaults).Success? && BaseRegistry(device, config).Failure? ==>
      r == Failure(BaseRegistry(device, config).error)
    ensures Defaults.FromConfig(config.defaults).Success? && BaseRegistry(device, config).Success? ==>
      var base := BaseRegistry(device, config).value;
      && (r.Failure? <==> exists i :: 0 <= i < |config.pages| && PageHalts(device, base, config.pages, i, compiles))
      && (r.Failure? ==> exists i ::
            FirstPageHalt(device, base, config.pages, i, compiles) && PageHaltError(device, base, config.pages, i, compiles, r.error))
      && (r.Success? ==> MergedAll(device, base, config.pages, compiles, r.value.namedButtons))
    ensures r.Success? ==> StoredAll(device, map[], config.pages, compiles, r.value.pages)
    ensures r.Success? ==> r.value.Valid() && r.value.device == device && r.value.loadedPages == []
    ensures r.Success? ==> Defaults.FromConfig(config.defaults) == Success(r.value.defaults)
    ensures r.Success? ==> forall i :: 0 <= i < |r.value.buttons| ==> r.value.buttons[i] == Empty()
    ensures r.Success? ==> r.value.initHandler == HandlerFromConfig(config.initScript) && r.value.foregroundWindow.None?
  {
    var defaults :- Defaults.FromConfig(config.defaults);
    var base :- BaseRegistry(device, config);
    BuildPagesFailure(device, base, map[], config.pages, compiles);
    BuildPagesMerged(device, base, map[], config.pages, compiles);
    BuildPagesStored(device, base, map[], config.pages, compiles);
    var built :- BuildPages(device, base, map[], config.pages, compiles);
    Success(AppState(defaults, built.0, built.1, seq(device.TotalButtons(), _ => Empty()), [],
                     device, HandlerFromConfig(config.initScript), None))
  }

  /** A page whose inline button reuses the name of a configured button makes
      construction fail with `DuplicateNamedButton`. */
  lemma PageReusingButtonNameFails(device: Device, config: Config, compiles: string -> bool, k: nat)
    requires device.Valid() && PagesWellFormed(config.pages)
    requires Defaults.FromConfig(config.defaults).Success? && BaseRegistry(device, config).Success?
    requires |config.pages| > 0 && P.FromConfig(device, config.pages[0], compiles).Success?
    requires k < |ConfigButtons(config)| && Introduces(config.pages[0], ConfigButtons(config)[k].name)
    ensures InitialState(device, config, compiles).Failure?
    ensures InitialState(device, config, compiles).error.DuplicateNamedButton?
  {
    var base := BaseRegistry(device, config).value;
    assert PageClashes(base, config.pages, 0, ConfigButtons(config)[k].name);
    assert PageHalts(device, base, config.pages, 0, compiles);
  }

  /** `AppState::from_config`: the initial state, then the default pages
      loaded in order; loading touches only the slots and the stack, and
      every slot then needs drawing. */
  function FromConfig(device: Device, config: Config, compiles: string -> bool): (r: Result<AppState, StateError>)
    requires device.Valid() && PagesWellFormed(config.pages)
    ensures InitialState(device, config, compiles).Failure? ==> r == Failure(InitialState(device, config, compiles).error)
    ensures r.Success? ==> r.value.Valid()
    ensures r.Success? ==> var init := InitialState(device, config, compiles);
      && init.Success?
      && r.value == init.value.(buttons := r.value.buttons, loadedPages := r.value.loadedPages)
    ensures r.Success? && config.defaultPages.None? ==> r == InitialState(device, config, compiles)
    ensures r.Success? && config.defaultPages.Some? ==> r.value.loadedPages == config.defaultPages.value
    ensures InitialState(device, config, compiles).Success? && config.defaultPages.Some? ==>
      (r.Failure? <==> exists k :: 0 <= k < |config.defaultPages.value| &&
                                  config.defaultPages.value[k] !in InitialState(device, config, compiles).value.pages)
    ensures InitialState(device, config, compiles).Success? && config.defaultPages.Some? && r.Failure? ==>
      FirstUnknownPage(config.defaultPages.value, InitialState(device, config, compiles).value.pages, r.error)
    ensures r.Success? ==> forall i :: 0 <= i < |r.value.buttons| ==>
      && r.value.buttons[i] == Loaded(Empty(), r.value.pages, DefaultPages(config), device, i)
      && NeedsRendering(r.value.buttons[i])
  {
    var state :- InitialState(device, config, compiles);
    match config.defaultPages
    case None => Success(state)
    case Some(names) => LoadPages(state, names)
  }

  /** The pages `from_config` loads: `default_pages`, or none. */
  function DefaultPages(config: Config): seq<string> {
    if config.defaultPages.Some? then config.defaultPages.value else []
  }

  // ---------------------------------------------------------------------
  // Button events
  // ---------------------------------------------------------------------

  /** `on_button_pressed`: an id beyond the last slot does nothing. */
  function OnButtonPressed(s: AppState, id: nat): (r: (AppState, Option<EventHandler>))
    ensures id >= |s.buttons| ==> r == (s, None)
    ensures id < |s.buttons| ==>
      && r.0 == s.(buttons := r.0.buttons)
      && |r.0.buttons| == |s.buttons|
      && r.0.buttons[id] == s.buttons[id].(pressState := Down)
      && (forall j :: 0 <= j < |s.buttons| && j != id ==> r.0.buttons[j] == s.buttons[j])
      && r.1 == (if GetSetup(s.buttons[id], s.namedButtons).Some? then GetSetup(s.buttons[id], s.namedButtons).value.downHandler else None)
  {
    if id >= |s.buttons| then (s, None)
    else
      var (b, handler) := SetPressed(s.buttons[id], s.namedButtons);
      (s.(buttons := s.buttons[id := b]), handler)
  }

  /** `on_button_released`: an id beyond the last slot does nothing. */
  function OnButtonReleased(s: AppState, id: nat): (r: (AppState, Option<EventHandler>))
    ensures id >= |s.buttons| ==> r == (s, None)
    ensures id < |s.buttons| ==>
      && r.0 == s.(buttons := r.0.buttons)
      && |r.0.buttons| == |s.buttons|
      && r.0.buttons[id] == s.buttons[id].(pressState := Up)
      && (forall j :: 0 <= j < |s.buttons| && j != id ==> r.0.buttons[j] == s.buttons[j])
      && r.1 == (if GetSetup(s.buttons[id], s.namedButtons).Some? then GetSetup(s.buttons[id], s.namedButtons).value.upHandler else None)
  {
    if id >= |s.buttons| then (s, None)
    else
      var (b, handler) := SetReleased(s.buttons[id], s.namedButtons);
      (s.(buttons := s.buttons[id := b]), handler)
  }

  // ---------------------------------------------------------------------
  // Rendering
  // ---------------------------------------------------------------------

  /** A slot yields a face on the next flush: it is dirty, its occupant
      resolves, and the setup has at least one face. */
  predicate Emits(b: ButtonState, registry: Registry) {
    && NeedsRendering(b)
    && GetSetup(b, registry).Some?
    && (GetSetup(b, registry).value.upFace.Some? || GetSetup(b, registry).value.downFace.Some?)
  }

  /** The face an emitting slot shows: the one for its press state, else the other. */
  function FaceOf(b: ButtonState, registry: Registry): Face.ButtonFace
    requires Emits(b, registry)
  {
    var setup := GetSetup(b, registry).value;
    match b.pressState
    case Up => if setup.upFace.Some? then setup.upFace.value else setup.downFace.value
    case Down => if setup.downFace.Some? then setup.downFace.value else setup.upFace.value
  }

  /** The slots after a flush, and the (slot, face) pairs it yields, in slot
      order. */
  function FlushSlots(bs: seq<ButtonState>, registry: Registry): (r: (seq<ButtonState>, seq<(nat, Face.ButtonFace)>))
    ensures |r.0| == |bs|
    ensures forall i :: 0 <= i < |bs| ==> r.0[i] == SetRenderedAndGetFace(bs[i], registry).0
    ensures FlushedFaces(bs, registry, r.1)
    decreases |bs|
  {
    if |bs| == 0 then ([], [])
    else
      var n := |bs| - 1;
      var prev := FlushSlots(bs[..n], registry);
      FlushSlotsStep(bs, registry, prev.0);
      FlushStep(bs, registry, prev.1);
      (prev.0 + [SetRenderedAndGetFace(bs[n], registry).0], NextFaces(bs, registry, prev.1))
  }

  /** The faces of all but the last slot, as the flush of that prefix yields them. */
  predicate FlushedFaces(bs: seq<ButtonState>, registry: Registry, faces: seq<(nat, Face.ButtonFace)>) {
    && (forall k :: 0 <= k < |faces| ==>
          faces[k].0 < |bs| && Emits(bs[faces[k].0], registry) && faces[k].1 == FaceOf(bs[faces[k].0], registry))
    && (forall i :: 0 <= i < |bs| && Emits(bs[i], registry) ==> exists k :: 0 <= k < |faces| && faces[k].0 == i)
    && (forall k, l :: 0 <= k < l < |faces| ==> faces[k].0 < faces[l].0)
  }

  /** The faces after the last slot: the earlier ones, then the last slot's if it emits. */
  function NextFaces(bs: seq<ButtonState>, registry: Registry, prev: seq<(nat, Face.ButtonFace)>): seq<(nat, Face.ButtonFace)>
    requires |bs| > 0
  {
    var step := SetRenderedAndGetFace(bs[|bs| - 1], registry);
    if step.1.Some? then prev + [(|bs| - 1, step.1.value)] else prev
  }

  /** The slots of all buttons extend the slots of all but the last. */
  lemma FlushSlotsStep(bs: seq<ButtonState>, registry: Registry, slots: seq<ButtonState>)
    requires |bs| > 0
    requires |slots| == |bs| - 1
    requires forall i :: 0 <= i < |bs| - 1 ==> slots[i] == SetRenderedAndGetFace(bs[..|bs| - 1][i], registry).0
    ensures var all := slots + [SetRenderedAndGetFace(bs[|bs| - 1], registry).0];
      forall i :: 0 <= i < |bs| ==> all[i] == SetRenderedAndGetFace(bs[i], registry).0
  {
    assert forall i :: 0 <= i < |bs| - 1 ==> bs[..|bs| - 1][i] == bs[i];
  }

  /** The faces of all slots extend the faces of all but the last. */
  lemma FlushStep(bs: seq<ButtonState>, registry: Registry, prev: seq<(nat, Face.ButtonFace)>)
    requires |bs| > 0
    requires FlushedFaces(bs[..|bs| - 1], registry, prev)
    ensures FlushedFaces(bs, registry, NextFaces(bs, registry, prev))
  {
    var n := |bs| - 1;
    var init := bs[..n];
    var faces := NextFaces(bs, registry, prev);
    assert forall i :: 0 <= i < n ==> init[i] == bs[i];
    var step := SetRenderedAndGetFace(bs[n], registry);
    assert step.1.Some? <==> Emits(bs[n], registry);
    assert step.1.Some? ==> step.1.value == FaceOf(bs[n], registry);
    forall i | 0 <= i < |bs| && Emits(bs[i], registry)
      ensures exists k :: 0 <= k < |faces| && faces[k].0 == i
    {
      if i == n {
        assert faces[|prev|].0 == i;
      } else {
        assert Emits(init[i], registry);
        var k :| 0 <= k < |prev| && prev[k].0 == i;
        assert faces[k] == prev[k];
      }
    }
  }

  /** The pair ids as the source emits them: `id as u8`. */
  function TruncateIds(faces: seq<(nat, Face.ButtonFace)>): (r: seq<(u8, Face.ButtonFace)>)
    ensures |r| == |faces|
    ensures forall k :: 0 <= k < |faces| ==> r[k].1 == faces[k].1 && (faces[k].0 < 0x100 ==> r[k].0 as int == faces[k].0)
  {
    if |faces| == 0 then []
    else [(TruncateU8(faces[0].0), faces[0].1)] + TruncateIds(faces[1..])
  }

  /** `out` lists, in ascending slot order, exactly the emitting slots of
      `bs`, each with the face it shows. */
  ghost predicate YieldsEmitting(bs: seq<ButtonState>, registry: Registry, out: seq<(u8, Face.ButtonFace)>) {
    && (forall k :: 0 <= k < |out| ==>
          && out[k].0 as int < |bs|
          && Emits(bs[out[k].0 as int], registry)
          && out[k].1 == FaceOf(bs[out[k].0 as int], registry))
    && (forall i :: 0 <= i < |bs| && Emits(bs[i], registry) ==> exists k :: 0 <= k < |out| && out[k].0 as int == i)
    && (forall k, l :: 0 <= k < l < |out| ==> out[k].0 < out[l].0)
  }

  /** When every slot id fits in a byte, `id as u8` loses nothing. */
  lemma TruncationExact(bs: seq<ButtonState>, registry: Registry, faces: seq<(nat, Face.ButtonFace)>)
    requires FlushedFaces(bs, registry, faces)
    ensures |bs| <= 0x100 ==> YieldsEmitting(bs, registry, TruncateIds(faces))
  {
    var out := TruncateIds(faces);
    forall k | 0 <= k < |out| && |bs| <= 0x100
      ensures out[k].0 as int == faces[k].0 && out[k].1 == faces[k].1
    {
    }
  }

  /** `set_rendered_and_get_rendering_faces`: every dirty slot is marked
      rendered in its current press state, every other slot is unchanged, and the faces of the emitting slots come out in ascending
      slot order (for devices of at most 256 buttons, where `id as u8` is
      exact). */
  function Flush(s: AppState): (r: (AppState, seq<(u8, Face.ButtonFace)>))
    ensures r.0 == s.(buttons := r.0.buttons)
    ensures |r.0.buttons| == |s.buttons|
    ensures forall i :: 0 <= i < |s.buttons| ==> !NeedsRendering(r.0.buttons[i])
    ensures forall i :: 0 <= i < |s.buttons| ==>
      r.0.buttons[i] ==
        if NeedsRendering(s.buttons[i]) then s.buttons[i].(renderState := Some(s.buttons[i].pressState))
        else s.buttons[i]
    ensures |s.buttons| <= 0x100 ==> YieldsEmitting(s.buttons, s.namedButtons, r.1)
  {
    var flushed := FlushSlots(s.buttons, s.namedButtons);
    TruncationExact(s.buttons, s.namedButtons, flushed.1);
    (s.(buttons := flushed.0), TruncateIds(flushed.1))
  }

  /** A second flush with no event in between yields nothing. */
  lemma FlushTwiceYieldsNothing(s: AppState)
    ensures Flush(Flush(s).0).1 == []
  {
  }

  // ---------------------------------------------------------------------
  // Loading pages
  // ---------------------------------------------------------------------

  /** The last binding of a page that resolves to slot `i`. */
  function LastBinding(bindings: seq<P.PositionedButtonSetup>, device: Device, i: nat): (r: Option<P.PositionedButtonSetup>)
    requires device.Valid()
    ensures r.None? <==> forall k :: 0 <= k < |bindings| ==> ToButtonIndex(bindings[k].position, device) != i
    ensures r.Some? ==> exists k ::
      && 0 <= k < |bindings|
      && bindings[k] == r.value
      && ToButtonIndex(bindings[k].position, device) == i
      && forall j :: k < j < |bindings| ==> ToButtonIndex(bindings[j].position, device) != i
    decreases |bindings|
  {
    if |bindings| == 0 then None
    else
      var last := bindings[|bindings| - 1];
      if ToButtonIndex(last.position, device) == i then Some(last)
      else
        var r := LastBinding(bindings[..|bindings| - 1], device, i);
        assert forall k :: 0 <= k < |bindings| - 1 ==> bindings[..|bindings| - 1][k] == bindings[k];
        r
  }

  /** The loop writing a page's bindings into the slots, in list order. */
  function ApplyBindings(bs: seq<ButtonState>, bindings: seq<P.PositionedButtonSetup>, device: Device): (r: seq<ButtonState>)
    requires device.Valid() && |bs| == device.TotalButtons()
    ensures |r| == |bs|
    ensures forall i :: 0 <= i < |bs| ==>
      r[i] == match LastBinding(bindings, device, i)
              case None => bs[i]
              case Some(b) => SetSetup(bs[i], b.setup)
    decreases |bindings|
  {
    if |bindings| == 0 then bs
    else
      var n := |bindings| - 1;
      var prev := ApplyBindings(bs, bindings[..n], device);
      var index := ToButtonIndex(bindings[n].position, device);
      prev[index := SetSetup(prev[index], bindings[n].setup)]
  }

  /** The occupant `load_page` of page `p` writes into slot `i`: the setup of
      the page's last binding there. */
  function LoadClaim(pages: map<string, P.Page>, p: string, device: Device, i: nat): Option<ButtonSetupOrName>
    requires device.Valid()
  {
    if p in pages && LastBinding(pages[p].buttons, device, i).Some? then Some(LastBinding(pages[p].buttons, device, i).value.setup)
    else None
  }

  /** Reference: the load claim of the last page in `names` that binds slot `i`. */
  function LastLoadClaim(pages: map<string, P.Page>, names: seq<string>, device: Device, i: nat): Option<ButtonSetupOrName>
    requires device.Valid()
    decreases |names|
  {
    if |names| == 0 then None
    else if LoadClaim(pages, names[|names| - 1], device, i).Some? then LoadClaim(pages, names[|names| - 1], device, i)
    else LastLoadClaim(pages, names[..|names| - 1], device, i)
  }

  /** Slot `b` (index `i`) after the pages `names` are loaded in order. */
  function Loaded(b: ButtonState, pages: map<string, P.Page>, names: seq<string>, device: Device, i: nat): ButtonState
    requires device.Valid()
  {
    match LastLoadClaim(pages, names, device, i)
    case None => b
    case Some(c) => SetSetup(b, c)
  }

  /** The last claim among `names` is the last claim after the first name,
      or else the first name's own claim. */
  lemma {:induction false} LastLoadClaimStep(pages: map<string, P.Page>, names: seq<string>, device: Device, i: nat)
    requires device.Valid() && |names| > 0
    ensures LastLoadClaim(pages, names, device, i) ==
      if LastLoadClaim(pages, names[1..], device, i).Some? then LastLoadClaim(pages, names[1..], device, i)
      else LoadClaim(pages, names[0], device, i)
    decreases |names|
  {
    var n := |names| - 1;
    if n > 0 && LoadClaim(pages, names[n], device, i).None? {
      assert names[..n][1..] == names[1..][..n - 1];
      assert names[1..][n - 1] == names[n];
      LastLoadClaimStep(pages, names[..n], device, i);
    }
  }

  /** `load_page`: an unknown page is an error and changes nothing; otherwise
      the page is pushed and its bindings overwrite their slots. */
  function LoadPage(s: AppState, name: string): (r: Result<AppState, StateError>)
    requires s.Valid()
    ensures r.Failure? <==> name !in s.pages
    ensures r.Failure? ==> r.error == PageNotFound(name)
    ensures r.Success? ==>
      && r.value.Valid()
      && r.value == s.(buttons := r.value.buttons, loadedPages := s.loadedPages + [name])
      && forall i :: 0 <= i < |s.buttons| ==>
           r.value.buttons[i] == match LastBinding(s.pages[name].buttons, s.device, i)
                                 case None => s.buttons[i]
                                 case Some(b) => SetSetup(s.buttons[i], b.setup)
  {
    if name !in s.pages then Failure(PageNotFound(name))
    else
      var page := s.pages[name];
      Success(s.(loadedPages := s.loadedPages + [name],
                 buttons := ApplyBindings(s.buttons, page.buttons, s.device)))
  }

  /** `e` is the `PageNotFound` of the first of `names` not in `pages`. */
  predicate FirstUnknownPage(names: seq<string>, pages: map<string, P.Page>, e: StateError) {
    exists k ::
      && 0 <= k < |names|
      && names[k] !in pages
      && (forall j :: 0 <= j < k ==> names[j] in pages)
      && e == PageNotFound(names[k])
  }

  /** Loads pages in order; the first unknown page aborts. Each slot ends up
      with the last binding of the last page that binds it. */
  function LoadPages(s: AppState, names: seq<string>): (r: Result<AppState, StateError>)
    requires s.Valid()
    ensures r.Failure? <==> exists k :: 0 <= k < |names| && names[k] !in s.pages
    ensures r.Failure? ==> FirstUnknownPage(names, s.pages, r.error)
    ensures r.Success? ==>
      && r.value.Valid()
      && r.value.loadedPages == s.loadedPages + names
      && r.value == s.(buttons := r.value.buttons, loadedPages := r.value.loadedPages)
      && forall i :: 0 <= i < |s.buttons| ==> r.value.buttons[i] == Loaded(s.buttons[i], s.pages, names, s.device, i)
    decreases |names|
  {
    if |names| == 0 then Success(s)
    else
      var s' :- LoadPage(s, names[0]);
      assert forall k :: 1 <= k < |names| ==> names[k] == names[1..][k - 1];
      assert s.loadedPages + [names[0]] + names[1..] == s.loadedPages + names;
      var r := LoadPages(s', names[1..]);
      if r.Success? then
        forall i | 0 <= i < |s.buttons| ensures r.value.buttons[i] == Loaded(s.buttons[i], s.pages, names, s.device, i) {
          LoadedStep(s.buttons[i], s'.buttons[i], r.value.buttons[i], s.pages, names, s.device, i);
        }
        r
      else
        r
  }

  /** One slot across the first load and the rest of them. */
  lemma LoadedStep(b: ButtonState, b1: ButtonState, b2: ButtonState, pages: map<string, P.Page>,
                   names: seq<string>, device: Device, i: nat)
    requires device.Valid() && |names| > 0 && names[0] in pages
    requires b1 == match LastBinding(pages[names[0]].buttons, device, i)
                   case None => b
                   case Some(c) => SetSetup(b, c.setup)
    requires b2 == Loaded(b1, pages, names[1..], device, i)
    ensures b2 == Loaded(b, pages, names, device, i)
  {
    LastLoadClaimStep(pages, names, device, i);
  }

  // ---------------------------------------------------------------------
  // Unloading pages
  // ---------------------------------------------------------------------

  /** The entries of `stack` that are not in `names`, in stack order. */
  function Without(stack: seq<string>, names: seq<string>): (r: seq<string>)
    ensures forall p :: p in r <==> p in stack && p !in names
    ensures |r| <= |stack|
    decreases |stack|
  {
    if |stack| == 0 then []
    else
      var n := |stack| - 1;
      var init := Without(stack[..n], names);
      assert forall p :: p in stack <==> p in stack[..n] || p == stack[n];
      if stack[n] in names then init else init + [stack[n]]
  }

  /** `loaded_pages.retain(|i| i != page_name)`. */
  function Remove(stack: seq<string>, name: string): (r: seq<string>)
    ensures forall p :: p in r <==> p in stack && p != name
    ensures |r| <= |stack|
  {
    Without(stack, [name])
  }

  /** Filtering distributes over concatenation: what is kept keeps its order. */
  lemma {:induction false} WithoutConcat(a: seq<string>, b: seq<string>, names: seq<string>)
    ensures Without(a + b, names) == Without(a, names) + Without(b, names)
    decreases |b|
  {
    if |b| > 0 {
      var n := |b| - 1;
      WithoutConcat(a, b[..n], names);
      assert a + b == (a + b[..n]) + [b[n]];
      assert b == b[..n] + [b[n]];
      WithoutSnoc(a + b[..n], b[n], names);
      WithoutSnoc(b[..n], b[n], names);
    } else {
      assert a + b == a;
    }
  }

  /** Filtering a stack with one more page on top. */
  lemma WithoutSnoc(stack: seq<string>, p: string, names: seq<string>)
    ensures Without(stack + [p], names) == if p in names then Without(stack, names) else Without(stack, names) + [p]
  {
    assert (stack + [p])[..|stack|] == stack;
  }

  /** A one-page stack loses the page iff it is the one removed. */
  lemma RemoveSingle(p: string, name: string)
    ensures Remove([p], name) == if p == name then [] else [p]
  {
    assert [p][..0] == [];
  }

  /** `retain` keeps the other pages in their order: removing from a
      concatenation removes from each part. */
  lemma RemoveConcat(a: seq<string>, b: seq<string>, name: string)
    ensures Remove(a + b, name) == Remove(a, name) + Remove(b, name)
  {
    WithoutConcat(a, b, [name]);
  }

  /** Removing one page and then more removes them all. */
  lemma {:induction false} RemoveThenWithout(stack: seq<string>, name: string, names: seq<string>)
    ensures Without(Remove(stack, name), names) == Without(stack, [name] + names)
    decreases |stack|
  {
    if |stack| > 0 {
      var n := |stack| - 1;
      RemoveThenWithout(stack[..n], name, names);
      var init := Remove(stack[..n], name);
      if stack[n] != name {
        assert Remove(stack, name) == init + [stack[n]];
        assert (init + [stack[n]])[..|init|] == init;
      }
    }
  }

  /** The occupant a stacked page claims for slot `i`, via `get_button`. */
  function Claim(pages: map<string, P.Page>, p: string, device: Device, i: nat): Option<ButtonSetupOrName>
    requires device.Valid()
  {
    if p in pages && P.GetButton(pages[p], device, i).Some? then Some(P.GetButton(pages[p], device, i).value.setup)
    else None
  }

  /** Reference: the claim of the topmost page on the stack that claims slot `i`. */
  function TopClaim(pages: map<string, P.Page>, stack: seq<string>, device: Device, i: nat): Option<ButtonSetupOrName>
    requires device.Valid()
    decreases |stack|
  {
    if |stack| == 0 then None
    else if Claim(pages, stack[|stack| - 1], device, i).Some? then Claim(pages, stack[|stack| - 1], device, i)
    else TopClaim(pages, stack[..|stack| - 1], device, i)
  }

  /** Taking pages that do not claim slot `i` off the stack leaves its top
      claim as it was. */
  lemma {:induction false} TopClaimWithoutUnclaiming(pages: map<string, P.Page>, stack: seq<string>, names: seq<string>,
                                                     device: Device, i: nat)
    requires device.Valid()
    requires forall k :: 0 <= k < |names| ==> Claim(pages, names[k], device, i).None?
    ensures TopClaim(pages, Without(stack, names), device, i) == TopClaim(pages, stack, device, i)
    decreases |stack|
  {
    if |stack| > 0 {
      var n := |stack| - 1;
      TopClaimWithoutUnclaiming(pages, stack[..n], names, device, i);
      var init := Without(stack[..n], names);
      if stack[n] !in names {
        assert (init + [stack[n]])[..|init|] == init;
      }
    }
  }

  /** The inner loop of `unload_page`: every stacked page claiming the slot
      overwrites it, bottom of the stack first. */
  function Replay(b: ButtonState, pages: map<string, P.Page>, stack: seq<string>, device: Device, i: nat): (r: ButtonState)
    requires device.Valid()
    ensures r == match TopClaim(pages, stack, device, i)
                 case None => b
                 case Some(c) => SetSetup(b, c)
    decreases |stack|
  {
    if |stack| == 0 then b
    else
      ReplayStep(pages, stack, device, i);
      match Claim(pages, stack[0], device, i)
      case None => Replay(b, pages, stack[1..], device, i)
      case Some(c) => Replay(SetSetup(b, c), pages, stack[1..], device, i)
  }

  /** The top claim of a stack is the top claim above its bottom page, or
      else the bottom page's own claim. */
  lemma {:induction false} ReplayStep(pages: map<string, P.Page>, stack: seq<string>, device: Device, i: nat)
    requires device.Valid() && |stack| > 0
    ensures TopClaim(pages, stack, device, i) ==
      if TopClaim(pages, stack[1..], device, i).Some? then TopClaim(pages, stack[1..], device, i)
      else Claim(pages, stack[0], device, i)
    decreases |stack|
  {
    var n := |stack| - 1;
    if n > 0 && Claim(pages, stack[n], device, i).None? {
      assert stack[..n][1..] == stack[1..][..n - 1];
      assert stack[1..][n - 1] == stack[n];
      ReplayStep(pages, stack[..n], device, i);
    }
  }

  /** The slot after `unload_page`: reset to `"empty"` when the page claims
      it, then overwritten by the stack. */
  function UnloadSlot(b: ButtonState, page: P.Page, pages: map<string, P.Page>, stack: seq<string>,
                      device: Device, i: nat): ButtonState
    requires device.Valid()
  {
    if P.GetButton(page, device, i).Some? then Replay(SetSetup(b, Name(EMPTY_NAME)), pages, stack, device, i) else b
  }

  /** `unload_page`: every occurrence of the page leaves the stack; each slot
      the page claims shows the topmost remaining claim, or `"empty"`; an
      unknown page is an error; a page that is not loaded is no error. */
  function UnloadPage(s: AppState, name: string): (r: Result<AppState, StateError>)
    requires s.Valid()
    ensures r.Failure? <==> name !in s.pages
    ensures r.Failure? ==> r.error == PageNotFound(name)
    ensures r.Success? ==>
      && r.value.Valid()
      && r.value == s.(buttons := r.value.buttons, loadedPages := Remove(s.loadedPages, name))
      && forall i :: 0 <= i < |s.buttons| ==>
           r.value.buttons[i] ==
             if P.GetButton(s.pages[name], s.device, i).None? then s.buttons[i]
             else match TopClaim(s.pages, Remove(s.loadedPages, name), s.device, i)
                  case None => SetSetup(s.buttons[i], Name(EMPTY_NAME))
                  case Some(c) => SetSetup(s.buttons[i], c)
  {
    if name !in s.pages then Failure(PageNotFound(name))
    else
      var page := s.pages[name];
      var stack := Remove(s.loadedPages, name);
      assert forall k :: 0 <= k < |stack| ==> stack[k] in stack;
      var bs := seq(|s.buttons|, i requires 0 <= i < |s.buttons| => UnloadSlot(s.buttons[i], page, s.pages, stack, s.device, i));
      Success(s.(loadedPages := stack, buttons := bs))
  }

  /** Some page of `names` claims slot `i`. */
  predicate ClaimedByAny(pages: map<string, P.Page>, names: seq<string>, device: Device, i: nat)
    requires device.Valid()
  {
    exists k :: 0 <= k < |names| && Claim(pages, names[k], device, i).Some?
  }

  /** Slot `b` (index `i`) after the pages `names` are unloaded, leaving
      `stack`: a slot some unloaded page claims shows the top claim of the
      stack, or `"empty"`; any other slot is unchanged. */
  function Unloaded(b: ButtonState, pages: map<string, P.Page>, stack: seq<string>, names: seq<string>,
                    device: Device, i: nat): ButtonState
    requires device.Valid()
  {
    if !ClaimedByAny(pages, names, device, i) then b
    else match TopClaim(pages, stack, device, i)
         case None => SetSetup(b, Name(EMPTY_NAME))
         case Some(c) => SetSetup(b, c)
  }

  /** Unloads pages in order; none of them can be unknown. */
  function UnloadPages(s: AppState, names: seq<string>): (r: AppState)
    requires s.Valid() && forall k :: 0 <= k < |names| ==> names[k] in s.pages
    ensures r.Valid()
    ensures r == s.(buttons := r.buttons, loadedPages := r.loadedPages)
    ensures r.loadedPages == Without(s.loadedPages, names)
    ensures forall i :: 0 <= i < |s.buttons| ==>
      r.buttons[i] == Unloaded(s.buttons[i], s.pages, r.loadedPages, names, s.device, i)
    decreases |names|
  {
    if |names| == 0 then
      assert forall i :: 0 <= i < |s.buttons| ==> !ClaimedByAny(s.pages, names, s.device, i);
      WithoutNothing(s.loadedPages, names);
      s
    else
      var s1 := UnloadPage(s, names[0]).value;
      var r := UnloadPages(s1, names[1..]);
      UnloadPagesStep(s, s1, r, names);
      UnloadThenRest(s.loadedPages, names);
      r
  }

  /** Removing the first name and then the rest removes all of them. */
  lemma UnloadThenRest(stack: seq<string>, names: seq<string>)
    requires |names| > 0
    ensures Without(Remove(stack, names[0]), names[1..]) == Without(stack, names)
  {
    RemoveThenWithout(stack, names[0], names[1..]);
    assert [names[0]] + names[1..] == names;
  }

  /** The first unload followed by the rest is the unload of all `names`. */
  lemma UnloadPagesStep(s: AppState, s1: AppState, r: AppState, names: seq<string>)
    requires s.Valid() && |names| > 0 && names[0] in s.pages
    requires s1 == s.(buttons := s1.buttons, loadedPages := Remove(s.loadedPages, names[0]))
    requires |s1.buttons| == |s.buttons|
    requires forall i :: 0 <= i < |s.buttons| ==>
      s1.buttons[i] ==
        if P.GetButton(s.pages[names[0]], s.device, i).None? then s.buttons[i]
        else match TopClaim(s.pages, Remove(s.loadedPages, names[0]), s.device, i)
             case None => SetSetup(s.buttons[i], Name(EMPTY_NAME))
             case Some(c) => SetSetup(s.buttons[i], c)
    requires r == s1.(buttons := r.buttons, loadedPages := r.loadedPages)
    requires r.loadedPages == Without(s1.loadedPages, names[1..])
    requires |r.buttons| == |s1.buttons|
    requires forall i :: 0 <= i < |s1.buttons| ==>
      r.buttons[i] == Unloaded(s1.buttons[i], s1.pages, r.loadedPages, names[1..], s1.device, i)
    ensures r == s.(buttons := r.buttons, loadedPages := r.loadedPages)
    ensures forall i :: 0 <= i < |s.buttons| ==>
      r.buttons[i] == Unloaded(s.buttons[i], s.pages, r.loadedPages, names, s.device, i)
  {
    var rest := names[1..];
    assert s1.pages == s.pages && s1.device == s.device && s1.loadedPages == Remove(s.loadedPages, names[0]);
    UnloadThenRest(s.loadedPages, names);
    UnloadedAll(s.buttons, s1.buttons, r.buttons, s.pages, s.loadedPages, names, s.device);
  }

  /** Every slot across the first unload and the rest of them. */
  lemma UnloadedAll(bs: seq<ButtonState>, bs1: seq<ButtonState>, bs2: seq<ButtonState>, pages: map<string, P.Page>,
                    stack: seq<string>, names: seq<string>, device: Device)
    requires device.Valid() && |names| > 0 && names[0] in pages
    requires |bs1| == |bs| && |bs2| == |bs|
    requires forall i :: 0 <= i < |bs| ==>
      bs1[i] ==
        if P.GetButton(pages[names[0]], device, i).None? then bs[i]
        else match TopClaim(pages, Remove(stack, names[0]), device, i)
             case None => SetSetup(bs[i], Name(EMPTY_NAME))
             case Some(c) => SetSetup(bs[i], c)
    requires Without(stack, names) == Without(Remove(stack, names[0]), names[1..])
    requires forall i :: 0 <= i < |bs1| ==>
      bs2[i] == Unloaded(bs1[i], pages, Without(Remove(stack, names[0]), names[1..]), names[1..], device, i)
    ensures forall i :: 0 <= i < |bs| ==> bs2[i] == Unloaded(bs[i], pages, Without(stack, names), names, device, i)
  {
    forall i | 0 <= i < |bs| ensures bs2[i] == Unloaded(bs[i], pages, Without(stack, names), names, device, i) {
      UnloadedStep(bs[i], bs1[i], bs2[i], pages, stack, names, device, i);
    }
  }

  /** One slot across the first unload and the rest of them. */
  lemma UnloadedStep(b: ButtonState, b1: ButtonState, b2: ButtonState, pages: map<string, P.Page>,
                     stack: seq<string>, names: seq<string>, device: Device, i: nat)
    requires device.Valid() && |names| > 0 && names[0] in pages
    requires b1 ==
      if P.GetButton(pages[names[0]], device, i).None? then b
      else match TopClaim(pages, Remove(stack, names[0]), device, i)
           case None => SetSetup(b, Name(EMPTY_NAME))
           case Some(c) => SetSetup(b, c)
    requires Without(stack, names) == Without(Remove(stack, names[0]), names[1..])
    requires b2 == Unloaded(b1, pages, Without(stack, names), names[1..], device, i)
    ensures b2 == Unloaded(b, pages, Without(stack, names), names, device, i)
  {
    UnloadSlotStep(pages, stack, names, device, i);
  }

  /** Filtering by no names keeps the stack. */
  lemma {:induction false} WithoutNothing(stack: seq<string>, names: seq<string>)
    requires |names| == 0
    ensures Without(stack, names) == stack
    decreases |stack|
  {
    if |stack| > 0 {
      WithoutNothing(stack[..|stack| - 1], names);
    }
  }

  /** One slot across the first unload and the rest: if a later page claims
      the slot, the later reset wins; if only the first does, the pages
      removed later claim nothing there and the top claim is unchanged. */
  lemma UnloadSlotStep(pages: map<string, P.Page>, stack: seq<string>, names: seq<string>, device: Device, i: nat)
    requires device.Valid() && |names| > 0
    ensures var rest := names[1..];
      !ClaimedByAny(pages, rest, device, i) ==>
        TopClaim(pages, Without(Remove(stack, names[0]), rest), device, i) == TopClaim(pages, Remove(stack, names[0]), device, i)
    ensures ClaimedByAny(pages, names, device, i) <==>
      Claim(pages, names[0], device, i).Some? || ClaimedByAny(pages, names[1..], device, i)
  {
    var rest := names[1..];
    assert forall k :: 1 <= k < |names| ==> names[k] == rest[k - 1];
    if !ClaimedByAny(pages, rest, device, i) {
      TopClaimWithoutUnclaiming(pages, Remove(stack, names[0]), rest, device, i);
    }
    if ClaimedByAny(pages, names, device, i) && Claim(pages, names[0], device, i).None? {
      var k :| 0 <= k < |names| && Claim(pages, names[k], device, i).Some?;
      assert Claim(pages, rest[k - 1], device, i).Some?;
    }
  }

  /** What `load_page` does to one slot: the first binding wins on unload,
      the last on load. A page binding slot 0 twice shows the second binding
      after it is loaded, but the first after a page above it is unloaded. */
  lemma LoadAndUnloadDisagreeOnDoubleBinding(device: Device)
    requires device.Valid()
    ensures var top := Position.FromConfig(ButtonPositionConfig(0, -1));
      var page := P.Page([P.PositionedButtonSetup(top, Name("a")), P.PositionedButtonSetup(top, Name("b"))], [], false);
      && LastBinding(page.buttons, device, 0).value.setup == Name("b")
      && P.GetButton(page, device, 0).value.setup == Name("a")
  {
  }

  // ---------------------------------------------------------------------
  // Foreground window
  // ---------------------------------------------------------------------

  predicate AnyMatch(page: P.Page, w: Condition.WindowInformation, isMatch: (string, string) -> bool) {
    exists k :: 0 <= k < |page.onForegroundWindow| && Condition.Matches(page.onForegroundWindow[k], w, isMatch)
  }

  predicate AnyMismatch(page: P.Page, w: Condition.WindowInformation, isMatch: (string, string) -> bool) {
    exists k :: 0 <= k < |page.onForegroundWindow| && !Condition.Matches(page.onForegroundWindow[k], w, isMatch)
  }

  /** How many of `conditions` match the window. */
  function MatchCount(conditions: seq<Condition.ForegroundWindowCondition>, w: Condition.WindowInformation,
                      isMatch: (string, string) -> bool): (c: nat)
    ensures c <= |conditions|
    ensures c > 0 <==> exists k :: 0 <= k < |conditions| && Condition.Matches(conditions[k], w, isMatch)
    ensures c < |conditions| <==> exists k :: 0 <= k < |conditions| && !Condition.Matches(conditions[k], w, isMatch)
  {
    if |conditions| == 0 then 0
    else
      assert forall k :: 1 <= k < |conditions| ==> conditions[k] == conditions[1..][k - 1];
      (if Condition.Matches(conditions[0], w, isMatch) then 1 else 0) + MatchCount(conditions[1..], w, isMatch)
  }

  /** `n` copies of `name`. */
  function Repeat(name: string, n: nat): (r: seq<string>)
    ensures |r| == n && forall k :: 0 <= k < n ==> r[k] == name
  {
    seq(n, _ => name)
  }

  /** The queues one page contributes: a load per matching condition, and an
      unload per other condition when the page is unloadable and loaded. */
  function PageQueues(name: string, conditions: seq<Condition.ForegroundWindowCondition>, unloadable: bool,
                      w: Condition.WindowInformation, isMatch: (string, string) -> bool)
    : (r: (seq<string>, seq<string>))
    ensures r.0 == Repeat(name, MatchCount(conditions, w, isMatch))
    ensures r.1 == if unloadable then Repeat(name, |conditions| - MatchCount(conditions, w, isMatch)) else []
    ensures name in r.0 <==> exists k :: 0 <= k < |conditions| && Condition.Matches(conditions[k], w, isMatch)
    ensures name in r.1 <==> unloadable && exists k :: 0 <= k < |conditions| && !Condition.Matches(conditions[k], w, isMatch)
  {
    if |conditions| == 0 then ([], [])
    else
      var rest := PageQueues(name, conditions[1..], unloadable, w, isMatch);
      assert forall k :: 1 <= k < |conditions| ==> conditions[k] == conditions[1..][k - 1];
      var m := MatchCount(conditions[1..], w, isMatch);
      if Condition.Matches(conditions[0], w, isMatch) then
        assert [name] + Repeat(name, m) == Repeat(name, m + 1);
        ([name] + rest.0, rest.1)
      else if unloadable then
        assert [name] + Repeat(name, |conditions| - 1 - m) == Repeat(name, |conditions| - m);
        (rest.0, [name] + rest.1)
      else rest
  }

  /** `names[0]` repeated `counts[0]` times, then `names[1]` repeated
      `counts[1]` times, and so on. */
  function Runs(names: seq<string>, counts: seq<nat>): (r: seq<string>)
    requires |names| == |counts|
    ensures forall p :: p in r ==> p in names
    decreases |names|
  {
    if |names| == 0 then []
    else Repeat(names[0], counts[0]) + Runs(names[1..], counts[1..])
  }

  /** The page is unloadable on a mismatch: flagged so, and loaded. */
  predicate Unloadable(s: AppState, p: string)
    requires p in s.pages
  {
    s.pages[p].unloadIfNotLoaded && p in s.loadedPages
  }

  /** Per page of `order`: its number of matching conditions. */
  function LoadCounts(s: AppState, order: seq<string>, w: Condition.WindowInformation,
                      isMatch: (string, string) -> bool): (cs: seq<nat>)
    requires forall k :: 0 <= k < |order| ==> order[k] in s.pages
    ensures |cs| == |order|
  {
    seq(|order|, k requires 0 <= k < |order| => MatchCount(s.pages[order[k]].onForegroundWindow, w, isMatch))
  }

  /** Per page of `order`: its number of other conditions, when unloadable. */
  function UnloadCounts(s: AppState, order: seq<string>, w: Condition.WindowInformation,
                        isMatch: (string, string) -> bool): (cs: seq<nat>)
    requires forall k :: 0 <= k < |order| ==> order[k] in s.pages
    ensures |cs| == |order|
  {
    seq(|order|, k requires 0 <= k < |order| =>
      var conditions := s.pages[order[k]].onForegroundWindow;
      if Unloadable(s, order[k]) then |conditions| - MatchCount(conditions, w, isMatch) else 0)
  }

  /** The queues of all pages, visited in `order` (the page map's iteration
      order): each page once per matching condition in the load queue, and
      once per other condition in the unload queue when unloadable. */
  function Queues(s: AppState, order: seq<string>, w: Condition.WindowInformation, isMatch: (string, string) -> bool)
    : (r: (seq<string>, seq<string>))
    requires forall k :: 0 <= k < |order| ==> order[k] in s.pages
    ensures r.0 == Runs(order, LoadCounts(s, order, w, isMatch))
    ensures r.1 == Runs(order, UnloadCounts(s, order, w, isMatch))
    ensures forall p :: p in r.0 <==> p in order && AnyMatch(s.pages[p], w, isMatch)
    ensures forall p :: p in r.1 <==> p in order && Unloadable(s, p) && AnyMismatch(s.pages[p], w, isMatch)
    decreases |order|
  {
    if |order| == 0 then ([], [])
    else
      var p := order[0];
      var page := s.pages[p];
      var mine := PageQueues(p, page.onForegroundWindow, Unloadable(s, p), w, isMatch);
      var rest := Queues(s, order[1..], w, isMatch);
      CountsTail(s, order, w, isMatch);
      (mine.0 + rest.0, mine.1 + rest.1)
  }

  /** The counts of a non-empty order are the first page's, then the rest's. */
  lemma CountsTail(s: AppState, order: seq<string>, w: Condition.WindowInformation, isMatch: (string, string) -> bool)
    requires |order| > 0 && forall k :: 0 <= k < |order| ==> order[k] in s.pages
    ensures LoadCounts(s, order, w, isMatch)[0] == MatchCount(s.pages[order[0]].onForegroundWindow, w, isMatch)
    ensures LoadCounts(s, order, w, isMatch)[1..] == LoadCounts(s, order[1..], w, isMatch)
    ensures UnloadCounts(s, order, w, isMatch)[0] ==
      if Unloadable(s, order[0])
      then |s.pages[order[0]].onForegroundWindow| - MatchCount(s.pages[order[0]].onForegroundWindow, w, isMatch)
      else 0
    ensures UnloadCounts(s, order, w, isMatch)[1..] == UnloadCounts(s, order[1..], w, isMatch)
  {
    assert forall k :: 0 <= k < |order| - 1 ==> order[1..][k] == order[k + 1];
  }

  /** `on_foreground_window`: the window is recorded; every page with a
      matching condition is loaded; then every loaded, unloadable page with a
      condition that does not match is unloaded. Loads come first, so a page
      queued both ways ends up unloaded. No step can fail. Each slot shows
      what loading the load queue and then unloading the unload queue
      leaves in it. */
  function OnForegroundWindow(s: AppState, w: Condition.WindowInformation, isMatch: (string, string) -> bool,
                              order: seq<string>)
    : (r: Result<AppState, StateError>)
    requires s.Valid()
    requires forall p :: p in s.pages <==> p in order
    ensures r.Success?
    ensures r.value.Valid()
    ensures r.value.foregroundWindow == Some(w)
    ensures r.value == s.(foregroundWindow := Some(w), loadedPages := r.value.loadedPages, buttons := r.value.buttons)
    ensures forall p :: p in s.pages && Unloadable(s, p) && AnyMismatch(s.pages[p], w, isMatch) ==>
      p !in r.value.loadedPages
    ensures forall p :: p in s.pages && AnyMatch(s.pages[p], w, isMatch) &&
                        !(Unloadable(s, p) && AnyMismatch(s.pages[p], w, isMatch)) ==>
      p in r.value.loadedPages
    ensures forall p :: p in r.value.loadedPages ==> p in s.loadedPages || (p in s.pages && AnyMatch(s.pages[p], w, isMatch))
    ensures var (loads, unloads) := Queues(s, order, w, isMatch);
      && r.value.loadedPages == Without(s.loadedPages + loads, unloads)
      && |r.value.buttons| == |s.buttons|
      && forall i :: 0 <= i < |s.buttons| ==>
           r.value.buttons[i] ==
             Unloaded(Loaded(s.buttons[i], s.pages, loads, s.device, i), s.pages, r.value.loadedPages, unloads, s.device, i)
  {
    var (loads, unloads) := Queues(s, order, w, isMatch);
    var recorded := s.(foregroundWindow := Some(w));
    var loaded := LoadPages(recorded, loads);
    assert loaded.Success?;
    Success(UnloadPages(loaded.value, unloads))
  }

  // ---------------------------------------------------------------------
  // Updating a named button
  // ---------------------------------------------------------------------

  /** `set_named_button_up_face`: an unknown name is an error; otherwise
      `update_values` redraws the named button's up face (its outcome, whose
      drawing is not part of this model, is the parameter `drawn`), and a
      failed redraw is returned as it is. A redrawn face replaces the up face,
      and every slot showing that name must be drawn again. */
  function SetNamedButtonUpFace(s: AppState, name: string, drawn: Result<Face.ButtonFace, StateError>)
    : (r: Result<AppState, StateError>)
    ensures r.Failure? <==> name !in s.namedButtons || drawn.Failure?
    ensures name !in s.namedButtons ==> r == Failure(ButtonNotFound(name))
    ensures name in s.namedButtons && drawn.Failure? ==> r == Failure(drawn.error)
    ensures r.Success? ==>
      && r.value == s.(namedButtons := r.value.namedButtons, buttons := r.value.buttons)
      && r.value.namedButtons == s.namedButtons[name := s.namedButtons[name].(upFace := Some(drawn.value))]
      && |r.value.buttons| == |s.buttons|
      && forall i :: 0 <= i < |s.buttons| ==>
           r.value.buttons[i] == if s.buttons[i].setup == Name(name) then s.buttons[i].(renderState := None) else s.buttons[i]
  {
    if name !in s.namedButtons then Failure(ButtonNotFound(name))
    else
      var face :- drawn;
      var setup := s.namedButtons[name];
      var bs := seq(|s.buttons|, i requires 0 <= i < |s.buttons| =>
        if s.buttons[i].setup == Name(name) then s.buttons[i].(renderState := None) else s.buttons[i]);
      Success(s.(namedButtons := s.namedButtons[name := setup.(upFace := Some(face))], buttons := bs))
  }

  /** After the update, every slot showing the name is dirty, and a flush
      draws it with the new face when it is up. */
  lemma UpdatedFaceIsDrawn(s: AppState, name: string, face: Face.ButtonFace, i: nat)
    requires i < |s.buttons| && name in s.namedButtons && s.buttons[i].setup == Name(name)
    requires s.buttons[i].pressState == Up
    ensures var s' := SetNamedButtonUpFace(s, name, Success(face)).value;
      Emits(s'.buttons[i], s'.namedButtons) && FaceOf(s'.buttons[i], s'.namedButtons) == face
  {
  }
}
