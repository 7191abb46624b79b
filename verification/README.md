# streamdeck-controller state model

A Dafny model of the state core of `streamdeck-controller-rs`. That program
drives an Elgato Stream Deck from a configuration file. It has these parts:

- **Named buttons.** A named button is a setup: up and down faces and up and down handlers.
- **Pages.** A page binds button positions to named or inline setups and carries foreground-window conditions.
- **Page stack.** Loading a page pushes it and overwrites the slots it binds. Unloading it lets the pages below show through again.
- **Events.** Button presses and releases return the handler to run.
- **Flush.** A flush returns the faces that need drawing.
- **Foreground window.** A change of foreground window loads the pages whose conditions match. It unloads the unloadable pages whose conditions do not match.

The model also covers colour parsing, the fallback colours, and the mapping from signed row/column positions to slot indices. It also covers the pure part of the X11 observer: decoding `_NET_WM_PID` and `WM_CLASS`, and suppressing repeated reports of the same window.

Every operation is a pure function from one state to the next. Errors are
values of `Result`. A Rust `panic` ends the operation like an error does, so
it is a failure variant of its own: `SlicePanic` for the sliced first
character in colour parsing, and `UnwrapPanic` for the `.unwrap()` of a
named button's setup in `AppState::from_config`.

Parts of the program's environment are passed in as parameters:

- **Regex engine:** `compiles` (does a pattern compile) and `isMatch` (does it match a text).
- **UTF-8 decoder:** `decode`.
- **`HashMap` iteration order:** `order`, an enumeration of the page names.

The files:

| file | module | source |
|---|---|---|
| `wrappers.dfy`, `errors.dfy`, `ints.dfy`, `device.dfy` | `Wrappers`, `Errors`, `Ints`, `Device` | results, error kinds, machine integers, device geometry |
| `color.dfy` | `Color` | `src/config/color.rs` |
| `defaults.dfy` | `Defaults` | `src/state/defaults.rs` |
| `face.dfy` | `Face` | `src/state/button_face.rs` |
| `button.dfy` | `Button` | `src/state/button.rs` |
| `position.dfy` | `Position` | `src/state/button_position.rs` |
| `condition.dfy` | `Condition` | `src/state/foreground_window_condition.rs` |
| `page.dfy` | `Page` | `src/state/page/mod.rs`, `src/state/page/positioned_button_setup.rs` |
| `app_state.dfy` | `App` | `src/state/app_state.rs` |
| `x11.dfy` | `X11` | `src/foreground_window/linux/foreground_window.rs` |

Two behaviours of the code worth knowing:

- **`ButtonFace::from_config`.** It fills the face with the configured colour, or opaque black when none is configured. It does not use the configured default background. It draws no labels or images.
- **`get_button` and `load_page`.** `get_button` returns the first binding of a slot, while `load_page` lets the last binding win. `App.LoadAndUnloadDisagreeOnDoubleBinding` states the consequence.

## Model

| member | source | states |
|---|---|---|
| Color.ParseU32Hex | src/config/color.rs:20-21 | `u32::from_str_radix(_, 16)` succeeds iff, after at most one leading `+`, there is a non-empty run of hex digits whose value fits in 32 bits; the value is that of the digits |
| Color.TrimStartHashes | src/config/color.rs:19 | the result is a suffix of the input, everything cut off is `#`, and the result does not start with `#`: exactly the leading `#`s are removed |
| Color.HexStringToRgba | src/config/color.rs:15-38 | an empty string, or one whose first character is wider than a byte, panics at `&hex[..1]` (`SlicePanic`); any other error is `InvalidColorHexString(hex)`; a string not starting with `#` is rejected; success iff the trimmed digits parse and number six or eight; six digits give an opaque colour |
| Color.ToImageRgba | src/config/color.rs:42-47 | an RGB triple becomes the opaque colour with the same channels; a hex string is parsed as above |
| Color.SixDigitChannels | src/config/color.rs:24-29 | `#`s followed by six hex digits give red, green and blue from the digit pairs in order, alpha 255 |
| Color.EightDigitChannels | src/config/color.rs:30-35 | eight hex digits give red, green, blue and alpha from the digit pairs in order |
| Color.RgbRoundTrip | src/config/color.rs:92-105 | `#RRGGBB` formatted from any three bytes parses back to those bytes with opaque alpha |
| Color.RgbaRoundTrip | src/config/color.rs:107-120 | `#RRGGBBAA` formatted from any colour parses back to that colour |
| Color.WrongDigitCountRejected | src/config/color.rs:134-144 | any digit count other than six or eight is rejected, whatever the characters |
| Color.PlusSignAccepted | src/config/color.rs:19-29 | `#+FFFFF` is accepted as the colour 0x0FFFFF, since the radix parser accepts one `+` |
| Color.HexValueConcat | src/config/color.rs:20 | the hex value of a concatenation is the first part shifted by the second's length plus the second |
| Defaults.ResolveField | src/state/defaults.rs:21-36 | an absent field keeps its fallback; a present field must convert, and its conversion error is returned |
| Defaults.FromConfig | src/state/defaults.rs:14-45 | no section gives black/white/yellow/cyan; failure iff some field fails, and the error is the first failing field's in the order background, label, superlabel, sublabel; on success each field is its conversion or its fallback |
| Defaults.AllAbsentIsFallback | src/state/defaults.rs:15-18 | a section with every field absent equals no section |
| Face.SolidFill | src/state/button_face.rs:21-36 | the canvas has the requested size and every pixel is the fill colour |
| Face.FromConfig | src/state/button_face.rs:15-45 | fails iff a configured colour fails to convert; otherwise the face has the device's image size and every pixel is the configured colour, or black, with alpha dropped |
| Face.RedFace | src/state/button_face.rs:77-102 | `#FF0000` gives a face whose every pixel is pure red on any device |
| Button.OptionalFace | src/state/button.rs:38-45 | an absent face stays absent; a present face is built or its error is returned |
| Button.HandlerFromConfig | src/state/button.rs:46-53 | a handler is present iff configured and carries the configured script |
| Button.SetupFromConfig | src/state/button.rs:32-60 | the up face is built before the down face; failure iff either fails, with the up face's error first; on success each face and handler corresponds to its configured field |
| Button.FromConfigWithNamedButton | src/state/button.rs:124-159 | a bare name stays a name; an unnamed inline button becomes an inline setup; a named inline button becomes a reference to its name plus the entry to register |
| Button.NeedsRendering | src/state/button.rs:216-221 | a slot needs rendering iff it was not rendered in its current press state; a slot never rendered always does |
| Button.New | src/state/button.rs:179-185 | a new slot holds the occupant, is released and needs rendering |
| Button.Empty | src/state/button.rs:187-193 | the empty slot names `"empty"`, is released and needs rendering |
| Button.GetSetup | src/state/button.rs:225-233 | an inline setup resolves to itself; a name resolves iff it is registered, to the registered setup |
| Button.SetPressed | src/state/button.rs:196-203 | only the press state changes, to down; the down handler of the resolved setup is returned |
| Button.SetReleased | src/state/button.rs:206-213 | only the press state changes, to up; the up handler of the resolved setup is returned |
| Button.SetSetup | src/state/button.rs:236-242 | the occupant is replaced, the press state kept, and the render cache cleared, so the slot needs rendering |
| Button.ChooseFace | src/state/button.rs:256-265 | the face for the press state when present, else the other one; none only when both are absent |
| Button.SetRenderedAndGetFace | src/state/button.rs:249-269 | a clean slot yields nothing and is unchanged; a dirty slot becomes clean in its press state and yields the chosen face of its resolved setup |
| Button.NameResolvedOnEveryUse | src/state/button.rs:366-386 | re-registering a name changes what every slot naming it resolves to |
| Button.PressChangeNeedsRendering | src/state/button.rs:410-455 | after rendering, a press or release into the other state makes the slot dirty |
| Button.PressReleaseWithoutRenderIsClean | src/state/button.rs:196-221 | a slot rendered up that is pressed and released with no render between is clean |
| Button.RenderIdempotent | src/state/button.rs:388-408 | rendering twice yields nothing the second time and changes nothing |
| Position.FromArrayIndex | src/state/button_position.rs:26-32 | negative indices count from the end, with -1 the last, and the rest count from the start; within a byte's range no truncation occurs; `i32::MIN` gives `FromEnd(255)`, the release build's wrapped value |
| Position.ArrayIndexRoundTrip | src/state/button_position.rs:82-110 | within -256..255 the border position and the signed index convert into each other |
| Position.ArrayIndexTruncates | src/state/button_position.rs:26-32 | the `as u8` cast wraps: 256 reads as 0 and -257 as -1 |
| Position.FromConfig | src/state/button_position.rs:51-56 | row and column are each converted by `from_array_index` |
| Position.Clamp | src/state/button_position.rs:71-72 | the result lies in `0..n`, equals the input when already inside, and is 0 below and `n-1` above |
| Position.ToButtonIndex | src/state/button_position.rs:58-75 | the slot is in range; its row and column, as quotient and remainder by the column count, are the clamped row and the clamped mirrored column |
| Position.Coordinates | src/state/button_position.rs:74 | every slot of a device of at most 256 buttons has a row and a column inside the grid that give it |
| Position.SlotOfCoordinates | src/state/button_position.rs:58-75 | the row counted from the start and the column counted from the end address `col + row * cols` |
| Position.EverySlotAddressable | src/state/button_position.rs:58-75 | every slot of a device of at most 256 buttons is the index of some configurable position |
| Position.TopRightIsFirst | src/state/button_position.rs:112-123 | row 0, column -1 is slot 0 on every device |
| Position.BottomLeftIsLast | src/state/button_position.rs:125-136 | row -1, column 0 is the last slot |
| Position.TopLeftIsLastOfFirstRow | src/state/button_position.rs:138-149 | row 0, column 0 is slot `cols - 1` |
| Position.BottomRightIsFirstOfLastRow | src/state/button_position.rs:151-165 | row -1, column -1 is slot `total - cols` |
| Position.IndexMonotoneInDistance | src/state/button_position.rs:62-72 | counting further from the end never moves the clamped row down, nor the clamped column right |
| Position.ToButtonIndexAsWritten | src/state/button_position.rs:58-75 | the index with the `u8` additions wrapping is still in range, with its row and column given by the wrapped computation |
| Position.AsWrittenAgreesBelow255 | src/state/button_position.rs:63-67 | below 255 the wrapped and the exact computation agree |
| Position.AsWrittenOverflowBreaksClamp | src/state/button_position.rs:63 | row -256 lands on the bottom row as written, where row -255 and the exact computation give the top |
| Condition.CompilePattern | src/state/foreground_window_condition.rs:16-31 | fails iff a given pattern does not compile, with a regex error naming it; otherwise keeps the pattern |
| Condition.FromConfig | src/state/foreground_window_condition.rs:13-37 | fails iff a pattern fails to compile, reporting the first failing one in the order title, executable, class; on success the three patterns are kept as written |
| Condition.MatchesIsConjunction | src/state/foreground_window_condition.rs:41-58 | a condition matches iff every present pattern matches its own field |
| Condition.EmptyConditionMatchesAll | src/state/foreground_window_condition.rs:41-58 | a condition without patterns matches every window |
| Condition.OnlyPatternedFieldsMatter | src/state/foreground_window_condition.rs:116-191 | windows that agree on the patterned fields are matched alike |
| Condition.ConfigMatchesIffPatternsMatch | src/state/foreground_window_condition.rs:66-114 | a compiled configuration matches a window iff every configured pattern matches the window's field |
| Page.PositionedFromConfig | src/state/page/positioned_button_setup.rs:31-44 | fails iff the occupant fails, with its error; on success it carries the converted position and occupant and the entry to register |
| Page.BareNameBinding | src/state/page/positioned_button_setup.rs:51-70 | a bare name always converts and introduces no named button |
| Page.CompileConditions | src/state/page/mod.rs:32-42 | fails iff some condition fails, with the first failure's error; on success the i-th compiled condition is that of the i-th configuration |
| Page.ConvertBindings | src/state/page/mod.rs:44-55 | on success there is one positioned setup per binding |
| Page.ConvertFailure | src/state/page/mod.rs:44-55 | conversion fails iff some binding fails, and then with the first failing binding's error |
| Page.ConvertPositions | src/state/page/mod.rs:44-55 | on success the i-th positioned setup is the conversion of the i-th binding |
| Page.ConvertNamed | src/state/page/mod.rs:50-53 | on success the named map holds exactly the names the bindings introduce, each mapped to the setup of the last binding naming it |
| Page.FromConfig | src/state/page/mod.rs:24-65 | conditions are compiled before bindings are converted: a condition error is the result, and when the conditions compile a binding error is the result; failure iff one of them fails; unload only on `remove: true`; the named map holds exactly the introduced names |
| Page.EmptyPage | src/state/page/mod.rs:88-125 | a page with no buttons and no conditions converts to an empty page with no named buttons |
| Page.GetButton | src/state/page/mod.rs:68-79 | none iff no binding resolves to the slot; otherwise the first binding in list order that does |
| Page.NoButtonBeyondDevice | src/state/page/mod.rs:68-79 | no binding claims a slot beyond the device |
| App.RegisterButtons | src/state/app_state.rs:57-68 | fails iff some button stops the loop: its name is already taken by the registry or an earlier button, or its setup does not build and the `.unwrap()` panics; the error is the first such button's, `DuplicateNamedButton` when its name is taken (that check comes first) and `UnwrapPanic` otherwise; on success the old entries plus one built setup per button |
| App.EmptySetup | src/state/app_state.rs:72-92 | the default `"empty"` button is the setup built from a black up face alone, of the device's image size |
| App.WithEmpty | src/state/app_state.rs:71-93 | a declared `"empty"` is kept; otherwise the black one is added |
| App.IntroducedNames | src/state/app_state.rs:97-107 | lists exactly the names a page's bindings introduce |
| App.FirstTaken | src/state/app_state.rs:97-107 | none iff no name in the order is registered; otherwise a registered one from the order |
| App.MergePageNamed | src/state/app_state.rs:101-106 | fails iff a page introduces a name already registered, reporting such a name; otherwise the union, keeping both sides' entries |
| App.BuildPagesFailure | src/state/app_state.rs:97-107 | building the pages fails iff some page does not convert or introduces a name already registered, by the starting registry or an earlier page; the error is the first such page's: its conversion error, else `DuplicateNamedButton` naming a clashing name |
| App.BuildPagesMerged | src/state/app_state.rs:97-107 | on success every page converted, and the registry is the starting one plus every page's named buttons, each entry as its page built it |
| App.BuildPagesStored | src/state/app_state.rs:97-100 | on success exactly the configured page names are stored, each as converted, the last configuration of a repeated name winning |
| App.BaseRegistry | src/state/app_state.rs:53-93 | fails iff a configured button repeats a name or does not build, with the first such button's error; on success the keys are `"empty"` and the configured names, each configured button holds its built setup, and `"empty"` is the black default unless configured |
| App.InitialState | src/state/app_state.rs:49-129 | a defaults error, then a registration error, is the result; after those, failure iff some page does not convert or reuses a registered name, with the first such page's error; on success the named buttons are the base registry plus every page's, the pages are stored under their names, the state is valid, nothing is loaded, every slot shows `"empty"`, the defaults and init handler are the configured ones, and no window is recorded |
| App.PageReusingButtonNameFails | src/state/app_state.rs:439-448 | when the defaults and configured buttons build and the first page converts, an inline button of that page reusing a configured button's name makes construction fail with `DuplicateNamedButton` |
| App.FromConfig | src/state/app_state.rs:49-137 | the initial state, then the default pages loaded in order; fails iff the initial state fails or some default page is unknown, and then the error is the initial state's or the `PageNotFound` of the first unknown default page; the loaded stack is the default pages; each slot shows the last claim among the default pages, else `"empty"`, and needs rendering |
| App.OnButtonPressed | src/state/app_state.rs:153-156 | an id beyond the slots does nothing; otherwise only that slot is pressed and its down handler returned |
| App.OnButtonReleased | src/state/app_state.rs:167-170 | an id beyond the slots does nothing; otherwise only that slot is released and its up handler returned |
| App.FlushSlots | src/state/app_state.rs:180-189 | every slot is rendered, and the pairs are exactly the emitting slots with their faces, in ascending slot order |
| App.TruncateIds | src/state/app_state.rs:185 | the `as u8` ids keep each face and are exact below 256 |
| App.TruncationExact | src/state/app_state.rs:180-189 | with at most 256 slots the byte ids lose nothing |
| App.Flush | src/state/app_state.rs:180-189 | only the slots change: a dirty slot becomes rendered in its press state and every other slot is unchanged, so none needs rendering; with at most 256 slots the result lists each emitting slot's face once, in ascending order |
| App.FlushTwiceYieldsNothing | src/state/app_state.rs:554-567 | a second flush with no event between yields nothing |
| App.LastBinding | src/state/app_state.rs:256-259 | none iff no binding resolves to the slot; otherwise a binding of the page that resolves to it, with no later binding resolving to it |
| App.ApplyBindings | src/state/app_state.rs:256-259 | each slot takes the last binding resolving to it, or is unchanged |
| App.LoadPage | src/state/app_state.rs:245-264 | an unknown page is `PageNotFound` and changes nothing; otherwise the page is pushed and each slot it binds shows its last binding and needs rendering |
| App.LoadPages | src/state/app_state.rs:131-135 | loads in order; fails iff some page is unknown, reporting the first; on success the stack grows by exactly the names, and each slot shows the last binding of the last loaded page binding it, or is unchanged |
| App.Remove | src/state/app_state.rs:283 | removes every occurrence of the page and nothing else |
| App.RemoveSingle | src/state/app_state.rs:283 | a one-page stack loses its page iff it is the one removed |
| App.RemoveConcat | src/state/app_state.rs:283 | removing from a concatenation removes from each part, so the other pages keep their order |
| App.WithoutConcat | src/state/app_state.rs:283 | filtering out several pages distributes over concatenation |
| App.RemoveThenWithout | src/state/app_state.rs:328-330 | removing one page and then several is filtering out all of them |
| App.TopClaimWithoutUnclaiming | src/state/app_state.rs:289-298 | filtering out pages that do not bind a slot leaves that slot's top claim unchanged |
| App.Replay | src/state/app_state.rs:289-298 | replaying the stack leaves the slot showing the topmost page's claim, or unchanged when no page claims it |
| App.ReplayStep | src/state/app_state.rs:290-298 | the top claim of a stack is that of the pages above its bottom, or the bottom's own |
| App.UnloadPage | src/state/app_state.rs:275-305 | an unknown page is an error; otherwise the page leaves the stack, and each slot it claims shows the topmost remaining claim or `"empty"` |
| App.UnloadPages | src/state/app_state.rs:328-330 | the stack is the old stack with every named page filtered out, in order; a slot some named page binds shows the top claim of the remaining stack, or `"empty"`; every other slot is unchanged; nothing but slots and stack changes |
| App.LoadAndUnloadDisagreeOnDoubleBinding | src/state/app_state.rs:245-305 | a slot bound twice shows the second binding on load but the first on unload replay |
| App.MatchCount | src/state/app_state.rs:313-319 | the count is at most the number of conditions, positive iff some condition matches, and short of all iff some condition does not match |
| App.PageQueues | src/state/app_state.rs:313-319 | the load queue is the page's name once per matching condition; the unload queue is its name once per non-matching condition when the page is unloadable and loaded, else empty |
| App.Queues | src/state/app_state.rs:312-320 | the load queue is, page by page in iteration order, each name repeated once per matching condition; the unload queue likewise once per non-matching condition of each loaded unloadable page; a page is in a queue iff it has such a condition |
| App.OnForegroundWindow | src/state/app_state.rs:308-333 | never fails; records the window and changes nothing but the window, the stack and the slots; the stack is the old stack plus the load queue with the unload queue's pages filtered out; each slot shows what loading the load queue and then unloading the unload queue leaves; loaded unloadable pages with a mismatch end unloaded, other pages with a match end loaded |
| App.SetNamedButtonUpFace | src/state/app_state.rs:200-234 | an unknown name is `ButtonNotFound`; a failed redraw of the face is returned as it is; otherwise only that button's up face changes, the slots showing it lose their render cache (so they need rendering), and every other slot is unchanged |
| App.UpdatedFaceIsDrawn | src/state/app_state.rs:200-234 | after the update, a released slot showing the name is drawn with the new face on the next flush |
| X11.ParseCardinalProperty | src/foreground_window/linux/foreground_window.rs:208-214 | the result is the little-endian value of the bytes modulo 2^32; empty gives 0; up to four bytes do not wrap |
| X11.FitsInFourBytes | src/foreground_window/linux/foreground_window.rs:208-214 | four bytes or fewer never wrap |
| X11.LittleEndianRoundTrip | src/foreground_window/linux/foreground_window.rs:208-214 | writing a value as `n` little-endian bytes and reading them back gives the value |
| X11.PidRoundTrip | src/foreground_window/linux/foreground_window.rs:208-214 | a 32-bit process id stored as four bytes decodes to itself |
| X11.FirstZero | src/foreground_window/linux/foreground_window.rs:225 | none iff the bytes hold no zero; otherwise the position of the first zero |
| X11.ParseWmClass | src/foreground_window/linux/foreground_window.rs:216-245 | a format other than 8 gives the wrong-format pair; no zero byte gives the missing-NUL pair; otherwise the instance is before the first zero and the class after it, less one trailing zero, each decoded |
| X11.SplitAfterInstance | src/foreground_window/linux/foreground_window.rs:225-228 | the first zero of an instance, a zero and any rest is the one after the instance |
| X11.WmClassRoundTrip | src/foreground_window/linux/foreground_window.rs:216-238 | a zero-free instance and a class, each terminated by a zero, parse back to the decoded instance and class |
| X11.WmClassUnterminated | src/foreground_window/linux/foreground_window.rs:229-232 | without the final zero the class is taken whole |
| X11.SendActiveWindow | src/foreground_window/linux/foreground_window.rs:83-115 | reports iff there is an active window different from the last one, and then remembers it; otherwise the last window is kept |
| X11.ResendIsSilent | src/foreground_window/linux/foreground_window.rs:98-100 | the same reading twice in a row is reported at most once |
| X11.Observe | src/foreground_window/linux/foreground_window.rs:63-80 | every report comes from a reading; the first differs from the initial window; consecutive reports differ; the remembered window is the last reported, which is the window of the last reading that found one, or the initial window when none did |
| X11.ObserveReportsFreshReadings | src/foreground_window/linux/foreground_window.rs:63-80 | the reports are exactly the readings that find a window other than the last one seen before them, in order: a window coming back after another is reported again |
| X11.ReportedIffFresh | src/foreground_window/linux/foreground_window.rs:63-80 | one reading more adds a report iff that reading finds a window other than the last one seen before it, and the report is that reading |
| X11.EveryNewWindowReported | src/foreground_window/linux/foreground_window.rs:63-80 | every window read, other than the one remembered at the start, is reported at some point |
| X11.SteadyFocusReportedOnce | src/foreground_window/linux/foreground_window.rs:63-80 | reading the same window any number of times reports it once |

## Left out

- The X11 connection, property fetching, atom interning, `find_active_window` and `get_active_window_data`, including the read of `/proc/<pid>/cmdline`, are I/O. The observer loop over successive readings is `X11.Observe`, and the data read is a `WindowData` value.
- The Windows foreground-window backend is left out, because it consists of foreign calls into the Windows API.
- The Python script engine, stdout capture, the event loops and `main.rs` are left out. They are runtime wiring around the state. An event handler is kept as its script text.
- Loading a handler's script from a file (`LoadScriptFailed`) is left out, because it is file I/O. `EventHandler::from_config` is not implemented in the source.
- Label text, images and `ButtonFace::update_values` are left out because they need font and image rendering. `App.SetNamedButtonUpFace` takes the outcome of `update_values` as a parameter: the redrawn face, or the error it returns. A failed `update_values` may already have changed the existing up face in place; the model drops the state with the error, as it does for every failure.
- Face.FromConfig: draws only the background colour, as the face constructor's body does; labels and image files are not drawn.
- Regular-expression compilation and matching are the parameters `compiles` and `isMatch`.
- UTF-8 validation is the parameter `decode`.
- `HashMap` iteration order over pages is the parameter `order` in `App.Queues` and `App.OnForegroundWindow`; it lists every stored page. The model allows a page to be listed twice, which would queue it once per listing; a `HashMap` never does that. Page-introduced names are merged in the order the bindings introduce them, and which clash is reported first depends on that order. `App.MergePageNamed` states only that the reported name does clash.
- Several call sites do not match the definitions they call:
  - `load_page` and `unload_page` call `set_button`, which is not defined (src/state/app_state.rs:257-258, 289, 296); the model uses `set_setup`.
  - Both pass `button.button_name` (src/state/app_state.rs:258, 296), but a positioned button has no such field; its occupant is `.setup`, which the model passes. `unload_page` passes the string `"empty"`, which the model reads as the name `"empty"`.
  - `ButtonFace::from_config` is called with three arguments but takes two.
  - `uses_button` and `set_needs_rendering` are undefined.
  - `Page::from_config_with_named_buttons` (src/state/page/mod.rs:45-50) passes four arguments, the page name first, to `PositionedButtonSetup::from_config_with_named_button` (src/state/page/positioned_button_setup.rs:31-35), which takes three.
  - `ButtonPosition::from_config` (src/state/button_position.rs:51-55) reads `.row` and `.col` of a `ButtonPositionConfig`, which src/config/button_position.rs:6-9 declares as an enum. The model takes the row and column of the object variant. The tuple variant `ButtonPositionTupleConfig(String)` is left out, because no code reads it.
  - The model follows the definitions.
- X11.ParseCardinalProperty: `res * 256 + byte` in `u32` panics on overflow in a debug build; the model wraps modulo 2^32 as a release build does.
- App.Flush: `id as u8` truncates slot ids; the ascending exact-id listing is proved for devices of at most 256 slots, which every Stream Deck model satisfies.
- Position.EverySlotAddressable: stated for devices of at most 256 buttons, because `from_array_index` truncates to a byte.
- Position.Coordinates: has the same 256-button bound, for the same reason.
- Page.GetButton: uses the exact slot index `Position.ToButtonIndex`, not the index of src/state/button_position.rs:63,67 whose `u8` additions wrap. The two agree for positions less than 255 from the border (`Position.AsWrittenAgreesBelow255`).
- App.LoadPage: uses the exact slot index, for the same reason as `Page.GetButton`.
- App.UnloadPage: uses the exact slot index, for the same reason as `Page.GetButton`.
- Integer widths of the configuration are not checked by the model's own types: `App.InitialState` and the page-building lemmas assume every binding position fits the `i32` the configuration declares (`App.PagesWellFormed`), which deserialisation already guarantees.
- Position.FromArrayIndex: at `i32::MIN`, `-index - 1` overflows; a debug build panics, and the model takes the release build's wrap to `i32::MAX`, giving `FromEnd(255)`.
- Thread sharing through `Arc` and `Mutex` is not modelled, because the state transitions are sequential.

## Findings

| source | as written | input that shows it | evidently intended | confidence | as-written member | corrected member |
|---|---|---|---|---|---|---|
| src/state/button_position.rs:63,67 | `(neg_row + 1)` and `(col + 1)` are computed in `u8`, so position 255 from the border overflows: it panics in a debug build and wraps to 0 in a release build | row -256 (stored as `FromEnd(255)`) on a 3x5 device gives slot 10, the bottom row, while row -255 gives the top row | counting further from the edge clamps to the first row or column | not executed | Position.AsWrittenOverflowBreaksClamp | Position.IndexMonotoneInDistance |
