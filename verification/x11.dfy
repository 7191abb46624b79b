/** The pure part of the X11 foreground-window observer: decoding the
    `_NET_WM_PID` (CARDINAL) and `WM_CLASS` property values, and the step
    that reports a newly focused window only once. Fetching properties from
    the X server and reading `/proc/<pid>/cmdline` happen outside the model;
    their results are the inputs here. */
module X11 {
  import opened Wrappers
  import opened Ints
  import opened Condition

  /** The part of a `GetPropertyReply` the parsers read. */
  datatype PropertyReply = PropertyReply(format: nat, value: seq<u8>)

  // ---------------------------------------------------------------------
  // CARDINAL properties
  // ---------------------------------------------------------------------

  /** The number little-endian bytes denote: `value[i]` weighs `256^i`. */
  function LittleEndian(value: seq<u8>): nat {
    if |value| == 0 then 0 else value[0] as nat + 0x100 * LittleEndian(value[1..])
  }

  function Pow256(n: nat): (p: nat)
    ensures p >= 1
  {
    if n == 0 then 1 else 0x100 * Pow256(n - 1)
  }

  /** The value of `parse_cardinal_property`: the little-endian value,
      wrapped to 32 bits. */
  function Cardinal(value: seq<u8>): nat {
    LittleEndian(value) % U32_LIMIT
  }

  /** `parse_cardinal_property`: starting from 0, for each byte from the
      last to the first, `res = res * 256 + byte` in `u32`. The overflow
      wraps, as in a release build (a debug build panics on it instead); one
      reduction modulo 2^32 per step equals wrapping the product and then
      the sum. */
  method ParseCardinalProperty(p: PropertyReply) returns (res: nat)
    ensures IsU32(res)
    ensures res == Cardinal(p.value)
    ensures |p.value| == 0 ==> res == 0
    ensures |p.value| <= 4 ==> res == LittleEndian(p.value)
  {
    var value := p.value;
    res := 0;
    var index := 0;
    while index < |value|
      invariant 0 <= index <= |value|
      invariant res == LittleEndian(value[|value| - index..]) % U32_LIMIT
    {
      var b := value[|value| - index - 1];
      ghost var suffix := value[|value| - index..];
      assert value[|value| - index - 1..] == [b] + suffix;
      assert ([b] + suffix)[1..] == suffix;
      WrapStep(LittleEndian(suffix), b as nat);
      res := (res * 0x100 + b as nat) % U32_LIMIT;
      index := index + 1;
    }
    assert value[|value| - index..] == value;
    if |value| <= 4 {
      FitsInFourBytes(value);
    }
  }

  /** Reducing before the step gives the same result as reducing after it. */
  lemma WrapStep(x: nat, b: nat)
    ensures ((x % U32_LIMIT) * 0x100 + b) % U32_LIMIT == (x * 0x100 + b) % U32_LIMIT
  {
    var q, r := x / U32_LIMIT, x % U32_LIMIT;
    assert x * 0x100 + b == (q * 0x100) * U32_LIMIT + (r * 0x100 + b);
    ModAddMultiple(q * 0x100, r * 0x100 + b, U32_LIMIT);
  }

  /** Adding whole multiples of the modulus leaves the remainder alone. */
  lemma ModAddMultiple(k: nat, a: nat, m: nat)
    requires m > 0
    ensures (k * m + a) % m == a % m
  {
    var q, r := a / m, a % m;
    assert a == q * m + r;
    assert k * m + a == (k + q) * m + r;
    DivModUnique(k * m + a, k + q, r, m);
  }

  /** `n` bytes hold a value below `256^n`. */
  lemma {:induction false} LittleEndianBound(value: seq<u8>)
    ensures LittleEndian(value) < Pow256(|value|)
    decreases |value|
  {
    if |value| > 0 {
      LittleEndianBound(value[1..]);
      var rest := LittleEndian(value[1..]);
      assert rest + 1 <= Pow256(|value| - 1);
      assert LittleEndian(value) < 0x100 * (rest + 1);
    }
  }

  /** At most four bytes never wrap. */
  lemma FitsInFourBytes(value: seq<u8>)
    requires |value| <= 4
    ensures LittleEndian(value) < U32_LIMIT
    ensures Cardinal(value) == LittleEndian(value)
  {
    LittleEndianBound(value);
    assert Pow256(|value|) <= Pow256(4) by {
      assert Pow256(0) == 1 && Pow256(1) == 0x100 && Pow256(2) == 0x1_0000;
      assert Pow256(3) == 0x100_0000 && Pow256(4) == U32_LIMIT;
    }
  }

  /** The `n` little-endian bytes of `x`, lowest first. */
  function LittleEndianBytes(x: nat, n: nat): (bs: seq<u8>)
    ensures |bs| == n
  {
    if n == 0 then [] else [(x % 0x100) as u8] + LittleEndianBytes(x / 0x100, n - 1)
  }

  /** Writing a value as `n` little-endian bytes and reading them back gives
      the value, when it fits. */
  lemma {:induction false} LittleEndianRoundTrip(x: nat, n: nat)
    requires x < Pow256(n)
    ensures LittleEndian(LittleEndianBytes(x, n)) == x
    decreases n
  {
    if n > 0 {
      var bs := LittleEndianBytes(x, n);
      assert bs[1..] == LittleEndianBytes(x / 0x100, n - 1);
      LittleEndianRoundTrip(x / 0x100, n - 1);
    }
  }

  /** A 32-bit process id, as the window manager stores it in `_NET_WM_PID`
      (four bytes, lowest first), is parsed back unchanged. */
  lemma PidRoundTrip(pid: nat)
    requires IsU32(pid)
    ensures Cardinal(LittleEndianBytes(pid, 4)) == pid
  {
    assert Pow256(4) == U32_LIMIT;
    LittleEndianRoundTrip(pid, 4);
  }

  // ---------------------------------------------------------------------
  // WM_CLASS properties
  // ---------------------------------------------------------------------

  const WRONG_FORMAT: string := "Malformed property: wrong format"
  const MISSING_NULL: string := "Missing null byte"
  const INVALID_UTF8: string := "Invalid utf8"

  /** `std::str::from_utf8(bytes).unwrap_or("Invalid utf8")`; the UTF-8
      decoder is the parameter `decode` (`None` for invalid input). */
  function ParseStringProperty(bytes: seq<u8>, decode: seq<u8> -> Option<string>): string {
    if decode(bytes).Some? then decode(bytes).value else INVALID_UTF8
  }

  predicate NoZero(bytes: seq<u8>) {
    forall i :: 0 <= i < |bytes| ==> bytes[i] != 0
  }

  /** `value.iter().position(|&b| b == 0)`. */
  function FirstZero(value: seq<u8>): (r: Option<nat>)
    ensures r.None? <==> NoZero(value)
    ensures r.Some? ==> r.value < |value| && value[r.value] == 0 && NoZero(value[..r.value])
  {
    if |value| == 0 then None
    else if value[0] == 0 then Some(0)
    else
      match FirstZero(value[1..])
      case None => None
      case Some(m) =>
        assert value[..m + 1] == [value[0]] + value[1..][..m];
        Some(m + 1)
  }

  /** Drops one trailing zero byte, if there is one. */
  function StripOneNul(bytes: seq<u8>): seq<u8> {
    if |bytes| > 0 && bytes[|bytes| - 1] == 0 then bytes[..|bytes| - 1] else bytes
  }

  /** `parse_wm_class`: the property holds the instance and the class, each
      NUL-terminated. A format other than 8 and a value without any zero
      byte give fixed messages for both parts; otherwise the value is split
      at the first zero, one trailing zero is dropped from the class, and
      each part is decoded on its own. */
  function ParseWmClass(p: PropertyReply, decode: seq<u8> -> Option<string>): (r: (string, string))
    ensures p.format != 8 ==> r == (WRONG_FORMAT, WRONG_FORMAT)
    ensures p.format == 8 && NoZero(p.value) ==> r == (MISSING_NULL, MISSING_NULL)
    ensures p.format == 8 && !NoZero(p.value) ==> exists m ::
      && 0 <= m < |p.value|
      && p.value[m] == 0
      && NoZero(p.value[..m])
      && r.0 == ParseStringProperty(p.value[..m], decode)
      && r.1 == ParseStringProperty(StripOneNul(p.value[m + 1..]), decode)
  {
    if p.format != 8 then (WRONG_FORMAT, WRONG_FORMAT)
    else
      match FirstZero(p.value)
      case None => (MISSING_NULL, MISSING_NULL)
      case Some(middle) =>
        var instance := p.value[..middle];
        var className := StripOneNul(p.value[middle + 1..]);
        (ParseStringProperty(instance, decode), ParseStringProperty(className, decode))
  }

  /** The first zero of `instance + [0] + rest` is the one after the instance. */
  lemma SplitAfterInstance(instance: seq<u8>, rest: seq<u8>)
    requires NoZero(instance)
    ensures FirstZero(instance + [0] + rest) == Some(|instance|)
  {
    var v := instance + [0] + rest;
    assert v[|instance|] == 0;
    assert forall i :: 0 <= i < |instance| ==> v[i] == instance[i];
  }

  /** An instance without zero bytes, a zero, any class, and a terminating
      zero parse back into the two parts, each decoded independently: only
      the final zero is dropped, so a class ending in zero keeps it. */
  lemma WmClassRoundTrip(instance: seq<u8>, className: seq<u8>, decode: seq<u8> -> Option<string>)
    requires NoZero(instance)
    ensures ParseWmClass(PropertyReply(8, instance + [0] + className + [0]), decode) ==
      (ParseStringProperty(instance, decode), ParseStringProperty(className, decode))
  {
    var v := instance + [0] + className + [0];
    assert v == instance + [0] + (className + [0]);
    SplitAfterInstance(instance, className + [0]);
    assert v[..|instance|] == instance;
    assert v[|instance| + 1..] == className + [0];
  }

  /** Without the terminating zero the class is taken as it is, provided it
      does not itself end in zero. */
  lemma WmClassUnterminated(instance: seq<u8>, className: seq<u8>, decode: seq<u8> -> Option<string>)
    requires NoZero(instance) && (|className| == 0 || className[|className| - 1] != 0)
    ensures ParseWmClass(PropertyReply(8, instance + [0] + className), decode) ==
      (ParseStringProperty(instance, decode), ParseStringProperty(className, decode))
  {
    var v := instance + [0] + className;
    SplitAfterInstance(instance, className);
    assert v[..|instance|] == instance;
    assert v[|instance| + 1..] == className;
  }

  // ---------------------------------------------------------------------
  // Reporting the active window once
  // ---------------------------------------------------------------------

  /** `WindowData`: the focused window's id and what was read about it. */
  datatype WindowData = WindowData(window: nat, windowName: string, className: string, instance: string,
                                   pid: nat, command: string)

  /** The id remembered before anything was reported. */
  const NO_WINDOW: nat := 0

  /** What the callback receives about a window. */
  function Information(d: WindowData): WindowInformation {
    WindowInformation(d.windowName, d.command, d.className)
  }

  /** `send_active_window_information`, after the active window has been
      read (`None` when none is selected): the callback is invoked, and the
      remembered window updated, only for a window other than the one last
      reported. Returns the remembered window and the callback argument. */
  function SendActiveWindow(last: nat, active: Option<WindowData>): (r: (nat, Option<WindowInformation>))
    ensures r.1.Some? <==> active.Some? && active.value.window != last
    ensures r.1.Some? ==> r.0 == active.value.window && r.1.value == Information(active.value)
    ensures r.1.None? ==> r.0 == last
  {
    match active
    case None => (last, None)
    case Some(d) => if d.window == last then (last, None) else (d.window, Some(Information(d)))
  }

  /** The same active window read twice in a row is reported at most once. */
  lemma ResendIsSilent(last: nat, active: Option<WindowData>)
    ensures SendActiveWindow(SendActiveWindow(last, active).0, active).1.None?
  {
  }

  /** The observer's loop over successive readings of the active window:
      the remembered window at the end, and the windows reported, in order.
      No two reports in a row name the same window. */
  function Observe(last: nat, readings: seq<Option<WindowData>>): (r: (nat, seq<WindowData>))
    ensures |r.1| <= |readings|
    ensures forall k :: 0 <= k < |r.1| ==> Some(r.1[k]) in readings
    ensures |r.1| > 0 ==> r.1[0].window != last
    ensures forall k :: 0 < k < |r.1| ==> r.1[k].window != r.1[k - 1].window
    ensures r.0 == if |r.1| == 0 then last else r.1[|r.1| - 1].window
    ensures r.0 == LastSeen(last, readings)
    decreases |readings|
  {
    if |readings| == 0 then (last, [])
    else
      var n := |readings| - 1;
      var (remembered, reported) := Observe(last, readings[..n]);
      assert forall k :: 0 <= k < |reported| ==> Some(reported[k]) in readings[..n];
      var (remembered', sent) := SendActiveWindow(remembered, readings[n]);
      if sent.Some? then (remembered', reported + [readings[n].value]) else (remembered', reported)
  }

  /** The window of the last reading that found one, or `last` when none did:
      what the observer remembers, told from the readings alone. */
  function LastSeen(last: nat, readings: seq<Option<WindowData>>): nat
    decreases |readings|
  {
    if |readings| == 0 then last
    else if readings[|readings| - 1].Some? then readings[|readings| - 1].value.window
    else LastSeen(last, readings[..|readings| - 1])
  }

  /** Reading `k` finds a window other than the last one seen before it. */
  predicate Fresh(last: nat, readings: seq<Option<WindowData>>, k: nat)
    requires k < |readings|
  {
    readings[k].Some? && readings[k].value.window != LastSeen(last, readings[..k])
  }

  /** The fresh readings, in order. */
  function FreshReadings(last: nat, readings: seq<Option<WindowData>>): seq<WindowData>
    decreases |readings|
  {
    if |readings| == 0 then []
    else
      var n := |readings| - 1;
      FreshReadings(last, readings[..n]) + if Fresh(last, readings, n) then [readings[n].value] else []
  }

  /** The observer reports exactly the fresh readings: a window is reported
      again when it comes back after another one, and never twice in a row. */
  lemma {:induction false} ObserveReportsFreshReadings(last: nat, readings: seq<Option<WindowData>>)
    ensures Observe(last, readings).1 == FreshReadings(last, readings)
    decreases |readings|
  {
    if |readings| > 0 {
      var n := |readings| - 1;
      ObserveReportsFreshReadings(last, readings[..n]);
      ReportedIffFresh(last, readings, n);
      assert readings[..n + 1] == readings;
    }
  }

  /** One reading more: it is reported iff it is fresh. */
  lemma ReportedIffFresh(last: nat, readings: seq<Option<WindowData>>, k: nat)
    requires k < |readings|
    ensures Observe(last, readings[..k + 1]).1 ==
      Observe(last, readings[..k]).1 + if Fresh(last, readings, k) then [readings[k].value] else []
  {
    var prefix := readings[..k + 1];
    assert prefix[..k] == readings[..k];
    assert prefix[k] == readings[k];
  }

  /** Some report names window `w`. */
  predicate Reported(reported: seq<WindowData>, w: nat) {
    exists j :: 0 <= j < |reported| && reported[j].window == w
  }

  /** Every window read, other than `last`, is reported. */
  predicate ReportsNewWindows(last: nat, readings: seq<Option<WindowData>>, reported: seq<WindowData>) {
    forall k :: 0 <= k < |readings| && readings[k].Some? && readings[k].value.window != last ==>
      Reported(reported, readings[k].value.window)
  }

  /** Every window read, other than the one remembered at the start, is
      reported at some point. */
  lemma {:induction false} EveryNewWindowReported(last: nat, readings: seq<Option<WindowData>>)
    ensures ReportsNewWindows(last, readings, Observe(last, readings).1)
    decreases |readings|
  {
    if |readings| > 0 {
      var n := |readings| - 1;
      EveryNewWindowReported(last, readings[..n]);
      var (remembered, reported) := Observe(last, readings[..n]);
      var now := readings[n];
      var out := Observe(last, readings).1;
      assert out == if now.Some? && now.value.window != remembered then reported + [now.value] else reported;
      ReportedStep(last, remembered, reported, readings, out);
    }
  }

  /** Every window read other than `last` is reported, one reading more. */
  lemma ReportedStep(last: nat, remembered: nat, reported: seq<WindowData>, readings: seq<Option<WindowData>>,
                     out: seq<WindowData>)
    requires |readings| > 0
    requires remembered == if |reported| == 0 then last else reported[|reported| - 1].window
    requires ReportsNewWindows(last, readings[..|readings| - 1], reported)
    requires var now := readings[|readings| - 1];
      out == if now.Some? && now.value.window != remembered then reported + [now.value] else reported
    ensures ReportsNewWindows(last, readings, out)
  {
    var n := |readings| - 1;
    forall k | 0 <= k < |readings| && readings[k].Some? && readings[k].value.window != last
      ensures Reported(out, readings[k].value.window)
    {
      if k < n {
        assert readings[..n][k] == readings[k];
        var j :| 0 <= j < |reported| && reported[j].window == readings[k].value.window;
        assert out[j] == reported[j];
      } else if out != reported {
        assert out[|reported|] == readings[n].value;
      } else {
        assert reported[|reported| - 1].window == readings[k].value.window;
      }
    }
  }

  /** Reading the same window over and over reports it once. */
  lemma {:induction false} SteadyFocusReportedOnce(d: WindowData, n: nat)
    requires n > 0 && d.window != NO_WINDOW
    ensures Observe(NO_WINDOW, seq(n, _ => Some(d))) == (d.window, [d])
    decreases n
  {
    var readings := seq(n, _ => Some(d));
    if n > 1 {
      assert readings[..n - 1] == seq(n - 1, _ => Some(d));
      SteadyFocusReportedOnce(d, n - 1);
    } else {
      assert readings[..0] == [];
      assert Observe(NO_WINDOW, readings[..0]) == (NO_WINDOW, []);
      assert readings[0] == Some(d);
      assert SendActiveWindow(NO_WINDOW, Some(d)) == (d.window, Some(Information(d)));
      var none: seq<WindowData> := [];
      assert none + [d] == [d];
    }
  }
}
