/** Colour configuration: `#RRGGBB` / `#RRGGBBAA` hex strings and explicit
    red/green/blue triples, converted into RGBA colours. */
module Color {
  import opened Wrappers
  import opened Ints
  import opened Errors

  datatype Rgba = Rgba(r: u8, g: u8, b: u8, a: u8)

  datatype ColorConfigRgb = ColorConfigRgb(red: u8, green: u8, blue: u8)

  /** A colour as written in the configuration file. */
  datatype ColorConfig = HexString(hex: string) | RGB(rgb: ColorConfigRgb)

  const OPAQUE: u8 := 0xFF

  // ---------------------------------------------------------------------
  // Hexadecimal digits and Rust's `u32::from_str_radix(_, 16)`
  // ---------------------------------------------------------------------

  predicate IsHexDigit(c: char) {
    ('0' <= c <= '9') || ('a' <= c <= 'f') || ('A' <= c <= 'F')
  }

  predicate AllHexDigits(s: string) {
    forall i :: 0 <= i < |s| ==> IsHexDigit(s[i])
  }

  function DigitValue(c: char): (d: nat)
    requires IsHexDigit(c)
    ensures d < 16
  {
    if '0' <= c <= '9' then c as int - '0' as int
    else if 'a' <= c <= 'f' then c as int - 'a' as int + 10
    else c as int - 'A' as int + 10
  }

  function Pow16(n: nat): (p: nat)
    ensures p >= 1
  {
    if n == 0 then 1 else 16 * Pow16(n - 1)
  }

  /** The number a string of hex digits denotes, most significant digit first. */
  function HexValue(s: string): (v: nat)
    requires AllHexDigits(s)
    ensures v < Pow16(|s|)
  {
    if |s| == 0 then 0
    else HexValue(s[..|s| - 1]) * 16 + DigitValue(s[|s| - 1])
  }

  /** The digits `from_str_radix` reads: one leading `+` is accepted and
      skipped, as Rust does for unsigned integer types. */
  function UnsignedDigits(s: string): string {
    if |s| > 0 && s[0] == '+' then s[1..] else s
  }

  /** `u32::from_str_radix(s, 16)`: `None` for an empty string, a lone sign,
      a non-hex digit or a value that does not fit 32 bits. */
  function ParseU32Hex(s: string): (r: Option<nat>)
    ensures r.Some? <==>
      (var d := UnsignedDigits(s);
       |d| > 0 && AllHexDigits(d) && HexValue(d) < U32_LIMIT)
    ensures r.Some? ==> IsU32(r.value) && r.value == HexValue(UnsignedDigits(s))
  {
    var d := UnsignedDigits(s);
    if |d| == 0 || !AllHexDigits(d) then None
    else if HexValue(d) >= U32_LIMIT then None
    else Some(HexValue(d))
  }

  /** `str::trim_start_matches("#")`: every leading `#` removed, and
      nothing else. */
  function TrimStartHashes(s: string): (r: string)
    ensures |r| <= |s| && r == s[|s| - |r|..]
    ensures forall j :: 0 <= j < |s| - |r| ==> s[j] == '#'
    ensures |r| > 0 ==> r[0] != '#'
  {
    if |s| > 0 && s[0] == '#' then TrimStartHashes(s[1..]) else s
  }

  // ---------------------------------------------------------------------
  // hex_string_to_rgba_color
  // ---------------------------------------------------------------------

  /** `&hex[..1]` panics on an empty string and when the first character
      takes more than one byte in UTF-8. */
  predicate Sliceable(hex: string) {
    |hex| > 0 && hex[0] as int < 0x80
  }

  /** `(num >> shift) as u8`, the shift given as its power of two
      (`>> 8` is `/ 0x100`, `>> 16` is `/ 0x1_0000`, `>> 24` is `/ 0x100_0000`). */
  function Channel(num: nat, divisor: nat): u8
    requires divisor > 0
  {
    TruncateU8(num / divisor)
  }

  /** Parses `#RRGGBB` (opaque) or `#RRGGBBAA`; a string whose first
      character cannot be sliced off is the panic `SlicePanic`. */
  function HexStringToRgba(hex: string): (r: Result<Rgba, ConfigError>)
    ensures !Sliceable(hex) ==> r == Failure(SlicePanic(hex))
    ensures Sliceable(hex) && r.Failure? ==> r.error == InvalidColorHexString(hex)
    ensures Sliceable(hex) && hex[0] != '#' ==> r.Failure?
    ensures r.Success? <==>
      (Sliceable(hex) && hex[0] == '#' && ParseU32Hex(TrimStartHashes(hex)).Some?
       && |TrimStartHashes(hex)| in {6, 8})
    ensures r.Success? && |TrimStartHashes(hex)| == 6 ==> r.value.a == OPAQUE
  {
    if !Sliceable(hex) then Failure(SlicePanic(hex))
    else if hex[0] != '#' then Failure(InvalidColorHexString(hex))
    else
      var withoutPrefix := TrimStartHashes(hex);
      match ParseU32Hex(withoutPrefix)
      case None => Failure(InvalidColorHexString(hex))
      case Some(num) =>
        if |withoutPrefix| == 6 then
          Success(Rgba(Channel(num, 0x1_0000), Channel(num, 0x100), TruncateU8(num % 0x100), OPAQUE))
        else if |withoutPrefix| == 8 then
          Success(Rgba(Channel(num, 0x100_0000), Channel(num, 0x1_0000), Channel(num, 0x100), TruncateU8(num % 0x100)))
        else
          Failure(InvalidColorHexString(hex))
  }

  /** `ColorConfig::to_image_rgba_color`. */
  function ToImageRgba(c: ColorConfig): (r: Result<Rgba, ConfigError>)
    ensures c.RGB? ==> r == Success(Rgba(c.rgb.red, c.rgb.green, c.rgb.blue, OPAQUE))
    ensures c.HexString? ==> r == HexStringToRgba(c.hex)
  {
    match c
    case HexString(hex) => HexStringToRgba(hex)
    case RGB(rgb) => Success(Rgba(rgb.red, rgb.green, rgb.blue, OPAQUE))
  }

  // ---------------------------------------------------------------------
  // Arithmetic facts about hex strings
  // ---------------------------------------------------------------------

  lemma {:induction false} HexValueConcat(a: string, b: string)
    requires AllHexDigits(a) && AllHexDigits(b)
    ensures AllHexDigits(a + b)
    ensures HexValue(a + b) == HexValue(a) * Pow16(|b|) + HexValue(b)
    decreases |b|
  {
    AllHexDigitsConcat(a, b);
    if |b| == 0 {
      assert a + b == a;
    } else {
      var b' := b[..|b| - 1];
      assert (a + b)[..|a + b| - 1] == a + b';
      assert (a + b)[|a + b| - 1] == b[|b| - 1];
      HexValueConcat(a, b');
      var x, p, y, dv := HexValue(a), Pow16(|b'|), HexValue(b'), DigitValue(b[|b| - 1]);
      assert HexValue(a + b) == HexValue(a + b') * 16 + dv;
      assert HexValue(b) == y * 16 + dv;
      assert Pow16(|b|) == p * 16;
      MulShift(x, p, y, dv);
    }
  }

  lemma MulShift(x: int, p: int, y: int, dv: int)
    ensures (x * p + y) * 16 + dv == x * (p * 16) + (y * 16 + dv)
  {
  }

  /** A string of hex digits splits into its two-digit groups. */
  lemma HexValueGroups(d: string, k: nat)
    requires AllHexDigits(d) && |d| == 2 * k + 2
    ensures AllHexDigits(d[..2 * k]) && AllHexDigits(d[2 * k..])
    ensures HexValue(d) == HexValue(d[..2 * k]) * 256 + HexValue(d[2 * k..])
  {
    assert d == d[..2 * k] + d[2 * k..];
    HexValueConcat(d[..2 * k], d[2 * k..]);
    assert Pow16(2) == 256;
  }

  lemma ByteOfSum(hi: nat, lo: nat)
    requires lo < 0x100
    ensures (hi * 0x100 + lo) % 0x100 == lo
    ensures (hi * 0x100 + lo) / 0x100 == hi
  {
  }

  /** The bytes of a packed 24-bit value, as `>> 16`, `>> 8` and `& 0xFF` read them. */
  lemma ThreeBytes(r: nat, g: nat, b: nat, n: nat)
    requires r < 0x100 && g < 0x100 && b < 0x100
    requires n == (r * 0x100 + g) * 0x100 + b
    ensures n < U32_LIMIT && Channel(n, 0x1_0000) as int == r && Channel(n, 0x100) as int == g && n % 0x100 == b
  {
    ByteOfSum(r * 0x100 + g, b);
    ByteOfSum(r, g);
    assert n / 0x1_0000 == r by {
      assert n == r * 0x1_0000 + (g * 0x100 + b);
      DivByPowers(r, g * 0x100 + b);
    }
  }

  /** The bytes of a packed 32-bit value, as `>> 24`, `>> 16`, `>> 8` and `& 0xFF` read them. */
  lemma FourBytes(r: nat, g: nat, b: nat, a: nat, n: nat)
    requires r < 0x100 && g < 0x100 && b < 0x100 && a < 0x100
    requires n == ((r * 0x100 + g) * 0x100 + b) * 0x100 + a
    ensures n < U32_LIMIT && Channel(n, 0x100_0000) as int == r && Channel(n, 0x1_0000) as int == g
      && Channel(n, 0x100) as int == b && n % 0x100 == a
  {
    ByteOfSum((r * 0x100 + g) * 0x100 + b, a);
    ByteOfSum(r * 0x100 + g, b);
    ByteOfSum(r, g);
    assert n / 0x1_0000 == r * 0x100 + g by {
      assert n == (r * 0x100 + g) * 0x1_0000 + (b * 0x100 + a);
      DivByPowers(r * 0x100 + g, b * 0x100 + a);
    }
    assert n / 0x100_0000 == r by {
      assert n == r * 0x100_0000 + ((g * 0x100 + b) * 0x100 + a);
      DivByPowers(r, (g * 0x100 + b) * 0x100 + a);
    }
  }

  /** What the parser builds once the prefix and the digits are known. */
  lemma ParsedDigits(hex: string, d: string, n: nat)
    requires Sliceable(hex) && hex[0] == '#' && TrimStartHashes(hex) == d && ParseU32Hex(d) == Some(n)
    ensures |d| == 6 ==>
      HexStringToRgba(hex) == Success(Rgba(Channel(n, 0x1_0000), Channel(n, 0x100), TruncateU8(n % 0x100), OPAQUE))
    ensures |d| == 8 ==>
      HexStringToRgba(hex) ==
        Success(Rgba(Channel(n, 0x100_0000), Channel(n, 0x1_0000), Channel(n, 0x100), TruncateU8(n % 0x100)))
  {
  }

  /** Six hex digits after the `#` prefix give the opaque colour whose red,
      green and blue are the first, second and third digit pairs. */
  lemma SixDigitChannels(hashes: nat, d: string)
    requires AllHexDigits(d) && |d| == 6
    ensures var hex := Hashes(hashes + 1) + d;
      Sliceable(hex) &&
      HexStringToRgba(hex) == Success(Rgba(
        HexValue(d[..2]) as u8, HexValue(d[2..4]) as u8, HexValue(d[4..]) as u8, OPAQUE))
  {
    var hex := Hashes(hashes + 1) + d;
    var n := HexValue(d);
    HashPrefix(hashes, d);
    assert ParseU32Hex(d) == Some(n);
    ParsedDigits(hex, d, n);
    SixDigitBytes(d);
  }

  /** Eight hex digits give red, green, blue and alpha in that order. */
  lemma EightDigitChannels(hashes: nat, d: string)
    requires AllHexDigits(d) && |d| == 8
    ensures var hex := Hashes(hashes + 1) + d;
      Sliceable(hex) &&
      HexStringToRgba(hex) == Success(Rgba(
        HexValue(d[..2]) as u8, HexValue(d[2..4]) as u8,
        HexValue(d[4..6]) as u8, HexValue(d[6..]) as u8))
  {
    var hex := Hashes(hashes + 1) + d;
    var n := HexValue(d);
    HashPrefix(hashes, d);
    assert ParseU32Hex(d) == Some(n);
    ParsedDigits(hex, d, n);
    EightDigitBytes(d);
  }

  /** The channels of six digits are their digit pairs. */
  lemma SixDigitBytes(d: string)
    requires AllHexDigits(d) && |d| == 6
    ensures var n := HexValue(d);
      && Channel(n, 0x1_0000) == HexValue(d[..2]) as u8
      && Channel(n, 0x100) == HexValue(d[2..4]) as u8
      && TruncateU8(n % 0x100) == HexValue(d[4..]) as u8
  {
    SixDigitValue(d);
    ThreeBytes(HexValue(d[..2]), HexValue(d[2..4]), HexValue(d[4..]), HexValue(d));
  }

  /** The channels of eight digits are their digit pairs. */
  lemma EightDigitBytes(d: string)
    requires AllHexDigits(d) && |d| == 8
    ensures var n := HexValue(d);
      Rgba(Channel(n, 0x100_0000), Channel(n, 0x1_0000), Channel(n, 0x100), TruncateU8(n % 0x100)) ==
      Rgba(HexValue(d[..2]) as u8, HexValue(d[2..4]) as u8, HexValue(d[4..6]) as u8, HexValue(d[6..]) as u8)
  {
    EightDigitValue(d);
    FourChannels(HexValue(d[..2]), HexValue(d[2..4]), HexValue(d[4..6]), HexValue(d[6..]), HexValue(d));
  }

  /** The channels of four bytes packed big-endian are the bytes. */
  lemma FourChannels(r: nat, g: nat, b: nat, a: nat, n: nat)
    requires r < 0x100 && g < 0x100 && b < 0x100 && a < 0x100
    requires n == ((r * 0x100 + g) * 0x100 + b) * 0x100 + a
    ensures Rgba(Channel(n, 0x100_0000), Channel(n, 0x1_0000), Channel(n, 0x100), TruncateU8(n % 0x100)) ==
      Rgba(r as u8, g as u8, b as u8, a as u8)
  {
    FourBytes(r, g, b, a, n);
  }

  /** `#`s followed by hex digits: the prefix is stripped and the digits read unsigned. */
  lemma HashPrefix(hashes: nat, d: string)
    requires AllHexDigits(d) && |d| > 0
    ensures var hex := Hashes(hashes + 1) + d;
      Sliceable(hex) && hex[0] == '#' && TrimStartHashes(hex) == d && UnsignedDigits(d) == d
  {
    var hex := Hashes(hashes + 1) + d;
    assert hex[0] == '#';
    assert IsHexDigit(d[0]);
    TrimPrefix(hashes + 1, d);
  }

  /** Six hex digits are three digit pairs, most significant first. */
  lemma SixDigitValue(d: string)
    requires AllHexDigits(d) && |d| == 6
    ensures AllHexDigits(d[..2]) && AllHexDigits(d[2..4]) && AllHexDigits(d[4..])
    ensures HexValue(d) == (HexValue(d[..2]) * 0x100 + HexValue(d[2..4])) * 0x100 + HexValue(d[4..])
  {
    var four := d[..4];
    HexValueGroups(d, 2);
    HexValueGroups(four, 1);
    assert four[..2] == d[..2];
    assert four[2..] == d[2..4];
  }

  /** Eight hex digits are four digit pairs, most significant first. */
  lemma EightDigitValue(d: string)
    requires AllHexDigits(d) && |d| == 8
    ensures AllHexDigits(d[..2]) && AllHexDigits(d[2..4]) && AllHexDigits(d[4..6]) && AllHexDigits(d[6..])
    ensures HexValue(d) ==
      ((HexValue(d[..2]) * 0x100 + HexValue(d[2..4])) * 0x100 + HexValue(d[4..6])) * 0x100 + HexValue(d[6..])
  {
    var six := d[..6];
    HexValueGroups(d, 3);
    SixDigitValue(six);
    assert six[..2] == d[..2];
    assert six[2..4] == d[2..4];
    assert six[4..] == d[4..6];
  }

  lemma DivByPowers(hi: nat, lo: nat)
    ensures lo < 0x1_0000 ==> (hi * 0x1_0000 + lo) / 0x1_0000 == hi
    ensures lo < 0x100_0000 ==> (hi * 0x100_0000 + lo) / 0x100_0000 == hi
  {
  }

  /** A run of `n` `#` characters. */
  function Hashes(n: nat): (s: string)
    ensures |s| == n && forall i :: 0 <= i < n ==> s[i] == '#'
  {
    if n == 0 then "" else "#" + Hashes(n - 1)
  }

  /** Trimming a run of `#`s stops exactly at the first other character. */
  lemma TrimPrefix(n: nat, d: string)
    requires |d| == 0 || d[0] != '#'
    ensures TrimStartHashes(Hashes(n) + d) == d
  {
    var s := Hashes(n) + d;
    var r := TrimStartHashes(s);
    assert s[n..] == d;
  }

  // ---------------------------------------------------------------------
  // Round trip: formatting a colour as hex and parsing it back
  // ---------------------------------------------------------------------

  function HexChar(v: nat): (c: char)
    requires v < 16
    ensures IsHexDigit(c) && DigitValue(c) == v
  {
    if v < 10 then ('0' as int + v) as char else ('A' as int + v - 10) as char
  }

  /** Two upper-case hex digits for a byte. */
  function Hex2(x: u8): (s: string)
    ensures |s| == 2 && AllHexDigits(s)
    ensures HexValue(s) == x as int
  {
    var s := [HexChar(x as int / 16), HexChar(x as int % 16)];
    assert s[..1] == [s[0]];
    s
  }

  function FormatRgb(r: u8, g: u8, b: u8): string {
    "#" + Hex2(r) + Hex2(g) + Hex2(b)
  }

  function FormatRgba(c: Rgba): string {
    "#" + Hex2(c.r) + Hex2(c.g) + Hex2(c.b) + Hex2(c.a)
  }

  lemma AllHexDigitsConcat(a: string, b: string)
    requires AllHexDigits(a) && AllHexDigits(b)
    ensures AllHexDigits(a + b)
  {
    assert forall i :: 0 <= i < |a + b| ==> (a + b)[i] == if i < |a| then a[i] else b[i - |a|];
  }

  /** `#` followed by the two-digit hex of red, green and blue parses back to
      that colour, fully opaque. */
  lemma RgbRoundTrip(r: u8, g: u8, b: u8)
    ensures Sliceable(FormatRgb(r, g, b))
    ensures HexStringToRgba(FormatRgb(r, g, b)) == Success(Rgba(r, g, b, OPAQUE))
  {
    var d := Hex2(r) + Hex2(g) + Hex2(b);
    AllHexDigitsConcat(Hex2(r), Hex2(g));
    AllHexDigitsConcat(Hex2(r) + Hex2(g), Hex2(b));
    assert FormatRgb(r, g, b) == Hashes(1) + d;
    assert d[..2] == Hex2(r) && d[2..4] == Hex2(g) && d[4..] == Hex2(b);
    SixDigitChannels(0, d);
  }

  /** The eight-digit form round-trips every RGBA colour, alpha included. */
  lemma RgbaRoundTrip(c: Rgba)
    ensures Sliceable(FormatRgba(c))
    ensures HexStringToRgba(FormatRgba(c)) == Success(c)
  {
    var d := Hex2(c.r) + Hex2(c.g) + Hex2(c.b) + Hex2(c.a);
    AllHexDigitsConcat(Hex2(c.r), Hex2(c.g));
    AllHexDigitsConcat(Hex2(c.r) + Hex2(c.g), Hex2(c.b));
    AllHexDigitsConcat(Hex2(c.r) + Hex2(c.g) + Hex2(c.b), Hex2(c.a));
    assert FormatRgba(c) == Hashes(1) + d;
    assert d[..2] == Hex2(c.r) && d[2..4] == Hex2(c.g) && d[4..6] == Hex2(c.b) && d[6..] == Hex2(c.a);
    EightDigitChannels(0, d);
  }

  /** Any digit count other than six or eight is rejected, whatever the digits. */
  lemma WrongDigitCountRejected(hashes: nat, d: string)
    requires |d| != 6 && |d| != 8
    requires |d| == 0 || d[0] != '#'
    ensures var hex := Hashes(hashes + 1) + d;
      Sliceable(hex) && HexStringToRgba(hex).Failure?
  {
    var hex := Hashes(hashes + 1) + d;
    assert hex[0] == '#';
    TrimPrefix(hashes + 1, d);
  }

  /** Rust's unsigned parser accepts one `+` sign, so `#+FFFFF` passes the
      six-character check and reads as 0x0FFFFF. */
  lemma PlusSignAccepted()
    ensures HexStringToRgba("#+FFFFF") == Success(Rgba(0x0F, 0xFF, 0xFF, OPAQUE))
  {
    var hex := "#+FFFFF";
    assert TrimStartHashes(hex) == "+FFFFF" by {
      assert hex == Hashes(1) + "+FFFFF";
      TrimPrefix(1, "+FFFFF");
    }
    assert UnsignedDigits("+FFFFF") == "FFFFF";
    FiveFs();
  }

  lemma FiveFs()
    ensures AllHexDigits("FFFFF") && HexValue("FFFFF") == 0xFFFFF
  {
    var f := "F";
    assert AllHexDigits(f) && HexValue(f) == 0xF by {
      assert f[..0] == "";
    }
    HexValueConcat(f, f);
    assert f + f == "FF";
    HexValueConcat("FF", "FF");
    assert "FF" + "FF" == "FFFF";
    HexValueConcat("FFFF", f);
    assert "FFFF" + f == "FFFFF";
  }
}
