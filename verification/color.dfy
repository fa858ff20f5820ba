/** The client's colour conversions: `rgbToHex` writes three clamped, rounded
    channels as `#rrggbb`, and `hexToRgb` reads the channels back out of a hex
    string with `parseInt(h, 16)` and bit masks. */
module Color {
  import opened Wrappers
  import opened Numeric

  datatype Rgb = Rgb(r: int, g: int, b: int)

  // ---------------------------------------------------------------------------
  // Hex digits

  predicate IsHexDigit(c: char) {
    '0' <= c <= '9' || 'a' <= c <= 'f' || 'A' <= c <= 'F'
  }

  function DigitValue(c: char): (v: nat)
    requires IsHexDigit(c)
    ensures v < 16
  {
    if '0' <= c <= '9' then (c - '0') as nat
    else if 'a' <= c <= 'f' then (c - 'a') as nat + 10
    else (c - 'A') as nat + 10
  }

  /** The lower-case digit `Number.prototype.toString(16)` writes. */
  function DigitChar(d: nat): (c: char)
    requires d < 16
    ensures IsHexDigit(c) && DigitValue(c) == d
  {
    if d < 10 then ('0' as int + d) as char else ('a' as int + d - 10) as char
  }

  ghost predicate AllHex(s: string) {
    forall i :: 0 <= i < |s| ==> IsHexDigit(s[i])
  }

  /** The value of a string of hex digits, most significant first. */
  function HexValue(s: string): nat
    requires AllHex(s)
  {
    if |s| == 0 then 0 else HexValue(s[..|s| - 1]) * 16 + DigitValue(s[|s| - 1])
  }

  // ---------------------------------------------------------------------------
  // rgbToHex

  /** `Math.round`: the nearest integer, a tie going up. */
  function RoundHalfUp(x: real): (n: int)
    ensures x - 0.5 < n as real <= x + 0.5
  {
    (x + 0.5).Floor
  }

  /** `Math.round(clamp(v, 0, 255))`. */
  function Channel(v: real): (n: int)
    ensures 0 <= n <= 255
    ensures v == (v.Floor as real) && 0.0 <= v <= 255.0 ==> n == v.Floor
  {
    var c := Clamp(v, 0.0, 255.0);
    var n := RoundHalfUp(c);
    assert 0 <= n <= 255 by {
      assert -0.5 < n as real <= 255.5;
    }
    n
  }

  /** `n.toString(16)`, padded with a leading `0` when it has one digit. */
  function ByteHex(n: int): (s: string)
    requires 0 <= n <= 255
    ensures |s| == 2 && AllHex(s)
    ensures DigitValue(s[0]) * 16 + DigitValue(s[1]) == n
  {
    var x := if n < 16 then [DigitChar(n)] else [DigitChar(n / 16), DigitChar(n % 16)];
    if |x| == 1 then ['0'] + x else x
  }

  /** The three padded channels, read back as `r·65536 + g·256 + b`. */
  function Hex6(r: int, g: int, b: int): (s: string)
    requires 0 <= r <= 255 && 0 <= g <= 255 && 0 <= b <= 255
    ensures |s| == 6 && AllHex(s)
    ensures HexValue(s) == r * 0x1_0000 + g * 0x100 + b
  {
    SixDigitsValue(r, g, b);
    ByteHex(r) + ByteHex(g) + ByteHex(b)
  }

  /** `rgbToHex(r, g, b)`. */
  function RgbToHex(r: real, g: real, b: real): (s: string)
    ensures |s| == 7 && s[0] == '#' && AllHex(s[1..])
  {
    "#" + Hex6(Channel(r), Channel(g), Channel(b))
  }

  // ---------------------------------------------------------------------------
  // hexToRgb

  /** `hex.replace("#", "")`: a string pattern replaces its first occurrence only. */
  function ReplaceFirstHash(s: string): (r: string)
    ensures '#' in s ==> |r| == |s| - 1
    ensures '#' !in s ==> r == s
  {
    if |s| == 0 then s
    else if s[0] == '#' then s[1..]
    else [s[0]] + ReplaceFirstHash(s[1..])
  }

  /** The `#` removed is the first one; everything before and after it is kept. */
  lemma {:induction false} ReplaceFirstHashRemovesFirst(s: string) returns (k: int)
    requires '#' in s
    ensures 0 <= k < |s| && s[k] == '#' && '#' !in s[..k]
    ensures ReplaceFirstHash(s) == s[..k] + s[k + 1..]
  {
    if s[0] == '#' {
      k := 0;
    } else {
      var t := s[1..];
      assert s == [s[0]] + t;
      var k' := ReplaceFirstHashRemovesFirst(t);
      k := k' + 1;
      assert s[..k] == [s[0]] + t[..k'];
      assert s[k + 1..] == t[k' + 1..];
    }
  }

  /** The white space and line terminators `parseInt` skips. */
  predicate IsJsSpace(c: char) {
    c == ' ' || c == '\t' || c == '\n' || c == '\r' || c == '\U{0B}' || c == '\U{0C}'
    || c == '\U{A0}' || c == '\U{FEFF}' || c == '\U{1680}' || ('\U{2000}' <= c <= '\U{200A}')
    || c == '\U{2028}' || c == '\U{2029}' || c == '\U{202F}' || c == '\U{205F}' || c == '\U{3000}'
  }

  function SkipSpace(s: string): (r: string)
    ensures |r| <= |s| && r == s[|s| - |r|..]
    ensures |r| > 0 ==> !IsJsSpace(r[0])
  {
    if |s| > 0 && IsJsSpace(s[0]) then SkipSpace(s[1..]) else s
  }

  /** The longest prefix of hex digits. */
  function HexPrefix(s: string): (r: string)
    ensures |r| <= |s| && r == s[..|r|]
    ensures forall i :: 0 <= i < |r| ==> IsHexDigit(r[i])
    ensures |r| < |s| ==> !IsHexDigit(s[|r|])
  {
    if |s| > 0 && IsHexDigit(s[0]) then [s[0]] + HexPrefix(s[1..]) else []
  }

  /** `parseInt(s, 16)`: leading white space, an optional sign and an optional
      `0x` are skipped, then the longest run of hex digits is read; `None` is
      `NaN`, when that run is empty. */
  function ParseHex(s: string): Option<int> {
    var t := SkipSpace(s);
    var neg := |t| > 0 && t[0] == '-';
    var u := if |t| > 0 && (t[0] == '-' || t[0] == '+') then t[1..] else t;
    var v := if |u| >= 2 && u[0] == '0' && (u[1] == 'x' || u[1] == 'X') then u[2..] else u;
    var ds := HexPrefix(v);
    if |ds| == 0 then None
    else
      var n: int := HexValue(ds);
      Some(if neg then -n else n)
  }

  /** `ToInt32`: the integer modulo 2^32, read as a signed 32-bit value; `NaN` gives 0. */
  function ToInt32(n: Option<int>): (m: int)
    ensures -0x8000_0000 <= m < 0x8000_0000
    ensures n.None? ==> m == 0
    ensures n.Some? ==> (m - n.value) % 0x1_0000_0000 == 0
  {
    match n
    case None => 0
    case Some(k) =>
      var w := k % 0x1_0000_0000;
      if w >= 0x8000_0000 then w - 0x1_0000_0000 else w
  }

  /** `(n >> shift) & 255` on a signed 32-bit value: `>>` divides rounding down
      and `& 255` keeps the low byte. */
  function ByteAt(m: int, shift: nat): (v: int)
    requires shift == 0 || shift == 8 || shift == 16
    ensures 0 <= v <= 255
  {
    var d := if shift == 0 then 1 else if shift == 8 then 0x100 else 0x1_0000;
    (m / d) % 0x100
  }

  /** `{ r: (m >> 16) & 255, g: (m >> 8) & 255, b: m & 255 }`. */
  function Masks(m: int): (c: Rgb)
    ensures 0 <= c.r <= 255 && 0 <= c.g <= 255 && 0 <= c.b <= 255
  {
    Rgb(ByteAt(m, 16), ByteAt(m, 8), ByteAt(m, 0))
  }

  /** `hexToRgb(hex)`. */
  function HexToRgb(hex: string): (c: Rgb)
    ensures 0 <= c.r <= 255 && 0 <= c.g <= 255 && 0 <= c.b <= 255
  {
    Masks(ToInt32(ParseHex(ReplaceFirstHash(hex))))
  }

  // ---------------------------------------------------------------------------
  // The round trip

  lemma HexValueAppendByte(s: string, n: int)
    requires AllHex(s)
    requires 0 <= n <= 255
    ensures AllHex(s + ByteHex(n))
    ensures HexValue(s + ByteHex(n)) == HexValue(s) * 256 + n
  {
    var h := ByteHex(n);
    var t := s + h;
    assert t[..|t| - 1] == s + [h[0]];
    assert (s + [h[0]])[..|s|] == s;
  }

  lemma SixDigitsValue(r: int, g: int, b: int)
    requires 0 <= r <= 255 && 0 <= g <= 255 && 0 <= b <= 255
    ensures AllHex(ByteHex(r) + ByteHex(g) + ByteHex(b))
    ensures HexValue(ByteHex(r) + ByteHex(g) + ByteHex(b)) == r * 0x1_0000 + g * 0x100 + b
  {
    var e: string := [];
    HexValueAppendByte(e, r);
    assert e + ByteHex(r) == ByteHex(r);
    HexValueAppendByte(ByteHex(r), g);
    HexValueAppendByte(ByteHex(r) + ByteHex(g), b);
  }

  lemma ParseSixDigits(s: string)
    requires |s| == 6 && AllHex(s)
    ensures ParseHex(s) == Some(HexValue(s))
  {
    assert !IsJsSpace(s[0]);
    assert SkipSpace(s) == s;
    assert s[0] != '-' && s[0] != '+' && s[1] != 'x' && s[1] != 'X';
    HexPrefixAll(s);
  }

  lemma {:induction false} HexPrefixAll(s: string)
    requires AllHex(s)
    ensures HexPrefix(s) == s
  {
    if |s| > 0 {
      assert forall i :: 0 <= i < |s[1..]| ==> s[1..][i] == s[i + 1];
      HexPrefixAll(s[1..]);
    }
  }

  /** A channel triple in range survives the 32-bit value and its byte masks. */
  lemma BytesOfTriple(n: int, r: int, g: int, b: int)
    requires 0 <= r <= 255 && 0 <= g <= 255 && 0 <= b <= 255
    requires n == r * 0x1_0000 + g * 0x100 + b
    ensures Masks(ToInt32(Some(n))) == Rgb(r, g, b)
  {
    assert 0 <= n < 0x100_0000;
    assert ToInt32(Some(n)) == n;
    assert n / 0x1_0000 == r;
    assert n / 0x100 == r * 0x100 + g;
    assert (r * 0x100 + g) % 0x100 == g;
    assert n % 0x100 == b;
  }

  /** `hexToRgb` inverts `rgbToHex`: it reads back the clamped, rounded channels,
      so integer channels in `[0, 255]` come back unchanged. */
  lemma RoundTrip(r: real, g: real, b: real)
    ensures HexToRgb(RgbToHex(r, g, b)) == Rgb(Channel(r), Channel(g), Channel(b))
  {
    HexOfChannels(Channel(r), Channel(g), Channel(b));
  }

  lemma HexOfChannels(r: int, g: int, b: int)
    requires 0 <= r <= 255 && 0 <= g <= 255 && 0 <= b <= 255
    ensures HexToRgb("#" + Hex6(r, g, b)) == Rgb(r, g, b)
  {
    ReadBack(Hex6(r, g, b), r, g, b);
  }

  /** Any six digits of value `r·65536 + g·256 + b` after a `#` read back as `(r, g, b)`. */
  lemma ReadBack(six: string, r: int, g: int, b: int)
    requires 0 <= r <= 255 && 0 <= g <= 255 && 0 <= b <= 255
    requires |six| == 6 && AllHex(six) && HexValue(six) == r * 0x1_0000 + g * 0x100 + b
    ensures HexToRgb("#" + six) == Rgb(r, g, b)
  {
    ReadSix(six);
    BytesOfTriple(HexValue(six), r, g, b);
  }

  /** `hexToRgb` on `#` and six digits reads their value. */
  lemma ReadSix(six: string)
    requires |six| == 6 && AllHex(six)
    ensures HexToRgb("#" + six) == Masks(ToInt32(Some(HexValue(six))))
  {
    assert ReplaceFirstHash("#" + six) == six;
    ParseSixDigits(six);
  }

  /** The integer case of the round trip. */
  lemma RoundTripInteger(r: int, g: int, b: int)
    requires 0 <= r <= 255 && 0 <= g <= 255 && 0 <= b <= 255
    ensures HexToRgb(RgbToHex(r as real, g as real, b as real)) == Rgb(r, g, b)
  {
    RoundTrip(r as real, g as real, b as real);
  }

  /** A string with no hex digit after the `#` reads as black, as `NaN` masks to 0. */
  lemma NotHexIsBlack()
    ensures HexToRgb("#zz") == Rgb(0, 0, 0)
  {
    assert ReplaceFirstHash("#zz") == "zz";
    assert SkipSpace("zz") == "zz";
    assert HexPrefix("zz") == [];
    assert ParseHex("zz") == None;
  }
}
