/** The LED strip driver: WS2812 pixels driven over SPI, where every colour bit becomes
    one SPI byte (0xFC for a 1, 0xC0 for a 0), pixels are sent green, red, blue, and the
    light effects are sequences of whole-strip frames. */
module Leds {
  import opened Base
  import opened PyText

  /** A colour as `hex_to_rgb` produces it. Components are Python integers. */
  datatype Rgb = Rgb(r: int, g: int, b: int)

  const Black: Rgb := Rgb(0, 0, 0)

  /** A value for every pixel of the strip, in strip order. */
  type Frame = seq<Rgb>

  // ---------------------------------------------------------------------------------
  // Parsing "#rrggbb"

  predicate IsHexDigit(c: char)
  {
    ('0' <= c <= '9') || ('a' <= c <= 'f') || ('A' <= c <= 'F')
  }

  function HexDigitValue(c: char): (d: nat)
    requires IsHexDigit(c)
    ensures d < 16
  {
    if '0' <= c <= '9' then c as int - '0' as int
    else if 'a' <= c <= 'f' then c as int - 'a' as int + 10
    else c as int - 'A' as int + 10
  }

  /** Lower-case hex digit for 0..15. */
  function HexChar(d: nat): (c: char)
    requires d < 16
    ensures IsHexDigit(c) && HexDigitValue(c) == d
  {
    if d < 10 then ('0' as int + d) as char else ('a' as int + d - 10) as char
  }

  /** The whitespace `int()` ignores around a literal: ASCII space, tab, line feed,
      vertical tab, form feed and carriage return, and every non-ASCII character
      `str.isspace` accepts (CPython maps those to spaces first). The information
      separators U+001C..U+001F pass `str.isspace` but are not stripped by `int()`. */
  predicate IntSpace(c: char)
  {
    IsSpace(c) && !('\U{001C}' <= c <= '\U{001F}')
  }

  /** Drop the leading `IntSpace` characters. */
  function TrimStart(s: string): (r: string)
    ensures |r| <= |s|
  {
    if s != [] && IntSpace(s[0]) then TrimStart(s[1..]) else s
  }

  /** Drop the trailing `IntSpace` characters. */
  function TrimEnd(s: string): (r: string)
    ensures |r| <= |s|
  {
    if s != [] && IntSpace(s[|s| - 1]) then TrimEnd(s[..|s| - 1]) else s
  }

  /** Python's `int(t, 16)`, for text of at most two characters: surrounding `IntSpace`
      is ignored, one sign is allowed, and at least one hex digit must follow. (Underscore
      separators and the `0x` prefix need three characters or more.) `None` is the
      `ValueError`. */
  function IntHex(t: string): (r: Option<int>)
    requires |t| <= 2
  {
    SignedHex(TrimEnd(TrimStart(t)))
  }

  predicate AllHexDigits(s: string)
  {
    forall k | 0 <= k < |s| :: IsHexDigit(s[k])
  }

  /** An optional sign, then one or two hex digits. */
  function SignedHex(u: string): (r: Option<int>)
    requires |u| <= 2
  {
    if u == [] then None
    else
      var signed := u[0] == '+' || u[0] == '-';
      var digits := if signed then u[1..] else u;
      if digits == [] || !AllHexDigits(digits) then None
      else
        var magnitude :=
          if |digits| == 1 then HexDigitValue(digits[0])
          else 16 * HexDigitValue(digits[0]) + HexDigitValue(digits[1]);
        Some(if u[0] == '-' then -magnitude else magnitude)
  }

  /** `int(t, 16)` for a slice of `hex_to_rgb`, case by case on its (at most two)
      characters; `ParseHexIsIntHex` shows it is `IntHex`. */
  function ParseHex(t: string): (r: Option<int>)
    requires |t| <= 2
    ensures r.Some? ==> -15 <= r.value <= 255
    ensures |t| == 2 && IsHexDigit(t[0]) && IsHexDigit(t[1]) ==>
      r == Some(16 * HexDigitValue(t[0]) + HexDigitValue(t[1]))
  {
    if |t| == 0 then None
    else if |t| == 1 then HexDigitOf(t[0])
    else if IntSpace(t[0]) then HexDigitOf(t[1])
    else if IntSpace(t[1]) then HexDigitOf(t[0])
    else if (t[0] == '+' || t[0] == '-') && IsHexDigit(t[1]) then
      var d: int := HexDigitValue(t[1]);
      Some(if t[0] == '-' then -d else d)
    else if IsHexDigit(t[0]) && IsHexDigit(t[1]) then
      Some(16 * HexDigitValue(t[0]) + HexDigitValue(t[1]))
    else None
  }

  function HexDigitOf(c: char): (r: Option<int>)
  {
    if IsHexDigit(c) then Some(HexDigitValue(c)) else None
  }

  /** The case analysis agrees with trimming, reading a sign and reading the digits. */
  lemma ParseHexIsIntHex(t: string)
    requires |t| <= 2
    ensures ParseHex(t) == IntHex(t)
  {
    if |t| == 2 {
      if IntSpace(t[0]) && IntSpace(t[1]) {
        ParseHexBlank(t);
      } else if IntSpace(t[0]) || IntSpace(t[1]) {
        ParseHexOneBlank(t);
      } else {
        ParseHexPlain(t);
      }
    } else if |t| == 1 {
      if IntSpace(t[0]) {
        ParseHexBlank(t);
      } else {
        ParseHexSingle(t);
      }
    }
  }

  /** One character that is not whitespace: it is read as it is. */
  lemma ParseHexSingle(t: string)
    requires |t| == 1 && !IntSpace(t[0])
    ensures ParseHex(t) == IntHex(t)
  {
    assert TrimEnd(TrimStart(t)) == t;
    assert t == [t[0]];
    SignedHexOne(t[0]);
  }

  /** Two characters, neither whitespace: they are read as they are. */
  lemma ParseHexPlain(t: string)
    requires |t| == 2 && !IntSpace(t[0]) && !IntSpace(t[1])
    ensures ParseHex(t) == IntHex(t)
  {
    assert TrimEnd(TrimStart(t)) == t;
    SignedHexTwo(t);
  }

  /** Only whitespace: nothing to read. */
  lemma ParseHexBlank(t: string)
    requires 1 <= |t| <= 2 && forall k | 0 <= k < |t| :: IntSpace(t[k])
    ensures ParseHex(t) == IntHex(t) == None
  {
    if |t| == 2 {
      assert t[1..][0] == t[1];
      assert TrimStart(t[1..][1..]) == [];
    }
    assert TrimStart(t) == [];
  }

  /** One whitespace character and one other: only the other is read. */
  lemma ParseHexOneBlank(t: string)
    requires |t| == 2 && (IntSpace(t[0]) != IntSpace(t[1]))
    ensures ParseHex(t) == IntHex(t)
  {
    if IntSpace(t[0]) {
      assert t[1..] == [t[1]];
      assert TrimEnd(TrimStart(t)) == [t[1]];
      SignedHexOne(t[1]);
    } else {
      assert t[..1] == [t[0]];
      assert TrimEnd(TrimStart(t)) == [t[0]];
      SignedHexOne(t[0]);
    }
  }

  /** `int()` skips a space next to a digit but not an information separator, which
      `str.isspace` would count as whitespace; so a colour padded that way is rejected. */
  lemma SeparatorIsNotBlank()
    ensures ParseHex(" 5") == Some(5) && ParseHex("5\t") == Some(5)
    ensures ParseHex("\U{001C}5") == None && ParseHex("5\U{001F}") == None
    ensures HexToRgb("#\U{001C}5\U{001C}5\U{001C}5").Err?
  {
    var t := "\U{001C}5\U{001C}5\U{001C}5";
    assert StripLeading("#" + t, '#') == t by {
      StripLeadingCons(t, '#');
      assert t[0] != '#';
    }
    assert Slice(t, 0, 2) == "\U{001C}5";
  }

  lemma SignedHexOne(c: char)
    ensures SignedHex([c]) == HexDigitOf(c)
  {
    var u := [c];
    if c == '+' || c == '-' {
      assert u[1..] == [];
    } else {
      assert AllHexDigits(u) <==> IsHexDigit(c) by {
        assert u[0] == c;
      }
    }
  }

  lemma SignedHexTwo(t: string)
    requires |t| == 2 && !IntSpace(t[0]) && !IntSpace(t[1])
    ensures SignedHex(t) == ParseHex(t)
  {
    if t[0] == '+' || t[0] == '-' {
      assert t[1..] == [t[1]];
      assert AllHexDigits(t[1..]) <==> IsHexDigit(t[1]) by {
        assert t[1..][0] == t[1];
      }
    } else {
      assert AllHexDigits(t) <==> IsHexDigit(t[0]) && IsHexDigit(t[1]);
    }
  }

  /** Python's `s[i:j]` for 0 <= i <= j: bounds past the end are clipped. */
  function Slice(s: string, i: nat, j: nat): (r: string)
    requires i <= j
    ensures |r| <= j - i
    ensures j <= |s| ==> r == s[i..j]
  {
    if i >= |s| then [] else if j <= |s| then s[i..j] else s[i..]
  }

  /** The `ValueError` of `int(literal, 16)`. */
  datatype ColorError = InvalidLiteral(literal: string)

  /** `hex_to_rgb`: drop every leading '#', then read the pairs at offsets 0, 2 and 4.
      The first pair that does not parse is the error. */
  function HexToRgb(hex: string): (r: Result<Rgb, ColorError>)
    ensures r.Ok? ==> -15 <= r.value.r <= 255 && -15 <= r.value.g <= 255 && -15 <= r.value.b <= 255
    ensures r.Err? ==> |r.error.literal| <= 2
    ensures |StripLeading(hex, '#')| <= 4 ==> r.Err?
  {
    PairsToRgb(StripLeading(hex, '#'))
  }

  /** The three pairs of `hex_to_rgb`, once the '#'s are gone. */
  function PairsToRgb(s: string): (r: Result<Rgb, ColorError>)
    ensures r.Ok? ==> -15 <= r.value.r <= 255 && -15 <= r.value.g <= 255 && -15 <= r.value.b <= 255
    ensures r.Err? ==> |r.error.literal| <= 2
    ensures |s| <= 4 ==> r.Err?
  {
    var red := ParseHex(Slice(s, 0, 2));
    var green := ParseHex(Slice(s, 2, 4));
    var blue := ParseHex(Slice(s, 4, 6));
    if red.None? then Err(InvalidLiteral(Slice(s, 0, 2)))
    else if green.None? then Err(InvalidLiteral(Slice(s, 2, 4)))
    else if blue.None? then Err(InvalidLiteral(Slice(s, 4, 6)))
    else Ok(Rgb(red.value, green.value, blue.value))
  }

  /** The value of a pair of hex digits. */
  function PairValue(p: string): (v: nat)
    requires |p| == 2 && IsHexDigit(p[0]) && IsHexDigit(p[1])
    ensures v < 256
  {
    16 * HexDigitValue(p[0]) + HexDigitValue(p[1])
  }

  /** Two lower-case hex digits, most significant first. */
  function HexPair(v: nat): (p: string)
    requires v < 256
    ensures |p| == 2 && IsHexDigit(p[0]) && IsHexDigit(p[1]) && PairValue(p) == v
  {
    [HexChar(v / 16), HexChar(v % 16)]
  }

  /** "#rrggbb" in lower case, for components in 0..255. */
  function FormatHex(c: Rgb): (s: string)
    requires 0 <= c.r < 256 && 0 <= c.g < 256 && 0 <= c.b < 256
  {
    "#" + HexPair(c.r) + HexPair(c.g) + HexPair(c.b)
  }

  /** Three hex pairs after the '#'s are the three components, each in 0..255; whatever
      follows them is ignored. */
  lemma HexToRgbPairs(hex: string, pr: string, pg: string, pb: string, rest: string)
    requires StripLeading(hex, '#') == pr + pg + pb + rest
    requires |pr| == 2 && IsHexDigit(pr[0]) && IsHexDigit(pr[1])
    requires |pg| == 2 && IsHexDigit(pg[0]) && IsHexDigit(pg[1])
    requires |pb| == 2 && IsHexDigit(pb[0]) && IsHexDigit(pb[1])
    ensures HexToRgb(hex) == Ok(Rgb(PairValue(pr), PairValue(pg), PairValue(pb)))
  {
    var s := pr + pg + pb + rest;
    assert s[..6] == pr + pg + pb;
    PairsToRgbOk(s, pr, pg, pb);
  }

  lemma PairsToRgbOk(s: string, pr: string, pg: string, pb: string)
    requires |pr| == 2 && |pg| == 2 && |pb| == 2
    requires |s| >= 6 && s[..6] == pr + pg + pb
    requires IsHexDigit(pr[0]) && IsHexDigit(pr[1])
    requires IsHexDigit(pg[0]) && IsHexDigit(pg[1])
    requires IsHexDigit(pb[0]) && IsHexDigit(pb[1])
    ensures PairsToRgb(s) == Ok(Rgb(PairValue(pr), PairValue(pg), PairValue(pb)))
  {
    assert s[0..2] == pr && s[2..4] == pg && s[4..6] == pb;
    assert ParseHex(Slice(s, 0, 2)) == Some(PairValue(pr));
    assert ParseHex(Slice(s, 2, 4)) == Some(PairValue(pg));
    assert ParseHex(Slice(s, 4, 6)) == Some(PairValue(pb));
  }

  /** Parsing a formatted colour gives the colour back. */
  lemma HexToRgbFormatHex(c: Rgb)
    requires 0 <= c.r < 256 && 0 <= c.g < 256 && 0 <= c.b < 256
    ensures HexToRgb(FormatHex(c)) == Ok(c)
  {
    FormatHexBody(c);
    HexToRgbPairs(FormatHex(c), HexPair(c.r), HexPair(c.g), HexPair(c.b), []);
  }

  lemma FormatHexBody(c: Rgb)
    requires 0 <= c.r < 256 && 0 <= c.g < 256 && 0 <= c.b < 256
    ensures StripLeading(FormatHex(c), '#') == HexPair(c.r) + HexPair(c.g) + HexPair(c.b) + []
  {
    var body := HexPair(c.r) + HexPair(c.g) + HexPair(c.b);
    assert FormatHex(c) == ['#'] + body;
    assert body[0] != '#';
    StripLeadingCons(body, '#');
    assert body + [] == body;
  }

  /** Any number of leading '#' characters is the same as none. */
  lemma HexToRgbIgnoresHashes(s: string)
    ensures HexToRgb("#" + s) == HexToRgb(s)
  {
    StripLeadingCons(s, '#');
  }

  // ---------------------------------------------------------------------------------
  // SPI encoding

  /** The SPI byte for a 1 bit and for a 0 bit. */
  const OneBit: byte := 0xFC
  const ZeroBit: byte := 0xC0

  function Pow2(k: nat): (p: nat)
    ensures p >= 1
  {
    if k == 0 then 1 else 2 * Pow2(k - 1)
  }

  /** Bit k of a Python integer in two's complement, which is what `v & (1 << k)` tests:
      floor division by 2^k, then the parity. */
  predicate IntBit(v: int, k: nat)
  {
    (v / Pow2(k)) % 2 == 1
  }

  /** The 8 SPI bytes for one component, most significant bit first. */
  function EncodeComponent(v: int): (r: seq<byte>)
    ensures |r| == 8
  {
    seq(8, i requires 0 <= i < 8 => if IntBit(v, 7 - i) then OneBit else ZeroBit)
  }

  /** `encode_color_to_spi`: green, then red, then blue. */
  function EncodeColor(c: Rgb): (r: seq<byte>)
    ensures |r| == 24
  {
    EncodeComponent(c.g) + EncodeComponent(c.r) + EncodeComponent(c.b)
  }

  /** What a WS2812 latches from 8 SPI bytes: a 1 bit for each 0xFC, most significant
      bit first. */
  function DecodeComponent(bits: seq<byte>): (v: int)
    requires |bits| == 8
    ensures 0 <= v < 256
  {
    128 * BitValue(bits[0]) + 64 * BitValue(bits[1]) + 32 * BitValue(bits[2])
    + 16 * BitValue(bits[3]) + 8 * BitValue(bits[4]) + 4 * BitValue(bits[5])
    + 2 * BitValue(bits[6]) + BitValue(bits[7])
  }

  function BitValue(b: byte): (v: int)
    ensures v == 0 || v == 1
  {
    if b == OneBit then 1 else 0
  }

  /** The colour a pixel shows from its 24 bytes (sent G, R, B). */
  function DecodeColor(bytes: seq<byte>): (c: Rgb)
    requires |bytes| == 24
  {
    Rgb(DecodeComponent(bytes[8..16]), DecodeComponent(bytes[0..8]), DecodeComponent(bytes[16..24]))
  }

  /** The colour a pixel shows: each component modulo 256. */
  function Shown(c: Rgb): (s: Rgb)
    ensures 0 <= c.r < 256 && 0 <= c.g < 256 && 0 <= c.b < 256 ==> s == c
  {
    Rgb(c.r % 256, c.g % 256, c.b % 256)
  }

  /** A byte is the sum of its bits. */
  lemma LowByteBits(v: int)
    ensures v % 256 == 128 * ((v / 128) % 2) + 64 * ((v / 64) % 2) + 32 * ((v / 32) % 2)
      + 16 * ((v / 16) % 2) + 8 * ((v / 8) % 2) + 4 * ((v / 4) % 2) + 2 * ((v / 2) % 2) + v % 2
  {
    DivModStep(v, 128);
    DivModStep(v, 64);
    DivModStep(v, 32);
    DivModStep(v, 16);
    DivModStep(v, 8);
    DivModStep(v, 4);
    DivModStep(v, 2);
  }

  /** Splitting off one bit: v mod 2m is m times bit (v / m) plus v mod m. */
  lemma DivModStep(v: int, m: int)
    requires m > 0
    ensures v % (2 * m) == m * ((v / m) % 2) + v % m
  {
    var q, r := v / m, v % m;
    var q2, b := q / 2, q % 2;
    assert v == 2 * m * q2 + (m * b + r) by {
      assert v == m * q + r;
      assert m * q == m * (2 * q2 + b);
    }
    assert 0 <= m * b + r < 2 * m by {
      assert b == 0 || b == 1;
    }
    ModUnique(v, 2 * m, q2, m * b + r);
  }

  /** Euclidean division is unique. */
  lemma ModUnique(v: int, d: int, q: int, r: int)
    requires d > 0 && 0 <= r < d && v == d * q + r
    ensures v % d == r
  {
    var q0, r0 := v / d, v % d;
    assert d * (q - q0) == r0 - r;
    if q > q0 {
      MulAtLeast(d, q - q0);
    } else if q < q0 {
      assert d * (q0 - q) == r - r0;
      MulAtLeast(d, q0 - q);
    }
  }

  lemma MulAtLeast(d: int, k: int)
    requires d > 0 && k >= 1
    ensures d * k >= d
    decreases k
  {
    if k > 1 {
      MulAtLeast(d, k - 1);
      assert d * k == d * (k - 1) + d;
    }
  }

  /** Each SPI byte is 0xFC exactly when its bit is 1, and 0xC0 otherwise. */
  lemma EncodeComponentBits(v: int)
    ensures forall i | 0 <= i < 8 :: EncodeComponent(v)[i] == OneBit <==> IntBit(v, 7 - i)
    ensures forall i | 0 <= i < 8 :: EncodeComponent(v)[i] == OneBit || EncodeComponent(v)[i] == ZeroBit
  {
  }

  /** So the 8 bytes carry the low byte of the component. */
  lemma {:induction false} DecodeEncodeComponent(v: int)
    ensures DecodeComponent(EncodeComponent(v)) == v % 256
  {
    assert Pow2(7) == 128 by {
      assert Pow2(4) == 16;
    }
    BitValueAt(v, 0, 128);
    BitValueAt(v, 1, 64);
    BitValueAt(v, 2, 32);
    BitValueAt(v, 3, 16);
    BitValueAt(v, 4, 8);
    BitValueAt(v, 5, 4);
    BitValueAt(v, 6, 2);
    BitValueAt(v, 7, 1);
    LowByteBits(v);
  }

  lemma BitValueAt(v: int, i: nat, weight: nat)
    requires i < 8 && weight == Pow2(7 - i)
    ensures BitValue(EncodeComponent(v)[i]) == (v / weight) % 2
  {
  }

  /** Round trip: the pixel shows the encoded colour, modulo 256 per component. */
  lemma DecodeEncodeColor(c: Rgb)
    ensures DecodeColor(EncodeColor(c)) == Shown(c)
  {
    var e := EncodeColor(c);
    assert e[0..8] == EncodeComponent(c.g);
    assert e[8..16] == EncodeComponent(c.r);
    assert e[16..24] == EncodeComponent(c.b);
    DecodeEncodeComponent(c.r);
    DecodeEncodeComponent(c.g);
    DecodeEncodeComponent(c.b);
  }

  /** The data `update_pixels` sends: the pixel encodings one after another. */
  function EncodePixels(colors: seq<Rgb>): (r: seq<byte>)
    ensures |r| == 24 * |colors|
    decreases |colors|
  {
    if colors == [] then []
    else EncodePixels(colors[..|colors| - 1]) + EncodeColor(colors[|colors| - 1])
  }

  /** Bytes 24p .. 24p + 23 of the data are pixel p's encoding. */
  lemma {:induction false} EncodePixelsAt(colors: seq<Rgb>, p: nat)
    requires p < |colors|
    ensures EncodePixels(colors)[24 * p..24 * p + 24] == EncodeColor(colors[p])
    decreases |colors|
  {
    var init := colors[..|colors| - 1];
    var data := EncodePixels(colors);
    assert data == EncodePixels(init) + EncodeColor(colors[|colors| - 1]);
    if p == |colors| - 1 {
      assert data[24 * p..24 * p + 24] == data[|EncodePixels(init)|..];
    } else {
      EncodePixelsAt(init, p);
      assert data[24 * p..24 * p + 24] == EncodePixels(init)[24 * p..24 * p + 24];
    }
  }

  /** The colours a strip of n pixels shows for 24n received bytes. */
  function DecodePixels(bytes: seq<byte>, n: nat): (f: Frame)
    requires |bytes| == 24 * n
    ensures |f| == n
  {
    seq(n, p requires 0 <= p < n => DecodeColor(bytes[24 * p..24 * p + 24]))
  }

  /** Round trip for a whole frame: the strip shows every colour sent, in order. */
  lemma DecodeEncodePixels(colors: seq<Rgb>)
    ensures DecodePixels(EncodePixels(colors), |colors|) == seq(|colors|, p requires 0 <= p < |colors| => Shown(colors[p]))
  {
    forall p | 0 <= p < |colors|
      ensures DecodePixels(EncodePixels(colors), |colors|)[p] == Shown(colors[p])
    {
      DecodePixelAt(colors, p);
    }
  }

  lemma DecodePixelAt(colors: seq<Rgb>, p: nat)
    requires p < |colors|
    ensures DecodePixels(EncodePixels(colors), |colors|)[p] == Shown(colors[p])
  {
    EncodePixelsAt(colors, p);
    DecodeEncodeColor(colors[p]);
  }

  /** `n` copies of one colour (`[c] * n`). */
  function Fill(c: Rgb, n: nat): (f: Frame)
    ensures |f| == n
  {
    seq(n, _ => c)
  }

  /** `clear_led_strip` sends 24n bytes, every one 0xC0. */
  lemma {:induction false} ClearBytes(n: nat)
    ensures EncodePixels(Fill(Black, n)) == Repeat(ZeroBit, 24 * n)
    decreases n
  {
    if n > 0 {
      assert Fill(Black, n)[..n - 1] == Fill(Black, n - 1);
      ClearBytes(n - 1);
      assert EncodeComponent(0) == Repeat(ZeroBit, 8) by {
        forall i | 0 <= i < 8 ensures EncodeComponent(0)[i] == ZeroBit {
          assert 0 / Pow2(7 - i) == 0;
        }
      }
      assert EncodeColor(Black) == Repeat(ZeroBit, 24);
      assert Repeat(ZeroBit, 24 * (n - 1)) + Repeat(ZeroBit, 24) == Repeat(ZeroBit, 24 * n);
    }
  }

  // ---------------------------------------------------------------------------------
  // Frames of the effects

  /** `int(c * i / 255)`: the float quotient truncated toward zero (exact here, since
      |c * i| is far below 2^53). */
  function Scale(c: int, i: int): (s: int)
    ensures 0 <= i <= 255 && 0 <= c ==> 0 <= s <= c
    ensures 0 <= i <= 255 && c <= 0 ==> c <= s <= 0
    ensures i == 0 ==> s == 0
    ensures i == 255 ==> s == c
  {
    var p := c * i;
    if p >= 0 then p / 255 else -((-p) / 255)
  }

  /** A brighter step never gives a dimmer component. */
  lemma ScaleMonotone(c: int, i: int, j: int)
    requires 0 <= c && 0 <= i <= j
    ensures Scale(c, i) <= Scale(c, j)
  {
    assert c * i <= c * j by {
      assert c * (j - i) >= 0;
    }
  }

  function ScaleColor(c: Rgb, i: int): (s: Rgb)
  {
    Rgb(Scale(c.r, i), Scale(c.g, i), Scale(c.b, i))
  }

  /** The brightness steps of the first pulse loop, `range(0, 256, 5)`. */
  function RampUp(): (r: seq<int>)
    ensures |r| == 52 && r[0] == 0 && r[51] == 255
  {
    seq(52, k => 5 * k)
  }

  /** The brightness steps of the second pulse loop, `range(255, -1, -5)`. */
  function RampDown(): (r: seq<int>)
    ensures |r| == 52 && r[0] == 255 && r[51] == 0
  {
    seq(52, k => 255 - 5 * k)
  }

  /** The ramp up visits every multiple of 5 from 0 to 255 in increasing order, and the
      ramp down visits the same values in reverse. */
  lemma Ramps()
    ensures forall v :: v in RampUp() <==> 0 <= v <= 255 && v % 5 == 0
    ensures forall k | 0 <= k < 51 :: RampUp()[k] < RampUp()[k + 1]
    ensures forall k | 0 <= k < 52 :: RampDown()[k] == RampUp()[51 - k]
  {
    forall v | 0 <= v <= 255 && v % 5 == 0
      ensures v in RampUp()
    {
      assert RampUp()[v / 5] == v;
    }
  }

  /** `[scaled_color] * led_count` for each step of a ramp. */
  function Dimmed(c: Rgb, n: nat, ramp: seq<int>): (frames: seq<Frame>)
    ensures |frames| == |ramp|
  {
    seq(|ramp|, k requires 0 <= k < |ramp| => Fill(ScaleColor(c, ramp[k]), n))
  }

  /** One pass of `pulse_color`'s wall-clock loop: 52 frames brightening, 52 dimming. */
  function PulseCycle(c: Rgb, n: nat): (frames: seq<Frame>)
    ensures |frames| == 104
  {
    Dimmed(c, n, RampUp()) + Dimmed(c, n, RampDown())
  }

  /** A pulse starts dark, peaks at the full colour in its two middle frames, and dims
      back exactly as it brightened. */
  lemma PulseCycleShape(c: Rgb, n: nat)
    ensures PulseCycle(c, n)[0] == Fill(Black, n) && PulseCycle(c, n)[103] == Fill(Black, n)
    ensures PulseCycle(c, n)[51] == Fill(c, n) && PulseCycle(c, n)[52] == Fill(c, n)
    ensures forall k | 0 <= k < 104 :: PulseCycle(c, n)[k] == PulseCycle(c, n)[103 - k]
  {
    var cycle := PulseCycle(c, n);
    Ramps();
    assert ScaleColor(c, 255) == c;
    forall k | 0 <= k < 104
      ensures cycle[k] == cycle[103 - k]
    {
      if k < 52 {
        assert cycle[103 - k] == Dimmed(c, n, RampDown())[51 - k];
      } else {
        assert cycle[k] == Dimmed(c, n, RampDown())[k - 52];
      }
    }
  }

  /** Frame i of `animate_up`: `pixels[i]` and `pixels[-(i + 1)]` set, the rest dark. */
  function AnimateUpFrame(c: Rgb, n: nat, i: nat): (f: Frame)
    requires i < n
    ensures |f| == n
    ensures f[i] == c && f[n - 1 - i] == c
    ensures forall p | 0 <= p < n && p != i && p != n - 1 - i :: f[p] == Black
    ensures forall p | 0 <= p < n :: f[p] == f[n - 1 - p]
  {
    seq(n, p requires 0 <= p < n => if p == i || p == n - 1 - i then c else Black)
  }

  function AnimateUpCycle(c: Rgb, n: nat): (frames: seq<Frame>)
    ensures |frames| == n
  {
    seq(n, i requires 0 <= i < n => AnimateUpFrame(c, n, i))
  }

  /** The animation runs the same backwards as forwards. */
  lemma AnimateUpPalindrome(c: Rgb, n: nat)
    ensures forall i | 0 <= i < n :: AnimateUpCycle(c, n)[i] == AnimateUpCycle(c, n)[n - 1 - i]
  {
    forall i | 0 <= i < n
      ensures AnimateUpCycle(c, n)[i] == AnimateUpCycle(c, n)[n - 1 - i]
    {
      var f, g := AnimateUpFrame(c, n, i), AnimateUpFrame(c, n, n - 1 - i);
      assert forall p | 0 <= p < n :: f[p] == g[p];
    }
  }

  /** Frame i of `animate_down`, i < n / 2: the pixels i away from the middle pixel n / 2.
      Both are on the strip, the first pixel stays dark, and the frame is symmetric about
      the middle pixel. */
  function AnimateDownFrame(c: Rgb, n: nat, i: nat): (f: Frame)
    requires i < n / 2
    ensures |f| == n
    ensures 0 < n / 2 - i && n / 2 + i < n && f[n / 2 - i] == c && f[n / 2 + i] == c
    ensures forall p | 0 <= p < n && p != n / 2 - i && p != n / 2 + i :: f[p] == Black
    ensures f[0] == Black
    ensures forall p | 0 <= p < n && 0 <= 2 * (n / 2) - p < n :: f[p] == f[2 * (n / 2) - p]
  {
    seq(n, p requires 0 <= p < n => if p == n / 2 - i || p == n / 2 + i then c else Black)
  }

  function AnimateDownCycle(c: Rgb, n: nat): (frames: seq<Frame>)
    ensures |frames| == n / 2
  {
    seq(n / 2, i requires 0 <= i < n / 2 => AnimateDownFrame(c, n, i))
  }

  /** The frames of `k` passes of a wall-clock loop whose body shows `cycle`. */
  function Repeated(cycle: seq<Frame>, k: nat): (frames: seq<Frame>)
    ensures forall j | 0 <= j < |frames| :: frames[j] in cycle
    ensures k > 0 && cycle != [] ==> frames != [] && frames[|frames| - 1] == cycle[|cycle| - 1]
  {
    if k == 0 then [] else Repeated(cycle, k - 1) + cycle
  }

  /** The effects `run_effect` knows. */
  predicate IsMode(mode: string)
  {
    mode == "pulse" || mode == "solid" || mode == "flash" || mode == "animate_up" || mode == "animate_down"
  }

  datatype EffectError = UnknownMode(mode: string) | BadColor(error: ColorError)

  /** The message `run_effect` prints for an unknown mode. */
  function UnknownModeMessage(mode: string): (m: string)
    ensures StartsWith(m, "Unknown mode: ") && m[|"Unknown mode: "|..] == mode
  {
    "Unknown mode: " + mode
  }

  /** `pulse_color`: `cycles` pulses, then the strip cleared. */
  function PulseFrames(c: Rgb, n: nat, cycles: nat): (frames: seq<Frame>)
  {
    Repeated(PulseCycle(c, n), cycles) + [Fill(Black, n)]
  }

  /** `solid_color`: the colour, then the strip cleared. */
  function SolidFrames(c: Rgb, n: nat): (frames: seq<Frame>)
  {
    [Fill(c, n), Fill(Black, n)]
  }

  /** `flash_color`: `cycles` times the colour and then dark; no final clear. */
  function FlashFrames(c: Rgb, n: nat, cycles: nat): (frames: seq<Frame>)
  {
    Repeated([Fill(c, n), Fill(Black, n)], cycles)
  }

  /** `animate_up`: `cycles` sweeps, then the strip cleared. */
  function AnimateUpFrames(c: Rgb, n: nat, cycles: nat): (frames: seq<Frame>)
  {
    Repeated(AnimateUpCycle(c, n), cycles) + [Fill(Black, n)]
  }

  /** `animate_down`: `cycles` sweeps, then the strip cleared. */
  function AnimateDownFrames(c: Rgb, n: nat, cycles: nat): (frames: seq<Frame>)
  {
    Repeated(AnimateDownCycle(c, n), cycles) + [Fill(Black, n)]
  }

  /** Every frame an effect shows, in order, when its wall-clock loop runs `cycles` times
      (`solid` has no loop). */
  function EffectFrames(c: Rgb, mode: string, n: nat, cycles: nat): (frames: seq<Frame>)
    requires IsMode(mode)
  {
    if mode == "pulse" then PulseFrames(c, n, cycles)
    else if mode == "solid" then SolidFrames(c, n)
    else if mode == "flash" then FlashFrames(c, n, cycles)
    else if mode == "animate_up" then AnimateUpFrames(c, n, cycles)
    else AnimateDownFrames(c, n, cycles)
  }

  /** `run_effect`: an unknown mode is reported before the colour is looked at; a known
      mode parses the colour, and an unparsable colour shows nothing. */
  function Effect(color: string, mode: string, n: nat, cycles: nat): (r: Result<seq<Frame>, EffectError>)
    ensures r == Err(UnknownMode(mode)) <==> !IsMode(mode)
    ensures r.Err? && r.error.BadColor? <==> IsMode(mode) && HexToRgb(color).Err?
    ensures r.Ok? ==> forall k | 0 <= k < |r.value| :: |r.value[k]| == n
    ensures r.Ok? && (mode != "flash" || cycles > 0) ==>
      r.value != [] && r.value[|r.value| - 1] == Fill(Black, n)
  {
    if !IsMode(mode) then Err(UnknownMode(mode))
    else match HexToRgb(color)
      case Err(e) => Err(BadColor(e))
      case Ok(c) =>
        var frames := EffectFrames(c, mode, n, cycles);
        EffectFramesShape(c, mode, n, cycles);
        Ok(frames)
  }

  lemma EffectFramesShape(c: Rgb, mode: string, n: nat, cycles: nat)
    requires IsMode(mode)
    ensures forall k | 0 <= k < |EffectFrames(c, mode, n, cycles)| :: |EffectFrames(c, mode, n, cycles)[k]| == n
    ensures mode != "flash" || cycles > 0 ==>
      EffectFrames(c, mode, n, cycles) != [] &&
      EffectFrames(c, mode, n, cycles)[|EffectFrames(c, mode, n, cycles)| - 1] == Fill(Black, n)
  {
    if mode == "pulse" {
      LoopThenClear(PulseCycle(c, n), n, cycles);
    } else if mode == "flash" {
      RepeatedLength([Fill(c, n), Fill(Black, n)], n, cycles);
    } else if mode == "animate_up" {
      LoopThenClear(AnimateUpCycle(c, n), n, cycles);
    } else if mode == "animate_down" {
      LoopThenClear(AnimateDownCycle(c, n), n, cycles);
    }
  }

  /** A loop over frames of n pixels followed by a clear shows only frames of n pixels and
      ends dark. */
  lemma LoopThenClear(cycle: seq<Frame>, n: nat, cycles: nat)
    requires forall k | 0 <= k < |cycle| :: |cycle[k]| == n
    ensures var frames := Repeated(cycle, cycles) + [Fill(Black, n)];
      (forall k | 0 <= k < |frames| :: |frames[k]| == n) && frames[|frames| - 1] == Fill(Black, n)
  {
    RepeatedLength(cycle, n, cycles);
  }

  lemma RepeatedLength(cycle: seq<Frame>, n: nat, cycles: nat)
    requires forall k | 0 <= k < |cycle| :: |cycle[k]| == n
    ensures forall k | 0 <= k < |Repeated(cycle, cycles)| :: |Repeated(cycle, cycles)[k]| == n
  {
    var frames := Repeated(cycle, cycles);
    forall k | 0 <= k < |frames| ensures |frames[k]| == n {
      assert frames[k] in cycle;
    }
  }

  /** The SPI transfers that show a list of frames. */
  function EncodeFrames(frames: seq<Frame>): (r: seq<seq<byte>>)
    ensures |r| == |frames|
  {
    seq(|frames|, k requires 0 <= k < |frames| => EncodePixels(frames[k]))
  }

  lemma EncodeFramesAppend(a: seq<Frame>, b: seq<Frame>)
    ensures EncodeFrames(a + b) == EncodeFrames(a) + EncodeFrames(b)
  {
  }

  lemma EncodeFramesNext(shown: seq<Frame>, cycle: seq<Frame>, j: nat)
    requires j < |cycle|
    ensures EncodeFrames(shown + cycle[..j + 1]) == EncodeFrames(shown + cycle[..j]) + [EncodePixels(cycle[j])]
  {
    assert shown + cycle[..j + 1] == (shown + cycle[..j]) + [cycle[j]];
    EncodeFramesAppend(shown + cycle[..j], [cycle[j]]);
  }

  // ---------------------------------------------------------------------------------
  // The driver

  /** The strip and its SPI device. `sent` is every `xfer2` payload, in order. */
  class LedStrip {
    const ledCount: nat
    var sent: seq<seq<byte>>

    constructor (ledCount: nat)
      ensures this.ledCount == ledCount && sent == []
    {
      this.ledCount := ledCount;
      sent := [];
    }

    /** `update_pixels`: extend the buffer pixel by pixel, then send it in one transfer. */
    method UpdatePixels(colors: seq<Rgb>)
      modifies this
      ensures sent == old(sent) + [EncodePixels(colors)]
    {
      var data: seq<byte> := [];
      for p := 0 to |colors|
        invariant data == EncodePixels(colors[..p])
      {
        assert colors[..p + 1][..p] == colors[..p];
        data := data + EncodeColor(colors[p]);
      }
      assert colors[..|colors|] == colors;
      sent := sent + [data];
    }

    /** `clear_led_strip`. */
    method ClearLedStrip()
      modifies this
      ensures sent == old(sent) + [EncodePixels(Fill(Black, ledCount))]
    {
      UpdatePixels(Fill(Black, ledCount));
    }

    /** `pulse_color` with its wall-clock loop run `cycles` times. */
    method PulseColor(color: string, cycles: nat) returns (r: Result<(), ColorError>)
      modifies this
      ensures HexToRgb(color).Err? ==> r == Err(HexToRgb(color).error) && sent == old(sent)
      ensures HexToRgb(color).Ok? ==> (r == Ok(()) &&
        sent == old(sent) + EncodeFrames(PulseFrames(HexToRgb(color).value, ledCount, cycles)))
    {
      var parsed := HexToRgb(color);
      if parsed.Err? {
        return Err(parsed.error);
      }
      var rgb := parsed.value;
      ghost var cycle := PulseCycle(rgb, ledCount);
      var k := 0;
      while k < cycles
        invariant k <= cycles
        invariant sent == old(sent) + EncodeFrames(Repeated(cycle, k))
      {
        PulseOnce(old(sent), Repeated(cycle, k), rgb);
        k := k + 1;
      }
      ClearLedStrip();
      EncodeFramesAppend(Repeated(cycle, cycles), [Fill(Black, ledCount)]);
      r := Ok(());
    }

    /** `solid_color`. */
    method SolidColor(color: string) returns (r: Result<(), ColorError>)
      modifies this
      ensures HexToRgb(color).Err? ==> r == Err(HexToRgb(color).error) && sent == old(sent)
      ensures HexToRgb(color).Ok? ==> (r == Ok(()) &&
        sent == old(sent) + EncodeFrames(SolidFrames(HexToRgb(color).value, ledCount)))
    {
      var parsed := HexToRgb(color);
      if parsed.Err? {
        return Err(parsed.error);
      }
      var rgb := parsed.value;
      UpdatePixels(Fill(rgb, ledCount));
      ClearLedStrip();
      r := Ok(());
    }

    /** `flash_color` with its wall-clock loop run `cycles` times. */
    method FlashColor(color: string, cycles: nat) returns (r: Result<(), ColorError>)
      modifies this
      ensures HexToRgb(color).Err? ==> r == Err(HexToRgb(color).error) && sent == old(sent)
      ensures HexToRgb(color).Ok? ==> (r == Ok(()) &&
        sent == old(sent) + EncodeFrames(FlashFrames(HexToRgb(color).value, ledCount, cycles)))
    {
      var parsed := HexToRgb(color);
      if parsed.Err? {
        return Err(parsed.error);
      }
      var rgb := parsed.value;
      ghost var cycle := [Fill(rgb, ledCount), Fill(Black, ledCount)];
      var k := 0;
      while k < cycles
        invariant k <= cycles
        invariant sent == old(sent) + EncodeFrames(Repeated(cycle, k))
      {
        FlashOnce(old(sent), Repeated(cycle, k), rgb);
        k := k + 1;
      }
      r := Ok(());
    }

    /** One pass of `flash_color`'s loop: the colour, then the strip cleared. */
    method FlashOnce(ghost before: seq<seq<byte>>, ghost shown: seq<Frame>, rgb: Rgb)
      requires sent == before + EncodeFrames(shown)
      modifies this
      ensures sent == before + EncodeFrames(shown + [Fill(rgb, ledCount), Fill(Black, ledCount)])
    {
      ghost var cycle := [Fill(rgb, ledCount), Fill(Black, ledCount)];
      assert shown + cycle[..0] == shown;
      ShowNext(before, shown, cycle, 0, Fill(rgb, ledCount));
      ClearLedStrip();
      EncodeFramesNext(shown, cycle, 1);
      assert cycle[..2] == cycle;
    }

    /** `animate_up` with its wall-clock loop run `cycles` times. */
    method AnimateUp(color: string, cycles: nat) returns (r: Result<(), ColorError>)
      modifies this
      ensures HexToRgb(color).Err? ==> r == Err(HexToRgb(color).error) && sent == old(sent)
      ensures HexToRgb(color).Ok? ==> (r == Ok(()) &&
        sent == old(sent) + EncodeFrames(AnimateUpFrames(HexToRgb(color).value, ledCount, cycles)))
    {
      var parsed := HexToRgb(color);
      if parsed.Err? {
        return Err(parsed.error);
      }
      var rgb := parsed.value;
      ghost var cycle := AnimateUpCycle(rgb, ledCount);
      var k := 0;
      while k < cycles
        invariant k <= cycles
        invariant sent == old(sent) + EncodeFrames(Repeated(cycle, k))
      {
        SweepUp(old(sent), Repeated(cycle, k), rgb);
        k := k + 1;
      }
      ClearLedStrip();
      EncodeFramesAppend(Repeated(cycle, cycles), [Fill(Black, ledCount)]);
      r := Ok(());
    }

    /** The `for i in range(self.led_count)` loop of `animate_up`. */
    method SweepUp(ghost before: seq<seq<byte>>, ghost shown: seq<Frame>, rgb: Rgb)
      requires sent == before + EncodeFrames(shown)
      modifies this
      ensures sent == before + EncodeFrames(shown + AnimateUpCycle(rgb, ledCount))
    {
      ghost var cycle := AnimateUpCycle(rgb, ledCount);
      assert shown + cycle[..0] == shown;
      for i := 0 to ledCount
        invariant sent == before + EncodeFrames(shown + cycle[..i])
      {
        var pixels := new Rgb[ledCount](_ => Black);
        pixels[i] := rgb;
        pixels[ledCount - 1 - i] := rgb;
        assert pixels[..] == cycle[i];
        ShowNext(before, shown, cycle, i, pixels[..]);
      }
      assert cycle[..ledCount] == cycle;
    }

    /** `animate_down` with its wall-clock loop run `cycles` times. */
    method AnimateDown(color: string, cycles: nat) returns (r: Result<(), ColorError>)
      modifies this
      ensures HexToRgb(color).Err? ==> r == Err(HexToRgb(color).error) && sent == old(sent)
      ensures HexToRgb(color).Ok? ==> (r == Ok(()) &&
        sent == old(sent) + EncodeFrames(AnimateDownFrames(HexToRgb(color).value, ledCount, cycles)))
    {
      var parsed := HexToRgb(color);
      if parsed.Err? {
        return Err(parsed.error);
      }
      var rgb := parsed.value;
      ghost var cycle := AnimateDownCycle(rgb, ledCount);
      var k := 0;
      while k < cycles
        invariant k <= cycles
        invariant sent == old(sent) + EncodeFrames(Repeated(cycle, k))
      {
        SweepDown(old(sent), Repeated(cycle, k), rgb);
        k := k + 1;
      }
      ClearLedStrip();
      EncodeFramesAppend(Repeated(cycle, cycles), [Fill(Black, ledCount)]);
      r := Ok(());
    }

    /** The `for i in range(self.led_count // 2)` loop of `animate_down`. */
    method SweepDown(ghost before: seq<seq<byte>>, ghost shown: seq<Frame>, rgb: Rgb)
      requires sent == before + EncodeFrames(shown)
      modifies this
      ensures sent == before + EncodeFrames(shown + AnimateDownCycle(rgb, ledCount))
    {
      ghost var cycle := AnimateDownCycle(rgb, ledCount);
      assert shown + cycle[..0] == shown;
      for i := 0 to ledCount / 2
        invariant sent == before + EncodeFrames(shown + cycle[..i])
      {
        var pixels := new Rgb[ledCount](_ => Black);
        pixels[ledCount / 2 - i] := rgb;
        pixels[ledCount / 2 + i] := rgb;
        assert pixels[..] == cycle[i];
        ShowNext(before, shown, cycle, i, pixels[..]);
      }
      assert cycle[..ledCount / 2] == cycle;
    }

    /** `run_effect`, with the number of passes of the effect's wall-clock loop given. */
    method RunEffect(color: string, mode: string, cycles: nat) returns (r: Result<(), EffectError>)
      modifies this
      ensures Effect(color, mode, ledCount, cycles).Ok? ==> (r == Ok(()) &&
        sent == old(sent) + EncodeFrames(Effect(color, mode, ledCount, cycles).value))
      ensures Effect(color, mode, ledCount, cycles).Err? ==>
        r == Err(Effect(color, mode, ledCount, cycles).error) && sent == old(sent)
    {
      var outcome: Result<(), ColorError>;
      if mode == "pulse" {
        outcome := PulseColor(color, cycles);
      } else if mode == "solid" {
        outcome := SolidColor(color);
      } else if mode == "flash" {
        outcome := FlashColor(color, cycles);
      } else if mode == "animate_up" {
        outcome := AnimateUp(color, cycles);
      } else if mode == "animate_down" {
        outcome := AnimateDown(color, cycles);
      } else {
        return Err(UnknownMode(mode));
      }
      r := if outcome.Err? then Err(BadColor(outcome.error)) else Ok(());
    }

    /** One pass of the pulse's wall-clock loop: brighten, then dim. */
    method PulseOnce(ghost before: seq<seq<byte>>, ghost shown: seq<Frame>, rgb: Rgb)
      requires sent == before + EncodeFrames(shown)
      modifies this
      ensures sent == before + EncodeFrames(shown + PulseCycle(rgb, ledCount))
    {
      Brighten(before, shown, rgb);
      Dim(before, shown + Dimmed(rgb, ledCount, RampUp()), rgb);
      assert shown + Dimmed(rgb, ledCount, RampUp()) + Dimmed(rgb, ledCount, RampDown())
        == shown + PulseCycle(rgb, ledCount);
    }

    /** The first loop of a pulse: `for i in range(0, 256, 5)`. */
    method Brighten(ghost before: seq<seq<byte>>, ghost shown: seq<Frame>, rgb: Rgb)
      requires sent == before + EncodeFrames(shown)
      modifies this
      ensures sent == before + EncodeFrames(shown + Dimmed(rgb, ledCount, RampUp()))
    {
      ghost var ramp := Dimmed(rgb, ledCount, RampUp());
      assert shown + ramp[..0] == shown;
      var i := 0;
      ghost var j := 0;
      while i < 256
        invariant 0 <= j <= 52 && i == 5 * j
        invariant sent == before + EncodeFrames(shown + ramp[..j])
      {
        var scaled := ScaleColor(rgb, i);
        assert RampUp()[j] == i;
        ShowNext(before, shown, ramp, j, Fill(scaled, ledCount));
        i := i + 5;
        j := j + 1;
      }
      assert ramp[..52] == ramp;
    }

    /** The second loop of a pulse: `for i in range(255, -1, -5)`. */
    method Dim(ghost before: seq<seq<byte>>, ghost shown: seq<Frame>, rgb: Rgb)
      requires sent == before + EncodeFrames(shown)
      modifies this
      ensures sent == before + EncodeFrames(shown + Dimmed(rgb, ledCount, RampDown()))
    {
      ghost var ramp := Dimmed(rgb, ledCount, RampDown());
      assert shown + ramp[..0] == shown;
      var i := 255;
      ghost var j := 0;
      while i > -1
        invariant 0 <= j <= 52 && i == 255 - 5 * j
        invariant sent == before + EncodeFrames(shown + ramp[..j])
      {
        var scaled := ScaleColor(rgb, i);
        assert RampDown()[j] == i;
        ShowNext(before, shown, ramp, j, Fill(scaled, ledCount));
        i := i - 5;
        j := j + 1;
      }
      assert ramp[..52] == ramp;
    }

    /** Send frame j of a list being shown after `shown`. */
    method ShowNext(ghost before: seq<seq<byte>>, ghost shown: seq<Frame>, ghost frames: seq<Frame>,
                    ghost j: nat, frame: Frame)
      requires j < |frames| && frame == frames[j]
      requires sent == before + EncodeFrames(shown + frames[..j])
      modifies this
      ensures sent == before + EncodeFrames(shown + frames[..j + 1])
    {
      UpdatePixels(frame);
      EncodeFramesNext(shown, frames, j);
    }
  }
}
