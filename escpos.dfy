/** The ESC/POS byte sequences the receipt-printer script sends: text attributes, raster
    images (GS v 0), QR codes (GS ( k), paper feed and cut, and the splitting of long
    payloads into bounded USB writes. Everything here is a pure function of the command;
    module ThermalPrinter performs the writes. */
module EscPos {
  import opened Base

  // ---------------------------------------------------------------------------
  // Command bytes

  const ESC: byte := 0x1B
  const GS: byte := 0x1D
  const LF: byte := 0x0A

  /** ESC @: reset the printer to its power-on settings. */
  const Initialize: seq<byte> := [ESC, 0x40]

  /** GS V 0: full cut. */
  const Cut: seq<byte> := [GS, 0x56, 0x00]

  /** The chunk size every payload is split with. */
  const ChunkSize: nat := 1024

  /** ESC a n: justification (0 left, 1 centre, 2 right). */
  function SelectAlignment(n: byte): seq<byte> { [ESC, 0x61, n] }

  /** `{'left': 0, 'center': 1, 'right': 2}.get(align, fallback)`. */
  function AlignCode(align: string, fallback: byte): (n: byte)
    ensures align == "left" ==> n == 0
    ensures align == "center" ==> n == 1
    ensures align == "right" ==> n == 2
    ensures align !in {"left", "center", "right"} ==> n == fallback
  {
    if align == "left" then 0
    else if align == "center" then 1
    else if align == "right" then 2
    else fallback
  }

  /** GS ! n: character size; the width multiplier minus one in the high nibble, the
      height multiplier minus one in the low nibble. */
  function SizeByte(fontWidth: int, fontHeight: int): (s: byte)
    requires 1 <= fontWidth <= 8 && 1 <= fontHeight <= 8
    ensures s as int == (fontWidth - 1) * 16 + (fontHeight - 1)
    ensures s <= 0x77
    ensures (s >> 4) as int == fontWidth - 1 && (s & 0x0F) as int == fontHeight - 1
  {
    var high := (fontWidth - 1) as bv8;
    var low := (fontHeight - 1) as bv8;
    ByteOfInt(fontWidth - 1);
    ByteOfInt(fontHeight - 1);
    NibbleBits(high, low);
    (high << 4) | low
  }

  /** Shifting a value below 8 into the high nibble and or-ing in a value below 16 is
      `high * 16 + low`, and the two nibbles read back. */
  lemma NibbleBits(high: byte, low: byte)
    requires high < 8 && low < 16
    ensures ((high << 4) | low) as int == high as int * 16 + low as int
    ensures ((high << 4) | low) >> 4 == high && ((high << 4) | low) & 0x0F == low
  {
    assert (high << 4) | low == high * 16 + low;
    assert (high * 16 + low) as int == high as int * 16 + low as int;
  }

  /** The ESC M argument: font B when the requested type is "B" in either case. */
  function FontCode(fontType: string): (f: byte)
    ensures f == 1 <==> fontType == "B" || fontType == "b"
    ensures f <= 1
  {
    if fontType == "B" || fontType == "b" then 1 else 0
  }

  /** The two little-endian bytes of `n` (Python's `n.to_bytes(2, 'little')`). */
  function LittleEndian16(n: nat): (r: seq<byte>)
    requires n < 0x1_0000
    ensures |r| == 2
  {
    [(n % 256) as bv8, (n / 256) as bv8]
  }

  /** The value a device reads back from two little-endian bytes. */
  function ReadLittleEndian16(b: seq<byte>): nat
    requires |b| == 2
  {
    b[0] as int + 256 * b[1] as int
  }

  lemma LittleEndian16RoundTrip(n: nat)
    requires n < 0x1_0000
    ensures ReadLittleEndian16(LittleEndian16(n)) == n
  {
    ByteOfInt(n % 256);
    ByteOfInt(n / 256);
  }

  // ---------------------------------------------------------------------------
  // Chunked transmission

  /** The pieces `send_in_chunks` writes: `data[i:i + size]` for i = 0, size, 2*size, ... */
  function Chunks(data: seq<byte>, size: nat): (r: seq<seq<byte>>)
    requires size > 0
    decreases |data|
  {
    if |data| == 0 then []
    else if |data| <= size then [data]
    else [data[..size]] + Chunks(data[size..], size)
  }

  function Min(a: int, b: int): int { if a <= b then a else b }

  /** There are ceil(|data| / size) chunks: the fewest pieces of `size` bytes that
      cover `data`. */
  lemma {:induction false} ChunksCount(data: seq<byte>, size: nat)
    requires size > 0
    ensures |Chunks(data, size)| * size >= |data|
    ensures |data| > 0 ==> (|Chunks(data, size)| - 1) * size < |data|
    ensures |data| == 0 ==> |Chunks(data, size)| == 0
    decreases |data|
  {
    if |data| > size {
      var n := |Chunks(data[size..], size)|;
      ChunksCount(data[size..], size);
      assert (n + 1) * size == n * size + size;
      assert n * size == (n - 1) * size + size;
    }
  }

  /** Chunk k is exactly the slice `data[k*size : (k+1)*size]`. */
  lemma {:induction false} ChunksAt(data: seq<byte>, size: nat, k: nat)
    requires size > 0
    requires k < |Chunks(data, size)|
    ensures k * size < |data|
    ensures Chunks(data, size)[k] == data[k * size..Min(k * size + size, |data|)]
    decreases |data|
  {
    if k > 0 {
      var rest := data[size..];
      assert Chunks(data, size)[k] == Chunks(rest, size)[k - 1];
      ChunksAt(rest, size, k - 1);
      var j := (k - 1) * size;
      var e := Min(j + size, |rest|);
      assert j + size == k * size;
      assert e + size == Min(k * size + size, |data|);
      assert rest[j..e] == data[size + j..size + e];
    }
  }

  /** Writing the chunks one after another transmits `data` unchanged. */
  lemma {:induction false} ChunksFlatten(data: seq<byte>, size: nat)
    requires size > 0
    ensures Flatten(Chunks(data, size)) == data
    decreases |data|
  {
    if |data| > size {
      ChunksFlatten(data[size..], size);
      assert Chunks(data, size)[1..] == Chunks(data[size..], size);
      assert data == data[..size] + data[size..];
    }
  }

  /** No chunk is empty or longer than `size`, and only the last one may be shorter. */
  lemma {:induction false} ChunksBounded(data: seq<byte>, size: nat)
    requires size > 0
    ensures forall k | 0 <= k < |Chunks(data, size)| :: 0 < |Chunks(data, size)[k]| <= size
    ensures forall k | 0 <= k < |Chunks(data, size)| - 1 :: |Chunks(data, size)[k]| == size
    decreases |data|
  {
    if |data| > size {
      ChunksBounded(data[size..], size);
      assert Chunks(data, size)[1..] == Chunks(data[size..], size);
    }
  }

  // ---------------------------------------------------------------------------
  // Commands

  /** A monochrome raster as the image library hands it over after decoding, resizing,
      inverting and thresholding: `rows[y][x]` is the pixel at (x, y); a pixel of value 0
      becomes a printed dot. */
  datatype Bitmap = Bitmap(width: nat, rows: seq<seq<int>>)
  {
    function Height(): nat { |rows| }

    /** Every row holds `width` pixels, as the image library guarantees. */
    predicate Valid()
    {
      forall y | 0 <= y < |rows| :: |rows[y]| == width
    }
  }

  /** One decoded line of JSON: the keys a command may carry, each present or absent. */
  datatype Command = Command(
    text: Option<seq<byte>>,      // 'text', already encoded as GB18030
    fontWidth: Option<int>,
    fontHeight: Option<int>,
    fontType: Option<string>,
    align: Option<string>,
    bold: Option<bool>,            // truthiness of 'bold'
    underline: Option<bool>,       // truthiness of 'underline'
    image: Option<string>,         // 'image', the base64 text
    raster: Option<Bitmap>,        // what the image library makes of 'image'; None if it fails
    qr: Option<string>,
    size: Option<int>,
    space: Option<int>,
    cut: Option<bool>)             // truthiness of 'cut'

  /** The image library never hands over a ragged raster. */
  predicate WellFormed(c: Command)
  {
    c.raster.Some? ==> c.raster.value.Valid()
  }

  /** What the script reports for one command. */
  datatype Status = Success | Failure(error: PrintError)

  /** The exceptions a command can raise before anything is written. */
  datatype PrintError =
    | BadFontSize          // ValueError from print_text's range check
    | NoImageData          // ValueError: empty or missing 'image'
    | UndecodableImage     // the image library rejected the data
    | HeaderOverflow       // OverflowError from to_bytes(2, 'little')
    | NoQrData             // ValueError: empty or missing 'qr'
    | ByteOutOfRange       // ValueError from bytes([...]) with a value outside 0..255
    | UnknownCommand       // none of the recognised keys

  /** The message the script reports for each error (the image library's own message is
      not modelled). */
  function Message(e: PrintError): string
  {
    match e
    case BadFontSize => "fontWidth and fontHeight must be between 1 and 8"
    case NoImageData => "No image data provided"
    case UndecodableImage => "cannot identify image file"
    case HeaderOverflow => "int too big to convert"
    case NoQrData => "No QR data provided"
    case ByteOutOfRange => "bytes must be in range(0, 256)"
    case UnknownCommand => "Unknown command"
  }

  /** The JSON line the main loop writes after a command: `json.dumps` of
      `{"status": "success"}`, or of `{"status": "error", "message": str(e)}`. */
  function ReplyLine(s: Status): (line: string)
  {
    match s
    case Success => "{\"status\": \"success\"}"
    case Failure(e) => ErrorReplyPrefix + Message(e) + "\"}"
  }

  const ErrorReplyPrefix := "{\"status\": \"error\", \"message\": \""

  /** Different errors are reported with different messages. */
  lemma MessageInjective(e1: PrintError, e2: PrintError)
    ensures Message(e1) == Message(e2) ==> e1 == e2
  {
  }

  /** The reply line tells the host exactly what happened: success, or which error. */
  lemma ReplyLineInjective(s1: Status, s2: Status)
    ensures ReplyLine(s1) == ReplyLine(s2) ==> s1 == s2
  {
    var l1, l2 := ReplyLine(s1), ReplyLine(s2);
    if s1 != s2 {
      if s1.Failure? && s2.Failure? {
        var p := |ErrorReplyPrefix|;
        assert Message(s1.error) == l1[p..|l1| - 2];
        assert Message(s2.error) == l2[p..|l2| - 2];
        MessageInjective(s1.error, s2.error);
      } else {
        assert l1[12] != l2[12];
      }
    }
  }

  function BoolByte(b: bool): byte { if b then 1 else 0 }

  /** The writes `print_text` performs, in order, or the error it raises first. */
  function TextWrites(c: Command): (r: Result<seq<seq<byte>>, PrintError>)
    ensures r.Err? <==> !(1 <= GetOr(c.fontWidth, 1) <= 8 && 1 <= GetOr(c.fontHeight, 1) <= 8)
    ensures r.Err? ==> r.error == BadFontSize
  {
    var width := GetOr(c.fontWidth, 1);
    var height := GetOr(c.fontHeight, 1);
    if !(1 <= width <= 8) || !(1 <= height <= 8) then Err(BadFontSize)
    else Ok(TextSettings(c) + Chunks(GetOr(c.text, []) + [LF], ChunkSize) + [Initialize])
  }

  /** The six settings `print_text` writes before the text. */
  function TextSettings(c: Command): seq<seq<byte>>
    requires 1 <= GetOr(c.fontWidth, 1) <= 8 && 1 <= GetOr(c.fontHeight, 1) <= 8
  {
    [
      Initialize,
      SelectAlignment(AlignCode(GetOr(c.align, "left"), 0)),
      [ESC, 0x45, BoolByte(GetOr(c.bold, false))],
      [ESC, 0x2D, BoolByte(GetOr(c.underline, false))],
      [ESC, 0x4D, FontCode(GetOr(c.fontType, "A"))],
      [GS, 0x21, SizeByte(GetOr(c.fontWidth, 1), GetOr(c.fontHeight, 1))]
    ]
  }

  // ---------------------------------------------------------------------------
  // Raster images (GS v 0)

  /** Bytes per raster row: ceil(width / 8). */
  function WidthBytes(width: nat): nat { (width + 7) / 8 }

  /** The byte for pixels x .. x+7 of `row` after its first `n` bits have been
      considered: bit 7-b is set when pixel x+b lies inside the row and is 0. */
  function PartialByte(row: seq<int>, x: nat, width: nat, n: nat): byte
    requires |row| == width && n <= 8
  {
    if n == 0 then 0
    else
      var bit := n - 1;
      var b := PartialByte(row, x, width, bit);
      if x + bit < width && row[x + bit] == 0 then b | Mask(7 - bit) else b
  }

  function PackByte(row: seq<int>, x: nat, width: nat): byte
    requires |row| == width
  {
    PartialByte(row, x, width, 8)
  }

  /** One packed raster row: WidthBytes(width) bytes, most significant bit first. */
  function PackRow(row: seq<int>, width: nat): (r: seq<byte>)
    requires |row| == width
    ensures |r| == WidthBytes(width)
  {
    seq(WidthBytes(width), j requires 0 <= j < WidthBytes(width) => PackByte(row, 8 * j, width))
  }

  /** The packed rows of a raster, top to bottom. */
  function PackedRows(img: Bitmap): (r: seq<seq<byte>>)
    requires img.Valid()
    ensures |r| == img.Height()
    ensures forall y | 0 <= y < |r| :: |r[y]| == WidthBytes(img.width)
  {
    seq(img.Height(), y requires 0 <= y < img.Height() => PackRow(img.rows[y], img.width))
  }

  /** The whole raster payload, row after row. */
  function PackBitmap(img: Bitmap): (r: seq<byte>)
    requires img.Valid()
    ensures |r| == WidthBytes(img.width) * img.Height()
  {
    FlattenUniformLength(PackedRows(img), WidthBytes(img.width));
    Flatten(PackedRows(img))
  }

  /** Considering bit n-1 adds that bit exactly when its pixel is a dot. */
  lemma PartialByteStep(row: seq<int>, x: nat, width: nat, n: nat, k: nat)
    requires |row| == width && 0 < n <= 8 && k < 8
    ensures BitAt(PartialByte(row, x, width, n), k) <==>
      BitAt(PartialByte(row, x, width, n - 1), k) ||
      (k == 8 - n && x + n - 1 < width && row[x + n - 1] == 0)
  {
    var bit := n - 1;
    if x + bit < width && row[x + bit] == 0 {
      SetBitAt(PartialByte(row, x, width, bit), 7 - bit, k);
    }
  }

  /** After n bits, bit 7-b of the byte is set exactly when b < n and pixel x+b is a dot. */
  lemma {:induction false} PartialByteBits(row: seq<int>, x: nat, width: nat, n: nat, b: nat)
    requires |row| == width && n <= 8 && b < 8
    ensures BitAt(PartialByte(row, x, width, n), 7 - b) <==>
      b < n && x + b < width && row[x + b] == 0
  {
    if n == 0 {
      ZeroBits(7 - b);
    } else {
      PartialByteBits(row, x, width, n - 1, b);
      PartialByteStep(row, x, width, n, 7 - b);
    }
  }

  /** The packing rule: in row y, bit 7-b of byte j is set iff pixel (8j+b, y) exists and
      is 0; bits past the right edge are therefore 0. */
  lemma PackBitmapBit(img: Bitmap, y: nat, j: nat, b: nat)
    requires img.Valid() && y < img.Height() && j < WidthBytes(img.width) && b < 8
    ensures y * WidthBytes(img.width) + j < |PackBitmap(img)|
    ensures BitAt(PackBitmap(img)[y * WidthBytes(img.width) + j], 7 - b) <==>
      8 * j + b < img.width && img.rows[y][8 * j + b] == 0
  {
    FlattenUniformAt(PackedRows(img), WidthBytes(img.width), y, j);
    PartialByteBits(img.rows[y], 8 * j, img.width, 8, b);
  }

  /** How a printer reads a GS v 0 payload of `widthBytes` bytes per row back into dots:
      `Unpack(...)[y][x]` is bit 7 - x%8 of byte x/8 of row y. */
  function Unpack(data: seq<byte>, width: nat, height: nat): (g: seq<seq<bool>>)
    requires |data| == WidthBytes(width) * height
    ensures |g| == height && forall y | 0 <= y < height :: |g[y]| == width
  {
    seq(height, y requires 0 <= y < height =>
      seq(width, x requires 0 <= x < width =>
        UnpackIndexInRange(width, height, y, x);
        BitAt(data[y * WidthBytes(width) + x / 8], 7 - x % 8)))
  }

  lemma UnpackIndexInRange(width: nat, height: nat, y: nat, x: nat)
    requires y < height && x < width
    ensures y * WidthBytes(width) + x / 8 < WidthBytes(width) * height
  {
    assert x / 8 < WidthBytes(width);
    assert y * WidthBytes(width) + WidthBytes(width) <= WidthBytes(width) * height by {
      assert (y + 1) * WidthBytes(width) <= height * WidthBytes(width);
    }
  }

  /** Which pixels are printed as dots. */
  function Dots(img: Bitmap): (g: seq<seq<bool>>)
    requires img.Valid()
  {
    seq(img.Height(), y requires 0 <= y < img.Height() =>
      seq(img.width, x requires 0 <= x < img.width => img.rows[y][x] == 0))
  }

  /** The printer recovers exactly the dots of the image from the packed payload. */
  lemma UnpackPackBitmap(img: Bitmap)
    requires img.Valid()
    ensures Unpack(PackBitmap(img), img.width, img.Height()) == Dots(img)
  {
    var u := Unpack(PackBitmap(img), img.width, img.Height());
    var d := Dots(img);
    forall y | 0 <= y < img.Height()
      ensures u[y] == d[y]
    {
      forall x | 0 <= x < img.width
        ensures u[y][x] == d[y][x]
      {
        PackBitmapBit(img, y, x / 8, x % 8);
        assert 8 * (x / 8) + x % 8 == x;
      }
    }
  }

  /** The writes `print_image` performs, or the error it raises first. */
  function ImageWrites(c: Command): (r: Result<seq<seq<byte>>, PrintError>)
    requires WellFormed(c)
    ensures r.Err? <==>
      GetOr(c.image, "") == "" || c.raster.None? ||
      WidthBytes(c.raster.value.width) >= 0x1_0000 || c.raster.value.Height() >= 0x1_0000
    ensures r.Ok? ==> |r.value| >= 5
  {
    if GetOr(c.image, "") == "" then Err(NoImageData)
    else
      match c.raster
      case None => Err(UndecodableImage)
      case Some(img) =>
        var widthBytes := WidthBytes(img.width);
        if widthBytes >= 0x1_0000 || img.Height() >= 0x1_0000 then Err(HeaderOverflow)
        else
          var header := [
            Initialize,
            SelectAlignment(AlignCode(GetOr(c.align, "center"), 1)),
            [GS, 0x76, 0x30, 0x00],
            LittleEndian16(widthBytes),
            LittleEndian16(img.Height())
          ];
          Ok(header + Chunks(PackBitmap(img), ChunkSize))
  }

  /** A successful image command writes the five header pieces and then, in chunks,
      exactly the packed raster, whose size the header announces. */
  lemma ImageWritesLayout(c: Command)
    requires WellFormed(c)
    ensures ImageWrites(c).Ok? ==>
      var w := ImageWrites(c).value; var img := c.raster.value;
      && |w| >= 5
      && w[0] == Initialize
      && w[1] == [ESC, 0x61, AlignCode(GetOr(c.align, "center"), 1)]
      && w[2] == [GS, 0x76, 0x30, 0x00]
      && |w[3]| == 2 && ReadLittleEndian16(w[3]) == WidthBytes(img.width)
      && |w[4]| == 2 && ReadLittleEndian16(w[4]) == img.Height()
      && Flatten(w[5..]) == PackBitmap(img)
      && |Flatten(w[5..])| == ReadLittleEndian16(w[3]) * ReadLittleEndian16(w[4])
  {
    if ImageWrites(c).Ok? {
      var w := ImageWrites(c).value;
      var img := c.raster.value;
      LittleEndian16RoundTrip(WidthBytes(img.width));
      LittleEndian16RoundTrip(img.Height());
      assert w[5..] == Chunks(PackBitmap(img), ChunkSize);
      ChunksFlatten(PackBitmap(img), ChunkSize);
    }
  }

  // ---------------------------------------------------------------------------
  // QR codes (GS ( k, cn = 49)

  /** The UTF-8 encoding of one Unicode scalar value. */
  function Utf8(c: char): (r: seq<byte>)
    ensures 1 <= |r| <= 4
    ensures |r| == 1 <==> (c as int) < 0x80
  {
    var cp := c as int;
    if cp < 0x80 then [cp as bv8]
    else if cp < 0x800 then [(0xC0 + cp / 0x40) as bv8, (0x80 + cp % 0x40) as bv8]
    else if cp < 0x1_0000 then
      [(0xE0 + cp / 0x1000) as bv8, (0x80 + (cp / 0x40) % 0x40) as bv8, (0x80 + cp % 0x40) as bv8]
    else
      [(0xF0 + cp / 0x4_0000) as bv8, (0x80 + (cp / 0x1000) % 0x40) as bv8,
       (0x80 + (cp / 0x40) % 0x40) as bv8, (0x80 + cp % 0x40) as bv8]
  }

  /** `s.encode('utf-8')`. */
  function Utf8Encode(s: string): (r: seq<byte>)
    ensures |r| >= |s|
    decreases |s|
  {
    if s == [] then [] else Utf8(s[0]) + Utf8Encode(s[1..])
  }

  predicate IsAscii(s: string)
  {
    forall k | 0 <= k < |s| :: (s[k] as int) < 0x80
  }

  /** The encoding has one byte per character exactly when the text is ASCII. */
  lemma {:induction false} Utf8EncodeLength(s: string)
    ensures |Utf8Encode(s)| == |s| <==> IsAscii(s)
    decreases |s|
  {
    if s != [] {
      Utf8EncodeLength(s[1..]);
      assert IsAscii(s) <==> (s[0] as int) < 0x80 && IsAscii(s[1..]) by {
        if IsAscii(s[1..]) && (s[0] as int) < 0x80 {
          forall k | 0 <= k < |s| ensures (s[k] as int) < 0x80 {
            if k > 0 { assert s[k] == s[1..][k - 1]; }
          }
        }
        if IsAscii(s) {
          forall k | 0 <= k < |s| - 1 ensures (s[1..][k] as int) < 0x80 {
            assert s[1..][k] == s[k + 1];
          }
        }
      }
    }
  }

  /** GS ( k pL pH cn fn ...: the prefix of a QR function whose parameter block
      (cn, fn and the data) is pL + 256 pH bytes long. */
  function QrFunction(pL: byte, pH: byte, fn: byte): seq<byte>
  {
    [GS, 0x28, 0x6B, pL, pH, 0x31, fn]
  }

  /** Function 180, store the symbol data: pL = n % 256 and pH = n / 256 for n the number
      of characters plus 3. */
  function QrStore(data: string): (r: seq<byte>)
    requires |data| + 3 < 0x1_0000
    ensures |r| == 8 + |Utf8Encode(data)|
    ensures r[..3] == [GS, 0x28, 0x6B] && r[5..8] == [0x31, 0x50, 0x30]
    ensures ReadLittleEndian16(r[3..5]) == |data| + 3
    ensures r[8..] == Utf8Encode(data)
  {
    var dataLength := |data| + 3;
    LittleEndian16RoundTrip(dataLength);
    var r := [GS, 0x28, 0x6B] + LittleEndian16(dataLength) + [0x31, 0x50, 0x30] + Utf8Encode(data);
    assert r[3..5] == LittleEndian16(dataLength);
    r
  }

  /** The writes `print_qr_code` performs, or the error it raises first. */
  function QrWrites(c: Command): (r: Result<seq<seq<byte>>, PrintError>)
    ensures r.Err? <==>
      GetOr(c.qr, "") == "" || !(0 <= GetOr(c.size, 4) < 256) || |GetOr(c.qr, "")| + 3 >= 0x1_0000
    ensures r.Err? && GetOr(c.qr, "") == "" ==> r.error == NoQrData
    ensures r.Ok? ==> |r.value| == 6
  {
    var data := GetOr(c.qr, "");
    var size := GetOr(c.size, 4);
    if data == "" then Err(NoQrData)
    else if !(0 <= size < 256) then Err(ByteOutOfRange)
    else
      var dataLength := |data| + 3;
      if dataLength / 256 >= 256 then Err(ByteOutOfRange)
      else
        Ok([
          Initialize,
          SelectAlignment(AlignCode(GetOr(c.align, "center"), 1)),
          QrFunction(0x03, 0x00, 0x43) + [size as bv8],                        // 167: module size
          QrFunction(0x03, 0x00, 0x45) + [0x30],                               // 169: error level L
          QrStore(data),                                                       // 180: store
          QrFunction(0x03, 0x00, 0x51) + [0x30]                                // 181: print
        ])
  }

  /** A successful QR command writes, after ESC @ and ESC a n, the functions 167, 169,
      180 and 181 in that order; the size byte is the requested module size, and the
      store command announces len(qr) + 3 parameter bytes. */
  lemma QrWritesLayout(c: Command)
    ensures QrWrites(c).Ok? ==>
      var w := QrWrites(c).value;
      && w[0] == Initialize
      && w[1] == [ESC, 0x61, AlignCode(GetOr(c.align, "center"), 1)]
      && |w[2]| == 8 && w[2][..7] == [GS, 0x28, 0x6B, 0x03, 0x00, 0x31, 0x43]
      && w[2][7] as int == GetOr(c.size, 4)
      && w[3] == [GS, 0x28, 0x6B, 0x03, 0x00, 0x31, 0x45, 0x30]
      && w[4] == QrStore(c.qr.value)
      && |w[4]| >= 8 && w[4][..3] == [GS, 0x28, 0x6B] && w[4][5..8] == [0x31, 0x50, 0x30]
      && ReadLittleEndian16(w[4][3..5]) == |c.qr.value| + 3
      && w[4][8..] == Utf8Encode(c.qr.value)
      && w[5] == [GS, 0x28, 0x6B, 0x03, 0x00, 0x31, 0x51, 0x30]
  {
    if QrWrites(c).Ok? {
      ByteOfInt(GetOr(c.size, 4));
      var w := QrWrites(c).value;
      assert w[2][..7] == QrFunction(0x03, 0x00, 0x43);
    }
  }

  /** The announced parameter length matches the bytes that follow pL pH exactly when the
      QR text is ASCII; for other text it is too small by the extra UTF-8 bytes. */
  lemma QrStoreLengthExact(c: Command)
    requires QrWrites(c).Ok?
    ensures var store := QrWrites(c).value[4];
      ReadLittleEndian16(store[3..5]) == |store| - 5 <==> IsAscii(c.qr.value)
  {
    QrWritesLayout(c);
    Utf8EncodeLength(c.qr.value);
  }

  // ---------------------------------------------------------------------------
  // Feed, cut and dispatch

  /** `b'\n' * space`, written as one piece (empty when space <= 0). */
  function FeedWrites(space: int): (r: seq<seq<byte>>)
    ensures |r| == 1 && |r[0]| == (if space > 0 then space else 0)
    ensures forall k | 0 <= k < |r[0]| :: r[0][k] == LF
  {
    [Repeat(LF, if space > 0 then space else 0)]
  }

  /** The command dispatch of the script's main loop: the first recognised key decides. */
  function Plan(c: Command): (r: Result<seq<seq<byte>>, PrintError>)
    requires WellFormed(c)
    ensures r == Err(UnknownCommand) <==>
      c.text.None? && c.image.None? && c.qr.None? && c.space.None? && c.cut != Some(true)
  {
    if c.text.Some? then TextWrites(c)
    else if c.image.Some? then ImageWrites(c)
    else if c.qr.Some? then QrWrites(c)
    else if c.space.Some? then Ok(FeedWrites(c.space.value))
    else if c.cut == Some(true) then Ok([Cut])
    else Err(UnknownCommand)
  }

  /** 'text' takes priority over every other key, then 'image', then 'qr', then 'space',
      then a truthy 'cut': the lower keys' values do not influence the writes. */
  lemma PlanPriority(c: Command, other: Command)
    requires WellFormed(c) && WellFormed(other)
    ensures c.text.Some? ==>
      Plan(c) == Plan(c.(image := other.image, raster := other.raster, qr := other.qr,
                         size := other.size, space := other.space, cut := other.cut))
    ensures c.text.None? && c.image.Some? ==>
      Plan(c) == Plan(c.(qr := other.qr, size := other.size, space := other.space, cut := other.cut))
    ensures c.text.None? && c.image.None? && c.qr.Some? ==>
      Plan(c) == Plan(c.(space := other.space, cut := other.cut, raster := other.raster))
    ensures c.text.None? && c.image.None? && c.qr.None? && c.space.Some? ==>
      Plan(c) == Plan(c.(cut := other.cut)) && Plan(c) == Ok(FeedWrites(c.space.value))
    ensures c.text.None? && c.image.None? && c.qr.None? && c.space.None? && c.cut == Some(true) ==>
      Plan(c) == Ok([Cut])
  {
  }

  /** A successful text command writes the six settings, then the text followed by LF
      (split into chunks of at most 1024 bytes), then ESC @; the size byte carries the
      width in its high nibble and the height in its low nibble. */
  lemma TextWritesLayout(c: Command)
    ensures TextWrites(c).Ok? ==>
      var w := TextWrites(c).value;
      && |w| >= 8
      && w[0] == Initialize && w[|w| - 1] == Initialize
      && w[1] == [ESC, 0x61, AlignCode(GetOr(c.align, "left"), 0)]
      && w[2] == [ESC, 0x45, if GetOr(c.bold, false) then 1 else 0]
      && w[3] == [ESC, 0x2D, if GetOr(c.underline, false) then 1 else 0]
      && w[4] == [ESC, 0x4D, FontCode(GetOr(c.fontType, "A"))]
      && |w[5]| == 3 && w[5][..2] == [GS, 0x21]
      && (w[5][2] >> 4) as int == GetOr(c.fontWidth, 1) - 1
      && (w[5][2] & 0x0F) as int == GetOr(c.fontHeight, 1) - 1
      && Flatten(w[6..|w| - 1]) == GetOr(c.text, []) + [LF]
      && forall k | 6 <= k < |w| - 1 :: 0 < |w[k]| <= ChunkSize
  {
    if TextWrites(c).Ok? {
      var w := TextWrites(c).value;
      var payload := GetOr(c.text, []) + [LF];
      ChunksFlatten(payload, ChunkSize);
      ChunksBounded(payload, ChunkSize);
      assert w[6..|w| - 1] == Chunks(payload, ChunkSize);
    }
  }
}
