/** The receipt-printer driver: a printer whose only observable effect is the sequence of
    bulk writes it receives, and the command handlers that perform those writes step by
    step. Each handler is proved to write exactly the pieces EscPos computes for its
    command, and nothing when the command is rejected. */
module ThermalPrinter {
  import opened Base
  import opened EscPos

  /** An opened printer. `log` is every bulk write sent to its output endpoint, in order. */
  class Printer {
    var log: seq<seq<byte>>

    /** A printer whose device and output endpoint have been found. */
    constructor ()
      ensures log == []
    {
      log := [];
    }

    /** One bulk write. */
    method Write(data: seq<byte>)
      modifies this
      ensures log == old(log) + [data]
    {
      log := log + [data];
    }
  }

  /** `send_in_chunks`: write `data[i:i + chunkSize]` for i = 0, chunkSize, ... */
  method SendInChunks(printer: Printer, data: seq<byte>, chunkSize: nat)
    requires chunkSize > 0
    modifies printer
    ensures printer.log == old(printer.log) + Chunks(data, chunkSize)
  {
    var i := 0;
    while i < |data|
      invariant 0 <= i
      invariant printer.log + Chunks(if i < |data| then data[i..] else [], chunkSize)
        == old(printer.log) + Chunks(data, chunkSize)
    {
      var rest := data[i..];
      var chunk := data[i..Min(i + chunkSize, |data|)];
      if |rest| <= chunkSize {
        assert chunk == rest;
      } else {
        assert chunk == rest[..chunkSize];
        assert data[i + chunkSize..] == rest[chunkSize..];
      }
      printer.Write(chunk);
      i := i + chunkSize;
    }
  }

  /** Write a list of commands one by one (`for cmd in commands: printer.write(cmd)`). */
  method WriteAll(printer: Printer, commands: seq<seq<byte>>)
    modifies printer
    ensures printer.log == old(printer.log) + commands
  {
    for k := 0 to |commands|
      invariant printer.log == old(printer.log) + commands[..k]
    {
      printer.Write(commands[k]);
      assert commands[..k + 1] == commands[..k] + [commands[k]];
    }
  }

  /** The nested y / x / bit loops of `print_image` that fill the raster buffer. */
  method PackImage(img: Bitmap) returns (data: seq<byte>)
    requires img.Valid()
    ensures data == PackBitmap(img)
    ensures |data| == WidthBytes(img.width) * img.Height()
  {
    data := [];
    var y := 0;
    while y < img.Height()
      invariant 0 <= y <= img.Height()
      invariant data == Flatten(PackedRows(img)[..y])
    {
      var rowBytes := PackImageRow(img.rows[y], img.width);
      assert PackedRows(img)[..y + 1] == PackedRows(img)[..y] + [rowBytes];
      FlattenAppend(PackedRows(img)[..y], [rowBytes]);
      assert Flatten([rowBytes]) == rowBytes by {
        assert [rowBytes][1..] == [];
      }
      data := data + rowBytes;
      y := y + 1;
    }
    assert PackedRows(img)[..y] == PackedRows(img);
  }

  /** The x and bit loops of `print_image` for one row: one byte per 8 pixels, bit
      7 - bit set for a pixel of value 0. */
  method PackImageRow(row: seq<int>, width: nat) returns (data: seq<byte>)
    requires |row| == width
    ensures data == PackRow(row, width)
  {
    data := [];
    var x := 0;
    ghost var j := 0;
    while x < width
      invariant x == 8 * j && j <= WidthBytes(width)
      invariant data == PackRow(row, width)[..j]
    {
      var b: byte := 0;
      for bit := 0 to 8
        invariant b == PartialByte(row, x, width, bit)
      {
        if x + bit < width {
          var pixel := row[x + bit];
          if pixel == 0 {
            b := b | (1 << (7 - bit));
          }
        }
      }
      assert PackRow(row, width)[..j + 1] == PackRow(row, width)[..j] + [b];
      data := data + [b];
      x := x + 8;
      j := j + 1;
    }
    assert PackRow(row, width)[..j] == PackRow(row, width);
  }

  /** `print_text`. */
  method PrintText(printer: Printer, c: Command) returns (status: Status)
    modifies printer
    ensures TextWrites(c).Ok? ==>
      status == Success && printer.log == old(printer.log) + TextWrites(c).value
    ensures TextWrites(c).Err? ==>
      status == Failure(TextWrites(c).error) && printer.log == old(printer.log)
  {
    var text := GetOr(c.text, []);
    var fontWidth := GetOr(c.fontWidth, 1);
    var fontHeight := GetOr(c.fontHeight, 1);
    if !(1 <= fontWidth <= 8) || !(1 <= fontHeight <= 8) {
      return Failure(BadFontSize);
    }
    WriteTextSettings(printer, c);
    SendInChunks(printer, text + [LF], ChunkSize);
    printer.Write(Initialize);
    status := Success;
  }

  /** The six settings writes of `print_text`, once the font size is validated. */
  method WriteTextSettings(printer: Printer, c: Command)
    requires 1 <= GetOr(c.fontWidth, 1) <= 8 && 1 <= GetOr(c.fontHeight, 1) <= 8
    modifies printer
    ensures printer.log == old(printer.log) + TextSettings(c)
  {
    var fontType := GetOr(c.fontType, "A");
    var align := GetOr(c.align, "left");
    var bold := GetOr(c.bold, false);
    var underline := GetOr(c.underline, false);
    printer.Write(Initialize);
    printer.Write(SelectAlignment(AlignCode(align, 0)));
    printer.Write([ESC, 0x45, if bold then 1 else 0]);
    printer.Write([ESC, 0x2D, if underline then 1 else 0]);
    printer.Write([ESC, 0x4D, FontCode(fontType)]);
    var sizeByte := SizeByte(GetOr(c.fontWidth, 1), GetOr(c.fontHeight, 1));
    printer.Write([GS, 0x21, sizeByte]);
  }

  /** `print_image`, from the raster the image library produced. */
  method PrintImage(printer: Printer, c: Command) returns (status: Status)
    requires WellFormed(c)
    modifies printer
    ensures ImageWrites(c).Ok? ==>
      status == Success && printer.log == old(printer.log) + ImageWrites(c).value
    ensures ImageWrites(c).Err? ==>
      status == Failure(ImageWrites(c).error) && printer.log == old(printer.log)
  {
    var source := GetOr(c.image, "");
    var align := GetOr(c.align, "center");
    if source == "" {
      return Failure(NoImageData);
    }
    if c.raster.None? {
      return Failure(UndecodableImage);
    }
    var img := c.raster.value;
    var widthBytes := WidthBytes(img.width);
    var bitmap := PackImage(img);
    if widthBytes >= 0x1_0000 || img.Height() >= 0x1_0000 {
      return Failure(HeaderOverflow);
    }
    var commands := [
      Initialize,
      SelectAlignment(AlignCode(align, 1)),
      [GS, 0x76, 0x30, 0x00],
      LittleEndian16(widthBytes),
      LittleEndian16(img.Height())
    ];
    WriteAll(printer, commands);
    SendInChunks(printer, bitmap, ChunkSize);
    status := Success;
  }

  /** `print_qr_code`. */
  method PrintQrCode(printer: Printer, c: Command) returns (status: Status)
    modifies printer
    ensures QrWrites(c).Ok? ==>
      status == Success && printer.log == old(printer.log) + QrWrites(c).value
    ensures QrWrites(c).Err? ==>
      status == Failure(QrWrites(c).error) && printer.log == old(printer.log)
  {
    var data := GetOr(c.qr, "");
    var size := GetOr(c.size, 4);
    var align := GetOr(c.align, "center");
    if data == "" {
      return Failure(NoQrData);
    }
    if !(0 <= size < 256) {
      return Failure(ByteOutOfRange);
    }
    var commands := [
      Initialize,
      SelectAlignment(AlignCode(align, 1)),
      QrFunction(0x03, 0x00, 0x43) + [size as bv8],
      QrFunction(0x03, 0x00, 0x45) + [0x30]
    ];
    var dataLength := |data| + 3;
    if dataLength / 256 >= 256 {
      return Failure(ByteOutOfRange);
    }
    commands := commands + [QrStore(data)];
    commands := commands + [QrFunction(0x03, 0x00, 0x51) + [0x30]];
    WriteAll(printer, commands);
    status := Success;
  }

  /** `feed_paper`. */
  method FeedPaper(printer: Printer, space: int)
    modifies printer
    ensures printer.log == old(printer.log) + FeedWrites(space)
  {
    printer.Write(Repeat(LF, if space > 0 then space else 0));
  }

  /** `cut_paper`. */
  method CutPaper(printer: Printer)
    modifies printer
    ensures printer.log == old(printer.log) + [Cut]
  {
    printer.Write(Cut);
  }

  /** One iteration of the main loop: dispatch on the first recognised key and report the
      outcome. */
  method Execute(printer: Printer, c: Command) returns (status: Status)
    requires WellFormed(c)
    modifies printer
    ensures Plan(c).Ok? ==> status == Success && printer.log == old(printer.log) + Plan(c).value
    ensures Plan(c).Err? ==>
      status == Failure(Plan(c).error) && printer.log == old(printer.log)
  {
    if c.text.Some? {
      status := PrintText(printer, c);
    } else if c.image.Some? {
      status := PrintImage(printer, c);
    } else if c.qr.Some? {
      status := PrintQrCode(printer, c);
    } else if c.space.Some? {
      FeedPaper(printer, c.space.value);
      status := Success;
    } else if c.cut == Some(true) {
      CutPaper(printer);
      status := Success;
    } else {
      status := Failure(UnknownCommand);
    }
  }
}
