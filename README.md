# Raspberry Pi peripheral scripts, modelled in Dafny

The host application starts one small Python script per peripheral and talks to it in
JSON lines. This project models the logic of five of those scripts:

- the receipt-printer driver, which builds ESC/POS commands;
- the WS2812 LED-strip driver, which sends SPI bytes;
- the barcode-scanner reader;
- the device-identifier script;
- the relay-bank controller.

It proves properties of each model. Hardware access is replaced by state the model can
observe:

- the printer keeps a log of its USB bulk writes;
- the LED strip keeps a log of its SPI transfers;
- the relay bank keeps the current level of each GPIO pin, plus a record of the levels
  held during each one-second wait.

Everything the scripts read from outside arrives as a parameter. That covers input
events, file contents, the random UUID, decoded JSON commands and the raster that the
image library produces.

Modules:

- `Base`: option and result types, bytes, flattening, bit masks.
- `PyText`: the Python `str` operations the scripts use.
- `EscPos`: the printer's byte sequences, as pure functions of a command.
- `ThermalPrinter`: the printer's handlers. These are methods that perform the writes step
  by step, and each is proved to write exactly what `EscPos` computes.
- `Leds`: hex colour parsing, the SPI bit encoding and its decoding, and the frames of
  each effect. It also has the `LedStrip` class, whose effect methods are proved to send
  exactly the encoded frames.
- `Scanner`: the key-event loop, proved against a fold over the events. Lemmas relate
  each reported code to the text typed since the previous ENTER.
- `DeviceId`: the `/proc/cpuinfo` line search and the priority rule that picks the
  identifier.
- `Relays`: the `RelayController` class, with its trigger and request handling.

Behaviour of the code worth noting:

- **Negative colour components.** `hex_to_rgb` accepts a signed digit, so `"#-f0000"`
  gives a red component of -15. Components therefore range over -15..255, not 0..255.
  On the wire the strip shows each component modulo 256, which is what `Leds.Shown`
  states.
- **Pulse scaling.** `int(c * i / 255)` truncates toward zero, so it agrees with floor
  division only for components that are not negative.
- **QR store length field.** The QR store command announces `len(qr) + 3` bytes, counting
  characters, while the data is sent UTF-8 encoded. `EscPos.QrStoreLengthExact` states
  that the announced length is right exactly when the text is ASCII.
- **No pacing of writes.** `send_in_chunks` neither sleeps nor retries between chunks.
  The only retry is the reconnect inside `Printer.write`, which is left out.

## Model

| member | source | states |
|---|---|---|
| EscPos.AlignCode | data/flutter_assets/packages/plankton_pi_package/assets/files/printer_script.py:158-159 | left, center and right map to 0, 1 and 2; any other alignment maps to the handler's fallback |
| EscPos.SizeByte | data/flutter_assets/packages/plankton_pi_package/assets/files/printer_script.py:170-171 | the GS ! byte is (fontWidth-1)*16 + (fontHeight-1), at most 0x77, width in the high nibble and height in the low nibble |
| EscPos.FontCode | data/flutter_assets/packages/plankton_pi_package/assets/files/printer_script.py:165-168 | font 1 exactly for "B" or "b", font 0 otherwise |
| EscPos.LittleEndian16RoundTrip | data/flutter_assets/packages/plankton_pi_package/assets/files/printer_script.py:220-221 | the two little-endian header bytes read back as the number written |
| EscPos.ChunksFlatten | data/flutter_assets/packages/plankton_pi_package/assets/files/printer_script.py:130-134 | concatenating the chunks gives back the data |
| EscPos.ChunksBounded | data/flutter_assets/packages/plankton_pi_package/assets/files/printer_script.py:130-134 | every chunk is non-empty and at most chunk_size long; all but the last are exactly chunk_size |
| EscPos.ChunksCount | data/flutter_assets/packages/plankton_pi_package/assets/files/printer_script.py:132 | the number of chunks is ceil(len(data) / chunk_size) |
| EscPos.ChunksAt | data/flutter_assets/packages/plankton_pi_package/assets/files/printer_script.py:132-133 | chunk k is the slice data[k*size : k*size+size], clipped to the data |
| EscPos.TextWrites | data/flutter_assets/packages/plankton_pi_package/assets/files/printer_script.py:140-185 | print_text fails exactly when a font size is outside 1..8, and the failure is the font-size error |
| EscPos.TextWritesLayout | data/flutter_assets/packages/plankton_pi_package/assets/files/printer_script.py:154-180 | the writes are, in order: ESC @; ESC a with the alignment; ESC E with bold; ESC - with underline; ESC M with the font; GS ! with the size nibbles; then the text plus LF in chunks of at most 1024 bytes; then ESC @ |
| EscPos.PackRow | data/flutter_assets/packages/plankton_pi_package/assets/files/printer_script.py:205-213 | a packed row has ceil(width/8) bytes |
| EscPos.PackBitmapBit | data/flutter_assets/packages/plankton_pi_package/assets/files/printer_script.py:203-213 | in row y, bit 7-b of byte j is set iff pixel (8j+b, y) exists and is 0, so the padding bits past the width are 0 |
| EscPos.UnpackPackBitmap | data/flutter_assets/packages/plankton_pi_package/assets/files/printer_script.py:203-213 | a printer that reads the GS v 0 payload back gets exactly the image's dots |
| EscPos.ImageWrites | data/flutter_assets/packages/plankton_pi_package/assets/files/printer_script.py:187-225 | print_image fails exactly when the image text is empty, the raster is missing, or a header field does not fit 2 bytes |
| EscPos.ImageWritesLayout | data/flutter_assets/packages/plankton_pi_package/assets/files/printer_script.py:214-225 | the writes are ESC @, ESC a with the alignment (center by default), GS v 0 0, the width in bytes and the height as 2 little-endian bytes each, then exactly the packed raster, whose size the header announces |
| EscPos.Utf8EncodeLength | data/flutter_assets/packages/plankton_pi_package/assets/files/printer_script.py:249 | the UTF-8 encoding has one byte per character exactly when the text is ASCII |
| EscPos.QrStore | data/flutter_assets/packages/plankton_pi_package/assets/files/printer_script.py:246-249 | the store command is GS ( k, then pL pH = len(qr)+3 little-endian, then 31 50 30, then the UTF-8 text |
| EscPos.QrWrites | data/flutter_assets/packages/plankton_pi_package/assets/files/printer_script.py:231-252 | print_qr_code fails exactly for empty data, a module size outside 0..255, or a length that does not fit pH; empty data gives the "No QR data" error |
| EscPos.QrWritesLayout | data/flutter_assets/packages/plankton_pi_package/assets/files/printer_script.py:238-250 | the writes are ESC @; ESC a with the alignment (center by default); then Epson's QR functions in order: 167 setting the module size (default 4), 169 setting error correction level L, 180 storing the data (pL pH = len(qr)+3, then the UTF-8 text), and 181 printing the symbol |
| EscPos.QrStoreLengthExact | data/flutter_assets/packages/plankton_pi_package/assets/files/printer_script.py:246-249 | the announced length equals the number of bytes after pL pH iff the QR text is ASCII |
| EscPos.ReplyLineInjective | data/flutter_assets/packages/plankton_pi_package/assets/files/printer_script.py:305-310 | the success line and the error line for each error are pairwise different, so the host can tell from the reply exactly what happened |
| EscPos.MessageInjective | data/flutter_assets/packages/plankton_pi_package/assets/files/printer_script.py:304-310 | the str(e) texts reported for the errors raised at lines 152, 194, 237 and 304 and for the library errors are all different |
| EscPos.FeedWrites | data/flutter_assets/packages/plankton_pi_package/assets/files/printer_script.py:258-261 | feed_paper writes one piece of max(space, 0) LF bytes |
| EscPos.Plan | data/flutter_assets/packages/plankton_pi_package/assets/files/printer_script.py:293-304 | the command is unknown exactly when it has no text, image, qr or space key and no truthy cut |
| EscPos.PlanPriority | data/flutter_assets/packages/plankton_pi_package/assets/files/printer_script.py:293-301 | text takes priority over image, image over qr, qr over space, and space over cut; the lower keys do not affect the writes; a truthy cut alone writes 1D 56 00 |
| ThermalPrinter.Printer.Write | data/flutter_assets/packages/plankton_pi_package/assets/files/printer_script.py:112-116 | a write appends one piece to the log |
| ThermalPrinter.SendInChunks | data/flutter_assets/packages/plankton_pi_package/assets/files/printer_script.py:130-134 | the loop writes exactly the chunks of the data, in order |
| ThermalPrinter.WriteAll | data/flutter_assets/packages/plankton_pi_package/assets/files/printer_script.py:223-224 | the commands are written in list order |
| ThermalPrinter.PackImage | data/flutter_assets/packages/plankton_pi_package/assets/files/printer_script.py:204-213 | the nested y/x/bit loops produce the packed raster, width_bytes*height bytes |
| ThermalPrinter.PackImageRow | data/flutter_assets/packages/plankton_pi_package/assets/files/printer_script.py:206-213 | the x and bit loops for one row produce the packed row |
| ThermalPrinter.PrintText | data/flutter_assets/packages/plankton_pi_package/assets/files/printer_script.py:140-185 | success writes exactly TextWrites; a bad font size writes nothing and reports the error |
| ThermalPrinter.WriteTextSettings | data/flutter_assets/packages/plankton_pi_package/assets/files/printer_script.py:154-171 | writes the six settings commands, in order |
| ThermalPrinter.PrintImage | data/flutter_assets/packages/plankton_pi_package/assets/files/printer_script.py:187-229 | success writes exactly ImageWrites; every error writes nothing |
| ThermalPrinter.PrintQrCode | data/flutter_assets/packages/plankton_pi_package/assets/files/printer_script.py:231-256 | success writes exactly QrWrites; every error writes nothing |
| ThermalPrinter.FeedPaper | data/flutter_assets/packages/plankton_pi_package/assets/files/printer_script.py:258-265 | writes the LF run |
| ThermalPrinter.CutPaper | data/flutter_assets/packages/plankton_pi_package/assets/files/printer_script.py:267-273 | writes 1D 56 00 |
| ThermalPrinter.Execute | data/flutter_assets/packages/plankton_pi_package/assets/files/printer_script.py:292-311 | the dispatch writes exactly Plan's writes and reports success, or writes nothing and reports Plan's error |
| PyText.StripLeading | data/flutter_assets/packages/plankton_pi_package/assets/files/led_and_buzzer_script.py:16 | lstrip('#') drops exactly the leading '#' characters |
| Leds.ParseHex | data/flutter_assets/packages/plankton_pi_package/assets/files/led_and_buzzer_script.py:17 | a slice of at most two characters parses to a value in -15..255, and two hex digits give 16*d0+d1 |
| Leds.SeparatorIsNotBlank | data/flutter_assets/packages/plankton_pi_package/assets/files/led_and_buzzer_script.py:17 | a blank next to a digit is skipped, but U+001C..U+001F are not, so a colour padded with them is an error |
| Leds.ParseHexIsIntHex | data/flutter_assets/packages/plankton_pi_package/assets/files/led_and_buzzer_script.py:17 | the case analysis equals CPython's int(t, 16): strip the whitespace `int` strips (ASCII space, tab, LF, VT, FF, CR and non-ASCII Unicode whitespace, but not U+001C..U+001F), one optional sign, then hex digits |
| Leds.HexToRgb | data/flutter_assets/packages/plankton_pi_package/assets/files/led_and_buzzer_script.py:15-17 | components are in -15..255; a failing literal is at most 2 characters long; four or fewer characters after the '#'s always fail |
| Leds.HexToRgbPairs | data/flutter_assets/packages/plankton_pi_package/assets/files/led_and_buzzer_script.py:15-17 | three hex pairs after the '#'s give the three pair values, whatever follows |
| Leds.HexToRgbFormatHex | data/flutter_assets/packages/plankton_pi_package/assets/files/led_and_buzzer_script.py:15-17 | parsing "#rrggbb" gives back the colour it was formatted from |
| Leds.HexToRgbIgnoresHashes | data/flutter_assets/packages/plankton_pi_package/assets/files/led_and_buzzer_script.py:16 | any number of leading '#' characters parses the same as none |
| Leds.EncodeComponentBits | data/flutter_assets/packages/plankton_pi_package/assets/files/led_and_buzzer_script.py:21-23 | byte i is 0xFC iff bit 7-i of the component is 1, and 0xC0 otherwise |
| Leds.DecodeEncodeComponent | data/flutter_assets/packages/plankton_pi_package/assets/files/led_and_buzzer_script.py:19-24 | the 8 bytes of a component decode to the component modulo 256 |
| Leds.DecodeEncodeColor | data/flutter_assets/packages/plankton_pi_package/assets/files/led_and_buzzer_script.py:19-24 | 24 bytes in G, R, B order decode to the colour shown (each component modulo 256, unchanged for components in 0..255) |
| Leds.EncodePixelsAt | data/flutter_assets/packages/plankton_pi_package/assets/files/led_and_buzzer_script.py:26-30 | bytes 24p..24p+23 of the transfer are pixel p's encoding, and the transfer has 24 bytes per pixel |
| Leds.DecodeEncodePixels | data/flutter_assets/packages/plankton_pi_package/assets/files/led_and_buzzer_script.py:26-30 | the strip shows every colour sent, in order |
| Leds.ClearBytes | data/flutter_assets/packages/plankton_pi_package/assets/files/led_and_buzzer_script.py:32-33 | clearing sends 24*led_count bytes, all 0xC0 |
| Leds.Scale | data/flutter_assets/packages/plankton_pi_package/assets/files/led_and_buzzer_script.py:40 | a scaled component lies between 0 and the component, is 0 at step 0, and equals the component at step 255 |
| Leds.ScaleMonotone | data/flutter_assets/packages/plankton_pi_package/assets/files/led_and_buzzer_script.py:39-41 | a higher step never gives a dimmer component |
| Leds.Ramps | data/flutter_assets/packages/plankton_pi_package/assets/files/led_and_buzzer_script.py:39-46 | the ramp up visits exactly the multiples of 5 in 0..255, increasing; the ramp down visits them in reverse |
| Leds.PulseCycleShape | data/flutter_assets/packages/plankton_pi_package/assets/files/led_and_buzzer_script.py:38-46 | one pulse starts and ends dark, shows the full colour in its two middle frames, and is a mirror image of itself |
| Leds.AnimateUpFrame | data/flutter_assets/packages/plankton_pi_package/assets/files/led_and_buzzer_script.py:68-72 | frame i lights pixels i and led_count-1-i, every other pixel is dark, and the frame is symmetric end to end |
| Leds.AnimateUpPalindrome | data/flutter_assets/packages/plankton_pi_package/assets/files/led_and_buzzer_script.py:68-72 | the sweep reads the same backwards as forwards |
| Leds.AnimateDownFrame | data/flutter_assets/packages/plankton_pi_package/assets/files/led_and_buzzer_script.py:83-86 | frame i lights pixels led_count//2 - i and led_count//2 + i, both on the strip, and every other pixel is dark; pixel 0 stays dark; the frame is symmetric about the middle pixel |
| Leds.Repeated | data/flutter_assets/packages/plankton_pi_package/assets/files/led_and_buzzer_script.py:38-46 | repeated passes show only frames of the pass, and end on the pass's last frame |
| Leds.UnknownModeMessage | data/flutter_assets/packages/plankton_pi_package/assets/files/led_and_buzzer_script.py:105-106 | the message is "Unknown mode: " followed by the mode |
| Leds.Effect | data/flutter_assets/packages/plankton_pi_package/assets/files/led_and_buzzer_script.py:94-106 | an unknown mode is an error, whatever the colour; a known mode with a bad colour is a colour error; otherwise every frame covers the strip and the effect ends dark, except flash run zero times |
| Leds.LedStrip.constructor | data/flutter_assets/packages/plankton_pi_package/assets/files/led_and_buzzer_script.py:8-13 | a strip of led_count pixels with nothing sent yet |
| Leds.LedStrip.UpdatePixels | data/flutter_assets/packages/plankton_pi_package/assets/files/led_and_buzzer_script.py:26-30 | one transfer holding every pixel's encoding, in order |
| Leds.LedStrip.ClearLedStrip | data/flutter_assets/packages/plankton_pi_package/assets/files/led_and_buzzer_script.py:32-33 | one transfer of a fully dark frame |
| Leds.LedStrip.PulseColor | data/flutter_assets/packages/plankton_pi_package/assets/files/led_and_buzzer_script.py:35-47 | sends the pulse frames, then a clear; a bad colour sends nothing and reports the error |
| Leds.LedStrip.PulseOnce | data/flutter_assets/packages/plankton_pi_package/assets/files/led_and_buzzer_script.py:39-46 | one pass of the wall-clock loop sends the 104 frames of one pulse |
| Leds.LedStrip.Brighten | data/flutter_assets/packages/plankton_pi_package/assets/files/led_and_buzzer_script.py:39-42 | sends the 52 brightening frames |
| Leds.LedStrip.Dim | data/flutter_assets/packages/plankton_pi_package/assets/files/led_and_buzzer_script.py:43-46 | sends the 52 dimming frames |
| Leds.LedStrip.SolidColor | data/flutter_assets/packages/plankton_pi_package/assets/files/led_and_buzzer_script.py:49-53 | sends the colour, then a clear |
| Leds.LedStrip.FlashColor | data/flutter_assets/packages/plankton_pi_package/assets/files/led_and_buzzer_script.py:55-62 | sends colour and clear once per pass, with no final clear |
| Leds.LedStrip.FlashOnce | data/flutter_assets/packages/plankton_pi_package/assets/files/led_and_buzzer_script.py:59-62 | one pass sends the colour, then a clear |
| Leds.LedStrip.AnimateUp | data/flutter_assets/packages/plankton_pi_package/assets/files/led_and_buzzer_script.py:64-77 | sends the upward sweeps, then a clear |
| Leds.LedStrip.SweepUp | data/flutter_assets/packages/plankton_pi_package/assets/files/led_and_buzzer_script.py:68-73 | building each frame in place sends exactly that sweep's frames |
| Leds.LedStrip.AnimateDown | data/flutter_assets/packages/plankton_pi_package/assets/files/led_and_buzzer_script.py:79-92 | sends the downward sweeps, then a clear |
| Leds.LedStrip.SweepDown | data/flutter_assets/packages/plankton_pi_package/assets/files/led_and_buzzer_script.py:83-88 | building each frame in place sends exactly that sweep's frames |
| Leds.LedStrip.RunEffect | data/flutter_assets/packages/plankton_pi_package/assets/files/led_and_buzzer_script.py:94-106 | sends exactly the encoded frames of Effect, or nothing when Effect is an error, and reports that error |
| Scanner.KeyText | data/flutter_assets/packages/plankton_pi_package/assets/files/scanner.py:31-36 | a key adds nothing, a single character, or a run of digits; it adds something only for names starting "KEY_" |
| Scanner.KeyTextPiece | data/flutter_assets/packages/plankton_pi_package/assets/files/scanner.py:31-36 | KEY_<piece> adds the piece when it is one character or all digits, and nothing otherwise |
| Scanner.KeyTextFurtherParts | data/flutter_assets/packages/plankton_pi_package/assets/files/scanner.py:32 | only the part before the second underscore counts |
| Scanner.EnterAddsNothing | data/flutter_assets/packages/plankton_pi_package/assets/files/scanner.py:27-36 | ENTER's own name adds no text |
| Scanner.Step | data/flutter_assets/packages/plankton_pi_package/assets/files/scanner.py:25-36 | events other than key presses change nothing; ENTER reports the code and empties it; a key with several names ends the loop; any other press appends its text |
| Scanner.ReadLoop | data/flutter_assets/packages/plankton_pi_package/assets/files/scanner.py:23-36 | the loop's codes, buffer and crash flag are those of the fold over the events |
| Scanner.CrashedStays | data/flutter_assets/packages/plankton_pi_package/assets/files/scanner.py:24-32 | once the loop has died, later events change nothing |
| Scanner.ScanTyping | data/flutter_assets/packages/plankton_pi_package/assets/files/scanner.py:31-36 | events that only type append exactly the text they type |
| Scanner.ScanOneCode | data/flutter_assets/packages/plankton_pi_package/assets/files/scanner.py:23-36 | after the start or after an ENTER, the next ENTER reports exactly the text typed in between and starts an empty code |
| Scanner.StartsEmpty | data/flutter_assets/packages/plankton_pi_package/assets/files/scanner.py:23-30 | the code is empty at the start and right after each ENTER |
| Scanner.ScanCountsEnters | data/flutter_assets/packages/plankton_pi_package/assets/files/scanner.py:27-30 | if nothing raises, exactly one code is reported per ENTER |
| Scanner.ScanStopsAtRaise | data/flutter_assets/packages/plankton_pi_package/assets/files/scanner.py:31 | the first key with several names stops the loop in the state just before it |
| Scanner.NoRaiseNoCrash | data/flutter_assets/packages/plankton_pi_package/assets/files/scanner.py:24-36 | without such a key the loop never dies |
| Scanner.IgnoresNonPresses | data/flutter_assets/packages/plankton_pi_package/assets/files/scanner.py:25 | releases, repeats and other event types change nothing |
| Scanner.FindScanner | data/flutter_assets/packages/plankton_pi_package/assets/files/scanner.py:6-11 | picks the first device whose name contains "Opticon", or none when no name does |
| Scanner.Session | data/flutter_assets/packages/plankton_pi_package/assets/files/scanner.py:13-36 | reports "not found" alone, or "ready" followed by one "scanned" line per code read |
| PyText.Split | data/flutter_assets/packages/plankton_pi_package/assets/files/scanner.py:32 | the parts rejoin to the text, contain no separator, and there are at least two iff the separator occurs |
| PyText.SplitFirst | data/flutter_assets/packages/plankton_pi_package/assets/files/scanner.py:32 | the first part is the text before the first separator |
| PyText.LastFieldAfter | data/flutter_assets/packages/plankton_pi_package/assets/files/device_id_script.py:11 | split(':')[-1] is the text after the last colon |
| PyText.StripPadded | data/flutter_assets/packages/plankton_pi_package/assets/files/device_id_script.py:11 | strip removes exactly the surrounding whitespace |
| DeviceId.Lines | data/flutter_assets/packages/plankton_pi_package/assets/files/device_id_script.py:9 | the lines rejoin to the file; each is non-empty, and every line but the last ends with its only newline |
| DeviceId.SerialLineFirst | data/flutter_assets/packages/plankton_pi_package/assets/files/device_id_script.py:9-11 | the serial is the stripped text after the last ':' of the first line starting with "Serial" |
| DeviceId.SerialLineNone | data/flutter_assets/packages/plankton_pi_package/assets/files/device_id_script.py:6-16 | there is no serial iff no line starts with "Serial" |
| DeviceId.SerialValue | data/flutter_assets/packages/plankton_pi_package/assets/files/device_id_script.py:11 | a line "key: value" gives the value itself, whatever the key |
| DeviceId.GetCpuSerial | data/flutter_assets/packages/plankton_pi_package/assets/files/device_id_script.py:6-16 | the loop with early return gives the first Serial line's value; an unreadable file gives none |
| DeviceId.MacAddress | data/flutter_assets/packages/plankton_pi_package/assets/files/device_id_script.py:18-26 | the stripped file contents, or none when the file cannot be read; contents made of an address with whitespace around it give exactly that address |
| DeviceId.Identifier | data/flutter_assets/packages/plankton_pi_package/assets/files/device_id_script.py:28-38 | always starts "RPI-"; then a non-empty serial, else a non-empty MAC without colons, else the first 8 characters of the UUID |
| DeviceId.IdentifierPriority | data/flutter_assets/packages/plankton_pi_package/assets/files/device_id_script.py:32-38 | an empty serial or MAC counts as missing; a serial makes the MAC and UUID irrelevant; a MAC makes the UUID irrelevant |
| DeviceId.UuidIdentifierLength | data/flutter_assets/packages/plankton_pi_package/assets/files/device_id_script.py:38 | the UUID fallback is 12 characters long |
| DeviceId.AddressGroups | data/flutter_assets/packages/plankton_pi_package/assets/files/device_id_script.py:35 | removing the colons of aa:bb:...:ff runs the groups together |
| DeviceId.GenerateDeviceId | data/flutter_assets/packages/plankton_pi_package/assets/files/device_id_script.py:28-38 | reads both sources and picks the identifier by the rule |
| Relays.Activation | data/flutter_assets/packages/plankton_pi_package/assets/files/relay_script.py:15-19 | during the hold, relay idx is low iff idx is requested |
| Relays.Released | data/flutter_assets/packages/plankton_pi_package/assets/files/relay_script.py:23-24 | every pin high |
| Relays.ActivationBySet | data/flutter_assets/packages/plankton_pi_package/assets/files/relay_script.py:15-19 | only the set of requested channels matters, not order or repetition |
| Relays.ActivationIgnoresUnknown | data/flutter_assets/packages/plankton_pi_package/assets/files/relay_script.py:15-19 | channel numbers that name no relay change nothing |
| Relays.ActivationNone | data/flutter_assets/packages/plankton_pi_package/assets/files/relay_script.py:43 | no channels requested closes no relay |
| Relays.RelayController.constructor | data/flutter_assets/packages/plankton_pi_package/assets/files/relay_script.py:7-10 | one relay per pin, in order, all high |
| Relays.RelayController.TriggerRelays | data/flutter_assets/packages/plankton_pi_package/assets/files/relay_script.py:12-30 | records the activation levels as the hold, then releases every relay, with the relay count unchanged; a channels value that cannot be searched fails before any pin changes |
| Relays.RelayController.Handle | data/flutter_assets/packages/plankton_pi_package/assets/files/relay_script.py:39-51 | "trigger" triggers the given channels, or none when the key is missing; any other method replies "Unknown method <method>" and changes nothing; a malformed line is an error; the reply is ReplyFor of the request |
| Relays.ReplyFor | data/flutter_assets/packages/plankton_pi_package/assets/files/relay_script.py:39-51 | the reply names an unknown method exactly for a parsed line whose method is not "trigger", and only a trigger completes |
| Relays.Serve | data/flutter_assets/packages/plankton_pi_package/assets/files/relay_script.py:38-51 | one reply per line, reply k being ReplyFor of line k; the holds are exactly those the trigger requests call for; all relays end released |
| Relays.HoldPerCompletion | data/flutter_assets/packages/plankton_pi_package/assets/files/relay_script.py:38-51 | there are exactly as many holds as "trigger complete" replies |
| Relays.HoldsShape | data/flutter_assets/packages/plankton_pi_package/assets/files/relay_script.py:15-19 | every hold has one level per relay |

## Left out

- USB device lookup, kernel-driver detach, endpoint discovery, the reconnect on errno 19 and the VENDOR/PRODUCT ids in `Printer`: the printer is an object whose writes always succeed.
- base64 decoding and the image library (open, resize, invert, threshold): the raster arrives already decoded as a pixel grid. `UndecodableImage` stands for every error the library raises, and its own message is not modelled.
- GB18030 encoding of the text: the text arrives as the bytes the encoder produced.
- ThermalPrinter.SendInChunks: requires a positive chunk size; a size of 0 makes Python's `range` raise, and no caller passes one.
- JSON parsing and the line framing of every script. The printer's `Command` record only covers the keys and value types the handlers read. Wrong value types, such as a string font size, are not modelled.
- Leds.ParseHex: Python's `int(t, 16)` also accepts non-ASCII Unicode decimal digits; only ASCII digits are modelled. The whitespace it strips is modelled exactly (`Leds.IntSpace`).
- EscPos.QrWrites and ThermalPrinter.PrintQrCode: a JSON string may hold a lone surrogate (`"\ud800"`), and then `qr_data.encode('utf-8')` raises UnicodeEncodeError before anything is written. A Dafny `string` holds only Unicode scalar values, so this input and this error are not modelled.
- Scanner.KeyText: Python's `str.isdigit()` also accepts non-ASCII digits, while `PyText.IsDigits` accepts only ASCII digits; evdev key names are ASCII.
- Leds.LedStrip.SolidColor: a negative `duration` makes `time.sleep` raise after the colour frame is sent, so the script never sends the clear and reports the error instead; the model always sends the clear. The same holds for `Leds.Effect` and `Leds.LedStrip.RunEffect` on "solid".
- Leds.LedStrip.FlashColor: a negative `flash_duration` would make `time.sleep` raise after the first colour frame; `run_effect` always passes the default 0.5, so this cannot happen through the modelled entry point.
- Leds.Effect: the text of the `ValueError` for an unparsable colour is not modelled, only the literal that failed.
- All sleeps and wall-clock loops. Each effect takes the number of passes its loop makes, `cycles`; `solid` has none.
- The buzzer beeps inside the animations and the LED script's `buzz` method: these are GPIO timing only.
- The `effectComplete` line the LED script prints after every effect, and its `Invalid JSON` replies.
- evdev's device listing and `categorize`: the device names and the events are inputs.
- Scanner.ReadLoop: the scanner's endless event stream is a finite sequence of events.
- Python's whitespace classes are modelled: `PyText.IsSpace` for `str.strip`, and `Leds.IntSpace` for the narrower set `int()` strips. But Python's universal-newline translation of `\r` while reading files is not: the file contents are taken as already translated.
- DeviceId.GetCpuSerial: an error partway through reading the file is not modelled, only a file that cannot be read at all. The error message printed to stderr is not modelled.
- Relays.RelayController.TriggerRelays: the text of the exception message in the error reply is not modelled. A JSON object as `channels` is left out (Python then searches its keys). So are JSON `true` and whole floats in the list, which Python counts as channels 1 and the float's value.
- Relays.RelayController.Handle: a method value that is not a string or null is not modelled.
