# Sming, verified in parts

Sming is a framework for firmware on the ESP8266.  Most of it drives registers; some of it is
algorithms that are easy to get wrong.  This project models those and proves what they promise.

| file | what it models |
|---|---|
| `Ssd1306.dfy` | fast horizontal and vertical lines in the page buffer of the SSD1306 display, against `drawPixel` |
| `FlashMem.dfy` | reads and writes of flash at any alignment, on primitives that only know words and may fail |
| `SerialTx.dfy` | the transmit path of the UART: main thread, interrupt and hardware as one step system |
| `Twi.dfy` | bit-banged I2C, as a trace of SDA and SCL events and a decoder after UM10204 |
| `Raster.dfy`, `Canvas.dfy` | closed forms of line, circle and triangle, and the 16-bit loops of the graphics library |
| `Line.dfy`, `Circle.dfy` | which lines, circles and corners the 16-bit arithmetic gets right |
| `Edges.dfy`, `EdgePairs.dfy`, `Widths.dfy`, `Triangle.dfy` | the same for edges, pairs of edges and triangles |
| `Calendar.dfy`, `HttpDate.dfy`, `HttpTexts.dfy` | Unix time and calendar fields, HTTP dates printed and parsed, and which texts are accepted |
| `StringConversion.dfy`, `Printf.dfy`, `Conversions.dfy` | digits, the bounded formatter and the `printf` that calls it again, and what each conversion prints |
| `WString.dfy` | in-place string replacement and `lastIndexOf` |
| `Fifo.dfy`, `AtClient.dfy` | the ring queue and the AT command client |
| `LongTimer.dfy` | timer intervals beyond the limit of the OS timer |
| `Esptool.dfy` | the firmware image builder and a loader |
| `Arith.dfy`, `Bits.dfy`, `Machine.dfy`, `Wrappers.dfy` | arithmetic facts, bytes as bits, narrow integers, optional values |

Code that changes things in place is modelled by classes, methods and loops, each proved against a
specification on values; the laws are lemmas about that specification.  What the environment decides
is a parameter: which flash primitives fail and how far they get, what the bus reads, how long a slave
stretches the clock, when the interrupt and the shift register run, which replies and callback results
an AT command gets.

## What turned out false of the code

Each has a lemma with a condition that a caller can check, exact unless said otherwise, and an input.

- A fast line on the SSD1306 differs from the pixel-by-pixel line exactly when its length is so negative
  that clipping wraps around in 16 bits; it then paints a whole row or column (`Ssd1306.AgreesUnlessUnderflow`).
- The counts that `flashmem_write` and `flashmem_read` return are wrong for some failure exactly when the range
  has a tail: the tail is counted as moved (`FlashMem.CountExactIff`, `FlashMem.CountExample`).
- A UART write with TXWAIT can hang exactly when it is given more bytes than there is room: FIFO and ring, or the
  ring alone if bytes are queued when it starts (`SerialTx.WaitingWriteHangsIffOverfull`, `SerialTx.TwoBytesHang`).
- An I2C read of no bytes clocks 2^32 bytes (`Twi.ClockedExactIff`).
- A line that goes to 32767 along its major axis never ends, because its `int16_t` never gets past it (`Line.LineEndsIff`,
  `Line.RightmostLineHangs`).  A triangle that is not flat divides by zero exactly when its upper two corners are on scanline
  -32768 (`Triangle.DividesByZeroIff`, `Triangle.TopmostTriangleDivides`), and of the others those with a corner on scanline
  32767 never end (`Triangle.TriangleEndings`, `Triangle.LowestTriangleHangs`).
- Of the lines that end, those longer than 32767 along their major axis bend (`Line.LineExactIff`, `Line.LongLineBends`).
- A circle is wrong exactly when its bounding square does not fit or its radius is more than 16556 and neither 16642 nor 16643
  (`Circle.CircleExactIff`, `Circle.LargeCircleWrong`).
- A triangle that ends is wrong exactly when a span next to its middle corner is wider than 32767 or an edge does not fit
  (`Triangle.TriangleExactIff`, `Triangle.NarrowIff`, `Triangle.WideTriangleWrong`).  Edges too wide or too high that are right all the same are upright, a single scanline high,
  or diagonals; one more is saved because its last scanline is drawn with another edge (`Edges.EdgeExactIff`), and one family
  of triangles because two wrong sides are exchanged (`Triangle.MirroredTriangleFits`).
- The generic fast lines plot 2 - h pixels for a length h below 1 (`Raster.FastLinesNeedPositiveLength`).
- Adding milliseconds goes wrong exactly when their sum with those held overflows 32 bits (`Calendar.PassedExactIff`,
  `Calendar.LargestStepGoesBack`).
- The French names lose July in an HTTP date, and milliseconds are always lost (`HttpDate.RoundTripExact`,
  `HttpDate.FrenchLosesJuly`).
- `ltoa_wp`, and so "%d", prints the least 32-bit number as a bare sign (`StringConversion.LongTextExactIff`,
  `Printf.LeastIntIsBareSign`); an integer conversion with a width of 40 or more does not fit in the buffer for
  one number (`Printf.OverrunsIffWide`, `Printf.WideNumberOverruns`).
- An AT command with no retries, which is the default, or without `breakOnError` and with a completion
  callback that declines, is sent more often than its retries say (`AtClient.BoundedIffGuarded`).
- A timer interval that needs 65536 OS intervals or more ends far too early (`LongTimer.AchievedIff`), one whose
  divider is a multiple of 2^32 divides by zero (`LongTimer.DividesUnlessWrapped`), and a one-shot timer that needs
  no counting still says it is started after it fired (`LongTimer.OneShotFiresOnce`).
- An image of more than 255 sections does not load as what it was built from (`Esptool.LoadsIffCountFits`).

Code and documentation disagree in two places; the model follows the code.  `DateTime.h` gives
`Milliseconds` as 0 to 999 and `DayofYear` as 0 to 365, but negative steps leave negative milliseconds and the
first of January is day 1.

## Model

| member | source | states |
|---|---|---|
| `Ssd1306.AgreesUnlessUnderflow` | Sming/Libraries/Adafruit_SSD1306/Adafruit_SSD1306.cpp:537-752 | For every rotation, start and length, the fast line and one `drawPixel` per pixel leave the same buffer, whatever the buffer and colour, if and only if clipping the length does not underflow its 16 bits |
| `Ssd1306.FastIsPixelByPixel` | Sming/Libraries/Adafruit_SSD1306/Adafruit_SSD1306.cpp:537-752 | The picture a fast line leaves is the picture of the pixel-by-pixel line, clipping on all sides and lengths below one included |
| `Ssd1306.UnderflowIsVisible` | Sming/Libraries/Adafruit_SSD1306/Adafruit_SSD1306.cpp:576-587 | In the underflow case an INVERSE line changes the buffer although it has no pixel |
| `Ssd1306.UnderflowExample` | Sming/Libraries/Adafruit_SSD1306/Adafruit_SSD1306.cpp:549-579 | A concrete call that underflows: rotation 2, origin, width -32700 |
| `Ssd1306.PixelByPixelDraws` | Sming/Libraries/Adafruit_SSD1306/Adafruit_SSD1306.cpp:114-142 | Calling `drawPixel` once per pixel inks exactly the rotated and clipped image of the line on the panel, every pixel once |
| `Ssd1306.PlotLands` | Sming/Libraries/Adafruit_SSD1306/Adafruit_SSD1306.cpp:114-142 | `drawPixel` sets, clears or inverts the one panel pixel that lies x and y steps from the origin, the steps and the corner that is the origin being turned clockwise by a quarter per rotation; outside the picture, whose sides odd rotations exchange, no pixel changes |
| `Ssd1306.RotationTurns` | Sming/Libraries/Adafruit_SSD1306/Adafruit_SSD1306.cpp:119-132 | One step right or down moves by one panel pixel, in the direction turned as often as the rotation says |
| `Ssd1306.FastLineHas` | Sming/Libraries/Adafruit_SSD1306/Adafruit_SSD1306.cpp:537-637 | The start the fast form computes for each rotation covers the same panel pixels as rotating every pixel |
| `Ssd1306.ClippedCovers` | Sming/Libraries/Adafruit_SSD1306/Adafruit_SSD1306.cpp:571-587 | Clipping start and length keeps exactly the pixels of the line that are on the panel |
| `Ssd1306.ClipCovers` | Sming/Libraries/Adafruit_SSD1306/Adafruit_SSD1306.cpp:646-661 | The same for one axis, in 16-bit arithmetic, for every length that does not underflow |
| `Ssd1306.DrawnIsUnique` | Sming/Libraries/Adafruit_SSD1306/Adafruit_SSD1306.cpp:114-142 | Which pixels are inked, with which colour, determines the whole buffer |
| `Ssd1306.DrawnGrows` | Sming/Libraries/Adafruit_SSD1306/Adafruit_SSD1306.cpp:691-696 | Painting one byte through a mask extends the inked part of a line by the masked pixels and touches no other pixel |
| `Ssd1306.FirstMaskIsBand` | Sming/Libraries/Adafruit_SSD1306/Adafruit_SSD1306.cpp:677-689 | The table entry for the first byte, narrowed if the line ends in it, masks exactly the rows of the line in that byte |
| `Ssd1306.LastMaskIsBand` | Sming/Libraries/Adafruit_SSD1306/Adafruit_SSD1306.cpp:738-744 | The table entry for the last byte masks exactly the remaining rows |
| `Ssd1306.RowMaskIsBand` | Sming/Libraries/Adafruit_SSD1306/Adafruit_SSD1306.cpp:596 | The shifted mask of a horizontal line is its row |
| `Ssd1306.SolidBytes` | Sming/Libraries/Adafruit_SSD1306/Adafruit_SSD1306.cpp:707-735 | Storing 255, 0 or the complement paints eight rows at once, as eight masked writes would |
| `Ssd1306.Display.SetRotation` | Sming/Libraries/Adafruit_GFX/Adafruit_GFX.cpp:496-510 | The rotation is taken modulo four; buffer and geometry stay as they are |
| `Ssd1306.Display.DrawPixel` | Sming/Libraries/Adafruit_SSD1306/Adafruit_SSD1306.cpp:114-142 | One pixel is set, cleared or inverted at its rotated place; outside the screen nothing happens |
| `Ssd1306.Display.DrawFastHLineInternal` | Sming/Libraries/Adafruit_SSD1306/Adafruit_SSD1306.cpp:571-604 | The pointer loop inks exactly the clipped row |
| `Ssd1306.Display.DrawFastVLineInternal` | Sming/Libraries/Adafruit_SSD1306/Adafruit_SSD1306.cpp:640-673 | First byte, whole bytes and last byte together ink exactly the clipped column |
| `Ssd1306.Display.DrawColumn` | Sming/Libraries/Adafruit_SSD1306/Adafruit_SSD1306.cpp:663-704 | The same for a column already clipped, beginning with the masked first byte |
| `Ssd1306.Display.DrawWholeBytes` | Sming/Libraries/Adafruit_SSD1306/Adafruit_SSD1306.cpp:707-751 | From a byte boundary on, the loop of whole bytes and the masked last byte ink the rest of the column |
| `Ssd1306.Display.DrawFastHLine` | Sming/Libraries/Adafruit_SSD1306/Adafruit_SSD1306.cpp:537-569 | The new buffer is the old one after the pixel-by-pixel row, unless clipping underflows |
| `Ssd1306.Display.DrawFastVLine` | Sming/Libraries/Adafruit_SSD1306/Adafruit_SSD1306.cpp:606-637 | The new buffer is the old one after the pixel-by-pixel column, unless clipping underflows |
| `FlashMem.Flash.Write` | Sming/system/flashmem.c:41-111 | For any address, size and alignment and any pattern of failing primitives: no byte outside the range changes, the programmed bytes are a first part of the range and each is old AND new, and without a failure all of it is programmed; inside the device the pattern of failures decides how far it comes; the returned count |
| `FlashMem.CountExactIff` | Sming/system/flashmem.c:41-171 | For a range inside the device, the count that a write or a read returns is what completed primitives have moved, under every pattern of failures, if and only if the range has no tail |
| `FlashMem.TailCounted` | Sming/system/flashmem.c:79-94 | With a tail, failing the primitive after the head returns the tail as moved although nothing after the head was |
| `FlashMem.CountExample` | Sming/system/flashmem.c:79-94 | Five bytes to address 0 while the first primitive fails: 1 is returned and nothing was written |
| `FlashMem.Flash.WriteAligned` | Sming/system/flashmem.c:79-111 | The same from the first aligned address on, continuing a head already written |
| `FlashMem.Flash.WriteTail` | Sming/system/flashmem.c:96-110 | The last part of a unit is read, overlaid and written back; bytes of that unit behind the range keep their value |
| `FlashMem.Flash.WriteBlocks` | Sming/system/flashmem.c:83-94 | The loop over the temporary buffer programs a first part of the aligned range, up to and including the primitive that fails |
| `FlashMem.Flash.WriteBlock` | Sming/system/flashmem.c:86-91 | One block: programmed behind what was written so far, or a first part of it |
| `FlashMem.Flash.OverlayUnit` | Sming/system/flashmem.c:53-77 | Reading a unit, laying data over it and programming it changes only the bytes of the data |
| `FlashMem.OverlayWrites` | Sming/system/flashmem.c:59-69 | Programming a unit with its own bytes around the data is programming just the data, also if it stops half way |
| `FlashMem.CopyOver` | Sming/system/flashmem.c:62-66 | The copy loop replaces just the overlaid bytes |
| `FlashMem.Flash.WriteInternal` | Sming/system/flashmem.c:248-261 | A primitive programs its range by AND, or fails after a first part of it and returns 0 |
| `FlashMem.Flash.ReadInternal` | Sming/system/flashmem.c:263-276 | A primitive reads its range, or fails and returns 0 |
| `FlashMem.Flash.Read` | Sming/system/flashmem.c:113-171 | For any address, size and alignment and any failures: a first part of the destination holds the addressed bytes, the rest of it is untouched, and without a failure all of them arrive; the returned count, as for a write |
| `FlashMem.Flash.ReadAligned` | Sming/system/flashmem.c:143-171 | The same from the first aligned address on |
| `FlashMem.Flash.ReadBlocks` | Sming/system/flashmem.c:147-158 | The block loop delivers a first part of the aligned range |
| `FlashMem.Flash.ReadBlock` | Sming/system/flashmem.c:150-157 | One block delivered to its place, or nothing |
| `FlashMem.Flash.ReadUnit` | Sming/system/flashmem.c:125-141 | Part of a unit is delivered and nothing else in the destination changes |
| `FlashMem.Flash.WriteThenRead` | Sming/system/flashmem.c:41-171 | Data written to erased flash is read back unchanged, for every pair of alignments |
| `FlashMem.ErasedHoldsData` | Sming/system/flashmem.c:41-111 | Erased cells programmed by AND hold exactly the data |
| `SerialTx.TransmittedInOrder` | Sming/system/uart.cpp:263-387 | In every interleaving of `uart_write`, the interrupt and the hardware, wire, FIFO and ring together are the accepted bytes in order, the FIFO stays within its limit, and queued bytes never wait with the interrupt disabled between calls |
| `SerialTx.StepKeepsInv` | Sming/system/uart.cpp:263-387 | Every single step keeps the invariant behind that, the separate FULL test and store included |
| `SerialTx.RunKeepsInv` | Sming/system/uart.cpp:263-387 | So does every run |
| `SerialTx.InitialInv` | Sming/system/uart.cpp:263-387 | The invariant holds at the start |
| `SerialTx.StoreKeepsInv` | Sming/system/uart.cpp:366-369 | Between the FULL test and the store into the FIFO nothing else can fill it |
| `SerialTx.PublishKeepsInv` | Sming/system/uart.cpp:371-375 | Advancing the write position publishes the byte stored before and no other |
| `SerialTx.IsrKeepsInv` | Sming/system/uart.cpp:263-286 | The interrupt moves bytes from the ring to the FIFO in order, and disables itself only with both empty |
| `SerialTx.EverythingCanDrain` | Sming/system/uart.cpp:263-286 | From every reachable state between calls the interrupt and the hardware alone can put every accepted byte on the wire |
| `SerialTx.WaitingWriteHangsIffOverfull` | Sming/system/uart.cpp:356-387 | From every state between calls, a write can hang if and only if it waits (TXWAIT), there is a ring that can hold something, and it is given more bytes than there is room for: FIFO and ring if nothing is queued at its start, the ring alone otherwise |
| `SerialTx.ReturnsOrStalls` | Sming/system/uart.cpp:263-387 | From every state inside a call some run returns, or gets into that stall: there is no other way to hang |
| `SerialTx.EnoughRoomReturns` | Sming/system/uart.cpp:356-387 | Every call that does not meet the condition can return |
| `SerialTx.AloneEnds` | Sming/system/uart.cpp:365-387 | With the interrupt disabled the main thread and the hardware alone bring a call to its end, or into the stall |
| `SerialTx.TwoBytesHang` | Sming/system/uart.cpp:356-387 | Two bytes can hang in a state that a run from the start reaches: 127 bytes of an earlier write have left, the last one is queued in a ring of two, and the interrupt is enabled |
| `SerialTx.OneByteLeft` | Sming/system/uart.cpp:356-387 | The run that reaches it |
| `SerialTx.ReturnedCallAccepted` | Sming/system/uart.cpp:356-387 | Whenever a call has returned, in every run: what it accepted is a first part of its data, all of it with TXWAIT; without, all of it or at least as many bytes as there were free places at its start, in the ring and, if nothing was queued, in the FIFO |
| `SerialTx.StepPace` | Sming/system/uart.cpp:263-387 | Every step keeps the bounds behind that |
| `SerialTx.IsrMovesAll` | Sming/system/uart.cpp:269-285 | The handler moves the oldest queued byte until the ring is empty or the FIFO full, and stays enabled if and only if the FIFO is not empty then |
| `SerialTx.IsrEnters` | Sming/system/uart.cpp:266-285 | With nothing queued it disables itself |
| `SerialTx.StalledForever` | Sming/system/uart.cpp:365-383 | A stalled call never leaves its loop, in any continuation |
| `SerialTx.StallNeedsMoreThanRoom` | Sming/system/uart.cpp:365-383 | A call that stalls in any run was given more bytes than there was room |
| `SerialTx.RunsIntoStall` | Sming/system/uart.cpp:365-383 | Given more bytes than room, with the interrupt disabled, the main thread left alone runs into the stall |
| `SerialTx.RunFromEmpty` | Sming/system/uart.cpp:365-383 | In a call that began with an empty ring, bytes go to the ring only after FIFO room was used up, in every run |
| `SerialTx.RunOwnBytes` | Sming/system/uart.cpp:263-383 | Once the interrupt is disabled during a call, all that is queued is of that call, in every run |
| `SerialTx.BecomesQuiet` | Sming/system/uart.cpp:263-383 | Every call that is given more than the room can get into its loop with the interrupt disabled |
| `SerialTx.DrainsQuietly` | Sming/system/uart.cpp:263-286 | The interrupt and the hardware can empty ring and FIFO, and then the interrupt disables itself |
| `SerialTx.RingSizes` | Sming/system/include/SerialBuffer.h:31-56 | `available` and `getFreeSpace` count the queued bytes and the free places; one place always stays free |
| `SerialTx.RingRead` | Sming/system/include/SerialBuffer.h:80-88 | `readChar` takes the oldest byte |
| `SerialTx.RingPut` | Sming/system/include/SerialBuffer.h:90-95 | The first store of `writeChar` is not visible to a reader |
| `SerialTx.RingPublish` | Sming/system/include/SerialBuffer.h:96-97 | The second store appends the byte |
| `Twi.Master.WriteTo` | Sming/SmingCore/core_esp8266_si2c.cpp:187-214 | From an idle bus the decoder sees START, the seven address bits with the lowest bit 0, the data bytes up to the first NACK, and STOP if asked for; the return code says which byte was refused; after a success follow clock pulses as long as SDA reads low, at most ten |
| `Twi.Master.ReadFrom` | Sming/SmingCore/core_esp8266_si2c.cpp:216-239 | From an idle bus the decoder sees START, the seven address bits with the lowest bit 1, the bytes that are returned, ACK after each but the last and NACK after that, and STOP if asked for; as many bytes as the unsigned loop bound gives, and the same clock pulses after a success |
| `Twi.ClockedExactIff` | Sming/SmingCore/core_esp8266_si2c.cpp:226-228 | A read clocks as many bytes as asked for if and only if that is at least one; a read of none clocks 2^32 |
| `Twi.ParseRecovers` | Sming/SmingCore/core_esp8266_si2c.cpp:167-185 | A receiver that cuts the decoded bits into nine recovers each byte, most significant bit first, and its ACK or NACK |
| `Twi.NoConditionInside` | Sming/SmingCore/core_esp8266_si2c.cpp:137-165 | No START or STOP occurs inside a transfer: SDA changes only while SCL is low, as section 3.1.3 of UM10204 demands |
| `Twi.Master.WriteStart` | Sming/SmingCore/core_esp8266_si2c.cpp:109-119 | SDA falls while SCL is high, once; or, if SDA reads low, there is no START and the decoder is where it was |
| `Twi.Master.WriteStop` | Sming/SmingCore/core_esp8266_si2c.cpp:121-135 | SDA rises while SCL is high, once, and the bus is idle |
| `Twi.Master.WriteBit` | Sming/SmingCore/core_esp8266_si2c.cpp:137-151 | The decoder sees one data bit, for any clock stretching |
| `Twi.Master.ReadBit` | Sming/SmingCore/core_esp8266_si2c.cpp:153-165 | The decoder sees one data bit, the one returned |
| `Twi.Master.WriteByte` | Sming/SmingCore/core_esp8266_si2c.cpp:167-175 | Eight data bits from the top of the byte down, then the acknowledge bit read from the bus |
| `Twi.Master.ReadByte` | Sming/SmingCore/core_esp8266_si2c.cpp:177-185 | The returned byte is the eight bits on the bus, top first, and the acknowledge bit is driven after them |
| `Twi.Master.SendData` | Sming/SmingCore/core_esp8266_si2c.cpp:197-203 | The data loop stops at the first NACK |
| `Twi.Master.ReceiveData` | Sming/SmingCore/core_esp8266_si2c.cpp:226-228 | The read loop acknowledges every byte but the last |
| `Twi.Master.Recover` | Sming/SmingCore/core_esp8266_si2c.cpp:206-212 | At most ten clock pulses, one for each time SDA read low, and no START or STOP |
| `Raster.LineHitsEnds` | Sming/Libraries/Adafruit_GFX/Adafruit_GFX.cpp:167-206 | A line begins and ends exactly at its end points |
| `Raster.RungIsNearest` | Sming/Libraries/Adafruit_GFX/Adafruit_GFX.cpp:181-205 | The minor coordinate is the only one within half a pixel of the ideal line, ties included |
| `Raster.LineSymmetric` | Sming/Libraries/Adafruit_GFX/Adafruit_GFX.cpp:170-183 | Exchanging the end points plots the same points in the same order |
| `Raster.RungSteps` | Sming/Libraries/Adafruit_GFX/Adafruit_GFX.cpp:194-205 | From one column to the next the line moves by at most one pixel |
| `Raster.LineStaysInside` | Sming/Libraries/Adafruit_GFX/Adafruit_GFX.cpp:167-206 | No point of a line lies beyond its end points |
| `Raster.FastLinesNeedPositiveLength` | Sming/Libraries/Adafruit_GFX/Adafruit_GFX.cpp:218-228 | The generic fast lines plot as many pixels as their length says if and only if it is at least 1 |
| `Machine.LoopEndsIff` | Sming/Libraries/Adafruit_GFX/Adafruit_GFX.cpp:194 | A loop over an `int16_t` that counts until it is past its last value ends if and only if that value is below 32767 |
| `Canvas.Gfx.DrawLine` | Sming/Libraries/Adafruit_GFX/Adafruit_GFX.cpp:167-206 | In 16-bit arithmetic: the call ends exactly when its loop does, and what is plotted then is the closed form, one point per step along the major axis, if and only if the length along that axis is at most 32767 |
| `Canvas.Gfx.Trace` | Sming/Libraries/Adafruit_GFX/Adafruit_GFX.cpp:181-205 | The loop ends unless the line goes to 32767, and plots what the 16-bit recurrence of the error term says |
| `Line.LineEndsIff` | Sming/Libraries/Adafruit_GFX/Adafruit_GFX.cpp:170-205 | For all 16-bit ends the loop of a line ends if and only if its larger major coordinate is below 32767 |
| `Line.RightmostLineHangs` | Sming/Libraries/Adafruit_GFX/Adafruit_GFX.cpp:194-205 | Eight pixels from (32760, 0) to (32767, 0) never end |
| `Line.LineExactIff` | Sming/Libraries/Adafruit_GFX/Adafruit_GFX.cpp:167-206 | For all 16-bit ends whose loop ends, the 16-bit recurrence gives the closed form if and only if the length fits |
| `Line.StepsExact` | Sming/Libraries/Adafruit_GFX/Adafruit_GFX.cpp:194-205 | While the length fits, the error term never overflows and every step is the nearest one |
| `Line.RunInexact` | Sming/Libraries/Adafruit_GFX/Adafruit_GFX.cpp:181-205 | When it does not fit, the second or the third point is already wrong, for every length below the 65535 of a loop that cannot end |
| `Line.LongLineBends` | Sming/Libraries/Adafruit_GFX/Adafruit_GFX.cpp:181-205 | A flat line of 40001 pixels is not flat |
| `Raster.ErrorTermFindsRung` | Sming/Libraries/Adafruit_GFX/Adafruit_GFX.cpp:181-205 | An error term in range means the nearest point |
| `Canvas.Gfx.DrawFastVLine` | Sming/Libraries/Adafruit_GFX/Adafruit_GFX.cpp:218-222 | Ends as its line does, and then plots the column if and only if its end and its length fit in 16 bits |
| `Canvas.Gfx.DrawFastHLine` | Sming/Libraries/Adafruit_GFX/Adafruit_GFX.cpp:224-228 | Ends as its line does, and then plots the row if and only if its end and its length fit in 16 bits |
| `Line.ColumnExactIff` | Sming/Libraries/Adafruit_GFX/Adafruit_GFX.cpp:218-222 | With a far end that wraps around not even the first pixel is right |
| `Line.RowExactIff` | Sming/Libraries/Adafruit_GFX/Adafruit_GFX.cpp:224-228 | The same for rows |
| `Raster.CircleIsRound` | Sming/Libraries/Adafruit_GFX/Adafruit_GFX.cpp:59-91 | For every radius from 1 on, every plotted point is a mirror image of one that misses the circle by at most its larger coordinate |
| `Raster.OctantOnCircle` | Sming/Libraries/Adafruit_GFX/Adafruit_GFX.cpp:72-90 | Every octant point satisfies abs(x*x + y*y - r*r) <= y |
| `Raster.MidpointStep` | Sming/Libraries/Adafruit_GFX/Adafruit_GFX.cpp:72-80 | One round of the loop keeps f equal to the midpoint value and the next point on the circle |
| `Raster.ArcOnCircle` | Sming/Libraries/Adafruit_GFX/Adafruit_GFX.cpp:72-90 | So does the whole loop |
| `Raster.ArcColumns` | Sming/Libraries/Adafruit_GFX/Adafruit_GFX.cpp:72-90 | The arc has one point per column and ends behind the diagonal |
| `Raster.ArcDescends` | Sming/Libraries/Adafruit_GFX/Adafruit_GFX.cpp:72-90 | From one column to the next it stays as high or goes down by one |
| `Raster.FourCornersAreCircle` | Sming/Libraries/Adafruit_GFX/Adafruit_GFX.cpp:93-127 | The four corners of the helper together plot the same points as the circle loop |
| `Canvas.Gfx.DrawCircle` | Sming/Libraries/Adafruit_GFX/Adafruit_GFX.cpp:59-91 | In 16-bit arithmetic: the cardinal points and the mirror images of the octant that the wrapped terms give, which is the exact circle if and only if the radius is at most 16556 or one of 16642 and 16643, and the bounding square is in 16 bits |
| `Canvas.Gfx.DrawCircleHelper` | Sming/Libraries/Adafruit_GFX/Adafruit_GFX.cpp:93-127 | What the wrapped terms give for the chosen corners, which is exact if and only if none is chosen, or there is no radius, or the radius is one of those and the sides of the square that the chosen corners touch are in 16 bits |
| `Circle.OctantExactIff` | Sming/Libraries/Adafruit_GFX/Adafruit_GFX.cpp:61-80 | For all 16-bit radii the octant of the code is the exact one if and only if the radius is at most 16556 or one of 16642 and 16643 |
| `Circle.OctantExactIfTermsFit` | Sming/Libraries/Adafruit_GFX/Adafruit_GFX.cpp:61-80 | It is the exact one if and only if the exact midpoint term fits in 16 bits wherever the loop looks at its sign, although its increments may wrap |
| `Circle.FirstTermsFit` | Sming/Libraries/Adafruit_GFX/Adafruit_GFX.cpp:72-80 | With those radii no term overflows before the first step down, nor after it, nor after the second and third one |
| `Circle.LateTermsFit` | Sming/Libraries/Adafruit_GFX/Adafruit_GFX.cpp:72-80 | Once the point is no more than 16384 above the diagonal no term overflows any more |
| `Circle.LargeTermsOverflow` | Sming/Libraries/Adafruit_GFX/Adafruit_GFX.cpp:72-80 | With every other radius the first step down takes the term below -32768 |
| `Circle.CircleExactIff` | Sming/Libraries/Adafruit_GFX/Adafruit_GFX.cpp:59-91 | For all 16-bit centres and radii the circle of the code is the exact one if and only if radius and bounding square fit |
| `Circle.LargeCircleWrong` | Sming/Libraries/Adafruit_GFX/Adafruit_GFX.cpp:59-91 | A circle of radius 16557 is wrong wherever it lies |
| `Circle.CornersExactIff` | Sming/Libraries/Adafruit_GFX/Adafruit_GFX.cpp:93-127 | The same for all 16-bit centres and radii and all masks |
| `Circle.AllCornersTellPoints` | Sming/Libraries/Adafruit_GFX/Adafruit_GFX.cpp:107-126 | With at least one corner chosen, the pixels tell the octant points |
| `Circle.ExactNeedsSides` | Sming/Libraries/Adafruit_GFX/Adafruit_GFX.cpp:107-126 | The first octant point already touches the sides, so they must fit |
| `Raster.TriangleSpansInside` | Sming/Libraries/Adafruit_GFX/Adafruit_GFX.cpp:278-354 | Exactly one span per scanline from the smallest to the largest y, each inside the x-range of the triangle |
| `Raster.CrossBetween` | Sming/Libraries/Adafruit_GFX/Adafruit_GFX.cpp:326-351 | The truncated edge formula stays between the ends of its edge and meets them exactly |
| `Raster.TriangleOrderFree` | Sming/Libraries/Adafruit_GFX/Adafruit_GFX.cpp:284-293 | The order of the corners does not matter |
| `Canvas.Gfx.FillTriangle` | Sming/Libraries/Adafruit_GFX/Adafruit_GFX.cpp:278-354 | In 16-bit arithmetic: tells whether the call returns, never does or divides by zero; when it returns the spans are the exact ones if and only if no exact span next to the middle corner is wider than 32767 and the edges fit or are exchanged mirror images |
| `Canvas.Gfx.FillUpper` | Sming/Libraries/Adafruit_GFX/Adafruit_GFX.cpp:316-336 | Divides by zero if and only if it is entered with a flat edge, never ends if and only if its end is 32767 otherwise, and else has drawn for each scanline of the upper part the span of the wrapped edges |
| `Canvas.Gfx.FillLower` | Sming/Libraries/Adafruit_GFX/Adafruit_GFX.cpp:338-353 | Never divides by zero, ends if and only if no corner is on 32767, and has then drawn the spans of the lower part |
| `Canvas.Gfx.DrawFlat` | Sming/Libraries/Adafruit_GFX/Adafruit_GFX.cpp:295-303 | Three corners on one scanline give one span from the leftmost to the rightmost, its width in 16 bits |
| `Triangle.TriangleExactIff` | Sming/Libraries/Adafruit_GFX/Adafruit_GFX.cpp:278-354 | For all 16-bit corners whose loops end, the spans of the code are the exact ones if and only if the triangle fits |
| `Triangle.ScanlinesExactIff` | Sming/Libraries/Adafruit_GFX/Adafruit_GFX.cpp:305-353 | The same for corners from top to bottom, scanline by scanline |
| `Triangle.TriangleEndsIff` | Sming/Libraries/Adafruit_GFX/Adafruit_GFX.cpp:284-342 | Both loop counters get past their ends if and only if all corners are on one scanline, or none is on 32767 and the upper two are not both on -32768 |
| `Triangle.DividesByZeroIff` | Sming/Libraries/Adafruit_GFX/Adafruit_GFX.cpp:322-344 | Of the divisions in the two loops one is by zero if and only if the upper two corners are on scanline -32768 |
| `Triangle.TriangleEndings` | Sming/Libraries/Adafruit_GFX/Adafruit_GFX.cpp:284-344 | Which triangles end, which divide by zero, and that the others are those with a corner on scanline 32767 |
| `Triangle.LowestTriangleHangs` | Sming/Libraries/Adafruit_GFX/Adafruit_GFX.cpp:342-353 | A triangle that neither ends nor divides by zero |
| `Triangle.TopmostTriangleDivides` | Sming/Libraries/Adafruit_GFX/Adafruit_GFX.cpp:322-326 | A triangle that divides by zero |
| `Triangle.NarrowIff` | Sming/Libraries/Adafruit_GFX/Adafruit_GFX.cpp:334-335 | No exact span is wider than 32767 if and only if none is on the scanline of the middle corner and the two beside it |
| `Triangle.NeighbourDecides` | Sming/Libraries/Adafruit_GFX/Adafruit_GFX.cpp:334-335 | A triangle whose widest span is not the one of the middle corner |
| `Widths.UpperNarrow` | Sming/Libraries/Adafruit_GFX/Adafruit_GFX.cpp:326-335 | Two or more scanlines above the middle corner the rounded edges are no further apart than the limit, if they are not there |
| `Widths.LowerNarrow` | Sming/Libraries/Adafruit_GFX/Adafruit_GFX.cpp:343-352 | The same for two or more scanlines below it |
| `Triangle.SpanSame` | Sming/Libraries/Adafruit_GFX/Adafruit_GFX.cpp:334-335 | A span is right if and only if its two crossings are, possibly exchanged, and its width fits |
| `Triangle.SpanExactIff` | Sming/Libraries/Adafruit_GFX/Adafruit_GFX.cpp:326-335 | That is so of two edges on a scanline if and only if their wrapped quotients agree modulo 65536 with the exact ones, possibly exchanged |
| `Triangle.Spoilt` | Sming/Libraries/Adafruit_GFX/Adafruit_GFX.cpp:305-353 | A triangle whose edges neither fit nor are exchanged has a scanline that is wrong |
| `Triangle.FitsMeets` | Sming/Libraries/Adafruit_GFX/Adafruit_GFX.cpp:305-353 | One whose edges fit has none, but for spans that are too wide |
| `Triangle.FlatExactIff` | Sming/Libraries/Adafruit_GFX/Adafruit_GFX.cpp:295-303 | A triangle on one scanline is drawn exactly if and only if its width fits in 16 bits |
| `Triangle.SmallTriangleFits` | Sming/Libraries/Adafruit_GFX/Adafruit_GFX.cpp:278-354 | Every triangle less than 32767 wide and at most 32767 high fits |
| `Triangle.WideCrossing` | Sming/Libraries/Adafruit_GFX/Adafruit_GFX.cpp:325-335 | Scanline 1 of the edge from (-20000, 0) to (20000, 2) is drawn at -32768, where the edge is at 0 |
| `Triangle.WideTriangleWrong` | Sming/Libraries/Adafruit_GFX/Adafruit_GFX.cpp:325-335 | So the sliver along that edge is wrong |
| `Triangle.MirroredTriangleFits` | Sming/Libraries/Adafruit_GFX/Adafruit_GFX.cpp:325-335 | A triangle of height 32768 that is right although its height does not fit, because the code exchanges its sides |
| `Triangle.DiagonalTriangleFits` | Sming/Libraries/Adafruit_GFX/Adafruit_GFX.cpp:325-335 | A diagonal of 40000 by 40000 that is right although neither fits |
| `Edges.EdgeExactIff` | Sming/Libraries/Adafruit_GFX/Adafruit_GFX.cpp:305-327 | The code follows an edge on all its scanlines if and only if it is upright, at most one scanline high, fits both ways, is a diagonal that fits neither way, or is the one edge 32768 high and one wide whose last scanline is not drawn with it |
| `Edges.EdgeWrong` | Sming/Libraries/Adafruit_GFX/Adafruit_GFX.cpp:305-327 | On some scanline below the top the code is beside every other edge, modulo 65536 |
| `Edges.Step16Is` | Sming/Libraries/Adafruit_GFX/Adafruit_GFX.cpp:305-327 | A width or a height that does not fit turns the quotient into one of its complement with the other sign |
| `EdgePairs.FlatBottom` | Sming/Libraries/Adafruit_GFX/Adafruit_GFX.cpp:325-336 | Two edges from one corner to the same scanline, one of them wrong: some scanline is wrong, unless they are mirror images of height 32768 |
| `EdgePairs.FlatTop` | Sming/Libraries/Adafruit_GFX/Adafruit_GFX.cpp:342-353 | Two edges from the same scanline to one corner, one of them wrong: some scanline is wrong, without exception |
| `EdgePairs.LongEdge` | Sming/Libraries/Adafruit_GFX/Adafruit_GFX.cpp:325-353 | A wrong edge past the middle corner: wrong on that scanline or at the bottom, or on one where it meets the upper short edge |
| `EdgePairs.MirrorsMeet` | Sming/Libraries/Adafruit_GFX/Adafruit_GFX.cpp:325-336 | Mirror images of height 32768 are exchanged on every scanline |
| `Calendar.FromUnixTime` | Sming/SmingCore/DateTime.cpp:172-217 | Every field is in range and the fields stand for exactly the given time, counted in 365 days per year, a day more for each multiple of four since 1972, and months of 30 and 31 days with a February of 28 or 29; the weekday is 4 on the first day and goes on modulo 7 |
| `Calendar.NextWeekday` | Sming/SmingCore/DateTime.cpp:188-189 | The first day is a Thursday, and a day later it is the next weekday |
| `Calendar.YearStartClosed` | Sming/SmingCore/DateTime.cpp:193-195 | The day number of the first of January is 365 * (year - 1970) + (year - 1969) / 4 |
| `Calendar.MonthStartClosed` | Sming/SmingCore/DateTime.cpp:204-211 | The days before each month in closed form |
| `Calendar.SecondsClosed` | Sming/SmingCore/DateTime.cpp:219-245 | So the seconds of all fields are a closed form |
| `Calendar.LeapDayValid` | Sming/SmingCore/DateTime.cpp:14 | 29 February is a date if and only if the year is a multiple of four |
| `Calendar.DaysOfMonth` | Sming/SmingCore/DateTime.cpp:24-28 | The lengths of the months |
| `Calendar.SplitDays` | Sming/SmingCore/DateTime.cpp:191-216 | The year loop and the month loop split a day count into the only date for it |
| `Calendar.ToUnixTime` | Sming/SmingCore/DateTime.cpp:219-245 | The seconds since 1970 in that closed form, for years before 1970 without leap days; a year below 69 counts from 2000 |
| `Calendar.RoundTrips` | Sming/SmingCore/DateTime.cpp:172-245 | The two functions invert each other on every time and on every valid date |
| `Calendar.SecondsInjective` | Sming/SmingCore/DateTime.cpp:172-245 | Two valid dates with the same Unix time are the same |
| `Calendar.SameDay` | Sming/SmingCore/DateTime.cpp:199-216 | Two valid dates with the same day number are the same |
| `Calendar.MonthsFillYear` | Sming/SmingCore/DateTime.cpp:24-28 | The months add up to the length of the year |
| `Calendar.TruncationKeepsLeap` | Sming/SmingCore/DateTime.cpp:24-28 | Neither passing the year through 8 bits nor counting from 1900 changes which years are leap years |
| `Calendar.DateTime.SetTime` | Sming/SmingCore/DateTime.cpp:39-44 | The object holds the date of the time, with weekday and day of year |
| `Calendar.DateTime.CalcDayOfYear` | Sming/SmingCore/DateTime.cpp:379-398 | The second month table gives the days since 1 January plus one |
| `Calendar.DateTime.UnixTime` | Sming/SmingCore/DateTime.cpp:128-131 | The time of the fields, whole seconds of the milliseconds included |
| `Calendar.DateTime.AddMilliseconds` | Sming/SmingCore/DateTime.cpp:161-170 | Time moves by what the 32-bit sum says, which is what was added if and only if the sum does not overflow; what is held is its rest, with its sign |
| `Calendar.PassedExactIff` | Sming/SmingCore/DateTime.cpp:163-168 | The same as a law of the sum |
| `Calendar.LargestStepGoesBack` | Sming/SmingCore/DateTime.cpp:163-164 | One millisecond held and 2147483647 added go back in time |
| `Calendar.DateTime.AddAllMilliseconds` | Sming/SmingCore/DateTime.cpp:161-170 | Over any sequence of steps that never goes before 1970 time moves by what the 32-bit sums say, and by the sum of the steps if each is within 2147482648 either way |
| `Calendar.AllPassedExact` | Sming/SmingCore/DateTime.cpp:163-168 | Such steps never overflow, whatever is held in between |
| `HttpDate.HttpDateRoundTrip` | Sming/SmingCore/DateTime.cpp:64-159 | For every valid date up to the year 9999, parsing the printed HTTP date succeeds in any object and restores every field, weekday and day of year included, with each name read as the first of the locale that begins like it |
| `HttpDate.RoundTripExact` | Sming/SmingCore/DateTime.cpp:64-159 | All that the object held comes back if and only if no earlier weekday or month name begins with the same three characters and there were no milliseconds |
| `HttpDate.EnglishKeepsDates` | Sming/SmingCore/DateTime.cpp:16-17 | With the default names (`SmingLocale.h`) that holds of every date |
| `HttpDate.FrenchLosesJuly` | Sming/SmingCore/DateTime.cpp:16-17 | With the French names (`SmingLocale.h`) July comes back as June |
| `HttpDate.PrintAndParse` | Sming/SmingCore/DateTime.cpp:39-217 | From any Unix time up to the year 9999 through text into any other object, with the default names: all that it holds is the same |
| `HttpDate.ExpandHttpDate` | Sming/SmingCore/DateTime.cpp:156-159 | Expanding the format gives the fixed layout of section 7.1.1.1 of RFC 7231 |
| `HttpDate.Format` | Sming/SmingCore/DateTime.cpp:247-377 | The format loop replaces each conversion, drops a last lone percent sign and copies the rest |
| `HttpDate.ToHttpDate` | Sming/SmingCore/DateTime.cpp:156-159 | Prints that layout |
| `HttpDate.FromHttpDate` | Sming/SmingCore/DateTime.cpp:64-126 | Accepts and reads exactly as the parser function does; after a failure the object holds what was read before it |
| `HttpTexts.DateAcceptedIff` | Sming/SmingCore/DateTime.cpp:64-126 | A text with the digits of a date and a time in their places, four or two of the year, is accepted if and only if the names of day and month are known and colons stand in the time; then the numbers are the fields, and a year below 100 is the one with these digits from 1970 to 2069 |
| `HttpTexts.ShortDateRoundTrip` | Sming/SmingCore/DateTime.cpp:64-126 | Every date from 1970 to 2069 printed with two digits of the year is read back, the century included |
| `HttpTexts.NoDateRefused` | Sming/SmingCore/DateTime.cpp:66-68 | Without a comma, or with fewer than 20 characters from the first one on, a text is refused and the object stays as it was |
| `HttpTexts.UnknownDayRefused` | Sming/SmingCore/DateTime.cpp:75-81 | A text that begins with no name of a day is refused, and no field of the date changes |
| `HttpTexts.MatchIsFirst` | Sming/SmingCore/DateTime.cpp:76-79 | The name found is the first one with those three characters |
| `HttpDate.ReadTime` | Sming/SmingCore/DateTime.cpp:102-125 | Year, hour, minute and second, as the parser function reads them |
| `HttpTexts.TimeAcceptedIff` | Sming/SmingCore/DateTime.cpp:102-125 | The part behind the month is accepted if and only if the two colons are there, with the numbers as fields and the year in its century |
| `HttpDate.FindName` | Sming/SmingCore/DateTime.cpp:75-81 | The first name with those three characters |
| `HttpDate.StrtolReads` | Sming/SmingCore/DateTime.cpp:72-73 | A number after at most one blank is read to its last digit |
| `HttpDate.PadReadsBack` | Sming/SmingCore/DateTime.cpp:260-261 | A zero-padded number has its width and reads back |
| `StringConversion.DigitsRoundTrip` | Sming/system/stringconversion.cpp:26-27 | The digits of a number read back as the number, in every base from 2 to 16 |
| `StringConversion.DigitsInBase` | Sming/system/stringconversion.cpp:26-27 | They are digits of the base and never a terminator |
| `StringConversion.DigitsLength` | Sming/system/stringconversion.cpp:21-27 | A number below 2^k has at most k digits, so the buffer of 40 is never exhausted |
| `StringConversion.MakeDigits` | Sming/system/stringconversion.cpp:58-65 | The loop leaves the digits right-aligned in the buffer, a single 0 for zero; of a negative number the leading remainder leaves a terminator |
| `StringConversion.LtoaWp` | Sming/system/stringconversion.cpp:19-45 | In 32 bits: sign and digits, padded on the left to the width, zeros before the sign; of the least number the bare sign |
| `StringConversion.LongTextExactIff` | Sming/system/stringconversion.cpp:19-45 | The text is sign and digits of the number if and only if it is not the least one, whatever the padding |
| `StringConversion.UltoaWp` | Sming/system/stringconversion.cpp:58-79 | Digits, padded on the left to the width |
| `Printf.Vsnprintf` | Sming/system/m_printf.cpp:100-218 | The buffer holds the first min(n, size-1) characters of the unbounded output and a terminator, and n is returned, whatever the size |
| `Printf.OverrunsIffWide` | Sming/system/m_printf.cpp:116-211 | A call whose arguments match its format needs more than the 40 characters for one number if and only if an integer conversion has a width of 40 or more |
| `Printf.NumberFitsIff` | Sming/system/m_printf.cpp:182-211 | Whatever the number, its text fits if and only if the width is below 40 |
| `Printf.WideNumberOverruns` | Sming/system/m_printf.cpp:182-185 | The format with width 40 does so for every number |
| `Printf.LeastIntIsBareSign` | Sming/system/m_printf.cpp:182-185 | The least int is printed as a bare sign |
| `Printf.PrintfTo` | Sming/Wiring/Print.cpp:201-227 | The whole text is written, in one pass if it fits in 127 characters and in two otherwise |
| `Printf.ScanSpec` | Sming/system/m_printf.cpp:118-152 | Flags, padding, width, precision and length are read as the grammar function says, 8-bit truncation included |
| `Printf.SkipAtoi` | Sming/system/m_printf.cpp:29-35 | The value of the digits, stopping behind the last one |
| `Printf.AddPiece` | Sming/system/m_printf.cpp:154-214 | Each conversion appends its text and takes its argument |
| `Conversions.NumberConversion` | Sming/system/m_printf.cpp:182-211 | The text of `d` and `i` is the signed number in decimal, of `u`, `o`, `x` and `X` the unsigned one in base 10, 8 and 16: lower-case digits that read back as it, no zero in front, the pad character on the left up to the width; the least int is a bare sign |
| `Conversions.PlainNumber` | Sming/system/m_printf.cpp:182-211 | The same for the six formats of one conversion without attributes |
| `Conversions.TextConversion` | Sming/system/m_printf.cpp:164-176 | The text of `s` is as long as the width or what is printed of the string, which is a first part of it cut to the precision, on the right or, with the flag, on the left, and blanks elsewhere |
| `Conversions.AddressConversion` | Sming/system/m_printf.cpp:178-180 | The text of `p` is the unsigned number in base 16, whatever the width |
| `Conversions.OtherConversions` | Sming/system/m_printf.cpp:156-162 | A character, a percent sign, and an unknown conversion as it stands |
| `Conversions.SpecReads` | Sming/system/m_printf.cpp:118-152 | Flag, zero, width and precision below 128 are read as they are written, each of them there or not |
| `Conversions.OneConversion` | Sming/system/m_printf.cpp:107-214 | A format of one conversion with such attributes prints just what the conversion does |
| `Conversions.PlainText` | Sming/system/m_printf.cpp:107-112 | Text without a percent sign is printed as it is |
| `Printf.AddString` | Sming/system/m_printf.cpp:164-176 | A string cut to the precision and filled with blanks to the width, on the side the flag says |
| `Printf.Output.Add` | Sming/system/m_printf.cpp:103-105 | Every character is counted; the ones that fit are stored |
| `WString.ReplaceShorter` | Sming/Wiring/WString.cpp:679-694 | The buffer holds the left-to-right substitution of the original text, with length and terminator; unread input is never overwritten |
| `WString.ReplaceSame` | Sming/Wiring/WString.cpp:671-678 | The same in place for replacements of equal length |
| `WString.ProgressStep` | Sming/Wiring/WString.cpp:682-691 | One found occurrence extends the finished text by what stays and the replacement |
| `WString.HoldsStep` | Sming/Wiring/WString.cpp:684-690 | Moving and storing leaves all input from the read position on as it was |
| `WString.Finish` | Sming/Wiring/WString.cpp:692-693 | The rest is moved down and terminated |
| `WString.FindIsFirst` | Sming/Wiring/WString.cpp:682 | The search finds the first occurrence, or none if there is none |
| `WString.LastIndexOf` | Sming/Wiring/WString.cpp:617-629 | Repeated forward search finds the last occurrence that starts at the index or before |
| `Fifo.Queue.Enqueue` | Sming/Wiring/FIFO.h:67-79 | Appends, or refuses when full and changes nothing |
| `Fifo.Queue.Dequeue` | Sming/Wiring/FIFO.h:81-90 | Takes the oldest element |
| `Fifo.Queue.Flush` | Sming/Wiring/FIFO.h:98-102 | Empties the queue |
| `Fifo.Queue.constructor` | Sming/Wiring/FIFO.h:61-65 | An empty queue of the given size |
| `Fifo.RingFirst` | Sming/Wiring/FIFO.h:86-88 | The element at the out index is the oldest, across the wrap |
| `Fifo.RingLast` | Sming/Wiring/FIFO.h:75-77 | The element stored at the in index is the newest, across the wrap |
| `AtClient.SentInOrder` | Sming/SmingCore/AtClient.cpp:20-180 | In every run first transmissions are, in order, the accepted submissions not waiting in the queue, and a waiting command implies an outstanding one |
| `AtClient.RunKeepsOrder` | Sming/SmingCore/AtClient.cpp:20-180 | Every run keeps that |
| `AtClient.StepKeepsOrder` | Sming/SmingCore/AtClient.cpp:20-180 | Every event keeps that |
| `AtClient.ErrorRunSilent` | Sming/SmingCore/AtClient.cpp:20-180 | In the error state nothing is transmitted, over any run, until `resend` is called |
| `AtClient.SubmissionTaken` | Sming/SmingCore/AtClient.cpp:113-132 | A command is sent at once if none is outstanding, waits if fewer than ten do, and is dropped otherwise |
| `AtClient.AnsweredGoesOn` | Sming/SmingCore/AtClient.cpp:20-76 | After a completing reply the next command of the queue is sent for the first time, or the client is idle |
| `AtClient.SilenceEndsInError` | Sming/SmingCore/AtClient.cpp:160-180 | A command that gets no answer is sent exactly as often as its retries say, then the client is in the error state |
| `AtClient.RefusalsResend` | Sming/SmingCore/AtClient.cpp:56-73 | So is one that is refused every time |
| `AtClient.LastRefusal` | Sming/SmingCore/AtClient.cpp:56-76 | The last refusal stops the client or, without `breakOnError`, lets it go on to the next command |
| `AtClient.ResendSends` | Sming/SmingCore/AtClient.cpp:135-144 | `resend` sends the outstanding command once more, also out of the error state |
| `AtClient.BoundedIffGuarded` | Sming/SmingCore/AtClient.cpp:56-73 | A command is sent at most as often as its retries say, in every run without `resend`, if and only if it has a retry and its failed last attempt ends it |
| `AtClient.RunKeepsCount` | Sming/SmingCore/AtClient.cpp:56-73 | For those commands attempts and remaining retries add up, in every run |
| `AtClient.StepKeepsCount` | Sming/SmingCore/AtClient.cpp:56-73 | And over every event |
| `AtClient.MissesOverrun` | Sming/SmingCore/AtClient.cpp:56-73 | A run of wrong replies that sends another command once more than its retries |
| `AtClient.TimeoutWraps` | Sming/SmingCore/AtClient.cpp:169-175 | A command submitted with no retries, the default, is sent again after its first timeout |
| `AtClient.Client.Send` | Sming/SmingCore/AtClient.cpp:113-121 | Transmits, queues, or drops when the queue is full |
| `AtClient.Client.SendDirect` | Sming/SmingCore/AtClient.cpp:123-132 | Transmits and arms the timer |
| `AtClient.Client.NextCommand` | Sming/SmingCore/AtClient.cpp:146-158 | The next queued command, unless in the error state |
| `AtClient.Client.Processor` | Sming/SmingCore/AtClient.cpp:20-76 | A received character as an event of the machine |
| `AtClient.Client.Ticker` | Sming/SmingCore/AtClient.cpp:160-180 | A timeout as an event of the machine |
| `AtClient.Client.ResendCommand` | Sming/SmingCore/AtClient.cpp:135-144 | Sends the outstanding command again, or the next one |
| `LongTimer.AchievedIff` | Sming/SmingCore/Timer.cpp:52-108 | The time between two callbacks lies in (us - 1000 div, us] if and only if the divider is below 65536 |
| `LongTimer.AchievedUpTo` | Sming/SmingCore/Timer.cpp:52-108 | Up to there each OS interval is within the OS limit and div of them make one callback |
| `LongTimer.TooLong` | Sming/SmingCore/Timer.cpp:85-99 | From there on the 16-bit limit drops the upper bits and the callback comes early, by at least a millisecond for each OS interval that was needed, up to the largest 64-bit interval |
| `LongTimer.MillisecondsAchieved` | Sming/SmingCore/Timer.cpp:110-113 | Every interval in 32-bit milliseconds is met |
| `LongTimer.DividesUnlessWrapped` | Sming/SmingCore/Timer.cpp:87-97 | The code divides by zero if and only if the exact divider is a multiple of 2^32 |
| `LongTimer.DivisionByZero` | Sming/SmingCore/Timer.cpp:87-97 | An interval for which it does |
| `LongTimer.SplitExactly` | Sming/SmingCore/Timer.cpp:87-99 | The quotient is an interval for the millisecond timer, within the OS limit, and div quotients miss the interval by less than div |
| `LongTimer.RepeatingFires` | Sming/SmingCore/Timer.cpp:151-170 | After n expiries a repeating timer has fired floor(n / div) times, for every n |
| `LongTimer.OneShotFiresOnce` | Sming/SmingCore/Timer.cpp:151-170 | A one-shot timer fires at expiry div, not before, and the OS timer never expires again; `isStarted` turns false exactly for the intervals above the OS limit |
| `LongTimer.Timer.Start` | Sming/SmingCore/Timer.cpp:52-74 | Arms the OS timer, repeating also for a one-shot that has to count; an interval of 0 only stops |
| `LongTimer.Timer.Stop` | Sming/SmingCore/Timer.cpp:76-83 | Disarms and restarts the count |
| `LongTimer.Timer.SetIntervalUs` | Sming/SmingCore/Timer.cpp:85-108 | The split of the interval in the widths of the code, or a division by zero; a running timer is restarted as a repeating one |
| `LongTimer.Timer.SetIntervalMs` | Sming/SmingCore/Timer.cpp:110-113 | The same from milliseconds, and never a division by zero |
| `LongTimer.Timer.Processing` | Sming/SmingCore/Timer.cpp:151-170 | One expiry: counts, or calls back, and stops a one-shot first |
| `LongTimer.Timer.Expire` | Sming/SmingCore/Timer.cpp:59-65 | An expiry of the OS timer ends in `processing` |
| `LongTimer.Timer.Tick` | Sming/SmingCore/Timer.cpp:172-183 | Calls back, or stops without a callback |
| `LongTimer.Timer.SetCallback` | Sming/SmingCore/Timer.cpp:115-125 | Taking the callback away stops the timer |
| `Esptool.Builder.CreateBinFile` | tools/esptool2/esptool2.c:270-387 | Succeeds if and only if every section is found and, for boot 1, the image ends before its library; the image proper is a multiple of 16 long; for at most 255 sections the loader accepts it and recovers each section zero-padded to its unit, the library of a boot 2 image included; a boot 1 image has the library at 0x10000 behind a spacer |
| `Esptool.Builder.AppendLibrary` | tools/esptool2/esptool2.c:354-375 | 0xff up to 0x10000, and the bare library from there on |
| `Esptool.Builder.WriteImage` | tools/esptool2/esptool2.c:318-352 | Header, sections, padding and checksum in their layout |
| `Esptool.Builder.WriteSections` | tools/esptool2/esptool2.c:327-332 | The sections in order, each in the checksum; fails at the first that is missing |
| `Esptool.Builder.WriteElfSection` | tools/esptool2/esptool2.c:91-149 | Header if wanted, data and padding of a section; the checksum is the same with or without the padding; nothing is written for a missing or empty section |
| `Esptool.Builder.GetElfSection` | tools/esptool2/esptool2_elf.c:31-44 | The first section of that name |
| `Esptool.ImageLoads` | tools/esptool2/esptool2.c:318-352 | The loader accepts an image exactly if its last byte is the checksum of its sections, and then gives back the program |
| `Esptool.LoadsIffCountFits` | tools/esptool2/esptool2.c:318-332 | An image boots as the program it was made from if and only if it has at most 255 sections |
| `Esptool.RomImageLoads` | tools/esptool2/esptool2.c:304-352 | The same for the boot 2 layout, with the library in the checksum or not |
| `Esptool.ImageAligned` | tools/esptool2/esptool2.c:334-352 | The length of an image is a multiple of 16 |
| `Esptool.ImageLayout` | tools/esptool2/esptool2.c:286-352 | The header place by place, least significant byte of the entry point first, and the checksum in the last byte |
| `Esptool.Byte3Halves` | tools/esptool2/esptool2.c:297 | Flash size and clock are the two halves of the option byte |
| `Esptool.ChecksumStarts` | tools/esptool2/esptool2.c:31 | The checksum starts at 0xEF, and a byte takes itself back |
| `Esptool.RomImageAligned` | tools/esptool2/esptool2.c:304-352 | So is that of a boot 2 image |
| `Esptool.SegmentsRoundTrip` | tools/esptool2/esptool2.c:91-149 | Walking the section headers recovers exactly the sections written, whatever follows them |
| `Esptool.CorruptionCaught` | tools/esptool2/esptool2.c:137-142 | Changing any one byte of any section makes the loader reject the image |
| `Esptool.PaddedSum` | tools/esptool2/esptool2.c:111-142 | Padding bytes leave the checksum alone |

## Left out

- Twi.Master.WriteTo: starts from an idle bus; a transaction that follows one without STOP is not modelled, nor are delays.
- SerialTx.TransmittedInOrder: the last FULL test and the COUNT test of the interrupt are one step, and the interrupt may occur whenever it is enabled, not only at its threshold.
- SerialTx.StepKeepsInv: `uart_write` and the interrupt are program counters and step functions on values, not loops, because steps of the others come between theirs.
- SerialTx: reception, callbacks, and resizing of buffers.
- Canvas.Gfx.DrawLine: of a call that never ends only that is stated, not what it goes on plotting; the same for Canvas.Gfx.FillTriangle.
- Machine.I32: signed overflow of an `int`, which C leaves undefined, is taken to wrap around.
- Canvas.Gfx.FillTriangle: a span is a call of `drawFastHLine`, which displays draw in their own way.
- Calendar.FromUnixTime: times from 1970 on, in the code's own calendar in which every fourth year is a leap year; `time_t` is unbounded.
- HttpDate.FromHttpDate: a text that ends inside or just behind the month name makes the code read past its terminator; the model reads zeros there.
- HttpDate.ToHttpDate: conversions that HTTP dates do not use are a parameter of the format loop.
- Printf.Vsnprintf: formats are those whose arguments match and whose numbers fit in their buffer, since what a longer one overwrites is not part of this model; the text of a floating-point conversion is a parameter.
- Printf.PrintfTo: the same formats as Printf.Vsnprintf.
- WString.ReplaceShorter: `memcpy` on overlapping ranges is taken to copy upwards; the branch for longer replacements searches backwards through replaced text and is not modelled; nor is a string that is replaced in itself, whose length changes while it is searched for.
- AtClient.Client.Processor: reply texts and callbacks are truth values, and callbacks do not call the client; commands have a text; `sendDirect` from outside is not an event of the runs.
- AtClient.BoundedIffGuarded: about runs without `resend`, which sends without counting.
- LongTimer.Timer.Tick: callbacks do not touch the timer.
- Esptool.Builder.CreateBinFile: write errors of the output file are left out, file positions are unbounded, and a section is smaller than 2 GiB less its padding.
- Sensors, floating-point formatting, network, file system, SPI and PWM drivers, fonts and register tables: plumbing or data without a law of this kind.
