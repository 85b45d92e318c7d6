# Verified models of f386_mister's video, bus and microcode machinery

This project models the parts of the repository whose correctness rests on
arithmetic or on a protocol, and proves what they promise. Two groups are
covered.

* The MiSTer framework hardware in `sys/`: dividers and the multiply-divide
  unit, the scaler's phase accumulators, decimators, triple buffering, pixel
  packing, burst queue and bicubic arithmetic (`ascal.vhd`), the picture rotator
  (`arcade_video.v`), the packed pixel blender (`hq2x.sv`), the burst arbiter
  (`ddr_svc.sv`) and the burst terminator that protects SDRAM across a reset
  (`f2sdram_safe_terminator.sv`).
* The repository's own tooling: the microcode compiler, the sparse memory of the
  test benches, and the two ways a ROM image reaches the machine.

Every clocked process is a class whose method is one clock edge. The method's
contract says that the registers after the edge are a pure `Next` function of
the registers before it and the inputs; the theorems are about runs of `Next`.
Widths, sizes, burst lengths and waits stay symbolic, registers start with any
content, and wrap-around is written out as a residue. `Arithmetic.dfy` and
`NonRestoring.dfy` hold what several models share; in particular one theorem
about non-restoring division serves `sys_udiv`, the line dividers and the pixel
divider pipelines.

`dafny verify dfyconfig.toml` checks the whole project.

## Where the code and its description differ

Each of these is a theorem with the exact condition, or a concrete run.

* The second output port of `sys_udiv` is named `remainder`; it carries the
  remainder exactly when the quotient is odd, which is when `num mod 2*div` is at
  least `div` (`RemainderPortIsModuloIffOdd`, `RemainderPortIsModuloIffUpperHalf`,
  `RemainderPortWitness`). With more than 62 quotient bits the six-bit step
  counter never meets its end (`WideDividerNeverEnds`).
* The scaler's vertical decimator is announced to keep `i_ovsize` lines. When
  the window covers all lines of the frame it does if and only if the reduction
  is by less than three; otherwise one line more survives
  (`FullFrameKeepsHeightIff`). With lines outside the window its first line takes
  a decision carried over from them, and the exact condition depends on their
  number (`FrameKeepsHeightIff`).
* The horizontal decimator keeps the announced width, but the packer samples the
  decisions one pixel off and gets one pixel more for every reduction by less
  than three (`LinePushesOneMoreIff`).
* An image exactly as wide as its window leaves the horizontal accumulator on a
  full period, where all fraction bits are set (`UnscaledLineSaturates`).
* Triple buffering tears if, and only if, the end of an input frame and an
  output sync fall into the same frozen clock. Both sides then share the buffer
  that was being written; they do so for good if that is buffer 1, and until the
  next frame end otherwise (`FieldStaysDistinctIff`,
  `FrozenCoincidenceIsPermanentIff`). The rotator uses the same successor function
  without a branch for coinciding edges: its two sides meet exactly then, and for
  good if neither was on buffer 1 (`RotateStaysDistinctIff`,
  `RotateMeetingIsPermanentIff`).
* The rotator writes nothing for the first two frames from power-up. The third,
  in whose sync the frame buffer comes on, is right if and only if that sync
  lasts at least two clocks or the walk happens to stand at its start
  (`ThirdFrameRightIff`). With the frame buffer already on, the second frame of
  a new size still loads the old sizes, and is right if and only if they fit
  (`SecondFrameRightIff`). From then on every frame is right
  (`EveryFrameWritten`).
* The scaler's line dividers serve windows of at most 2048 lines only, although
  sizes have twelve bits (`DivisionCorrectIff`).
* The microcode compiler does not check for clashing or overflowing entries; each
  kind is shown to overwrite or hide another (`OverflowHitsPlain`,
  `PlainHitsVirtual`, `GroupShadowsPlain`, `LongEntryWraps`).
* With 64-bit memory words and 32-bit pixels the packer pushes words it has not
  assembled (`UnsupportedBuildWitness`); all other builds are proved to round
  trip.
* The burst terminator ignores waitrequest on the last beat of a burst. That is
  the only way conservation breaks (`StepConservesIff`), and it can leave the
  memory one beat short (`StalledLastBeatStrands`). A read command that is still
  waiting when the reset is released is withdrawn (`ReadHeldIff`).
* `ddr_svc` drops data that arrives under waitrequest; a burst completes if and
  only if none does (`ServiceCompletesIff`).
* A microcode entry of 64 steps is reported as having none (`StepCountExactIff`,
  `FullLengthWitness`).
* Flip mode of the rotator is a half turn if and only if the picture's width is
  a multiple of four (`FlipIsHalfTurnIff`).
* The comments of the blender's colour test name open intervals; the code
  includes their lower ends (`DiffCheckMeaning`).

## Model

| member | source | states |
|---|---|---|
| `NonRestoring.PartialRange` | sys/math.sv:35-38 | The doubled-and-corrected partial remainder stays in [-v, v) for every number of steps, so a register of that range never overflows |
| `NonRestoring.PartialClosedForm` | sys/math.sv:35-39 | At every step the partial remainder is what is left of the shifted dividend after taking out the signed digits recorded so far |
| `NonRestoring.BitsAreQuotient` | sys/math.sv:35-39 | The recorded sign bits are a leading one followed by the binary expansion of floor(2^i * n / v) |
| `NonRestoring.BitsSaturate` | sys/ascal.vhd:2536-2602 | A dividend equal to the divisor makes every recorded bit one |
| `Divider.SysUdiv.Clock` | sys/math.sv:22-41 | One clock of the divider written with its slices and concatenations leaves exactly the registers of the modular specification, all within their widths |
| `Divider.RegisterHoldsPartial` | sys/math.sv:24 | The signed partial remainder stays in [-2D, 2D) for D = div * 2^NB_NUM, so it fits the NB_NUM+NB_DIV+2 bit register and its top bit is its sign |
| `Divider.Tracking` | sys/math.sv:31-40 | For every number of clocks after a start the registers hold the non-restoring state and busy lasts exactly NB_NUM+2 clocks |
| `Divider.DivisionCorrect` | sys/math.sv:22-41 | From any register contents a division is busy for NB_NUM+2 clocks and ends with floor(num/div), the second port holding num - div*(result with its lowest bit set), cut to NB_DIV bits |
| `Divider.ResultKept` | sys/math.sv:22-41 | After a division both ports keep quotient and remainder value for any number of clocks without a start, whatever num and div are applied, through the clock of the next start |
| `Divider.RemainderPortIsModuloIffOdd` | sys/math.sv:16-34 | The remainder port holds num mod div if and only if the quotient is odd |
| `Divider.RemainderPortIsModuloIffUpperHalf` | sys/math.sv:16-34 | The same condition on the inputs: num mod (2*div) is at least div |
| `Divider.RemainderPortWitness` | sys/math.sv:34 | 7 / 3 leaves 2 on the remainder port, whatever the registers held |
| `Divider.WideDividerNeverEnds` | sys/math.sv:23-33 | With more than 62 quotient bits the started divider stays busy over every run |
| `MulDiv.SysUmul.Clock` | sys/math.sv:64-80 | One clock of the shift-add multiplier, registers kept within their widths |
| `MulDiv.SysUmuldiv.Clock` | sys/math.sv:103-107 | Both units see the same edge: the divider is restarted by the pulse or by the running multiplier and loads the product of the moment |
| `MulDiv.AccumulateStep` | sys/math.sv:74-79 | One multiplier clock keeps result + add*map equal to the product although the shifted addend may be cut |
| `MulDiv.Multiplying` | sys/math.sv:48-107 | While the multiplier runs the product accumulates and the divider is busy and reloaded on every clock; the last restart loads the complete product |
| `MulDiv.Dividing` | sys/math.sv:103-107 | Once the multiplier has stopped the pair behaves as the divider alone |
| `MulDiv.Finish` | sys/math.sv:103-107 | From the last restart on the division ends after the product width plus two clocks with floor(product/div) |
| `MulDiv.MulDivProgress` | sys/math.sv:85-109 | For every prefix of an operation busy holds exactly until the latency is over |
| `MulDiv.MulDivCorrect` | sys/math.sv:85-109 | From any register contents one start pulse keeps the unit busy without a gap for exactly (significant bits of mul2) + 1 + product width + 2 clocks and then yields floor(mul1*mul2/div) |
| `MulDiv.ResultKept` | sys/math.sv:64-107 | From the end of the operation on the quotient, the second port and the product stay for any number of clocks without a start, and the two ports through the clock of the next start |
| `PixelDivider.Hscal.Bit` | sys/ascal.vhd:2540-2545 | One bit of the pipelined divider: subtract or add by the sign, record the new sign |
| `PixelDivider.Hscal.Clock` | sys/ascal.vhd:2534-2607 | One clock of the four-stage pipeline for every FRAC |
| `PixelDivider.RegisterHolds` | sys/ascal.vhd:2536-2604 | The 21-bit (input side 17-bit) register always shows the sign of the partial remainder in its top bit, for hsize up to 4095, a full-period accumulator included |
| `PixelDivider.Tracking` | sys/ascal.vhd:2534-2607 | After every step register and fraction hold the non-restoring state |
| `PixelDivider.StepsAreQuotient` | sys/ascal.vhd:1385-1413 | Both pixel dividers compute the leading j bits of acc/(2*size) exactly, saturating at a full period |
| `PixelDivider.HscalLatency` | sys/ascal.vhd:2534-2607 | Four edges after an accumulator value is presented the pipeline outputs its leading 4, 6 or 8 fraction bits by FRAC, whatever the stages held and whatever follows |
| `LineDivider.Divider.Clock` | sys/ascal.vhd:1836-1858 | One clock of the shared remainder/quotient register, for the output (12) and the input (6) divider |
| `LineDivider.ShiftTracks` | sys/ascal.vhd:1852-1857 | One shift of the 25-bit register is one non-restoring step in its upper and one recorded bit in its lower half |
| `LineDivider.Tracking` | sys/ascal.vhd:1836-1858 | For every number of clocks after the start the register holds that state |
| `LineDivider.DivisionCorrect` | sys/ascal.vhd:1617-1630 | Busy for last+1 clocks, then the leading last bits of vacc/(2*vsize), whatever the registers held and whatever the accumulator does meanwhile; last is 6 on the input side |
| `LineDivider.FractionKept` | sys/ascal.vhd:1844-1858 | The fraction keeps its old value until the division ends and the new one from then on, whatever accumulator and window do, through the clock of the next start |
| `LineDivider.OutputFraction` | sys/ascal.vhd:1829-1861 | On the output side thirteen clocks give floor(4096*vacc/(2*vsize)) |
| `LineDivider.WideWindowMisdivides` | sys/ascal.vhd:1836-1858 | For every window of 2049 to 4095 lines an accumulator of 4096 is read as negative when loaded, and the fraction comes out below a half instead of above |
| `LineDivider.DivisionCorrectIff` | sys/ascal.vhd:1617-1861 | The dividers are right for all accumulator values of a window exactly if it has at most 2048 lines |
| `HorizontalUpscale.Accumulator.CarriageReturn` | sys/ascal.vhd:2200-2211 | Whatever the registers held, the accumulator stands on the exact position of the first output pixel and its successor on that of the second |
| `HorizontalUpscale.Accumulator.Copy` | sys/ascal.vhd:2231-2258 | One copy clock; once the taps are full, accumulator plus 2*hsize times the source pixels shifted in behind them is the exact position of the output pixel |
| `HorizontalUpscale.Conservation` | sys/ascal.vhd:2052-2252 | For every output pixel, accumulator plus 2*hsize times the carries is exactly the distance walked; the accumulator is below a period if and only if the image is narrower than the window |
| `HorizontalUpscale.FractionExact` | sys/ascal.vhd:2231-2246 | Carries and the exact fraction of the accumulator locate every output pixel to within one fraction step, from below |
| `HorizontalUpscale.PositionExact` | sys/ascal.vhd:2534-2607 | Carries and the fraction that leaves the HSCAL pipeline four edges later locate every output pixel to within 2^-4, 2^-6 or 2^-8 source pixel by FRAC, from below, the upper bound being reached only without scaling |
| `HorizontalUpscale.UnscaledLineSaturates` | sys/ascal.vhd:2234-2242 | With ihsize = hsize the accumulator rests on a full period and all fraction bits are set |
| `HorizontalUpscale.LineCoversImage` | sys/ascal.vhd:2231-2254 | No output pixel of a line lies beyond the image and the last one lies on source position ihsize |
| `LineStepper.Stepper.Clock` | sys/ascal.vhd:2070-2102 | One clock of state sHSYNC and its carry |
| `LineStepper.Stepper.Hsync` | sys/ascal.vhd:2061-2110 | The stay in sHSYNC at the start of a line ends and leaves the settled registers, or takes one clock while lines are preloaded, and leads to sREAD exactly when a new line is due inside the window or preloading goes on |
| `LineStepper.FirstLine` | sys/ascal.vhd:2037-2099 | The first line of the window starts at phase vsize - ivsize and line counter 1, preloading or not |
| `LineStepper.CarryShrinks` | sys/ascal.vhd:2070-2084 | A carry takes a whole period off what is left, so the stay in sHSYNC ends for every window of up to 4095 lines |
| `LineStepper.SettleOnce` | sys/ascal.vhd:2070-2105 | With no more source than output lines one clock is enough, or two when a new source line is reached |
| `LineStepper.LineConservation` | sys/ascal.vhd:2051-2099 | Line n holds o_vacpt = 1 + floor((vsize-ivsize+2*ivsize*n)/(2*vsize)), o_vacc the residue, and the two-bit buffer selector in step |
| `LineStepper.FetchIffNewLine` | sys/ascal.vhd:2100-2106 | The flag that makes the state machine fetch is set exactly when the exact position has entered a new source line |
| `LineStepper.ReadsAreLines` | sys/ascal.vhd:2100-2110 | Over the lines of a window as many source lines are read as the exact position enters, all of the image but at most one, on top of those preloaded; outside the window none |
| `LineStepper.LinePositionExact` | sys/ascal.vhd:1829-1861 | Line counter and divider fraction together are the leading twelve fractional bits of the exact source position |
| `Downscale.Decimator.Step` | sys/ascal.vhd:1359-1368 | One decision of the decimator keeps the survivor count of the specification |
| `Downscale.KeptCount` | sys/ascal.vhd:1359-1368 | After n pixels exactly floor((hsize-ohsize+2*ohsize*n)/(2*hsize)) have been kept and the accumulator is the residue |
| `Downscale.PixelGate.Clock` | sys/ascal.vhd:1359-1383 | One pixel clock of the decision, its four delays and the six delays of the window, with the two enables made of them |
| `Downscale.LineKeepsWidth` | sys/ascal.vhd:1359-1487 | A full line makes exactly output-width keep decisions, the first skipping, the last keeping for reductions by less than three |
| `Downscale.LinePipe` | sys/ascal.vhd:1359-1507 | After every clock of a line each register holds its own delay, and the counts of pixels sent on are those of the decisions five clocks back |
| `Downscale.LinePushesOneMoreIff` | sys/ascal.vhd:1457-1507 | Of a reduced line the line buffer gets exactly the output width, and the packer, whose window is one clock later, one pixel more exactly when the reduction is by less than three |
| `Downscale.LineGate.EndOfLine` | sys/ascal.vhd:1338-1352 | One vertical decision with its reload; a line of the window survives if the decision before it kept |
| `Downscale.FrameCount` | sys/ascal.vhd:1338-1352 | Survivors of any window in a frame with any number of lines outside it, after one such frame: the carried-over decision for the first line, the reload for the second, steps for the rest |
| `Downscale.FrameKeepsHeightIff` | sys/ascal.vhd:1337-1352 | Any window in any frame keeps the announced height exactly if its first line is kept for reductions by less than 5/3 or skipped for those from 5/3 to below 5, never from 5 on |
| `Downscale.FullFrameKeepsHeightIff` | sys/ascal.vhd:1274-1352 | A window over all lines of the frame, as automatic sizing sets it, keeps the announced height if and only if the reduction is by less than three, and otherwise one line more |
| `Downscale.FrameKeepsHeightWitness` | sys/ascal.vhd:1338-1352 | A full frame of three lines reduced to one keeps two; a window of five lines below one other line reduced to two keeps three |
| `TripleBuffer.Scalaire.Clock` | sys/ascal.vhd:1911-1979 | One output clock of the buffer switch with its overriding assignments |
| `TripleBuffer.FieldStaysDistinctIff` | sys/ascal.vhd:1920-1965 | A clock keeps the shown and the written buffer apart exactly when it is not a frozen coincidence of frame end and sync |
| `TripleBuffer.TearFree` | sys/ascal.vhd:1911-1979 | Over every run from power-up with triple buffering on and no frozen coincidence of the first field, from the first unfrozen frame end on the buffer shown is never the one being written, simultaneous swaps included |
| `TripleBuffer.TearFreeSecondField` | sys/ascal.vhd:1927-1971 | The second field over every run from power-up with triple buffering on and no frozen coincidence: tear free from its own field end on in interlaced video, and from any progressive clock on once the first field is |
| `TripleBuffer.FrozenCoincidenceIsPermanentIff` | sys/ascal.vhd:1956-1965 | After a frozen coincidence both sides share the buffer that was being written, for every further run exactly if that is buffer 1; otherwise the next unfrozen frame end separates them |
| `TripleBuffer.PowerUpReachesMeeting` | sys/ascal.vhd:1920-1965 | Two clocks from power-up reach the permanent case |
| `TripleBuffer.FreezeHolds` | sys/ascal.vhd:1920-1960 | Over every frozen run the buffer written stays, and the buffer shown too unless a frame end meets an output sync, which brings it onto the one written |
| `TripleBuffer.BuffersHold` | sys/ascal.vhd:1920-1960 | Over every run without an end of its input frames a field keeps its write buffer, and over every run without an output sync the buffer shown |
| `TripleBuffer.ControlsMean` | sys/ascal.vhd:1968-1979 | With triple buffering off both fields are in buffer 0; in progressive video the second field follows the first one clock behind |
| `TripleBuffer.FramesAreTheScalers` | sys/ascal.vhd:1920-1960 | Over every unfrozen run the frames followed by the next results are those of the scaler's first field, and of its second one in interlaced video |
| `TripleBuffer.FrameEndSynchronizes` | sys/ascal.vhd:1920-1960 | Once the buffers have parted one more frame end makes the completed frame the waiting or shown one |
| `TripleBuffer.SyncShowsLatest` | sys/ascal.vhd:1934-1960 | The next output sync then shows the most recently completed frame |
| `TripleBuffer.UpToDateStep` | sys/ascal.vhd:1920-1960 | Every event keeps the shown frame complete, never lets its number go back, and a sync shows the latest |
| `TripleBuffer.ShownFramesAdvance` | sys/ascal.vhd:1920-1960 | Over every run of frame ends and syncs the shown frame number never goes back |
| `TripleBuffer.PowerUpSynchronizes` | sys/ascal.vhd:1911-1960 | Over every run from power-up one frame end parts the buffers and from the second on the completed frame waits or is shown |
| `TripleBuffer.DisplayFollowsInput` | sys/ascal.vhd:1911-1960 | In every run from power-up every output sync from the second frame end on shows the most recently completed frame, and after the first such sync the shown frame is complete and never goes back |
| `TripleBuffer.RotateStaysDistinctIff` | sys/arcade_video.v:221-256 | One clock keeps the buffers of the rotator apart exactly if its two edges do not coincide |
| `TripleBuffer.RotateRunApart` | sys/arcade_video.v:243-257 | Over every run without coinciding edges they stay apart |
| `TripleBuffer.RotateMeetingIsPermanentIff` | sys/arcade_video.v:221-256 | Coinciding edges join both sides on the third buffer, for every further run exactly if that is buffer 1; from buffer 0 on both sides the first coincidence is already of that kind |
| `PixelPacking.InputPacker.Push` | sys/ascal.vhd:1457-1466 | Pushing a pixel keeps memory at exactly the whole words of the pixels pushed so far and the register at their last fifteen bytes |
| `PixelPacking.OutputUnpacker.Shift` | sys/ascal.vhd:2288-2292 | Fed with the addressed word, each shift shows the pixel whose bytes come next in the line and stays aligned behind it |
| `PixelPacking.InNextIsBoundary` | sys/ascal.vhd:615-628 | A pixel completes a word exactly when the word boundary falls within its bytes |
| `PixelPacking.PackAtBoundary` | sys/ascal.vhd:580-613 | The word then assembled is the tail of the register followed by that pixel's share |
| `PixelPacking.PackedStream` | sys/ascal.vhd:562-628 | After any number of pixels the words pushed are exactly the whole words of the pixel byte stream, in order, independent of stale registers |
| `PixelPacking.StepFacts` | sys/ascal.vhd:630-698 | The unpacker loads a word exactly when fewer bytes are left than a pixel needs, and its register then starts with the bytes left over |
| `PixelPacking.UnpackTracks` | sys/ascal.vhd:630-698 | After every pixel the output register holds exactly the loaded but unshown bytes of the stream |
| `PixelPacking.DecodeEncode` | sys/ascal.vhd:562-719 | A pixel read back from its bytes is itself for 24 and 32 bits, and its channels cut to 5, 6, 5 bits and widened by repetition for 565 |
| `PixelPacking.PixelLayout` | sys/ascal.vhd:562-575 | A 565 pixel lies in memory as a little-endian halfword with red lowest, the others as red, green and blue bytes with a zero fourth one |
| `PixelPacking.RoundTrip` | sys/ascal.vhd:562-719 | Every pixel whose bytes lie in a completed word comes back, for both word widths and every format but 32-bit pixels in 64-bit words, whatever the registers held |
| `PixelPacking.WholeGroups` | sys/ascal.vhd:1466 | Sixteen pixels end on a word boundary, so a line of whole groups comes back complete |
| `PixelPacking.UnsupportedBuildWitness` | sys/ascal.vhd:600-622 | With 64-bit words and 32-bit pixels three of every line's first four words hold the old word register, the fourth the last two pixels |
| `SafeTerminator.Terminator.Observe` | sys/f2sdram_safe_terminator.sv:136-147 | Beat counter, burst count and address latches of the write observer |
| `SafeTerminator.Terminator.Terminate` | sys/f2sdram_safe_terminator.sv:177-222 | The reset branch and the running write, with the overriding order of their assignments |
| `SafeTerminator.Terminator.Clock` | sys/f2sdram_safe_terminator.sv:95-242 | All clocked blocks at one edge, and the multiplexed port |
| `SafeTerminator.StepConservesIff` | sys/f2sdram_safe_terminator.sv:127-242 | One clock keeps the observer, the terminator and the memory agreed on the open burst if and only if it does not stall the last beat |
| `SafeTerminator.RunConserves` | sys/f2sdram_safe_terminator.sv:95-242 | The same over every run, with resets coming and going at any clock |
| `SafeTerminator.PortIsReturnedWhole` | sys/f2sdram_safe_terminator.sv:211-242 | From power-up, whenever the port is handed back no burst is open and every announced beat has been accepted |
| `SafeTerminator.BeatsBelongToTheirBurst` | sys/f2sdram_safe_terminator.sv:224-242 | A burst is opened only by its own first beat with its own count and address, and beats sent while terminating enable no byte |
| `SafeTerminator.Transparent` | sys/f2sdram_safe_terminator.sv:95-242 | Over every run with no reset after the first deassertion the memory sees the user's read, write, burst count, address and byteenable on every clock |
| `SafeTerminator.HandsBack` | sys/f2sdram_safe_terminator.sv:211-242 | The port goes back in the first clock without reset in which nothing is left to write, and the user then keeps it over every run without reset |
| `SafeTerminator.StoresAreTheUsers` | sys/f2sdram_safe_terminator.sv:95-242 | Over every fair run with resets the bytes written in memory, with addresses and order, are exactly those of the beats the user had accepted outside termination |
| `SafeTerminator.TerminationDrains` | sys/f2sdram_safe_terminator.sv:217-221 | While terminating exactly the missing beats are written, one per granted clock, and the port is not given back before |
| `SafeTerminator.StalledLastBeatStrands` | sys/f2sdram_safe_terminator.sv:129-220 | A reset during a stalled last beat leaves the memory one beat short for as long as it lasts |
| `SafeTerminator.ReadHeldIff` | sys/f2sdram_safe_terminator.sv:201-214 | A waiting read command survives a clock unchanged if and only if the reset is still on, and is not repeated once granted |
| `SafeTerminator.WaitingReadIsHeld` | sys/f2sdram_safe_terminator.sv:185-208 | From the clock of the reset the same read command stays on the port while memory waits and the reset lasts |
| `CreditQueue.Queue.ReadMachine` | sys/ascal.vhd:2061-2142 | Issue of burst reads: a credit, the half toggled, the burst counter |
| `CreditQueue.Queue.CopyMachine` | sys/ascal.vhd:2188-2279 | Start and end of a copy |
| `CreditQueue.Queue.File` | sys/ascal.vhd:2341-2366 | Shifting the tag registers and filing a new tag |
| `CreditQueue.Queue.OnClock` | sys/ascal.vhd:2058-2366 | One output clock of the queue, both credit counters included |
| `CreditQueue.ClockKeeps` | sys/ascal.vhd:2112-2366 | Every output clock keeps credits, tag FIFO, alternation of halves and stored data |
| `CreditQueue.DataKeeps` | sys/ascal.vhd:1786-1794 | Every arriving word keeps them |
| `CreditQueue.NoHalfIsOverwritten` | sys/ascal.vhd:1788-1794 | The half being filled holds no burst still to be copied |
| `CreditQueue.ClockStarts` | sys/ascal.vhd:2112-2279 | A read is issued in exactly the clocks of sREAD with an address and fewer than two bursts outstanding, a copy starts in exactly those of sWAIT with a filled burst and free line buffers |
| `CreditQueue.RunKeeps` | sys/ascal.vhd:1786-2366 | The invariant holds in every state of every interleaving of both clock domains |
| `CreditQueue.CopyReadsItsBurst` | sys/ascal.vhd:2188-2366 | 0 <= o_copylev <= o_readlev <= 2, and whenever a burst is being copied the front tag is its own and names the half holding exactly its words in order |
| `CreditQueue.LinesHaveTheirBursts` | sys/ascal.vhd:2112-2142 | Every line begun gets exactly o_hburst bursts, the first and the last one marked, in every reachable state |
| `BurstCopy.Copier.Wait` | sys/ascal.vhd:2189-2217 | A burst starts on its own half with none of its words taken |
| `BurstCopy.Copier.Copy` | sys/ascal.vhd:2231-2279 | One sCOPY clock; inside a burst that is not its line's last, copying ends only with all words taken and the next pixel due for another |
| `BurstCopy.ShiftInBurst` | sys/ascal.vhd:2257-2277 | Every word a shift uses lies in the burst, in the half the tag names, and the burst is left if and only if all its words are used and the next pixel needs another |
| `BurstCopy.ShortBurstNeverEnds` | sys/ascal.vhd:2269-2277 | Bursts of four words or fewer would never end |
| `BurstCopy.LineStep` | sys/ascal.vhd:2189-2292 | Each shift of a line is a shift of one unbroken unpacking, over the end of a burst as within it |
| `BurstCopy.LineUnbroken` | sys/ascal.vhd:2189-2292 | However many bursts a line spans, the k-th pixel copied is the one whose bytes come k-th in the line's words |
| `BurstCopy.CopyUsesItsWords` | sys/ascal.vhd:1786-2366 | In every reachable state of the burst queue the word a copy uses is its own burst's next one |
| `Bicubic.WrapCancels` | sys/ascal.vhd:960-994 | Cutting a partial sum to ten bits cannot be seen after a later ten-bit addition |
| `Bicubic.WeightedSum` | sys/ascal.vhd:900-919 | No combination of four pixels drives the weighted sum out of the ten-bit range |
| `Bicubic.SumInRange` | sys/ascal.vhd:905-994 | For all pixels, every FRAC and every position the untruncated-register sum lies in [-330, 446] |
| `Bicubic.CoefficientsFit` | sys/ascal.vhd:905-919 | All coefficient registers hold their exact values |
| `Bicubic.ProductsFit` | sys/ascal.vhd:930-977 | All product registers hold their exact truncated values; only the partial sum may wrap |
| `Bicubic.InterpolationExact` | sys/ascal.vhd:759-994 | The four stages return the clamped sum over the integers with the code's truncations |
| `Bicubic.SquareMeaning` | sys/ascal.vhd:908-919 | The squared position is f*f/n*n in units of 1/256, rounded down |
| `Bicubic.SumNearCurve` | sys/ascal.vhd:900-994 | The sum lies between six and a half below and three above the cubic p0 + (p1-pm)x/2 + (2pm-5p0+4p1-p2)x^2/2 + (3p0-3p1+p2-pm)x^3/2 at x = f/n, for all pixels and positions |
| `Bicubic.OutputIsClosestPixel` | sys/ascal.vhd:759-769 | The output is the pixel value closest to the sum |
| `Bicubic.InterpolationReproduces` | sys/ascal.vhd:905-994 | The curve passes through a source pixel and keeps a flat area flat, for every build |
| `Bicubic.PartialSumWraps` | sys/ascal.vhd:966-968 | The wrap does happen: a partial sum of 759 reads as negative |
| `VideoMeter.SizeMeter.Clock` | sys/arcade_video.v:267-292 | One pixel clock of the size measurement, frame buffer switch included |
| `VideoMeter.MeterFrame` | sys/arcade_video.v:267-294 | One frame of any blanking counts the picture; after a counted frame it measures it, row pitch rounded up to four pixels; and a measured picture stays measured on every clock of the frame |
| `VideoMeter.MeterMeasures` | sys/arcade_video.v:263-294 | From any registers, frames of constant size are measured from the second on and the frame buffer is on from the third |
| `VideoMeter.PitchFitsIff` | sys/arcade_video.v:282-294 | Rounding the pitch up fits the twelve-bit register exactly for sides of at most 4092; above, the pitch is zero |
| `ScreenRotate.AddressWalk.Clock` | sys/arcade_video.v:299-327 | One pixel clock of the address walk, reading size, pitch and buffer size from the measurement, and the address it writes |
| `ScreenRotate.Rotator.Clock` | sys/arcade_video.v:267-327 | Both blocks on one clock: the walk reads the measurement as it was before the edge and stands still until the frame buffer is on |
| `ScreenRotate.AddressInBuffer` | sys/arcade_video.v:308-325 | Every pixel's address is inside the buffer and aligned |
| `ScreenRotate.AddressInjective` | sys/arcade_video.v:308-325 | No two pixels share an address |
| `ScreenRotate.FrameWritten` | sys/arcade_video.v:299-327 | Over a measured picture, from any state between lines, a sync of any length and the lines, with any blanking around them, write every pixel once, in scan order, at its turned address |
| `RotateFrames.WalkFollows` | sys/arcade_video.v:294-327 | While the picture stays measured, measurement and walk together write what the walk over the measured picture writes |
| `RotateFrames.LinesRightIff` | sys/arcade_video.v:299-327 | The lines of a measured picture are written at their places if and only if the walk stands before the first pixel with the second line's column at hand |
| `RotateFrames.TwoFramesUnwritten` | sys/arcade_video.v:263-304 | From power-up two frames go by unwritten, the walk untouched, and the picture is then measured |
| `RotateFrames.ThirdFrameRightIff` | sys/arcade_video.v:260-327 | The third frame from power-up, the first one written, is right if and only if its sync lasts two clocks or the walk happens to start right |
| `RotateFrames.EveryFrameWritten` | sys/arcade_video.v:263-327 | The whole module on streams of constant size: every frame is written pixel by pixel at its turned address after three frames from any register contents, after two if the frame buffer was last switched on, and after two from power-up if its sync lasts two clocks |
| `RotateFrames.SecondFrameRightIff` | sys/arcade_video.v:280-327 | With the frame buffer on from the start the second frame is written rightly, clockwise, counter-clockwise or flipped, if and only if the sizes left from before the first fit |
| `RotateFrames.PictureTurned` | sys/arcade_video.v:263-327 | From then on the buffer holds at every turned address the pixel that belongs there, clockwise, counter-clockwise or flipped |
| `RotateFrames.UnturnedUnwritten` | sys/arcade_video.v:206-327 | With rotation off and no flip nothing is written any more after three syncs, over every video stream and from any registers |
| `ScreenRotate.FlipIsHalfTurnIff` | sys/arcade_video.v:309-320 | Flipping is the half turn of rows of the buffer's pitch if and only if the width is a multiple of four |
| `MicroOps.DecodeEncode` | scripts/microcode/micro_op_defs.py:163-177 | No field of an encoded micro-op overlaps another |
| `MicroOps.EncodeDecode` | scripts/microcode/micro_op_defs.py:133-177 | The fields tile the 48 bits |
| `Microcode.ParseUsFile` | scripts/microcode/microcode_compiler.py:229-291 | The line loop builds the entries that EntriesAreLines ties to the source lines, empty ones dropped |
| `Microcode.ParsedSequenced` | scripts/microcode/microcode_compiler.py:245-291 | Every parsed entry has steps, the end flag on the last and on no other, and its atomic flag on all |
| `Microcode.EntriesAreLines` | scripts/microcode/microcode_compiler.py:235-291 | The entries are exactly the headers with at least one step line behind them, in the order of the source: opcode byte, 0F mark, group and atomic flag of the header, and the step lines up to the next header in their order, in every field but the two flags |
| `Microcode.StartsAre` | scripts/microcode/microcode_compiler.py:245-281 | Those headers are exactly the header lines directly followed by a step line, each once and rising |
| `Microcode.GenerateTables` | scripts/microcode/microcode_compiler.py:297-330 | The loop fills ROM, metadata and remap tables as specified |
| `Microcode.AddressInjective` | scripts/microcode/microcode_compiler.py:324-328 | No two steps of two slots share a 15-bit ROM address |
| `Microcode.CompileAllocates` | scripts/microcode/microcode_compiler.py:310-317 | Virtual opcodes are handed out once per group key, counting up from D0 without collision |
| `Microcode.SlotsDistinct` | scripts/microcode/microcode_compiler.py:308-322 | Distinct source keys are filed in distinct slots |
| `Microcode.LastEntryWins` | scripts/microcode/microcode_compiler.py:307-330 | The tables hold, for every key, exactly the last entry registered under it |
| `Microcode.LookupMeta` | scripts/microcode/microcode_compiler.py:355-388 | Step count (in six bits) and atomic flag of the last entry come back through the emitted lookups |
| `Microcode.CompileThenLookup` | scripts/microcode/microcode_compiler.py:294-413 | Remapping opcode and ModRM.reg and reading the ROM yields the entry's micro-ops and atomic flag |
| `Microcode.StepCountExactIff` | scripts/microcode/microcode_compiler.py:362-366 | The step count comes back if and only if there are fewer than 64 steps |
| `Microcode.FullLengthWitness` | scripts/microcode/microcode_compiler.py:355-370 | A compilable entry of 64 steps is reported as having none |
| `Microcode.OverflowHitsPlain` | scripts/microcode/microcode_compiler.py:313-328 | The 49th group key overwrites the steps of plain 0F 00 |
| `Microcode.PlainHitsVirtual` | scripts/microcode/microcode_compiler.py:316-328 | A plain 0F opcode that a group key has been given overwrites that group |
| `Microcode.GroupShadowsPlain` | scripts/microcode/microcode_compiler.py:393-411 | An opcode both plain and grouped runs the group's steps for the group's ModRM.reg |
| `Microcode.LongEntryWraps` | scripts/microcode/microcode_compiler.py:324-328 | A 65th step overwrites the first |
| `Microcode.SourceToMicroOps` | scripts/microcode/microcode_compiler.py:229-413 | For the last header of its key, walking the ROM from step 0 to the end flag executes exactly the step lines behind that header, in their order, the end flag on the last and the header's atomic flag on all, stale tails of longer sequences notwithstanding |
| `Microcode.UnlistedDefaults` | scripts/microcode/microcode_compiler.py:343-411 | An instruction the source does not list gets an empty micro-op, one step and no atomic flag, unless it is a 0F opcode from D0 on |
| `FlatMemory.WordRoundTrip` | bench/verilator/memory_model.h:42-77 | 16- and 32-bit words written are read back at every address, wrapping ones included |
| `SparseMemory.ApplyMeans` | bench/verilator/memory_model.h:62-108 | Byte by byte what each operation does: byte k of the value or the fill byte within its length, round the address space, and every other byte stays |
| `SparseMemory.MemoryModel.Read8` | bench/verilator/memory_model.h:36-40 | Reads agree with the flat memory, absent pages reading FF |
| `SparseMemory.MemoryModel.Read16` | bench/verilator/memory_model.h:42-45 | Little-endian, wrapping at 2^32 |
| `SparseMemory.MemoryModel.Read32` | bench/verilator/memory_model.h:47-52 | Little-endian, wrapping at 2^32 |
| `SparseMemory.MemoryModel.Read128` | bench/verilator/memory_model.h:55-59 | The sixteen bytes of a fetch block |
| `SparseMemory.MemoryModel.Write8` | bench/verilator/memory_model.h:62-65 | Exactly one byte of the flat view changes and at most its page is allocated |
| `SparseMemory.MemoryModel.Write16` | bench/verilator/memory_model.h:67-70 | Agrees with the flat memory |
| `SparseMemory.MemoryModel.Write32` | bench/verilator/memory_model.h:72-77 | Agrees with the flat memory |
| `SparseMemory.MemoryModel.Fill` | bench/verilator/memory_model.h:104-108 | Exactly the filled addresses change, wrapping and counts beyond the space included |
| `SparseMemory.MemoryModel.Execute` | bench/verilator/memory_model.h:62-129 | Every sequence of writes and fills leaves the sparse memory reading like the flat one |
| `RomImage.BinToHex` | asm/bin_to_hex.py:22-33 | The padding and packing loop yields the words of the padded image |
| `RomImage.HexHoldsImage` | asm/bin_to_hex.py:22-33 | One line for every eight bytes begun, each a 64-bit number holding the image's bytes in order, least significant first, and FF behind its end |
| `RomImage.Bench.LoadBin` | bench/verilator/test_bios_rom_smoke.cpp:73-85 | Loads the image as the flat memory does |
| `RomImage.Bench.ServiceDataMem` | bench/verilator/test_bios_rom_smoke.cpp:236-255 | One request is served once: a byte-enabled write or a 64-bit read of the aligned word |
| `RomImage.LoadedAt` | bench/verilator/test_bios_rom_smoke.cpp:81-82 | Loading puts byte k at offset k and touches nothing else |
| `RomImage.RomAgreement` | asm/bin_to_hex.py:22-33 | Word i on the bus is line i of the hex file, tail padding and wrapping images included |
| `RomImage.BusMerge` | bench/verilator/test_bios_rom_smoke.cpp:239-251 | A write then a read merges lane by lane and leaves other words alone |
| `Blend.DiffCheckMeaning` | sys/hq2x.sv:278-294 | No difference overflows its register: the test is the plain one on luma and two chroma differences of the halved channels |
| `Blend.Mul24x3IsProduct` | sys/hq2x.sv:356-365 | The shifted additions multiply three lanes at once without overlap |
| `Blend.MixIsWeightedMean` | sys/hq2x.sv:312-369 | For each of the six codes every channel is the weighted sum of its own channel in sixteenths, rounded down, the weights adding up to one |
| `Blend.MixStaysBetween` | sys/hq2x.sv:312-369 | No channel of the blend leaves the range spanned by its sources |
| `Blend.RulesMean` | sys/hq2x.sv:312-348 | Every rule in plain numbers: which neighbours are compared, and the sixteenths of centre and neighbours that result |
| `Blend.Blender.Clock` | sys/hq2x.sv:319-369 | One enabled clock: from the fourth on the result is the weighted mean of the neighbourhood presented three clocks before, by the weights its rule selects |
| `Blend.BlendLatency` | sys/hq2x.sv:319-369 | Four enabled edges after a neighbourhood its blended pixel leaves, with the weights its rule selects |
| `Blend.FlatAreaKept` | sys/hq2x.sv:334-369 | A flat area keeps its colour under every rule |
| `DdrService.DdrSvc.Clock` | sys/ddr_svc.sv:70-106 | One clock of the arbiter |
| `DdrService.CountBeat` | sys/ddr_svc.sv:84-101 | The wrapping eight-bit beat counter ends a burst after exactly its count, 256 for zero |
| `DdrService.StepBalances` | sys/ddr_svc.sv:70-106 | Every clock keeps pulses plus beats owed equal to beats granted, per channel |
| `DdrService.ServiceBalances` | sys/ddr_svc.sv:70-106 | Over every run, each channel has received exactly the beats granted to it when the port is idle |
| `DdrService.ToggleIsGranted` | sys/ddr_svc.sv:78-95 | A toggled request is granted on an idle unstalled port, channel 0 first, acknowledged by its own level, owed its full burst |
| `DdrService.CommandsMatchGrants` | sys/ddr_svc.sv:70-106 | Over every run each granted request is exactly one burst command taken by the memory or still waiting, unchanged on the port, and withdrawn when taken |
| `DdrService.CommandWaits` | sys/ddr_svc.sv:73-95 | A waiting command is still there, the same, after any number of waits, and gone one clock after it is taken |
| `DdrService.RestKept` | sys/ddr_svc.sv:70-106 | A channel's data stays until its next pulse, acknowledges and command until the next grant |
| `DdrService.PulseCarriesData` | sys/ddr_svc.sv:71-103 | Each pulse delivers the beat that came with it to the channel in service and to no other |
| `DdrService.ServiceProgress` | sys/ddr_svc.sv:96-103 | While fewer beats have been taken than owed, service goes on for the same channel |
| `DdrService.ServiceCompletesIff` | sys/ddr_svc.sv:73-103 | A memory that sends exactly the beats asked for completes the service if and only if none arrives under waitrequest; otherwise exactly the lost beats stay owed |

## Left out

- HorizontalUpscale.Conservation: asks for hsize + ihsize < 2 * OHRESH, because with both as wide as the line buffer the accumulator leaves its declared range; the source gives that value no meaning.
- LineStepper.LineConservation: stated for vsize + ivsize of at most 4096, where the doubled sizes fit the 13-bit accumulator, in builds with OHRES of at least 2048; LinePositionExact in addition needs at most 2048 lines, the largest window for which the line divider holds its partial remainder.
- Downscale.FrameKeepsHeightIff: counts one line end per line, which needs horizontal blanking longer than the 16 clocks of the source's delay, and a constant number of lines per frame.
- Downscale.LinePushesOneMoreIff: counts the pixels of the window; the repeats that flush a line's last word are not modelled.
- RotateFrames.EveryFrameWritten: stated for pictures whose padded side has at most 4092 pixels and the other at most 4095, with a buffer below 8 MB, the limits of the 12-bit size and 23-bit address registers; progressive, with syncs outside the lines and controls held constant.
- CreditQueue.Queue.CopyMachine: takes the clock in which a burst's pixels are used up as an input, so that its results hold for every such clock; BurstCopy derives it for bursts that are not the last of their line.
- BurstCopy.LineUnbroken: a line's last burst, which ends with the line's pixel count, a start offset into the first burst (framebuffer mode), and the equal delays of address and pixel position on the way to the output register are not modelled.
- SafeTerminator.RunConserves: assumes a user that holds write through its burst, keeps a waiting command stable and does not write while the port is being terminated, as the Avalon protocol asks; read data passes the module untouched and is not modelled.
- CreditQueue.CopyReadsItsBurst: covers one frame, with bursts completing in order; the realignment of the write pointer at the next vertical sync is not modelled.
- PixelPacking.RoundTrip: concerns the words pushed for whole pixels; the extra pixels that flush a line's last word, and the 8 bpp and 1555 framebuffer formats, are not modelled.
- Microcode.SourceToMicroOps: starts from parsed lines; regular expressions, mnemonic tables and the text of the generated file are not modelled, and the emitted case statements are map lookups.
- Clock-domain synchronisers and asynchronous parameters: an event is one input of the receiving process, and sizes are constant within a line or frame.
- Interlaced and bob line addresses, framebuffer mode, sync generation, variable refresh, palette, border, polyphase, bilinear and downscaling interpolation in ascal.vhd.
- The low-latency buffer mode of screen_rotate and its memory interface beyond the address.
- The line walk and line buffers of Hq2x around the blender.
- File access in load_bin, load_binary and bin_to_hex.py: an image is a sequence of bytes.
- The processor itself under rtl/.
