# Verified model of the gas-station server's algorithms

This project models, in Dafny, the self-contained algorithms of a C gas-station and IoT server and proves what
they are for. One module stands for one component:

- `BitReversal`, `FftSchedule`, `Rings`, `FftExact`, `Complex`, `Sinewave`, `FftFixed`, `FftBounds`, `FftAccuracy`,
  `FftInverse`, `FftMargins`, `FftInverseWraps`, `FftRootTable`, `FftRoot`, `FftTurns`:
  the fixed-point FFT. The reorder loop and the butterfly loops are written once, over any element type. With exact
  ring arithmetic they compute the DFT sum; with 16-bit arithmetic and the sine table they compute `FixFft`, which
  stays free of overflow and close to DFT/n under explicit input bounds; the inverse transform, which shifts only when
  its data are large, has its own bounds, accuracy on every run that wraps nothing, and the sizes for which none wraps.
  The table and its signs are tied to the 1024th roots of unity on either side of 1.
- `Envelope`, `PhaseLock`, `PhaseLockTheorems`, `PhaseLockRing`, `PhaseLocker`, `PhaseLockPolygon`, `PhaseLockShift`:
  the NTP phase lock, with doubles as reals: the sample ring, the correction for frequency changes, the two envelope
  passes and the frequency shift.
- `IntelHex` is a loader written from the Intel Hexadecimal Object File Format Specification; `Bin2Hex` is the writer,
  proved against that loader.
- `WebSocket`, `Rfc6455`: frame writer, header parser and unmasking loop, and the framing of section 5.2 of RFC 6455.
- `CStrings`, `AuthorCipher`, `Author`, `AuthorPorts`: the licence cipher. `H264Slices`: the start-code splitter
  (Annex B.1.1 and section 7.3.1 of ITU-T H.264).
- `NtpExchange`, `NtpProbe`, `NtpReplies`: timestamp arithmetic, the probe loop and the replies it takes (section 5 of
  RFC 4330).
- `SocketList`, `Transfer`: the intrusive list, the server scan over it and the sending loop.
- `HttpCheck`: the incremental completeness check. `TextSearch`: the search helpers. `Yuv`, `YuvPlanar`: image layouts.
- `Machine`, `Options`, `Sequences`: shared basics.

Loops and in-place updates of the C code are methods over arrays, classes and fields; each is proved equal to a
specification, and the results below are about that specification. What the environment decides (received datagrams,
select and send outcomes, the random mask key, the clock) is a parameter. `dafny verify dfyconfig.toml` checks
everything.

## Where the code decides

- phaselock.c:78 says that sign 0 looks for the largest slope; the code at line 91 looks for the smallest, and for
  the largest with sign 1. The model follows the code. Line 259 keeps the smaller of two crossing slopes in pass 3 as
  well; by `CrossingIsExtreme` that makes no difference when any consistent line exists.
- phaselock.c:238 compares strictly, so samples without any error are called inconsistent (`ExactSamplesRejected`);
  `CrossingIsKept` says exactly when consistent samples are not.
- fft.c:209-211 negates `fi[i]` as a short, so -32768 there does not trigger the shift (`LargeIff`, `OverlookedWraps`).
  The scaling decision looks at single parts, while a rotated sample can be larger than either: by
  `DecisionSufficesIff` it keeps the inverse transform from wrapping for up to four samples and for no larger size.
  `InverseNeverWraps` gives inputs of every size that do not wrap.
- bin2hex.c:64, 79 and 111 leave the order of `k++` and the checksum's use of `k` open; the checksum is taken over the
  bytes before it. The line buffer `hex_str` has 24 bytes where up to 45 are written (`DataLineLength`); the model has
  room for them.
- webserver.c:105 copies eight bytes into a four-byte field and the key field after it; the key is loaded afterwards,
  so the length is the low 32 bits. In an unmasked frame the second byte is combined with what the buffer held.
- httpapi.c:108 skips the character after the colon, where RFC 7230 makes the space optional; `CompletionIff` says
  when that matters.
- jpeg_yuv.c:77 copies half the clip height of chroma rows, each of the clip width, so odd clip sizes lose chroma
  (`CropRightIff`). Lines 252-258 place V a quarter of the pixels after U, whatever the rows make: `ConversionRightIff`
  gives the sizes for which that is right and `OverlapIff` those for which V overwrites the end of U; at the other
  odd sizes a gap remains between them.
- ntpclient.c:310-312 computes the borrow with `~b`, one unit short; time_of_send is not set before the first probe.
- author.c:119-128 starts with s and t exchanged against the alphabet of lines 14-23.

## Model

| member | source | states |
|---|---|---|
| `BitReversal.RevInvolution` | ExtLibs/FFT/fft.c:181-197 | reversing the b bits of an index twice gives the index back, for every b |
| `BitReversal.ReversedIncrementIsRev` | ExtLibs/FFT/fft.c:182-187 | one step of the masked search for the highest clear bit takes the reversal of m - 1 to the reversal of m |
| `FftSchedule.NextReversed` | ExtLibs/FFT/fft.c:183-187 | the do-while and the mask compute that reversed increment |
| `FftSchedule.Reorder` | ExtLibs/FFT/fft.c:177-197 | the swapping loop leaves both arrays permuted by bit reversal, for every power-of-two length |
| `FftSchedule.ReorderedTwice` | ExtLibs/FFT/fft.c:181-197 | reordering twice is the identity |
| `FftSchedule.ButterfliesPartition` | ExtLibs/FFT/fft.c:233-259 | in a pass every index belongs to exactly one butterfly, as its upper or its lower end |
| `FftSchedule.ButterflyPass` | ExtLibs/FFT/fft.c:233-260 | the nested loops, which overwrite the arrays as they go, compute the pass in which all butterflies act at once on the old values |
| `FftSchedule.PassJoinsBlocks` | ExtLibs/FFT/fft.c:233-262 | a pass whose butterflies join blocks pairwise turns 2m blocks of length l into m blocks of length 2l |
| `FftSchedule.AllPasses` | ExtLibs/FFT/fft.c:199-263 | the while loop makes log2(n) passes, the p-th with span l = 2^p and the p-th of the given butterflies |
| `FftFixed.Passes` | ExtLibs/FFT/fft.c:199-264 | the same loop with k counting down from LOG2_N_WAVE - 1 as l doubles, and with the scaling decision of each pass, computes the specified run |
| `FftExact.EvenOdd` | ExtLibs/FFT/fft.c:245-259 | the polynomial sum over all samples splits into the sums over even and odd samples (decimation in time) |
| `FftExact.StageStep` | ExtLibs/FFT/fft.c:233-262 | one exact pass takes the partial transforms of all blocks of l samples to those of all blocks of 2l |
| `FftExact.StageEnds` | ExtLibs/FFT/fft.c:181-264 | the first stage is the reordered input and the last one the transform |
| `FftExact.ExactFft` | ExtLibs/FFT/fft.c:171-264 | over every commutative ring and every root w with w^(N_WAVE/2) = -1, reorder and passes leave in place exactly the DFT sum, for every power-of-two length and all data |
| `Complex.ComplexesLawful` | ExtLibs/FFT/fft.c:247-258 | complex numbers with the program's real and imaginary formulas are such a ring |
| `Sinewave.TwiddlePairs` | ExtLibs/FFT/fft.c:30-141 | for every twiddle index the sine and cosine entries together do not exceed 32767 in absolute value |
| `FftRootTable.SineTruncates` | ExtLibs/FFT/fft.c:44-141 | every entry of the first quarter wave is 32767 times the sine of its angle, truncated, the sine being that of the powers computed to twelve decimals |
| `FftTurns.ForwardSigns` | ExtLibs/FFT/fft.c:234-244 | the forward twiddles start at (32767, 0), pass (0, -32767) at entry 256, and turn clockwise through the two lower quadrants |
| `FftTurns.InverseSigns` | ExtLibs/FFT/fft.c:234-244 | the inverse twiddles are their mirror images |
| `FftTurns.TableMultiplies` | ExtLibs/FFT/fft.c:234-244 | the product of entries j and k is 32767 times entry j + k to within nine units, for all j + k < 512 |
| `FftFixed.FixMpyRounds` | ExtLibs/FFT/fft.c:149-158 | FIX_MPY is a*b/2^15 rounded half up if and only if not both operands are -32768 |
| `FftFixed.TwiddleInRange` | ExtLibs/FFT/fft.c:234-238 | the twiddle index stays below N_WAVE/2 in every pass |
| `FftFixed.ScanShift` | ExtLibs/FFT/fft.c:204-216 | the inverse transform's scan finds whether the code's test holds of any sample |
| `FftFixed.LargeIff` | ExtLibs/FFT/fft.c:206-212 | the test finds every sample with a part above 16383 in absolute value except one whose only such part is an imaginary -32768 |
| `FftFixed.AnyLargeIff` | ExtLibs/FFT/fft.c:204-216 | the pass is shifted when it should be if and only if some sample with such a part is not of that kind, or none has one |
| `FftFixed.OverlookedWraps` | ExtLibs/FFT/fft.c:204-258 | with two imaginary samples of -32768 the inverse transform makes no shift and stores their sum as 1 |
| `FftFixed.FixRunScale` | ExtLibs/FFT/fft.c:199-264 | the returned scale is the number of inverse passes that shifted, and 0 for the forward transform |
| `FftFixed.FixFft` | ExtLibs/FFT/fft.c:166-265 | the whole function in 16-bit wrap-around arithmetic, forward and inverse, with the size error, equals the reorder followed by the specified passes |
| `FftBounds.StepBound` | ExtLibs/FFT/fft.c:247-258 | a shifted butterfly of inputs within r stays within r + 3.25 and none of its intermediates wraps |
| `FftBounds.ForwardNeverWraps` | ExtLibs/FFT/fft.c:199-263 | with inputs of absolute value at most 32767 - 3.25 log2(n), no intermediate of any butterfly of any forward pass leaves 16 bits |
| `FftAccuracy.ButterflyClose` | ExtLibs/FFT/fft.c:241-258 | a rounded, halved butterfly stays within a fixed distance of the exact halved one |
| `FftAccuracy.FixFftAccurate` | ExtLibs/FFT/fft.c:220-264 | every output of the forward transform is within 4.25 log2(n) of DFT/n, for every root whose powers the table entries are near to |
| `FftRoot.RootNearFirst` | ExtLibs/FFT/fft.c:234-244 | the table is near to the powers of every root of w^512 = -1 next to 1 on the clockwise side: such a root is within 10^-9 of the first power computed |
| `FftRoot.TableNear` | ExtLibs/FFT/fft.c:44-141 | all 512 twiddles, halved too, are as near as the results on accuracy ask, to the powers of every number that close to the first power; one such number is given |
| `FftRoot.ForwardAccurate` | ExtLibs/FFT/fft.c:220-264 | the forward transform is within 4.25 log2(n) of DFT/n with the clockwise root |
| `FftTurns.ForwardTone` | ExtLibs/FFT/fft.c:177-260 | for every amplitude a the forward transform of [0, a, 0, 0] has -a/4 times i at frequency 1, to within two units |
| `FftTurns.InverseTone` | ExtLibs/FFT/fft.c:177-260 | the inverse transform has a times i there, times 2^scale and to within eight units |
| `FftAccuracy.ShrinkIsInverse` | ExtLibs/FFT/fft.c:220-226 | the overall factor of the log2(n) shifts is 1/n |
| `FftInverse.InversePassBounded` | ExtLibs/FFT/fft.c:202-260 | a pass of the inverse transform wraps nothing up to radius 32763.75 if it shifts and 16382.75 if it does not, and its result stays within the grown radius |
| `FftMargins.InverseNeverWraps` | ExtLibs/FFT/fft.c:199-263 | no intermediate of any inverse pass wraps for inputs whose absolute values add up to at most 32767 - 3.25 (n - 1), large coefficients among them |
| `FftMargins.UniformNeverWraps` | ExtLibs/FFT/fft.c:199-263 | nor for inputs that are all of absolute value r with (r + 3.25) n <= 32770.25 |
| `FftInverse.InverseAccurate` | ExtLibs/FFT/fft.c:199-264 | for every input whose inverse transform wraps nothing, with scale s returned, every output is within 5.1 ((s + 1) n/2^s - 1) units of the DFT with the inverse root divided by 2^s, which is 5.1 log2(n) when every pass shifts |
| `FftRoot.InverseAccurateForRoot` | ExtLibs/FFT/fft.c:199-264 | so it is with the counter-clockwise root |
| `FftMargins.SmallAccurate` | ExtLibs/FFT/fft.c:199-264 | with 4.25 in place of 5.1 for the inputs of InverseNeverWraps |
| `FftInverseWraps.InverseWraps` | ExtLibs/FFT/fft.c:12-19 | eight samples with parts of at most 4095 whose inverse transform makes no shift and wraps in its third pass |
| `FftInverseWraps.DecisionSufficesIff` | ExtLibs/FFT/fft.c:12-19 | for 2^b samples, b <= 10: the scaling decision keeps every input without an imaginary -32768 from wrapping in any pass if and only if b <= 2 |
| `Envelope.ChainSupports` | ExtLibs/Ntp/phaselock.c:229-268 | in a chain of best-slope steps every segment's line has every sample on its outer side |
| `Envelope.ChainMonotone` | ExtLibs/Ntp/phaselock.c:229-268 | slopes along such a chain run monotonically |
| `PhaseLock.ScanFindsBest` | ExtLibs/Ntp/phaselock.c:80-100 | the search returns the later sample of smallest slope, first of ties, for sign 0 and of largest slope, last of ties, for sign 1, with the line through it |
| `PhaseLock.Search` | ExtLibs/Ntp/phaselock.c:80-100 | the loop around the ring computes that search from any index but the newest |
| `PhaseLock.WrapLength` | ExtLibs/Ntp/phaselock.c:234-248 | the lines found are at most as many as the samples that follow, so all fit into maxseg and minseg |
| `PhaseLock.EnvelopePass` | ExtLibs/Ntp/phaselock.c:234-268 | the loops of pass 2 and pass 3 store exactly the lines of the wrapping, in order, and keep its crossing line |
| `PhaseLockTheorems.EnvelopeReachesNewest` | ExtLibs/Ntp/phaselock.c:235-268 | the vertices run strictly forward in time from the oldest sample to the newest in at most 15 lines |
| `PhaseLockTheorems.EnvelopeOrdered` | ExtLibs/Ntp/phaselock.c:229-268 | pass 2 finds slopes in non-decreasing order and pass 3 in decreasing order |
| `PhaseLockTheorems.EnvelopeSupports` | ExtLibs/Ntp/phaselock.c:229-268 | every line of pass 2 lies at or below every max, every line of pass 3 at or above every min, and so do the crossing lines kept |
| `PhaseLockTheorems.CrossingIsExtreme` | ExtLibs/Ntp/phaselock.c:237-267 | if any line is consistent with all samples, the crossing line kept by pass 2 is consistent and has the smallest slope of all consistent lines, and that of pass 3 the largest |
| `PhaseLockTheorems.ExactSamplesRejected` | ExtLibs/Ntp/phaselock.c:238-246 | samples without error are always called inconsistent, because no crossing line is strictly less steep than the envelope |
| `PhaseLockTheorems.CrossingIsKept` | ExtLibs/Ntp/phaselock.c:234-268 | when some line is consistent with all samples, pass 2 or pass 3 keeps a crossing line if and only if some line between the bounds touches the pass's own bounds at exactly one sample and the other bounds at a later one, with a slope within 500 if that one is the oldest |
| `PhaseLockTheorems.FlatSamplesRejected` | ExtLibs/Ntp/phaselock.c:238-246 | sixteen samples without error on one line, for which neither pass keeps a crossing line |
| `PhaseLockTheorems.SmallestCrossingKept` | ExtLibs/Ntp/phaselock.c:234-268 | each pass keeps the first of smallest slope among the crossing lines strictly between the slopes of successive envelope lines, 500 in absolute value bounding the first |
| `PhaseLockRing.CorrectPass` | ExtLibs/Ntp/phaselock.c:211-228 | the loop backwards through the ring shifts the bounds of every sample by the accumulated frequency changes |
| `PhaseLockRing.StraightensSkew` | ExtLibs/Ntp/phaselock.c:212-228 | corrected for the frequency changes, the skews of a steered clock lie on one straight line |
| `PhaseLockRing.CorrectedContainsTruth` | ExtLibs/Ntp/phaselock.c:212-228 | when the measurements are within their error bars, the corrected bounds of all samples contain the line of the true clock |
| `PhaseLockRing.ContainsTruthIff` | ExtLibs/Ntp/phaselock.c:212-228 | and they do only then: pass 1 does not widen them |
| `PhaseLocker.WindowSlides` | ExtLibs/Ntp/phaselock.c:204-210 | writing slot rp and advancing appends to the window of the newest 16 samples |
| `PhaseLocker.Locker.constructor` | ExtLibs/Ntp/phaselock.c:191-191 | the ring starts empty |
| `PhaseLocker.Locker.Contemplate` | ExtLibs/Ntp/phaselock.c:204-268 | each call slides the window by one sample and, once it is full, performs passes 1 to 3 on it |
| `PhaseLocker.TruthBracketed` | ExtLibs/Ntp/phaselock.c:211-268 | the drift of the true clock at the present frequency lies between the slopes of the two crossing lines kept |
| `PhaseLockPolygon.Polygon.PolygonPoint` | ExtLibs/Ntp/phaselock.c:148-160 | after any points, l_min and r_min are the least shifts asked for on either side, or 20 |
| `PhaseLockPolygon.SameShift` | ExtLibs/Ntp/phaselock.c:115-132 | neither the order nor the repetition of points changes the frequency shift |
| `PhaseLockShift.AsksNothingIff` | ExtLibs/Ntp/phaselock.c:134-160 | a line asks for nothing on a side in two half planes of slope and offset |
| `PhaseLockShift.AsksLeast` | ExtLibs/Ntp/phaselock.c:134-160 | what a line asks for is the least change of frequency after which it asks for nothing on that side |
| `PhaseLockShift.Feed` | ExtLibs/Ntp/phaselock.c:278-289 | the loops of pass 4 feed the envelope lines from the first beyond one crossing line up to the other |
| `PhaseLockShift.Shift` | ExtLibs/Ntp/phaselock.c:276-318 | the two minima are those of all points fed; if one side alone asks for a shift the result is that much towards it, after which a line that asked for just that asks for nothing on either side, and otherwise it is 0 |
| `PhaseLockShift.FedBetween` | ExtLibs/Ntp/phaselock.c:278-289 | what is fed are envelope lines with slopes from one crossing line to the other |
| `PhaseLockShift.FedEvery` | ExtLibs/Ntp/phaselock.c:278-305 | and all of those beyond the first crossing line are |
| `PhaseLockShift.ConsistentInBox` | ExtLibs/Ntp/phaselock.c:234-268 | every line consistent with the samples has its slope and offset between those of the two crossing lines |
| `PhaseLockShift.ShiftIsLeast` | ExtLibs/Ntp/phaselock.c:269-318 | when some line is consistent and both crossing lines are kept, pass 4 finds no contradiction, and l_min and r_min are the least shifts that the lines consistent with all samples ask for, or 20; the crossing lines alone decide them |
| `Bin2Hex.CheckSum` | ExtLibs/Bin2Hex/bin2hex.c:18-30 | record bytes and checksum sum to zero modulo 256 |
| `Bin2Hex.Encode` | ExtLibs/Bin2Hex/bin2hex.c:32-50 | the text of a record is its colon, upper-case digits and line end |
| `Bin2Hex.DataLineLength` | ExtLibs/Bin2Hex/bin2hex.c:49-49 | the text of a data record of n bytes has 2n + 13 characters, and fits the 24 of hex_str if and only if n <= 5 |
| `Bin2Hex.ParseLinesBack` | ExtLibs/Bin2Hex/bin2hex.c:32-50 | reading the lines back gives the records, for every list of records |
| `Bin2Hex.Writer.constructor` | ExtLibs/Bin2Hex/bin2hex.c:236-237 | the start address is split into segment and offset |
| `Bin2Hex.Writer.WriteExtendedLinearAddress` | ExtLibs/Bin2Hex/bin2hex.c:52-67 | afterwards a loader is at segment begin and its memory is unchanged |
| `Bin2Hex.Writer.WriteDataRecord` | ExtLibs/Bin2Hex/bin2hex.c:84-114 | afterwards a loader has the data appended, also when a record of nothing but 0xFF is left out |
| `Bin2Hex.Writer.WriteData` | ExtLibs/Bin2Hex/bin2hex.c:116-144 | a chunk is appended to the loader's image whether it ends before, at or beyond a 64K boundary, and the position keeps up with it |
| `Bin2Hex.Writer.WriteEndOfFile` | ExtLibs/Bin2Hex/bin2hex.c:69-82 | afterwards a loader is done and holds the image |
| `Bin2Hex.CopyFile` | ExtLibs/Bin2Hex/bin2hex.c:153-169 | the reading loop converts exactly the bytes from start on, at most length of them |
| `Bin2Hex.Convert` | ExtLibs/Bin2Hex/bin2hex.c:146-171 | loading the output gives the selected bytes at the start address, wrapping at 2^32, and 0xFF at every other address; every record is well formed and sums to zero |
| `WebSocket.XorExpanded` | App/WebServer/webserver.c:204-204 | the and/or/not expression is exclusive or |
| `WebSocket.EnPackage` | App/WebServer/webserver.c:131-222 | -1 is returned exactly for an unknown type or a frame that does not fit packageMaxLen; otherwise the buffer holds the frame and a NUL, and the frame size is returned as an int |
| `WebSocket.ParsingFrameHeader` | App/WebServer/webserver.c:72-115 | the parser, with its in-place reversal of the eight length bytes, returns what the header says |
| `WebSocket.Webumask` | App/WebServer/webserver.c:224-229 | exactly the given range is combined with the key |
| `WebSocket.UnmaskMasked` | App/WebServer/webserver.c:200-229 | masking twice with one key is the identity |
| `WebSocket.LengthRecovered` | App/WebServer/webserver.c:86-107 | the length is recovered in all three length forms |
| `WebSocket.MaskedRoundTrip` | App/WebServer/webserver.c:72-229 | for every payload below 2^31 bytes, type and key, parsing a masked frame gives flags, opcode, length, header size and key, and unmasking gives the payload |
| `Rfc6455.MaskedFrameRead` | App/WebServer/webserver.c:131-222 | every bit of a masked frame, reserved bits and all eight length bytes included, reads by section 5.2 of RFC 6455 as the frame of that type with that payload |
| `Rfc6455.UnmaskedFrameReadIff` | App/WebServer/webserver.c:131-222 | an unmasked frame does if and only if the buffer's second byte held no bit that the length lacks |
| `Rfc6455.ParserAgrees` | App/WebServer/webserver.c:72-115 | on every frame of section 5.2 of RFC 6455 the parser finds its flag, opcode, mask bit, key and payload, and the low 32 bits of its length |
| `WebSocket.PayloadFoundIffMasked` | App/WebServer/webserver.c:109-113 | the header size is the one of section 5.2 of RFC 6455 if and only if the mask bit is set, because four key bytes are always skipped |
| `WebSocket.UnmaskedReadIff` | App/WebServer/webserver.c:156-219 | in particular its length and payload are read if and only if that is so |
| `WebSocket.Receive` | App/WebServer/webserver.c:367-368 | parser and unmasking loop leave the payload in the receive buffer |
| `AuthorCipher.ExchangeBookX` | ExtLibs/MyAuthor/author.c:38-48 | rows 0 and x are exchanged in place |
| `AuthorCipher.ExchangeBookY` | ExtLibs/MyAuthor/author.c:51-61 | columns 0 and y are exchanged in place |
| `AuthorCipher.ExchangeTwice` | ExtLibs/MyAuthor/author.c:38-61 | every exchange undoes itself |
| `AuthorCipher.ExchangesArrange` | ExtLibs/MyAuthor/author.c:93-115 | any sequence of exchanges leaves an arrangement of the alphabet |
| `AuthorCipher.ExBook2Port` | ExtLibs/MyAuthor/author.c:93-115 | the nineteen exchanges of a port are made one after the other |
| `AuthorCipher.BookArranges` | ExtLibs/MyAuthor/author.c:119-135 | the book of every port is an arrangement of the alphabet, though it starts with s and t exchanged |
| `AuthorPorts.BookOf8080` | ExtLibs/MyAuthor/author.c:93-128 | the book of port 8080, letter by letter |
| `AuthorPorts.BooksDiffer` | ExtLibs/MyAuthor/author.c:93-115 | ports that differ in exactly one of the six residues have different books |
| `AuthorPorts.OtherPortRejects` | ExtLibs/MyAuthor/author.c:117-175 | some licence of the one is not recovered at the other |
| `AuthorPorts.LicenceOfAbc` | ExtLibs/MyAuthor/author.c:117-138 | the licence of abc at port 8080 is 432s2X2sA1y |
| `AuthorCipher.SubstAllBack` | ExtLibs/MyAuthor/author.c:63-91 | decoding undoes encryption for every text, in the alphabet or not |
| `CStrings.AtoiDecimal` | ExtLibs/MyAuthor/author.c:134-171 | atoi undoes %d, for negative sums too |
| `Author.EncryptString` | ExtLibs/MyAuthor/author.c:63-76 | the string in the buffer is replaced by its substitution and keeps its length, since no NUL is ever written |
| `Author.DecodeString` | ExtLibs/MyAuthor/author.c:78-91 | the same for decoding |
| `Author.MakeAuthor` | ExtLibs/MyAuthor/author.c:117-138 | the output is the name, the mark and the decimal sum under the port's book |
| `Author.ParseAuthor` | ExtLibs/MyAuthor/author.c:142-175 | return value and name are those of the first mark in the decoded text |
| `Author.FoundAtEnd` | ExtLibs/MyAuthor/author.c:161-165 | the tag is found at the end of the name if and only if the name followed by an underscore contains no mark |
| `Author.NameRecovered` | ExtLibs/MyAuthor/author.c:117-175 | parsing the licence of a name succeeds with that name if and only if the name followed by "_" contains no "_crc_", for every name and port |
| `Author.SumChecked` | ExtLibs/MyAuthor/author.c:161-175 | a licence with another sum than that of its name is rejected |
| `H264Slices.NoStartInside` | App/Rtmp/rtmpstart.c:82-82 | no start code begins inside a unit free of start codes, not even one that runs into the next start code |
| `H264Slices.GetSliceInfo` | App/Rtmp/rtmpstart.c:103-189 | on data the scan does not leave, it fills the table, the type set and the picture size with the result of the specified splitting |
| `H264Slices.SplitStream` | App/Rtmp/rtmpstart.c:110-185 | on the start-code concatenation of leading units and a final slice the splitter returns exactly those units in order |
| `H264Slices.ScanInsideIff` | App/Rtmp/rtmpstart.c:110-185 | on any list of units free of start codes the splitter finds what is specified, and stays inside the data if and only if one of them is a coded slice or the last is not a leading unit |
| `H264Slices.KeyFrameFound` | App/Rtmp/rtmpstart.c:103-189 | delimiter, parameter sets, SEI and an IDR slice with the header bytes 0x09, 0x67, 0x68, 0x06 and 0x65 are found as units of types 9, 7, 8, 6 and 5 |
| `H264Slices.PredictedFrameFound` | App/Rtmp/rtmpstart.c:114-121 | a slice with header byte 0x61 or 0x41 is found as one of type 1 |
| `H264Slices.OthersPassedOver` | App/Rtmp/rtmpstart.c:112-185 | units of other types are passed over |
| `H264Slices.SlicesDelimit` | App/Rtmp/rtmpstart.c:120-179 | every table entry delimits the bytes of its unit and has its type |
| `NtpExchange.DiffIs` | ExtLibs/Ntp/ntpclient.c:302-316 | ntpdiff is exact, or one 2^-32 s unit short when it borrows, also across a wrap of the seconds |
| `NtpExchange.SkewWithinSlop` | ExtLibs/Ntp/ntpclient.c:370-383 | for every exchange with non-negative delays the skew is the true offset to within half the slop and one unit |
| `NtpExchange.NtpFracShort` | ExtLibs/Ntp/ntpclient.c:94-99 | NTPFRAC falls short of the exact fraction by less than the twelve units its comment speaks of, and never exceeds it |
| `NtpExchange.SkewWithClientStamps` | ExtLibs/Ntp/ntpclient.c:210-227 | with the client's stamps made by NTPFRAC from its clock the skew is the true offset to within half the slop and thirteen units |
| `NtpProbe.PrimaryLoop` | ExtLibs/Ntp/ntpclient.c:485-550 | the loop is the state machine of the model, for every sequence of events |
| `NtpProbe.WholeRun` | ExtLibs/Ntp/ntpclient.c:485-550 | the calls of a whole sequence are those for datagrams taken before the probe and at most one more, which answers the only probe and ends the loop |
| `NtpProbe.AtMostOneProbe` | ExtLibs/Ntp/ntpclient.c:512-519 | at most one probe is sent |
| `NtpProbe.CallbackAnswersProbe` | ExtLibs/Ntp/ntpclient.c:392-408 | if no datagram is taken before the probe, the callback is called at most once, with the transmit time of a reply that passed every check against that probe |
| `NtpProbe.CallsFollowProbeIffQuiet` | ExtLibs/Ntp/ntpclient.c:499-516 | every call follows a probe if and only if no datagram before the probe matches what time_of_send happened to hold |
| `NtpProbe.TwoCallsBeforeProbe` | ExtLibs/Ntp/ntpclient.c:730-739 | for every initial content of time_of_send there are datagrams that lead to two calls before any probe |
| `NtpReplies.ChecksAre` | ExtLibs/Ntp/ntpclient.c:336-403 | the checks are, in arithmetic on the words, those of section 5 of RFC 4330 for a server's answer to the probe |
| `NtpReplies.CallsBackIff` | ExtLibs/Ntp/ntpclient.c:485-550 | a run with no such answer before the probe calls back if and only if one comes after it before a second time-out or a datagram of unfit length, once, for the first one, with its transmit time in seconds since 1970 |
| `NtpReplies.NoProbeNoCall` | ExtLibs/Ntp/ntpclient.c:485-550 | without a probe there is no call |
| `NtpReplies.ForgedReply` | ExtLibs/Ntp/ntpclient.c:396-397 | a reply that does not carry the time of the probe makes no call |
| `SocketList.ListInit` | ExtLibs/List/list.c:3-7 | a node alone is a circular list |
| `SocketList.ListAddTail` | ExtLibs/List/list.c:9-15 | the list represents the same nodes and the new one at the end |
| `SocketList.ListRemove` | ExtLibs/List/list.c:17-21 | the list represents the other nodes in the same order |
| `SocketList.Visit` | ExtLibs/TSocket/tsocket.c:80-216 | a visit keeps the list circular and discards, keeps or appends as select and this visit's accept or receive say |
| `SocketList.Scan` | ExtLibs/TSocket/tsocket.c:271-284 | every node present at the start is visited exactly once and in order although nodes are freed and appended; freed nodes are not touched again, appended ones are open sockets, and the list afterwards is the survivors and at most one node not yet seen |
| `SocketList.StaysIff` | ExtLibs/TSocket/tsocket.c:80-216 | a visited socket stays unless it has an exception, or is a readable client and broken |
| `SocketList.AppendsIff` | ExtLibs/TSocket/tsocket.c:115-133 | a socket is appended exactly for a connection accepted by a readable listening socket without an exception |
| `SocketList.Serve` | ExtLibs/TSocket/tsocket.c:241-271 | the server's list is circular and holds open sockets after any number of scans, whatever select and accept deliver |
| `Transfer.NetTcpSendMsg` | ExtLibs/TSocket/tsocket.c:647-712 | for every sequence of select and send outcomes the loop goes on exactly over the first time-out and partial sends, the bytes handed over are a prefix of the message as long as the turns took, and the length is returned exactly when all of a non-empty message was sent |
| `HttpCheck.Client.HttpChecked` | App/HttpAPI/httpapi.c:68-121 | one call, with the fields remembered from earlier calls |
| `HttpCheck.FieldOfPiece` | App/HttpAPI/httpapi.c:94-111 | in a piece that holds the header the field and the end of its line are found where the request has them |
| `HttpCheck.UnderstoodIff` | App/HttpAPI/httpapi.c:107-112 | the program understands the length that section 3.3.2 of RFC 7230 gives the field if and only if its value has whitespace before it or starts with 0; otherwise it understands less |
| `HttpCheck.FieldAlone` | App/HttpAPI/httpapi.c:82-114 | a request whose only field is the length, with any digits, any whitespace around them and any body, meets the conditions of the results below |
| `HttpCheck.PieceAnswer` | App/HttpAPI/httpapi.c:82-120 | with what any earlier piece left behind, the answer is whether the header and the length understood have been received |
| `HttpCheck.CacheAgrees` | App/HttpAPI/httpapi.c:75-117 | remembered fields give the same answer and fields as a parse from scratch |
| `HttpCheck.CompletionIff` | App/HttpAPI/httpapi.c:82-120 | the check reports every piece right, complete when header and stated content are there and not before, if and only if the byte after the colon is not a digit from 1 to 9 |
| `HttpCheck.NoSpaceLosesDigit` | App/HttpAPI/httpapi.c:107-112 | the length of content-length:512 without a space is understood as 12 |
| `HttpCheck.SpaceKeepsDigits` | App/HttpAPI/httpapi.c:94-112 | with a space, and in the other spelling, it is understood as 512 |
| `HttpCheck.ReceiveAll` | ExtLibs/TSocket/tsocket.c:155-171 | however the request is cut, the first piece reported complete is the first that reaches header length plus the length understood, which is the stated one when the byte after the colon is not a digit from 1 to 9 |
| `HttpCheck.ReceiveWithoutLength` | App/HttpAPI/httpapi.c:82-102 | however a request without a length field is cut, the first piece reported complete is the first with the whole header |
| `TextSearch.StrBetween` | ExtLibs/UsrString/userdefine.c:20-43 | the first occurrence wholly inside the range, or none; an empty pattern is never found |
| `TextSearch.StrNumBetween` | ExtLibs/UsrString/userdefine.c:55-67 | the count is the largest number of pairwise disjoint occurrences, and 0 for an empty pattern |
| `Yuv.ClipNv21ToNv21` | ExtLibs/libjpeg/jpeg_yuv.c:50-84 | for every clip size the destination holds the rows of the rounded rectangle, luma and chroma, and nothing beyond is touched |
| `Yuv.CropLuma` | ExtLibs/libjpeg/jpeg_yuv.c:421-425 | every luma value of the crop is that of the source at the shifted coordinates, for every clip size |
| `Yuv.CropChroma` | ExtLibs/libjpeg/jpeg_yuv.c:422-427 | so are both chroma values, as the RGB converter addresses them, for even clip sizes |
| `Yuv.CropRightIff` | ExtLibs/libjpeg/jpeg_yuv.c:50-84 | the crop is right at every pixel if and only if its width and height are even, whatever the image holds |
| `Yuv.OddClip` | ExtLibs/libjpeg/jpeg_yuv.c:77-82 | a one pixel wide clip of a 2 by 2 image lacks the U of its last pixel |
| `Yuv.Yv16ToI420` | ExtLibs/libjpeg/jpeg_yuv.c:246-273 | unless a memcpy overlaps, moving rows within the buffer gives what writing the even rows of the old chroma planes to the same places gives, for every width and height |
| `Yuv.DroppedInPlace` | ExtLibs/libjpeg/jpeg_yuv.c:252-272 | if the even rows of a chroma plane make a quarter of the pixels, the result is luma, U and V one after the other |
| `Yuv.DroppedAddressed` | ExtLibs/libjpeg/jpeg_yuv.c:258-271 | whose chroma in row y is that of row 2y of the 4:2:2 planes |
| `Yuv.RightIff` | ExtLibs/libjpeg/jpeg_yuv.c:246-273 | for a width from 2 on, every image of the size is converted rightly, as dropping the odd chroma rows would, if and only if those even rows make exactly a quarter |
| `Yuv.ConversionRightIff` | ExtLibs/libjpeg/jpeg_yuv.c:246-273 | that is if and only if width and height are even, or the width is odd and the height at most 2 and even, or both are odd and the image is square or two rows higher than wide |
| `Yuv.OverlapIff` | ExtLibs/libjpeg/jpeg_yuv.c:252-271 | V is written over the end of U if and only if the height is odd, and the width even or above the height |
| `YuvPlanar.PlanarToSemi` | ExtLibs/libjpeg/jpeg_yuv.c:114-156 | the planar image becomes NV21 |
| `YuvPlanar.SemiToPlanar` | ExtLibs/libjpeg/jpeg_yuv.c:158-180 | NV21 becomes the planar image |
| `YuvPlanar.PlanarRoundTrip` | ExtLibs/libjpeg/jpeg_yuv.c:114-180 | the two conversions undo each other in both orders |
| `YuvPlanar.SemiAddressed` | ExtLibs/libjpeg/jpeg_yuv.c:114-156 | as the RGB converter addresses it, the converted image shows at every pixel the U and V of the planar one |

## Left out

- ForwardAccurate: holds for every complex root of w^512 = -1 next to 1 on the clockwise side; that there is one is not derived, because it needs square roots of reals, which are not among the axioms here.
- InverseAccurateForRoot: the same for the root on the other side.
- InverseNeverWraps: from eight samples on a sufficient bound on the input; whether one given input wraps is decided by running it.
- Yv16ToI420: a single row of four pixels and more, for which source and destination of a memcpy overlap.
- ClipNv21ToNv21: rectangles that leave the image, for which the code reads other rows or past the buffer.
- EnPackage: payloads of 2^31 bytes and more; from there the int result turns negative, and the unsigned sizes wrap near 2^32.
- StrBetween: NULL arguments, and an empty pattern in a text that has a NUL within the range.
- Scan: a socket with a descriptor below 1, with which the code loops without advancing; no scan produces one.
- PhaseLock: rounding of doubles; equal sample times, for which the code divides by zero.
- phaselock.c find_df_center, which adds a tuning term to the shift, the clamping in pass 5, and what pass 4 writes into maxseg and minseg for display, which nothing reads.
- fft.c fix_fftr, and fix_fft for m of 31 and more, where the shift itself is undefined.
- ntpclient.c USEC, which serves printing and setting the clock; parts of a microsecond in the client's clock; packet encoding and socket setup.
- GetSliceInfo: data of less than four bytes, of more than ten units, or of which the last unit is a leading one and none a coded slice (`ScanInsideIff`), for which the code runs past the data or its table.
- httpapi.c: requests that spell the length field both ways, values longer than the 31 characters of the buffer, and stated lengths beyond an int, which atoi leaves undefined; other callbacks, JSON handling and connection threads.
- tsocket.c: the receive loop inside a visit is one outcome per socket; listening, connecting and UDP functions.
- userdefine.c: usr_strncasecmp and the other small helpers.
- JPEG and RGB colour arithmetic, turbojpeg, libpng and iconv calls.
- JSON mapping, MQTT, CICT, HJ212, libevent, P2P, session handling and the RTMP connection code: plumbing over libraries that are not part of this model.
