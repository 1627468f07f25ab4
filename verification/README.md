# Codec 2 in a phone: a verified model

Serval Batphone carries a copy of the Codec 2 speech codec with its FDMDV modem, its
experimental amplitude quantiser, its error-correcting code and a few helper programs, and an
installer script language with a small configuration parser. This project models the parts of
that C code that keep state or depend on exact arithmetic, and proves what they promise.

| module | models |
|---|---|
| `Fifo`, `FifoThreads` | the sample FIFO, first alone as a ring buffer that refines a queue, then with a writer and a reader in any interleaving of their loads, copies and stores |
| `Words`, `FieldCodec`, `FrameLayout` | bytes and bits, `pack` and `unpack`, and the bit layouts of the six modes |
| `GolayCode`, `Combinations`, `Golay` | the (23,12) Golay code: its algebra and minimum distance, the enumeration of error patterns, and the tables, encoder and decoder built on them |
| `BitPacking`, `Pigeonhole`, `Interleaver` | the bit packing loops and the block interleaver |
| `Dqpsk`, `ModemFraming`, `ModemLink` | the differential symbols, the reliable sync bit, the pairing of modem frames, and sender and receiver run against one another from bytes to bytes |
| `VectorQuantiser`, `HarmonicMap`, `AmpExperiment`, `GainShape`, `SmoothAmp` | codebook search, split quantisation, the sparse map of harmonics, the interpolating delay line, gain/shape search and bin smoothing |
| `SpeechStream` | the analysis window and the block loops of the Java interface |
| `Config` | the in-place lookup of a key in a configuration file |
| `ErrorInjector` | the bit error and burst simulation of the decoder program |
| `FixedPoint` | the fixed-point complex arithmetic of the FFT |
| `Arithmetic` | the constants and facts about products that the real-valued modules share |

The form follows the source: what changes step by step there is a class or a method with a
loop here, proved against a function that says what it computes; the lemmas are about those
functions. Amplitudes, times and symbols are real numbers, everything else is exact.

`dafny verify dfyconfig.toml` checks the whole project; the bit-vector proofs of `GolayCode` are
far cheaper with `--warn-contradictory-assumptions`. The C programs themselves were not run.

## Where the code and its comments differ

- `pack.c` says its Gray decoder works for fields of up to 8 bits; it works for up to 16 and no
  further (`GrayRoundTrip`). The 1200 bit/s mode relies on 9.
- `codec2_get_spare_bit_index` calls bit 15 the third voicing bit of the 1600 bit/s mode; with
  that mode's seven-bit pitch it is the fourth (`SpareBitIsThirdVoicingBit`).
- `smooth_amp` expects every harmonic up to `PI` to find a bin; the constants `PI` and `TWO_PI`
  do not match in the last digit, and in the real-valued model a harmonic at `PI` does not
  (`InRangeExactly`, `HarmonicAtPiIsOutOfRange`). No single-precision number lies between the
  two bounds, so this is a statement about the model, not about the program on floats.
- `golay23_decode` is described as returning the 12 data bits; it returns the 23-bit codeword,
  which equals the data exactly when the word received has at most three ones (`Codec.Decode`).
  For the data word 1 it is 0xc75 (`DecodeOne`).
- The burst timer does not always stay within the period plus one frame; `TimerBoundExactly`
  says for which settings it does, `TimerOverruns` gives settings for which it does not, and
  `TimerOverrunBound` says how far it can go.
- `C_MUL` does not fit every product of two samples into a sample; `MultiplicationExactly` says
  for which operands it does, and `FullSizeSamplesWrap` gives two for which it does not.

## Model

| member | source | states |
|---|---|---|
| `Fifo.Used` | app/src/main/jni/codec2/fifo.c:128-141 | The unsigned difference of the two pointers, wrap-around below zero included, is the number `u < nshort` with `pin` exactly `u` places past `pout` |
| `Fifo.Fifo.constructor` | app/src/main/jni/codec2/fifo.c:44-57 | A new FIFO over a buffer of any content is the empty queue |
| `Fifo.Fifo.FifoUsed` | app/src/main/jni/codec2/fifo.c:128-141 | The count returned is the length of the queue |
| `Fifo.Fifo.Write` | app/src/main/jni/codec2/fifo.c:65-97 | A write is accepted if and only if it fits into `nshort - 1` samples; accepted, it appends exactly its samples to the queue, refused, it changes neither pointer nor buffer |
| `Fifo.Fifo.Read` | app/src/main/jni/codec2/fifo.c:99-126 | A read succeeds if and only if that many samples wait; it then hands out the oldest ones in order and leaves the rest, and otherwise changes nothing |
| `Fifo.StoredBehind` | app/src/main/jni/codec2/fifo.c:88-92 | Storing one place past the waiting samples spoils none of them, wherever the buffer wraps |
| `Fifo.SteppedOver` | app/src/main/jni/codec2/fifo.c:117-121 | Stepping over the first samples leaves exactly the rest as the queue |
| `Fifo.HoldingIsQueue` | app/src/main/jni/codec2/fifo.c:128-141 | What lies between the two pointers is the queue, for every wrap position |
| `Fifo.WriteThenRead` | app/src/main/jni/codec2/fifo.c:65-126 | What is written into an empty FIFO is read back unchanged and leaves it empty; it works exactly for up to `nshort - 1` samples |
| `FifoThreads.StepKeepsInv` | app/src/main/jni/codec2/fifo.c:7-141 | Every single load, copy or store of either thread keeps the invariant that ties both local views, the shared pointers and the memory to the history of completed calls |
| `FifoThreads.MemoryIsQueue` | app/src/main/jni/codec2/fifo.c:65-126 | Under the invariant the memory between the shared pointers is what was accepted and not yet delivered |
| `FifoThreads.DeliveredIsPrefixOfAccepted` | app/src/main/jni/codec2/fifo.c:7-11 | In every interleaving the samples delivered are a prefix of the samples accepted, at most `nshort - 1` are under way, and the memory holds exactly those |
| `FifoThreads.StoreAvoidsWaiting` | app/src/main/jni/codec2/fifo.c:7-11 | At every store of every interleaving the slot written is none of those that wait to be read, and not the slot the reader is about to load |
| `FifoThreads.StepRefinesQueue` | app/src/main/jni/codec2/fifo.c:65-126 | Every step is a step of a bounded queue: only the pointer store that ends a write appends, with all its samples at once, and only the one that ends a read removes |
| `FifoThreads.WriteDecides` | app/src/main/jni/codec2/fifo.c:65-81 | Every write comes to its decision after four steps of its own, whatever the reader does in between: it is refused with nothing accepted, or stands before the first of exactly its own samples |
| `FifoThreads.AdmittedWriteIsAccepted` | app/src/main/jni/codec2/fifo.c:83-94 | A write once admitted is accepted whole: after one step for each sample left and one more the call is over and exactly its samples have been added, whatever the reader does in between |
| `FifoThreads.ReadDecides` | app/src/main/jni/codec2/fifo.c:99-110 | Every read comes to its decision after four steps of its own: it is refused with nothing delivered, or stands before its first sample |
| `FifoThreads.AdmittedReadIsDelivered` | app/src/main/jni/codec2/fifo.c:112-123 | A read of n once admitted delivers exactly the n samples that waited first, whatever the writer does in between |
| `FifoThreads.WriterUnderestimates` | app/src/main/jni/codec2/fifo.c:77-81 | A stale read pointer makes the writer count at least the samples that wait, never fewer |
| `FifoThreads.ReaderUnderestimates` | app/src/main/jni/codec2/fifo.c:108-110 | A stale write pointer makes the reader count at most the samples that wait, never more |
| `FifoThreads.PoutWasLoaded` | app/src/main/jni/codec2/fifo.c:128-141 | Whenever the writer holds both pointers there is an earlier moment of the run at which it was about to load the read pointer, and from then on it has held both: the moment is in the same call |
| `FifoThreads.PinWasLoaded` | app/src/main/jni/codec2/fifo.c:128-141 | Whenever the reader holds the write pointer there is an earlier moment at which it was about to load it, and from then on it has held it: the moment is in the same call |
| `FifoThreads.RefusalWasJustified` | app/src/main/jni/codec2/fifo.c:79-81 | A write is refused only if, at some moment of that very call, the queue had no room for it; from that moment to the refusal the writer never leaves the call |
| `FifoThreads.ReadRefusalWasJustified` | app/src/main/jni/codec2/fifo.c:108-110 | A read is refused only if, at some moment of that very call, too few samples waited; from that moment to the refusal the reader never leaves the call |
| `FieldCodec.GrayDecodeGray` | app/src/main/jni/codec2/pack.c:56-104 | Undoing the Gray code of a word gives the word folded onto itself sixteen places down |
| `FieldCodec.GrayRoundTrip` | app/src/main/jni/codec2/pack.c:99-103 | The four folding steps undo the Gray code if and only if no bit at or above 16 is set (the comment beside them promises eight) |
| `FieldCodec.FieldRoundTrip` | app/src/main/jni/codec2/pack.c:47-105 | A field of any width up to 32 comes back from its bit string if and only if its value is below 65536 |
| `FieldCodec.FieldBitAt` | app/src/main/jni/codec2/pack.c:47-72 | In numbers: bit `t` of a field, from its top bit down, says whether two neighbouring binary digits of the value differ |
| `FieldCodec.SeventeenBitFieldIsLost` | app/src/main/jni/codec2/pack.c:99-103 | 65536 in a field of seventeen bits does not come back |
| `FieldCodec.Pack` | app/src/main/jni/codec2/pack.c:47-72 | The slices written at any bit position OR in exactly the Gray code of the field, most significant bit first, touch no other bit, and the cursor advances by the width |
| `FieldCodec.ReadField` | app/src/main/jni/codec2/pack.c:84-97 | The slices read at any bit position collect exactly the bits between the cursor and its new place |
| `FieldCodec.Unpack` | app/src/main/jni/codec2/pack.c:77-105 | The value returned is that of the bits between the cursor and its new place |
| `Words.FrameBitsInjective` | app/src/main/jni/codec2/c2dec.c:141-150 | Numbering bits from the top of byte 0 loses nothing: the bit string determines the bytes |
| `Words.FrameBitIsDigit` | app/src/main/jni/codec2/c2dec.c:141-150 | In numbers: bit `k` of a frame is the digit that counts 2^(7 - k % 8) in byte k / 8 |
| `FrameLayout.FieldsFillFrame` | app/src/main/jni/codec2/codec2.c:180-195 | In every mode the widths of the fields and of the spare bits add up to the size of the frame, the assertion that ends each encoder |
| `FrameLayout.ModeIsBitRate` | app/src/main/jni/codec2/codec2.c:180-226 | Every mode is named after its bit rate: 8000 times the bits of a frame is that rate times its samples |
| `FrameLayout.StreamAt` | app/src/main/jni/codec2/codec2.c:294-300 | Field `i` occupies exactly the bits between its offset and the next, however many fields follow |
| `FrameLayout.Encode3200` | app/src/main/jni/codec2/codec2.c:304-340 | The 3200 bit/s encoder leaves the Gray codes of its fields in table order in the frame and zeros behind them, whatever the buffer held |
| `FrameLayout.Decode3200` | app/src/main/jni/codec2/codec2.c:353-423 | Each field the 3200 bit/s decoder returns is the value of the bits the table gives to that field |
| `FrameLayout.Encode2400` | app/src/main/jni/codec2/codec2.c:451-488 | The 2400 bit/s encoder leaves the Gray codes of its fields in table order in the frame and zeros behind them, whatever the buffer held |
| `FrameLayout.Decode2400` | app/src/main/jni/codec2/codec2.c:501-569 | Each field the 2400 bit/s decoder returns is the value of the bits the table gives to that field |
| `FrameLayout.Encode1600` | app/src/main/jni/codec2/codec2.c:600-656 | The 1600 bit/s encoder leaves the Gray codes of its fields in table order in the frame and zeros behind them, whatever the buffer held |
| `FrameLayout.Decode1600` | app/src/main/jni/codec2/codec2.c:669-757 | Each field the 1600 bit/s decoder returns is the value of the bits the table gives to that field |
| `FrameLayout.Encode1400` | app/src/main/jni/codec2/codec2.c:786-837 | The 1400 bit/s encoder leaves the Gray codes of its fields in table order in the frame and zeros behind them, whatever the buffer held |
| `FrameLayout.Decode1400` | app/src/main/jni/codec2/codec2.c:850-930 | Each field the 1400 bit/s decoder returns is the value of the bits the table gives to that field |
| `FrameLayout.Encode1300` | app/src/main/jni/codec2/codec2.c:960-1017 | The 1300 bit/s encoder leaves the Gray codes of its fields in table order in the frame and zeros behind them, whatever the buffer held |
| `FrameLayout.Decode1300` | app/src/main/jni/codec2/codec2.c:1030-1110 | Each field the 1300 bit/s decoder returns is the value of the bits the table gives to that field |
| `FrameLayout.Encode1200` | app/src/main/jni/codec2/codec2.c:1141-1195 | The 1200 bit/s encoder leaves the Gray codes of its fields in table order in the frame and zeros behind them, whatever the buffer held |
| `FrameLayout.Decode1200` | app/src/main/jni/codec2/codec2.c:1208-1287 | Each field the 1200 bit/s decoder returns is the value of the bits the table gives to that field |
| `FrameLayout.Places3200` | app/src/main/jni/codec2/codec2.c:292-340 | What the encoder leaves and what the decoder reads, bit by bit: voicing 0 and 1, pitch 2 to 8, energy 9 to 13, then ten LSP differences of five bits from 14 on |
| `FrameLayout.Places2400` | app/src/main/jni/codec2/codec2.c:439-488 | What the encoder leaves and what the decoder reads, bit by bit: voicing 0 and 1, joint pitch and energy 2 to 9, then ten LSPs from 10 on: seven of four bits, two of three, one of two |
| `FrameLayout.Places1600` | app/src/main/jni/codec2/codec2.c:588-656 | What the encoder leaves and what the decoder reads, bit by bit: voicing 0 and 1, pitch 2 to 8, energy 9 to 13, voicing 14 and 15, pitch 16 to 22, energy 23 to 27, then ten LSPs from 28 on |
| `FrameLayout.Places1400` | app/src/main/jni/codec2/codec2.c:775-837 | What the encoder leaves and what the decoder reads, bit by bit: voicing 0 and 1, joint pitch and energy 2 to 9, voicing 10 and 11, joint pitch and energy 12 to 19, then ten LSPs from 20 on |
| `FrameLayout.Places1300` | app/src/main/jni/codec2/codec2.c:948-1017 | What the encoder leaves and what the decoder reads, bit by bit: voicing 0 to 3, pitch 4 to 10, energy 11 to 15, then ten LSPs from 16 on |
| `FrameLayout.Places1200` | app/src/main/jni/codec2/codec2.c:1129-1195 | What the encoder leaves and what the decoder reads, bit by bit: voicing 0 and 1, joint pitch and energy 2 to 9, voicing 10 and 11, joint pitch and energy 12 to 19, then three LSP vectors of nine bits from 20 on |
| `FrameLayout.FrameRecovered` | app/src/main/jni/codec2/codec2.c:225-275 | In all six modes a decoder that reads a frame packed by the encoder of its mode gets back every field |
| `FrameLayout.RoundTrip` | app/src/main/jni/codec2/codec2.c:225-275 | Encoding and decoding through the dispatch on the mode is the identity on frames whose fields fit their widths |
| `FrameLayout.PaddingIsZero` | app/src/main/jni/codec2/codec2.c:1141-1195 | Every bit behind the last field is zero |
| `FrameLayout.SpareBitIsThirdVoicingBit` | app/src/main/jni/codec2/codec2.c:1444-1461 | The index returned is the place of the third voicing bit if and only if the mode is not 1600 bit/s; there it is the place of the fourth |
| `GolayCode.SyndromeLinear` | app/src/main/jni/codec2/golay23.c:134-154 | The syndrome of a sum of patterns is the sum of their syndromes |
| `Golay.MultipleVanishes` | app/src/main/jni/codec2/golay23.c:150-154 | Every shift of the generator polynomial that the division takes off is a codeword whose top bit is the one to be cancelled |
| `Golay.GetSyndrome` | app/src/main/jni/codec2/golay23.c:134-154 | Long division by shifts terminates for every pattern and leaves the remainder that is defined term by term from the remainders of the powers of x |
| `GolayCode.CodewordIsCompleted` | app/src/main/jni/codec2/golay23.c:172-187 | A pattern without a syndrome is its upper twelve bits completed by the remainder of those |
| `GolayCode.MinimumDistance` | app/src/main/jni/codec2/golay23.c:172-187 | Every codeword but zero has at least seven ones |
| `GolayCode.WeightSubadditive` | app/src/main/jni/codec2/golay23.c:270-284 | The sum of two patterns has no more ones than both together |
| `GolayCode.SyndromesDiffer` | app/src/main/jni/codec2/golay23.c:189-229 | No two patterns of at most three ones share a syndrome, so no entry of the decoding table overwrites another |
| `GolayCode.PatternOfPlaces` | app/src/main/jni/codec2/golay23.c:97-114 | Every pattern is rebuilt from the list of its places |
| `GolayCode.PlacesOfPattern` | app/src/main/jni/codec2/golay23.c:97-114 | The pattern built from a combination has ones in exactly those places |
| `Golay.ArrayToPattern` | app/src/main/jni/codec2/golay23.c:97-114 | The doubling loops compute the pattern of the places in the array |
| `Combinations.NextComb` | app/src/main/jni/codec2/golay23.c:116-132 | For all n and r the step raises one place by one, finds every place behind it at its limit and restarts those as low as they can go |
| `Combinations.NoneBetween` | app/src/main/jni/codec2/golay23.c:116-132 | No combination lies between one and the next in lexicographic order |
| `Combinations.StepCounts` | app/src/main/jni/codec2/golay23.c:116-132 | A step leaves exactly one combination fewer to come |
| `Combinations.LastOfAll` | app/src/main/jni/codec2/golay23.c:116-132 | When none is to come, every combination has been met |
| `Combinations.EveryCombinationOnce` | app/src/main/jni/codec2/golay23.c:208-229 | Starting from 1 to r, at most the binomial coefficient many combinations are met, never one twice, and after that many every one has been met |
| `Golay.PatternCounts` | app/src/main/jni/codec2/golay23.c:208-229 | The loop bounds 253 and 1771 are the numbers of double and triple errors |
| `Golay.EnterPatterns` | app/src/main/jni/codec2/golay23.c:208-229 | The loop over all combinations enters as many different new syndromes as it counts, each with a pattern of that weight, and disturbs no earlier entry |
| `Golay.EncodedExactly` | app/src/main/jni/codec2/golay23.c:172-187 | A pattern is the encoding of some data if and only if it is a codeword with that data in its upper bits |
| `Golay.FillEncodingTable` | app/src/main/jni/codec2/golay23.c:184-187 | After the first loop every data word has its codeword in the table |
| `Golay.FillDecodingTable` | app/src/main/jni/codec2/golay23.c:201-229 | After the other loops all 2048 entries are set, each to a pattern of at most three errors with that very syndrome |
| `Golay.Codec.constructor` | app/src/main/jni/codec2/golay23.c:166-232 | After initialisation both tables are complete |
| `Golay.Codec.Encode` | app/src/main/jni/codec2/golay23.c:245-251 | The word returned is a codeword that carries the data in its upper bits |
| `Golay.Codec.Decode` | app/src/main/jni/codec2/golay23.c:263-268 | For every received word the result is a codeword at distance at most three, every other codeword is further away, and it equals its own twelve data bits if and only if the word received has at most three ones |
| `Golay.EncodedOne` | app/src/main/jni/codec2/golay23.c:253-268 | The data word 1 has the codeword 0xc75 |
| `Golay.DecodeOne` | app/src/main/jni/codec2/golay23.c:253-268 | Sent undisturbed, the codeword of the data word 1 is decoded to 0xc75 and not to 1 |
| `Golay.Corrected` | app/src/main/jni/codec2/golay23.c:263-268 | One look-up in a complete table leads to the one codeword within three errors |
| `Golay.CountErrors` | app/src/main/jni/codec2/golay23.c:270-284 | The count is the number of bits in which the two words differ |
| `Golay.Transmit` | app/src/main/jni/codec2/golay23.c:287-316 | For every data word and every error pattern the codeword sent comes back if and only if at most three bits were turned over; the data are then right and the count is exact |
| `Interleaver.PermutationIsOnto` | app/src/main/jni/codec2/fdmdv_interleave.c:83-95 | A table of different entries below its size misses no value |
| `Interleaver.LoadTable` | app/src/main/jni/codec2/fdmdv_interleave.c:83-100 | The three outcomes of loading depend on the length alone; read forwards the table is the file, and inverted, if the file is a permutation, every entry is set and the table is its inverse |
| `Interleaver.PermutedBack` | app/src/main/jni/codec2/fdmdv_interleave.c:130-131 | Permuting by a table and by its inverse, in either order, gives back the block |
| `Interleaver.OnesKept` | app/src/main/jni/codec2/fdmdv_interleave.c:130-131 | Permuting a block keeps its number of one bits |
| `Interleaver.BlockBit` | app/src/main/jni/codec2/fdmdv_interleave.c:130-131 | Bit `i` of a processed block is the bit of the old block that entry `i` of the table names |
| `Interleaver.StreamBit` | app/src/main/jni/codec2/fdmdv_interleave.c:112-147 | Bit `k` of the output is the bit that entry `k % m` names in the same block of the input |
| `Interleaver.ProcessBlock` | app/src/main/jni/codec2/fdmdv_interleave.c:115-147 | One pass of unpacking, permuting and repacking makes bit `i` of the buffer the bit that was in the place entry `i` of the table names |
| `Interleaver.Run` | app/src/main/jni/codec2/fdmdv_interleave.c:112-147 | The program permutes the whole blocks of its input one by one, every bit of each block being the one its table entry names, and drops what is left over |
| `Interleaver.StreamBack` | app/src/main/jni/codec2/fdmdv_interleave.c:112-147 | Interleaving and de-interleaving a stream, whichever comes first, gives back its whole blocks: all of the input but the remainder of its length |
| `Interleaver.ThereAndBack` | app/src/main/jni/codec2/fdmdv_interleave.c:76-147 | The program run with a permutation file in one direction and then in the other, in either order, gives back the whole blocks of every input |
| `BitPacking.UnpackBits` | app/src/main/jni/codec2/fdmdv_mod.c:108-119 | The two counters walk the bits of all bytes, most significant first |
| `BitPacking.PackBits` | app/src/main/jni/codec2/fdmdv_demod.c:192-204 | The packed bytes hold exactly the bits given, whatever they held before |
| `BitPacking.BitsOfBytes` | app/src/main/jni/codec2/fdmdv_interleave.c:133-145 | Packing whole bytes of bits and unpacking them gives the bits back |
| `BitPacking.BytesOfBits` | app/src/main/jni/codec2/fdmdv_interleave.c:115-125 | Unpacking bytes and packing them gives the bytes back |
| `Dqpsk.GainCancels` | app/src/main/jni/codec2/fdmdv.c:1014-1017 | A constant complex gain on a carrier changes the difference of successive symbols by a positive factor only |
| `Dqpsk.SymbolRoundTrip` | app/src/main/jni/codec2/fdmdv.c:332-373 | For both mappings, every gain and every earlier symbol, the quadrant decided at the receiver gives back the two bits sent |
| `Dqpsk.SymbolOfCarrier` | app/src/main/jni/codec2/fdmdv.c:340-367 | In real and imaginary parts: which quarter turn each pair of bits makes of the symbol before, under either mapping, and what the pilot bit makes of the sync carrier |
| `Dqpsk.PilotRoundTrip` | app/src/main/jni/codec2/fdmdv.c:1049-1058 | The sign decided on the sync carrier gives back the pilot bit |
| `Dqpsk.FrameRoundTrip` | app/src/main/jni/codec2/fdmdv.c:997-1058 | A frame of bits and its pilot bit arrive as sent over carriers of any nonzero gains |
| `Dqpsk.BitsToSymbols` | app/src/main/jni/codec2/fdmdv.c:332-373 | The loop of single tests sends each pair of bits as one turn of its carrier, and the pilot bit alternates |
| `Dqpsk.QpskToBits` | app/src/main/jni/codec2/fdmdv.c:997-1058 | The loop of single tests decides every carrier by its own quadrant and the sync bit by the last carrier |
| `ModemFraming.Demodulator.Receive` | app/src/main/jni/codec2/fdmdv_demod.c:181-208 | One frame either is stored as a first half or completes and writes the codec frame of the stored half and itself; a reliable sync bit forces the second |
| `ModemFraming.ReceiveAll` | app/src/main/jni/codec2/fdmdv_demod.c:181-208 | The main loop over any frames and any reliable sync bits ends in the pairing the run theorems speak of |
| `ModemFraming.PairExactly` | app/src/main/jni/codec2/fdmdv_demod.c:181-208 | A frame is stored if and only if no half waits and the sync bit is not reliable; otherwise the bits of the bytes written are the half that waits and then the frame |
| `ModemFraming.LockedPairs` | app/src/main/jni/codec2/fdmdv_demod.c:181-208 | From any initial value of `sync`, after one reliable sync bit whose parity later ones keep, exactly every second frame writes, and writes itself joined to the frame before |
| `ModemFraming.FullCorrelation` | app/src/main/jni/codec2/fdmdv.c:1208-1213 | The correlation reaches its limit if and only if the last six sync bits are the unique word |
| `ModemFraming.ReliableSync` | app/src/main/jni/codec2/fdmdv.c:1198-1213 | The bit returned is set if and only if the shifted memory is the unique word |
| `ModemFraming.ReliableExactly` | app/src/main/jni/codec2/fdmdv.c:1202-1213 | A sync bit is reliable if and only if six have come and the last six alternate and end in a one |
| `ModemFraming.Modulator.Mod` | app/src/main/jni/codec2/fdmdv.c:520-532 | One modem frame leaves its symbols as the new reference and turns the pilot bit over |
| `ModemFraming.Modulator.Send` | app/src/main/jni/codec2/fdmdv_mod.c:105-127 | A codec frame goes out as two modem frames, its first half with pilot zero and its second with pilot one; the two assertions on the sync bit hold |
| `ModemFraming.ArrivesAsSent` | app/src/main/jni/codec2/fdmdv.c:997-1058 | From the second modem frame on every half frame arrives as split, and its sync bit tells first halves from second |
| `ModemFraming.LocksOnSecondHalf` | app/src/main/jni/codec2/fdmdv.c:1198-1213 | The eighth modem frame carries a reliable sync bit, and later reliable ones fall on second halves only |
| `ModemFraming.BytesArriveAfterLock` | app/src/main/jni/codec2/fdmdv_demod.c:181-208 | End to end: whatever the uninitialised pairing state, the carrier gains and the codec frames, what is written after the first eight modem frames is the codec frames from the fifth on, complete and in order |
| `ModemLink.ReceiveFrame` | app/src/main/jni/codec2/fdmdv_demod.c:181-208 | One modem frame at the receiver carries pairing, reference symbols and sync memory on by one frame of the link |
| `ModemLink.RunLink` | app/src/main/jni/codec2/fdmdv_mod.c:105-127 | The modulator, the channel and the demodulator run against one another pass through exactly the frames and sync bits of the link, and from four codec frames on leave the frames from the fifth on, complete and in order, behind what was written before the lock |
| `VectorQuantiser.VqAmp` | app/src/main/jni/codec2/ampexp.c:403-432 | The index is the first of least weighted metric among those below 1E32, or 0 if there is none, and the error added is the unweighted one of that codeword |
| `VectorQuantiser.FirstBestOnWords` | app/src/main/jni/codec2/ampexp.c:403-432 | The winner is the first codeword, a run of k values in the order of the codebook, of least weighted squared distance from the unmasked places, below 1E32; without one it is codeword 0 |
| `VectorQuantiser.SplitVq` | app/src/main/jni/codec2/ampexp.c:435-454 | The band search is the first-best one; the chosen entries leave the target and enter the output in the unmasked slots of the band and nowhere else |
| `VectorQuantiser.UnmaskedIsCount` | app/src/main/jni/codec2/ampexp.c:443-453 | The count a band adds is the number of its slots that are not zero |
| `VectorQuantiser.SplitConserves` | app/src/main/jni/codec2/ampexp.c:574-579 | After every band, in every slot, target plus output is what it was at the start |
| `VectorQuantiser.OtherBandsUntouched` | app/src/main/jni/codec2/ampexp.c:435-454 | A slot no band covers keeps its target and its output |
| `VectorQuantiser.SlotQuantised` | app/src/main/jni/codec2/ampexp.c:574-579 | With disjoint bands a slot receives exactly the entry its own band chose |
| `VectorQuantiser.ErrorIsMetricSum` | app/src/main/jni/codec2/ampexp.c:574-579 | With disjoint bands the error of a whole choice, summed slot by slot, is the sum of the band metrics |
| `VectorQuantiser.BandSearchesAreOptimal` | app/src/main/jni/codec2/ampexp.c:574-579 | Five independent searches, each on what the ones before left, find a choice of codewords whose weighted error over the whole vector is least among all choices |
| `HarmonicMap.SlotInRange` | app/src/main/jni/codec2/ampexp.c:557-558 | Harmonics below half the sampling rate pass the assertion on the slot |
| `HarmonicMap.SlotBounds` | app/src/main/jni/codec2/ampexp.c:557-559 | The slot is the number of whole eightieths of `PI` in the frequency of the harmonic |
| `HarmonicMap.SlotIncreasing` | app/src/main/jni/codec2/ampexp.c:557-559 | From one slot per harmonic upwards the map is strictly increasing |
| `HarmonicMap.DistinctSlotsExactly` | app/src/main/jni/codec2/ampexp.c:553-561 | No harmonic overwrites another if and only if the last one reaches slot L - 1 |
| `HarmonicMap.LongestPitchIsDistinct` | app/src/main/jni/codec2/defines.h:41-58 | At the longest pitch period the fundamental is just below one slot per harmonic, and still no harmonic of a frame overwrites another |
| `AmpExperiment.QuantiseBands` | app/src/main/jni/codec2/ampexp.c:574-579 | The five calls choose band by band and leave the target and output of the specification |
| `AmpExperiment.HarmonicTarget` | app/src/main/jni/codec2/ampexp.c:548-561 | With distinct slots the slot of a harmonic holds its level relative to the frame and its weight; a slot no harmonic falls in holds zero |
| `AmpExperiment.FrameErrorIsTotal` | app/src/main/jni/codec2/ampexp.c:553-579 | The error a choice makes in the slots is its error harmonic by harmonic: weight times squared difference between the entry of the band and the level relative to the frame |
| `AmpExperiment.SearchIsBestForFrame` | app/src/main/jni/codec2/ampexp.c:553-579 | With disjoint bands and distinct slots, and a codeword below 1E32 in every band, no choice of codewords has a smaller weighted squared error over the harmonics of the frame than the one found |
| `AmpExperiment.HarmonicQuantised` | app/src/main/jni/codec2/ampexp.c:553-601 | With disjoint bands and distinct slots the amplitude read back for a harmonic is its band entry at the level of the frame; a harmonic exactly at that level is masked and comes back at it |
| `AmpExperiment.UncoveredQuantised` | app/src/main/jni/codec2/ampexp.c:570-601 | A harmonic whose slot lies in no band comes back at the level of the frame |
| `AmpExperiment.OnlyAmplitudesQuantised` | app/src/main/jni/codec2/ampexp.c:595-601 | Quantising changes the amplitudes of the harmonics and nothing else of the frame |
| `AmpExperiment.StaleWeightsDoNotMatter` | app/src/main/jni/codec2/ampexp.c:542-561 | The weights of slots without a harmonic are never set and never affect the choice |
| `AmpExperiment.StaleSlotsDoNotMatter` | app/src/main/jni/codec2/ampexp.c:791-819 | The interpolation scratch array is never cleared, and what its other slots hold never reaches the result |
| `AmpExperiment.InterpSplitVq` | app/src/main/jni/codec2/ampexp.c:748-760 | Each unmasked slot of the band gets the mean of the two levels and entries, and no other slot changes |
| `AmpExperiment.Aexp.constructor` | app/src/main/jni/codec2/ampexp.c:220-229 | The memories start with a 100 Hz model of forty harmonics of amplitude 10 at level 1 with zero indexes, and the remembered amplitudes at 1 |
| `AmpExperiment.Aexp.SparseVqAmp` | app/src/main/jni/codec2/ampexp.c:536-603 | The frame becomes its quantised form, and its level and the indexes found are recorded in place 2; no other indexes have a smaller error over the harmonics of the frame |
| `AmpExperiment.Aexp.Interpolate` | app/src/main/jni/codec2/ampexp.c:791-819 | The amplitudes are those interpolated between places 0 and 2 |
| `AmpExperiment.Aexp.VqInterp` | app/src/main/jni/codec2/ampexp.c:763-851 | The frame before is put out, interpolated exactly on even counts when switched on, and the memories shift by one with the uninterpolated frame |
| `AmpExperiment.Aexp.Process` | app/src/main/jni/codec2/ampexp.c:1051-1089 | One frame is quantised by band searches, with the least error over its harmonics, delayed, remembered as the previous amplitudes and counted |
| `AmpExperiment.MemoryIsLastTwo` | app/src/main/jni/codec2/ampexp.c:844-849 | Over any run the memories hold the last two frames as they went in, never an interpolated one; places no frame has reached hold what they started with |
| `AmpExperiment.OutputIsDelayed` | app/src/main/jni/codec2/ampexp.c:763-851 | For every frame of every run the output is the input one frame late; only the amplitudes of interpolated frames differ, and those come from the two neighbours |
| `AmpExperiment.HarmonicInterpolated` | app/src/main/jni/codec2/ampexp.c:748-819 | With disjoint bands and distinct slots the interpolated amplitude of a harmonic is the mean of the levels and entries of its band in the two neighbours; a harmonic at 0 dB is masked and comes back at 0 dB |
| `AmpExperiment.UncoveredInterpolated` | app/src/main/jni/codec2/ampexp.c:791-819 | Interpolation changes the amplitudes of the harmonics and nothing else; a harmonic in no band comes back at 0 dB |
| `AmpExperiment.RunExperiment` | app/src/main/jni/codec2/ampexp.c:1051-1089 | A run of a new experiment over any frames quantises every one by band searches, each with the least error over its harmonics, and puts out, frame by frame, what the delay line of the run theorems puts out |
| `GainShape.ErrorShift` | app/src/main/jni/codec2/ampexp.c:641-663 | Moving the gain changes the error by a square and a cross term that vanishes at the mean difference |
| `GainShape.OptimumGainIsOptimal` | app/src/main/jni/codec2/ampexp.c:641-652 | The mean difference gives the least unweighted error of all real gains, and no other gain gives as little |
| `GainShape.Measure` | app/src/main/jni/codec2/ampexp.c:641-663 | The two inner loops compute the optimum gain and the error and metric at it |
| `GainShape.GainMetricOnWords` | app/src/main/jni/codec2/ampexp.c:641-663 | What is compared are the distances of the codewords from the unmasked places, each codeword raised by its own optimum gain; there is no gain if and only if every place is masked |
| `GainShape.GainShapeVqAmp` | app/src/main/jni/codec2/ampexp.c:629-675 | The index is the first of least metric at its own gain and the gain returned is that of the index; if none is below 1E32 the index is 0 and the gain of the caller stays |
| `SmoothAmp.ExactlyOneBin` | app/src/main/jni/codec2/ampexp.c:982-985 | A frequency above 2000 Hz and up to 4000 Hz lies in exactly one of the six bins, whose edges are 2000, 2400, 2800, 3000, 3400, 3600 and 4000 Hz |
| `SmoothAmp.InRangeExactly` | app/src/main/jni/codec2/ampexp.c:977-985 | Every harmonic finds a bin if and only if the last one is at most half the constant `TWO_PI` |
| `SmoothAmp.HarmonicAtPiIsOutOfRange` | app/src/main/jni/codec2/ampexp.c:977-985 | Over the reals a harmonic at the constant `PI` lies above the last bin, since `PI` is more than half of `TWO_PI` |
| `SmoothAmp.FindBin` | app/src/main/jni/codec2/ampexp.c:980-985 | The search loop ends with the bin of the frequency, whatever the bin of the harmonic before |
| `SmoothAmp.BinEnergyConserved` | app/src/main/jni/codec2/ampexp.c:993-1014 | Smoothing keeps the sum of squared amplitudes of every bin |
| `SmoothAmp.EnergyConserved` | app/src/main/jni/codec2/ampexp.c:957-1016 | Smoothing keeps the sum of squared amplitudes of the frame |
| `SmoothAmp.Smooth` | app/src/main/jni/codec2/ampexp.c:957-1016 | Upper harmonics get the mean power of their bin, all others stay |
| `SpeechStream.Analysis.AnalyseOneFrame` | app/src/main/jni/codec2/codec2.c:1358-1361 | The window keeps being the last M samples of M ones followed by all speech so far |
| `SpeechStream.WindowAt` | app/src/main/jni/codec2/codec2.c:1358-1361 | Place `k` of the window holds the sample analysed M - k samples ago, or 1 if there was none yet |
| `SpeechStream.WindowIsLastFrames` | app/src/main/jni/codec2/codec2.c:110-111 | After four frames the initial ones are gone and the window is speech alone |
| `SpeechStream.BlocksSplit` | app/src/main/jni/codec2_jni.c:56-58 | For any codec, feeding a + b blocks in one call gives the bytes and the final state of feeding a and then b |
| `SpeechStream.BlocksAppend` | app/src/main/jni/codec2_jni.c:56-58 | The same for two inputs in buffers of their own and the two put together |
| `SpeechStream.OneBlock` | app/src/main/jni/codec2_jni.c:56-58 | Feeding one block is one step of the codec |
| `SpeechStream.CheckedSizes` | app/src/main/jni/codec2_jni.c:44-52 | A data size that passes the checks is a whole number of blocks that fits both buffers |
| `SpeechStream.CheckExactly` | app/src/main/jni/codec2_jni.c:44-52 | The refusals and the acceptance, each exactly: -1 for a size above the input, -2 for one that is no whole number of blocks, -3 for blocks the output cannot take, and otherwise the size of the blocks put out |
| `SpeechStream.Transcode` | app/src/main/jni/codec2_jni.c:38-63 | The three refusals change nothing; otherwise the head of the output is the fold of the codec over the blocks, the rest of it stays, and the size returned is that of the head |
| `SpeechStream.TwoCallsAgainstOne` | app/src/main/jni/codec2_jni.c:38-63 | One call on two inputs together is accepted whenever the two calls are and its buffer holds what they return; it returns the sum of their sizes, writes the same bytes and leaves the codec in the same state |
| `SpeechStream.EncodedSizeDecodes` | app/src/main/jni/codec2_jni.c:65-92 | In every mode whole blocks pass the checks of the encoder, and what it returns passes those of the decoder into a buffer as large as the speech was |
| `Config.DecideMeans` | app/src/main/jni/adhoc-edify/install.c:488-524 | The outcome is the value of the first matching line with only skipped lines before it, the empty string if and only if every line is skipped or that value is empty, and malformed if and only if a line without `=` comes first |
| `Config.LinesJoined` | app/src/main/jni/adhoc-edify/install.c:487-522 | The lines joined by newlines are the text, and no line holds a newline |
| `Config.SixSpaces` | app/src/main/jni/adhoc-edify/install.c:490-491 | The spaces are the blank and the five control characters from tab to carriage return |
| `Config.BadExactly` | app/src/main/jni/adhoc-edify/install.c:489-500 | A line is malformed if and only if its first character that is no space exists and is not `#`, and no `=` follows |
| `Config.SkipExactly` | app/src/main/jni/adhoc-edify/install.c:489-508 | A line is skipped if and only if it is blank, a comment, or sets another key: spaces, that key, spaces, `=` and anything |
| `Config.MatchExactly` | app/src/main/jni/adhoc-edify/install.c:489-520 | A line gives the value v if and only if it is spaces, the key, spaces, `=`, spaces, v and spaces, with no space at either end of v |
| `Config.Strtok` | app/src/main/jni/adhoc-edify/install.c:487 | Newlines are skipped, the next line is cut off with one NUL, and nothing else is written |
| `Config.TrimEnd` | app/src/main/jni/adhoc-edify/install.c:514-517 | One NUL is written, and what stands before it is the text without its trailing spaces |
| `Config.ParseLine` | app/src/main/jni/adhoc-edify/install.c:489-520 | A line is skipped, malformed or a match as its own text says, and no character outside it is written |
| `Config.GetCfg` | app/src/main/jni/adhoc-edify/install.c:487-524 | The tokeniser that cuts the buffer up in place returns what the original text means, for every NUL-terminated buffer; it meets the null pointer if and only if the text holds nothing but newlines |
| `ErrorInjector.FlipOne` | app/src/main/jni/codec2/c2dec.c:147-150 | The mask turns over bit `i` of the frame and no other |
| `ErrorInjector.DistanceIsCount` | app/src/main/jni/codec2/c2dec.c:144-155 | The Hamming distance the error count grows by is the number of bits in which the frames differ |
| `ErrorInjector.Injector.FlipRange` | app/src/main/jni/codec2/c2dec.c:144-155 | Exactly the bits drawn inside the range are turned over, and the counters grow by the Hamming distance and by the bits visited |
| `ErrorInjector.Injector.Inject` | app/src/main/jni/codec2/c2dec.c:143-195 | A frame is changed exactly as drawn in the uniform modes and in the burst state and not at all otherwise, and the timer moves one tick in the two-state mode only |
| `ErrorInjector.Injector.Run` | app/src/main/jni/codec2/c2dec.c:138-195 | Over any run every frame is what the channel state of its moment makes of it, turned over in exactly the bits drawn or unchanged; the error count is the total Hamming distance, and the count of bits processed is the range times the number of active frames, in every mode |
| `ErrorInjector.ActiveFramesByMode` | app/src/main/jni/codec2/c2dec.c:143-195 | The active frames are all of them in the uniform modes, none without errors, and in the two-state mode as many as there are frames in the burst state |
| `ErrorInjector.TickExactly` | app/src/main/jni/codec2/c2dec.c:158-195 | A burst starts exactly when the timer passes the clear part and ends exactly when it passes the period, and only then is the timer reset |
| `ErrorInjector.BurstIsActive` | app/src/main/jni/codec2/c2dec.c:172-190 | Every completed burst is active in all of its frames, which are as many as fill the burst length to within one either way |
| `ErrorInjector.BurstLength` | app/src/main/jni/codec2/c2dec.c:158-195 | Every completed burst lasts the length asked for to within one frame either way |
| `ErrorInjector.TimerIsMultiple` | app/src/main/jni/codec2/c2dec.c:158-195 | The timer is at every moment the number of frames since its reset times the duration of a frame |
| `ErrorInjector.TimerBoundExactly` | app/src/main/jni/codec2/c2dec.c:158-195 | The timer never passes the period by more than one frame if and only if a multiple of the frame time falls into the last burst length of the period |
| `ErrorInjector.TimerOverrunBound` | app/src/main/jni/codec2/c2dec.c:158-195 | Whatever the settings, the timer stays below the period plus two frames |
| `ErrorInjector.TimerOverruns` | app/src/main/jni/codec2/c2dec.c:158-195 | At 3200 bit/s, with bursts of 0.01 s and a period of 0.99 s, the timer does pass the period by more than one frame |
| `FixedPoint.RoundedNearest` | app/src/main/jni/codec2/_kiss_fft_guts.h:65 | Rounding is to the nearest, never more than one half away |
| `FixedPoint.WrapsExactlyOutside` | app/src/main/jni/codec2/_kiss_fft_guts.h:65 | Conversion keeps the rounded value, and so the nearest one, if and only if the product lies between the two bounds of the sample type |
| `FixedPoint.CMul` | app/src/main/jni/codec2/_kiss_fft_guts.h:69-71 | Each part of the result is within one half of the exact scaled product if and only if that product is in range, and otherwise differs from it by whole turns of the sample type; under the bound on the norms both parts are samples |
| `FixedPoint.ProductIsComplex` | app/src/main/jni/codec2/_kiss_fft_guts.h:69-71 | The parts are those of the complex product: a number times its conjugate is its norm, times i it makes a quarter turn, and products associate |
| `FixedPoint.IntermediatesFit` | app/src/main/jni/codec2/_kiss_fft_guts.h:64-71 | For all samples the products, their sum and difference and the rounding term fit the product type, at both widths |
| `FixedPoint.PartsBounded` | app/src/main/jni/codec2/_kiss_fft_guts.h:69-71 | Both exact parts are bounded by the product of the norms |
| `FixedPoint.MultiplicationExactly` | app/src/main/jni/codec2/_kiss_fft_guts.h:69-71 | For all operands neither part wraps, and both are the nearest values, if and only if both exact parts are in range |
| `FixedPoint.MultiplicationIsAccurate` | app/src/main/jni/codec2/_kiss_fft_guts.h:69-71 | A sample vector times a number of norm up to one meets that condition: neither part wraps and each is within one half of the exact scaled product |
| `FixedPoint.FullSizeSamplesWrap` | app/src/main/jni/codec2/_kiss_fft_guts.h:69-71 | Two samples of full size on both axes are out of range, and the imaginary part comes out as -4 |
| `FixedPoint.TwiddlesAreSafe` | app/src/main/jni/codec2/_kiss_fft_guts.h:127-145 | Every twiddle factor is the point of the unit circle to within one half in each part and has norm up to one, so multiplying by it never wraps |
| `FixedPoint.DividedIsSmall` | app/src/main/jni/codec2/_kiss_fft_guts.h:73-74 | A sample divided by k is at most `SAMP_MAX / k` in size and within one half of the exact scaled product |
| `FixedPoint.DividedIsQuotient` | app/src/main/jni/codec2/_kiss_fft_guts.h:73-74 | k times a sample divided by k misses the sample by less than one and a half times k |
| `FixedPoint.ScaledSumsStayInRange` | app/src/main/jni/codec2/_kiss_fft_guts.h:73-124 | After scaling by k, no partial total of up to k additions and subtractions in any order leaves the sample range |

## Left out

- Signal processing proper: pitch and LSP analysis, quantiser training, synthesis, filters, carriers, timing and frequency estimation, the FFT itself. The codec is an abstract step in `SpeechStream`, and a frame is its quantiser indexes in `FrameLayout`.
- The channel between `Modulator` and receiver is a constant complex gain for each carrier; noise, filters, sample timing and the very first modem frame, which is compared with an unattenuated reference, are not promised anything.
- Of `freq_state` only the sync memory and the reliable sync bit are modelled, not the states of the frequency tracker.
- Floating-point rounding: reals throughout. Logarithm, power and square root are arbitrary functions or, in `SmoothAmp`, avoided by working on squared amplitudes.
- The level of a frame (`frame_energy`) is an input of `AmpExperiment.Aexp.SparseVqAmp`; the statistics `vq_var`, `snr` and the printing are not modelled.
- The contents of the codebooks; of those of the LSPs only `log2m` is used.
- `gain_shape_split_vq`, `gain_shape_sparse_vq_amp`, `smooth_samples`, `sparse_vq_pred_error`: variants of the searches modelled, and the second copies one element past its arrays.
- AmpExperiment.Aexp.Process: for a frame of 80 harmonics the source stores one element past its array `A_prev`; here the array has a place for it.
- The shift of `model_uq` at the end of `amp_experiment`, which reads one element past its array.
- `codec2_rebuild_spare_bit`, `fdmdv_get_test_bits`, the dump and demo programs.
- FifoThreads.Run: memory is sequentially consistent, so it does not model compilers or processors that reorder the loads and stores; negative counts appear only in the sequential class `Fifo`.
- Fifo.Fifo.constructor: a buffer of at least one sample and at most `INT_MAX`, and no failed allocation.
- Interleaver.LoadTable: a file whose entries lie outside the array is not modelled for the inverting mode.
- Interleaver.Run: an empty table is excluded, with which the program reads blocks of no bytes for ever.
- SmoothAmp.FindBin: frequencies above 4000 Hz are excluded, for which the source reads past the end of its bins.
- SmoothAmp.Smooth: frames with a harmonic above 4000 Hz are excluded for the same reason.
- ErrorInjector.Injector.FlipRange: the last bit of the range must lie in the frame buffer; the assertion of the source admits one bit more.
- Golay.GetSyndrome: words of 23 bits, as all callers of it in `golay23.c` use; the unit test program is what `Transmit` replaces.
- FrameLayout.RoundTrip: the indexes must fit the widths of the tables, as those of the quantisers do.
- File, pipe and socket input and output, the rest of the installer language, and the file size checks ahead of `Config.GetCfg`.
