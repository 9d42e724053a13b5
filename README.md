# MCDRaw2Wav in Dafny

MCDRaw2Wav converts a raw recording exported by Multi Channel Systems' MC_DataTool into one
mono 16-bit PCM `.wav` file for each requested electrode channel. A recording starts with a
fixed 8-line text header. Line 0 is the tool's identification string, line 3 gives the
sample rate and line 6 is the "Streams = " list of electrode names. Line 7 is "EOH". After the
header comes the interleaved signed 16-bit data: one sample per catalogued channel, frame
after frame.

The converter works as follows:

- **Header.** It reads the header and builds the catalog of channel numbers from the
  `El_<n>` names.
- **Registration.** It registers the requested channels by their position in the catalog.
- **Demultiplexing.** It reads whole frames into a per-channel sample buffer of 50000
  samples and appends the buffer to the output files whenever the buffer fills or the data
  ends.
- **Finalisation.** It rewrites each file's 44-byte RIFF/WAVE header with the final sizes and
  the output sample rate.

The command-line driver checks the arguments and maps each failure to an exit status.

The project has these modules:

| module | file | contents |
|---|---|---|
| `Common` | `common.dfy` | `Option`, `Result`, `byte`, `Sample`, and the constants MAX_CHANNELS and SAMPLE_BUFFER_NUM_SAMPLES |
| `Text` | `text.dfy` | C strings, `removeCRLF` (an in-place method on a `char` array), `sscanf("%d")`, and splitting at `;` |
| `HeaderFormat` | `header.dfy` | the header and the channel list as functions of the header lines, and round-trip lemmas from a rendered header |
| `Catalog` | `catalog.dfy` | `indexForChannel` and registering every channel, as functions on the catalog |
| `Wave` | `wave.dfy` | the byte layout of the WAVE header and the samples, with decoders and round-trip lemmas |
| `Files` | `files.dfy` | a store of output files (`fopen` modes, appending, rewriting from offset 0) as a class |
| `McdRaw` | `mcdraw.dfy` | the converter's globals as the fields of class `McdRaw`, with every routine of `mcdRaw.c` as a method proved against the functions above, except the byte swaps (functions in `Wave`) and the listing of channels on stderr (left out) |
| `Driver` | `driver.dfy` | `main`'s checks, argument loop, registration and exit status |

Outside effects become parameters:

- The header arrives as its lines.
- The data after the header arrives as a sequence of samples.
- Whether the input file opens is a boolean.
- The output files are a `FileStore`.
- The float factors (`-a`, `-s`) are either exactly 1.0 or an uninterpreted function.

## Model

| member | source | states |
|---|---|---|
| Text.CLen | mcdRaw.c:79 | the length `strlen` reports: no NUL before it, and a NUL at it when the buffer is longer |
| Text.CLenUnique | mcdRaw.c:79 | any index with those two properties is that length |
| Text.CStrOfTerminated | mcdRaw.c:79 | a NUL-free string with a terminator added reads back as itself |
| Text.StripCRLF | mcdRaw.c:77-84 | the result is a prefix of the text; everything removed is CR or LF; the result does not end in CR or LF |
| Text.StripCRLFUnique | mcdRaw.c:77-84 | exactly the longest such prefix is kept |
| Text.StripCRLFIdempotent | mcdRaw.c:77-84 | stripping twice is stripping once |
| Text.BlankCRLF | mcdRaw.c:77-84 | the buffer keeps its length |
| Text.BlankCRLFAt | mcdRaw.c:79-82 | a position is NUL-ed exactly when it lies in the trailing CR/LF run of the C string; every other position is unchanged |
| Text.BlankCRLFExact | mcdRaw.c:79-82 | the same, stated directly: a position before `strlen` from which only CR and LF follow becomes NUL |
| Text.BlankCRLFText | mcdRaw.c:77-84 | the C string left in the buffer is the original line with its trailing CR/LF removed |
| Text.BlankCRLFIdempotent | mcdRaw.c:77-84 | applying removeCRLF twice changes nothing more |
| Text.RemoveCRLF | mcdRaw.c:77-84 | the in-place loop leaves exactly the blanked buffer in the array |
| Text.DigitChar | mcdRaw.c:106 | a digit character whose value is the given digit |
| Text.SkipSpace | mcdRaw.c:106 | `%d` skips leading white space: the result is a suffix, everything dropped is white space, and it does not start with white space |
| Text.DigitRun | mcdRaw.c:106 | the longest all-digit prefix |
| Text.Decimal | mcdRaw.c:106 | a non-empty string of decimal digits |
| Text.DecimalValue | mcdRaw.c:106 | the digits of a decimal numeral read back as that number |
| Text.DigitRunOfDigits | mcdRaw.c:106 | `%d` stops exactly at the first non-digit after a numeral |
| Text.ScanInt | mcdRaw.c:106 | `sscanf("%d")`: after leading white space, an optional sign and at least one digit give the signed value of the digit run; anything else is no conversion |
| Text.ScanIntDecimal | mcdRaw.c:106 | scanning a decimal numeral followed by a non-digit returns its value |
| Text.ScanIntUnsigned | mcdRaw.c:106 | text that starts with a digit scans as the value of its leading digit run |
| Text.ScanIntRejects | mcdRaw.c:106-110 | text that is empty or starts with neither space, digit nor sign fails to scan |
| Text.Split | mcdRaw.c:97-123 | the tokens that `;` and the end of the string close; there is at least one |
| Text.SplitTokens | mcdRaw.c:100 | no token contains `;` |
| Text.SplitAfterToken | mcdRaw.c:97-123 | a `;`-free prefix joins the first token |
| Text.SplitJoin | mcdRaw.c:97-123 | splitting `;`-joined `;`-free tokens gives back the tokens |
| Text.SplitSnoc | mcdRaw.c:97-123 | one more character either closes a token (`;`) or extends the open one |
| Text.SplitSnocSeparator | mcdRaw.c:100-103 | a `;` closes the open token and opens an empty one |
| Text.SplitSnocChar | mcdRaw.c:112-114 | any other character is appended to the open token |
| Text.SplitExtends | mcdRaw.c:97-123 | reading further never changes a closed token |
| Catalog.IndexFor | mcdRaw.c:204-212 | -1 exactly when the channel is absent; otherwise the first position holding it |
| Catalog.AllIndexes | mcdRaw.c:229-235 | one entry per catalog entry, each the first position holding the same channel |
| Catalog.AllIndexesDuplicates | mcdRaw.c:229-235 | a channel listed twice registers the same first position twice |
| Catalog.AllIndexesIdentity | mcdRaw.c:229-235 | all positions register as themselves exactly when the catalog has no duplicates |
| Files.Overwrite | mcdRaw.c:313-314 | writing at offset 0 replaces the leading bytes, keeps the rest and grows the file only if the data is longer |
| Files.FileStore.constructor | mcdRaw.c:339 | the store starts with the given files |
| Files.FileStore.Open | mcdRaw.c:339-343 | "w" truncates or creates; "a" creates a missing file and keeps an existing one; "r+" changes nothing and succeeds only on an existing file |
| Files.FileStore.Write | mcdRaw.c:365-370 | a write appends a prefix of the data (all of it unless short) and touches no other file |
| Files.FileStore.SeekEnd | mcdRaw.c:287-293 | `ftell` after `fseek(SEEK_END)` is the file's size |
| Files.FileStore.WriteAtStart | mcdRaw.c:313-318 | `rewind` then `fwrite` overwrites a prefix of the file from offset 0 |
| HeaderFormat.DecodeToken | mcdRaw.c:100-120 | one closed token: a token of MAX_CS_STR characters or more is too long; a full catalog fails; a token without `El_` is rejected; otherwise the number after the stem is one new entry, or the entry 0 and a bad-number error when it does not scan |
| HeaderFormat.DecodeTokens | mcdRaw.c:97-123 | the tokens decoded in order, each appending to the catalog, until the first error |
| HeaderFormat.DecodeChannels | mcdRaw.c:91-126 | decode_channels: the `;`-separated tokens of the list, decoded in order |
| HeaderFormat.ExtendOk | mcdRaw.c:100-111 | a closed token is accepted exactly when decoding has not failed and the token is admissible; an accepted token appends one entry naming it |
| HeaderFormat.DecodeTokensSnoc | mcdRaw.c:97-123 | decoding one more token extends the previous result |
| HeaderFormat.DecodeTokensSticky | mcdRaw.c:108-109 | after the first error nothing later changes the result |
| HeaderFormat.DecodeTokensFirstFailure | mcdRaw.c:106-110 | the result is the first failing token's outcome |
| HeaderFormat.DecodeTokensOk | mcdRaw.c:91-126 | the channel list decodes without error exactly when every token is admissible at its catalog position |
| HeaderFormat.ExtendAdmits | mcdRaw.c:100-111 | the step of that equivalence |
| HeaderFormat.DecodeTokensLength | mcdRaw.c:106 | a successful decode appends one entry per token |
| HeaderFormat.DecodeTokensValues | mcdRaw.c:104-106 | each appended entry is the number following `El_` in its token |
| HeaderFormat.ExtendNames | mcdRaw.c:104-106 | the step of that correspondence |
| HeaderFormat.DecodeChannelsNonEmpty | mcdRaw.c:97-123 | a successful list holds at least one channel, one per `;`-separated token |
| HeaderFormat.ElectrodeTokens | mcdRaw.c:43 | the `El_<n>` tokens of a list of channel numbers |
| HeaderFormat.DecimalLength | mcdRaw.c:42 | numerals below 10^k have at most k digits |
| HeaderFormat.ElectrodeTokenValid | mcdRaw.c:42-43 | `El_<n>` for n below one million is short enough, has no `;` and names n |
| HeaderFormat.DecodeValidTokens | mcdRaw.c:91-126 | valid tokens, at most MAX_CHANNELS of them, decode to exactly their numbers |
| HeaderFormat.StreamListRoundTrip | mcdRaw.c:91-126 | decoding a rendered "El_a;El_b;…" list gives back the channel numbers |
| HeaderFormat.LineStep | mcdRaw.c:140-167 | one header line: line 0 must be the id, line 3 must start with "Sample rate = " and a number (the new rate), line 6 must start with "Streams = " and a decodable list (appended to the catalog), line 7 must be "EOH"; the others pass unchanged |
| HeaderFormat.ParseFrom | mcdRaw.c:137-168 | the lines from `i` on, one step each, stopping at the first failure or a missing line |
| HeaderFormat.ParseHeader | mcdRaw.c:132-171 | mcdRaw_read_header: the parse from line 0 with rate 1 and an empty catalog |
| HeaderFormat.ParseFromStep | mcdRaw.c:137-168 | each header line either fails the parse or passes the new rate and catalog to the next line |
| HeaderFormat.ParseHeaderSpec | mcdRaw.c:132-171 | the header parses exactly when it is well formed (8 lines; line 0 is the id; line 3 starts with "Sample rate = " and a number; line 6 starts with "Streams = " and a valid list; line 7 is "EOH"); the result is that rate and that list |
| HeaderFormat.ParsedCatalogSize | mcdRaw.c:153-162 | a parsed header catalogs between 1 and MAX_CHANNELS channels |
| HeaderFormat.ParseFromNeedsAllLines | mcdRaw.c:139 | a parse succeeds only if all 8 lines can be read |
| HeaderFormat.FreeLineStep | mcdRaw.c:167 | lines 1, 2, 4 and 5 do not affect a step |
| HeaderFormat.ParseFromIgnoresFreeLines | mcdRaw.c:167 | nor the parse |
| HeaderFormat.LineOfTerminated | mcdRaw.c:139-140 | a line read with trailing CR/LF is the text without them |
| HeaderFormat.RenderHeaderRoundTrip | mcdRaw.c:132-171 | a header rendered from a rate and a channel list parses back to them, whatever the free lines and line ends are |
| HeaderFormat.RateLine | mcdRaw.c:146-152 | a rendered rate line passes the prefix check and scans to the rate |
| HeaderFormat.PrefixedDecimal | mcdRaw.c:148-150 | a prefix followed by a numeral is plain text ending in a digit |
| HeaderFormat.StreamLine | mcdRaw.c:153-157 | a rendered streams line passes the prefix check and decodes to the channels |
| HeaderFormat.StreamListNoNul | mcdRaw.c:157 | a rendered streams line has no NUL and no trailing CR/LF |
| HeaderFormat.ElectrodeTokenText | mcdRaw.c:43 | an `El_<n>` token is plain text ending in a digit |
| HeaderFormat.JoinText | mcdRaw.c:100 | joining plain texts with `;` gives plain text |
| HeaderFormat.StreamListText | mcdRaw.c:153-157 | a rendered list is plain text ending in a digit |
| HeaderFormat.DecodeTokenAsWritten | mcdRaw.c:100-110 | the token decoder as written: on a token with the `El_` stem it agrees with `DecodeToken`; it never reports a missing stem |
| HeaderFormat.StemlessTokenAccepted | mcdRaw.c:104-106 | as written, a stemless token whose characters after the first three scan as a number is accepted; the corrected decoder rejects it |
| HeaderFormat.StaleNumberStart | mcdRaw.c:104-106 | the concrete token `XY_5` after a first token is accepted as channel 5 as written |
| Wave.Le16 | mcdRaw.c:63-64 | a `short` occupies two bytes |
| Wave.Le32 | mcdRaw.c:59 | an `int` occupies four bytes |
| Wave.FromLe16 | mcdRaw.c:63-64 | the value stored in two bytes is in the `short` range |
| Wave.FromLe32 | mcdRaw.c:59 | the value stored in four bytes is in the `int` range |
| Wave.Int16 | mcdRaw.c:246 | the conversion to `short`: in range and congruent modulo 2^16 |
| Wave.Int32 | mcdRaw.c:300 | the conversion to `int`: in range and congruent modulo 2^32 |
| Wave.CDiv | mcdRaw.c:308 | C division truncates toward zero |
| Wave.Le16RoundTrip | mcdRaw.c:63-64 | storing then reading a `short` gives the value wrapped to 16 bits (itself when in range) |
| Wave.Le32RoundTrip | mcdRaw.c:59 | storing then reading an `int` gives the value wrapped to 32 bits |
| Wave.Int16Exact | mcdRaw.c:246 | an in-range value converts to itself |
| Wave.Int32Exact | mcdRaw.c:300 | an in-range value converts to itself |
| Wave.ByteRate | mcdRaw.c:308 | the byte-rate field, computed in `int` arithmetic, is bounded |
| Wave.EncodeFields | mcdRaw.c:56-71 | the encoded header is 44 bytes |
| Wave.FieldsRoundTrip | mcdRaw.c:56-71 | decoding the encoded struct gives back every field, each as its C type stores it |
| Wave.HeaderFields | mcdRaw.c:299-311 | the fields writeWaveHeader fills carry the four tags |
| Wave.WaveHeader | mcdRaw.c:299-314 | the header written is 44 bytes |
| Wave.WaveHeaderFields | mcdRaw.c:299-311 | its fields are RIFF, size-8, WAVE, "fmt ", 16, PCM, mono, the rate, the byte rate, 2, 16, data and size-44 |
| Wave.WaveHeaderExact | mcdRaw.c:299-311 | for realistic sizes and rates, the sizes are exactly size-8 and size-44, the rate is the rate and the byte rate is twice the rate |
| Wave.ByteRateExact | mcdRaw.c:308 | below 2^27 the byte rate is exactly 2 × rate |
| Wave.EncodeSamples | mcdRaw.c:365 | two bytes per sample |
| Wave.DecodeSamples | mcdRaw.c:365 | one sample per two bytes |
| Wave.EncodeSamplesAppend | mcdRaw.c:365 | successive chunks append to the same encoding |
| Wave.SamplesRoundTrip | mcdRaw.c:365 | decoding the encoded samples gives them back |
| Wave.WaveFile | mcdRaw.c:282-321 | a finished file is 44 bytes plus two per sample |
| Wave.WaveFileParts | mcdRaw.c:282-321 | it is the header for its own size followed by the samples |
| Wave.WaveFileRoundTrip | mcdRaw.c:282-321 | reading a finished file gives its data size, its sample rate and its samples |
| Wave.SwapShort | mcdRaw.c:255-258 | the two bytes are exchanged |
| Wave.SwapInt | mcdRaw.c:264-268 | the four bytes are reversed |
| Wave.SwapShortInvolution | mcdRaw.c:255-258 | swapping twice is the identity |
| Wave.SwapIntInvolution | mcdRaw.c:264-268 | swapping twice is the identity |
| McdRaw.Amplify | mcdRaw.c:245-246 | the sample stored for an amplification factor: the sample itself for 1.0, the scaled and truncated value otherwise |
| McdRaw.OutputRate | mcdRaw.c:401-402 | outputSampleRate: the recording's rate for speed 1.0, the scaled rate otherwise |
| McdRaw.FramesClosedForm | mcdRaw.c:405-432 | a recording of m samples holds m / c complete frames, frame j is samples j·c to j·c + c - 1, and the short tail is the last m % c samples |
| McdRaw.FramesSize | mcdRaw.c:405-432 | the frames and the tail split the samples exactly |
| McdRaw.FrameAt | mcdRaw.c:407-416 | frame j is samples j·c to j·c + c - 1 |
| McdRaw.QuotientUnique | mcdRaw.c:405-432 | a quotient and remainder in range are those of `/` and `%` |
| McdRaw.MulGap | mcdRaw.c:405-432 | multiples at distinct factors lie at least one factor apart |
| McdRaw.Frames | mcdRaw.c:405-426 | the complete frames the read loop takes, each with one sample per catalogued channel |
| McdRaw.Remainder | mcdRaw.c:428-432 | what the last, short read finds: fewer samples than a frame |
| McdRaw.Channel | mcdRaw.c:241-248 | one output sample per frame: the registered column, amplified |
| McdRaw.Flushed | mcdRaw.c:336-373 | what one completed flush leaves in a file: the placeholder and the chunk on the first call, the header over the placeholder when the first call finalizes, the earlier contents and the chunk when appending, the earlier contents under a new header when finalizing |
| McdRaw.Lookup | mcdRaw.c:339 | whether a file exists, and its contents |
| McdRaw.FlushByIdAsWritten | mcdRaw.c:336-365 | flushing as written, with files named by channel number: every requested number has a file and no other file changes |
| McdRaw.FlushByIdDistinct | mcdRaw.c:336-365 | with pairwise distinct channel numbers, each entry's file as written holds what the per-position flush writes: the placeholder on the first call, its earlier contents otherwise, then the entry's chunk |
| McdRaw.FlushByIdEntry | mcdRaw.c:336-365 | the same for one entry whose channel number no other entry shares |
| McdRaw.DuplicateChannelFile | mcdRaw.c:338 | a channel requested twice shares one file, which receives both copies of every later chunk |
| McdRaw.McdRaw.constructor | mcdRaw.c:48-54 | the initial globals: empty catalog and registry, both rates 1, first flush pending |
| McdRaw.McdRaw.DecodeChannels | mcdRaw.c:91-126 | the imperative decoder appends exactly what `HeaderFormat.DecodeChannels` decodes and reports its error |
| McdRaw.McdRaw.ScanChar | mcdRaw.c:97-123 | one iteration of the scan keeps the decode invariant; when it stops, the catalog and error are the decoder's |
| McdRaw.McdRaw.StoreChar | mcdRaw.c:114 | the token buffer gains the character |
| McdRaw.McdRaw.CloseToken | mcdRaw.c:100-111 | closing a token appends the decoder's result for it and, on error or at the end, completes the decode |
| McdRaw.McdRaw.AppendChannel | mcdRaw.c:104-110 | one token's catalog entry and error are `DecodeToken`'s |
| McdRaw.McdRaw.ReadLine | mcdRaw.c:139-140 | a line as fgets and removeCRLF leave it |
| McdRaw.McdRaw.ReadHeader | mcdRaw.c:132-171 | the header reader succeeds exactly when `ParseFrom` does, leaving its rate and catalog; otherwise it reports its error |
| McdRaw.McdRaw.HeaderLine | mcdRaw.c:137-168 | one iteration advances `ParseFrom` by one line or ends it with its error |
| McdRaw.McdRaw.ReadSampleRate | mcdRaw.c:146-152 | line 3 is handled as `LineStep` says |
| McdRaw.McdRaw.ReadStreams | mcdRaw.c:153-162 | line 6 is handled as `LineStep` says |
| McdRaw.McdRaw.CheckLine | mcdRaw.c:140-167 | each line is handled as `LineStep` says |
| McdRaw.McdRaw.IndexForChannel | mcdRaw.c:204-212 | the loop returns `IndexFor` |
| McdRaw.McdRaw.ContainsChannel | mcdRaw.c:177-185 | true exactly when the channel is catalogued |
| McdRaw.McdRaw.RegisterExtractChannel | mcdRaw.c:218-223 | a catalogued channel appends its first position; an unknown one changes nothing |
| McdRaw.McdRaw.RegisterExtractAllChannels | mcdRaw.c:229-235 | appends `AllIndexes` of the catalog |
| McdRaw.McdRaw.Row | mcdRaw.c:50 | a buffer row's first samples |
| McdRaw.McdRaw.WriteSampleBuffer | mcdRaw.c:241-248 | column `sampleCount` of each registered row receives its channel's amplified sample; nothing else in the buffer changes |
| McdRaw.McdRaw.WriteWaveHeader | mcdRaw.c:282-321 | on success the file's first 44 bytes become the header for its current size; whether or not it succeeds, a file of at least 44 bytes keeps its length and every byte after the header; no other file changes |
| McdRaw.McdRaw.FlushSampleBuffers | mcdRaw.c:329-378 | on success every registered file receives the placeholder on the first flush, then its buffered samples, or its header when finalising, and `first` is cleared; on failure `first` is kept and every file is as before or a prefix of what the complete flush writes, and a finalising flush keeps every file's samples; files past the registry are untouched |
| McdRaw.McdRaw.FlushFile | mcdRaw.c:336-373 | the same for one file, touching no other |
| McdRaw.McdRaw.Rows | mcdRaw.c:365 | the buffered samples handed to each file |
| McdRaw.McdRaw.FlushStep | mcdRaw.c:336-373 | one more completed file leaves the earlier files as they were |
| McdRaw.McdRaw.StoppedOutcome | mcdRaw.c:336-373 | a flush that stopped at some file, or ran to the end, leaves every file with a possible outcome |
| McdRaw.FlushedOutcome | mcdRaw.c:345-370 | a completed flush of a file is among the outcomes of a failed one |
| McdRaw.OverwriteKeepsData | mcdRaw.c:313-318 | writing at most 44 bytes at offset 0 keeps the length and the data after the header |
| McdRaw.McdRaw.BufferedEmpty | mcdRaw.c:388 | an empty buffer holds no pending frames |
| McdRaw.McdRaw.Extract | mcdRaw.c:384-444 | on success each registered file is exactly the WAVE file of its channel's amplified samples at the output rate and `first` is cleared; the frame total and the truncation warning match the input; if the read loop fails, every file is as before or holds a prefix of the placeholder and its channel's samples (no header); if only the final header write fails, every file holds the placeholder and all its channel's samples; other files, the catalog and the registry are untouched |
| McdRaw.McdRaw.Finalize | mcdRaw.c:441 | the final flush turns each holding file into its finished WAVE file; if it fails, every file still holds its channel's samples after 44 bytes |
| McdRaw.McdRaw.FlushPending | mcdRaw.c:419-424 | after a flush every file holds the placeholder and all frames read so far; after a failed one every file is as before the first flush or a prefix of the placeholder and its channel's samples over all frames |
| McdRaw.McdRaw.StoreFrame | mcdRaw.c:411-416 | a stored frame becomes the last pending frame |
| McdRaw.McdRaw.ReadFrame | mcdRaw.c:407-417 | a read either takes a whole frame or signals the end |
| McdRaw.McdRaw.Demux | mcdRaw.c:404-432 | the read loop leaves every registered file holding the placeholder and its channel's samples over all complete frames and reports the frame total and the short tail; when a flush fails, every file is as it was or a prefix of that |
| McdRaw.ReadingFlushed | mcdRaw.c:419-424 | flushing moves the pending frames into the flushed ones |
| McdRaw.ReadFull | mcdRaw.c:407-416 | a full read takes the next frame of the input |
| McdRaw.ReadShort | mcdRaw.c:409-432 | a short read means every complete frame has been taken and the rest is the remainder |
| McdRaw.ChannelAppend | mcdRaw.c:419-424 | a channel's samples over two runs of frames are the two runs' samples appended |
| McdRaw.FlushSpools | mcdRaw.c:345-370 | an append flush, or the first one, leaves a file holding the placeholder and all the channel's samples so far |
| McdRaw.ChannelPrefix | mcdRaw.c:419-424 | a channel's samples over fewer frames are a prefix of those over more |
| McdRaw.SpoolPrefix | mcdRaw.c:365 | the placeholder and fewer samples are a prefix of the placeholder and more |
| McdRaw.PrefixTrans | mcdRaw.c:365 | a prefix of a prefix is a prefix |
| McdRaw.AppendedPrefix | mcdRaw.c:345-370 | a file that a failed append flush cut short is as before the first flush or a prefix of the placeholder and its channel's samples over all frames |
| McdRaw.SpooledHolding | mcdRaw.c:441 | a file holding the placeholder and samples holds 44 bytes and then the samples |
| McdRaw.FinalHeader | mcdRaw.c:313-318 | writing the header over a file holding placeholder and samples gives the finished WAVE file |
| McdRaw.FinishedTokens | mcdRaw.c:97-123 | tokens closed in a prefix are tokens of the whole list |
| McdRaw.DecodeCloseStep | mcdRaw.c:100-111 | the decode after closing a token |
| McdRaw.SplitOpen | mcdRaw.c:112-114 | a non-separator extends the open token |
| McdRaw.DecodeClose | mcdRaw.c:100-111 | a failing token, or the last one, settles the whole decode |
| McdRaw.CloseAtSeparator | mcdRaw.c:100-103 | a `;` opens an empty token |
| McdRaw.DecodeStops | mcdRaw.c:108-109 | an error in the closed tokens is the decode's result |
| McdRaw.DecodeLongToken | mcdRaw.c:115-120 | a token reaching MAX_CS_STR characters ends the decode with that error, keeping earlier entries |
| Driver.ParseChannels | main.c:94-109 | the argument loop over the first n scanned arguments: a MAX_CHANNELS + 1st argument gives -1, one that names no channel -3, otherwise the channels in order |
| Driver.Arguments | main.c:94-109 | the argument loop over all channel arguments |
| Driver.Verdict | main.c:84-134 | main's exit status: -1 for a usage error, -2 when the recording does not open, the argument loop's failure, -3 for a bad header, -4 for a channel not in the header, otherwise 0 |
| Driver.ChannelArg | main.c:98-100 | an accepted channel argument lies in [0, MAX_CHANNELS) |
| Driver.ScannedAt | main.c:98 | each argument is scanned on its own |
| Driver.Positions | main.c:114-125 | one registry entry per requested channel, at a catalog position holding it |
| Driver.Registration | main.c:114-128 | the registry is made of catalog positions |
| Driver.Run | main.c:84-134 | the exit status is the verdict of the command line, the open and the header; on any failure no file changes; with status 0 the catalog and the sample rate are the header's, the output rate is that rate under `-s`, the registry holds the requested (or all) channels and, when extraction does not fail, each file is its channel's WAVE file at that output rate |
| Driver.Convert | main.c:111-130 | the header failure gives -3 and a missing channel -4; otherwise the catalog, the sample rate and the output rate come from the header and `-s`, and the registration and extraction behave as `Run` states |
| Driver.CollectChannels | main.c:94-109 | the argument loop computes `Arguments` |
| Driver.RegisterRequested | main.c:114-125 | all requested channels are present exactly when the loop completes; it then registers their positions |
| Driver.ParseChannelsSticky | main.c:96-106 | the first failing argument decides the result |
| Driver.ScanArgument | main.c:98 | the scan of one argument is what the loop sees of it |
| Driver.ParseChannelsNext | main.c:96-104 | an argument naming a channel, within the limit, adds that channel to those collected |
| Driver.ParseChannelsStops | main.c:96-106 | the loop may stop at the first failure |
| Driver.ParseChannelsOk | main.c:94-109 | the arguments are accepted exactly when there are at most MAX_CHANNELS and each scans to a valid channel; the result is those channels in order |
| Driver.TooManyChannels | main.c:96 | a 257th argument after 256 valid ones exits with -1 |
| Driver.BadChannelArg | main.c:98-105 | the first invalid argument within the limit exits with -3 |
| Driver.UsageBeforeOpen | main.c:84-91 | a usage error gives -1 whatever the input file and its header are |
| Driver.ParseChannelsCodes | main.c:94-109 | the argument loop fails only with -1 or -3 |
| Driver.RegistrationFirstMatch | main.c:114-125 | each requested channel registers its first catalog position, as `indexForChannel` finds it |

## Left out

- Floating point: `-a` and `-s` are either exactly 1.0 or an uninterpreted function (`Factor`); the float multiply, its rounding and `atof` are not modelled.
- Option parsing (`getopt`), `strcpy` of the file name, `printf`/`fprintf`/`perror` messages, `usage()` and `mcdRaw_list_all_channels_on_stderr` (output only) are left out.
- `fopen` of the recording is a boolean parameter; `fgets` is replaced by the header's lines, so the LINE_SIZE limit and line splitting are not modelled.
- `fread` is replaced by the sample sequence that follows the header; the bytes' endianness is not modelled.
- Output files are keyed by their registry position instead of a name built with `sprintf` from the stem, the channel number and `%0.0f` of the speed factor. See Findings for what naming by channel number does.
- The placeholder written on the first flush is a parameter `junk` of 44 bytes: the program writes 44 bytes starting at one uninitialised `char`.
- `fclose` and the `sizeof(AdcDataType) != 2` check (always false on the targets) are left out.
- The SWAP_ENDIAN build: the header is built for a little-endian host, where `swap_short` and `swap_int` are the identity; the byte-swapping versions are modelled and proved to be involutions but not wired into the header.
- Overflow of `sscanf("%d")` on numerals outside the `int` range is not modelled: the scanned value is the unbounded integer.
- McdRaw.McdRaw.DecodeChannels: a full catalog is reported as the error `CatalogFull`, where the program writes past `datafileChannels` (undefined behaviour).
- McdRaw.McdRaw.RegisterExtractChannel: requires fewer than MAX_CHANNELS registered channels, where the program would write past `channelIndexes`; `main` never registers more than that.
- McdRaw.McdRaw.RegisterExtractAllChannels: requires the whole catalog to fit in the registry, for the same reason.
- McdRaw.McdRaw.Extract: requires that no flush has happened yet (`first`), as in every run of the program, whose `static int first` is never reset.
- HeaderFormat.DecodeTokenAsWritten: defined only for tokens of at least three characters. A shorter stemless token is scanned from the fourth byte of the token buffer, which still holds the previous token's characters (as written, the list `El_5;` decodes to channel 5 twice); the model keeps no token buffer between tokens, so it does not reproduce this.
- Driver.Run: says nothing about the state after a header failure beyond the exit status and the untouched files.

## Findings

| source | as written | input that shows it | evidently intended | confidence | as-written member | corrected member |
|---|---|---|---|---|---|---|
| mcdRaw.c:104 | `numberStart` is set only when a token starts with `El_`, always to three characters into the token buffer, so a later token without the stem is still scanned from the fourth byte of the token buffer, which for a short token still holds the previous token's characters | a "Streams = " line `El_1;XY_5`: the second token is accepted as channel 5 | a token without the `El_` stem is rejected | not executed | HeaderFormat.StaleNumberStart | HeaderFormat.DecodeTokensOk |
| mcdRaw.c:338 | each output file is named after the channel number, so two registry entries for the same channel open the same file | arguments `5 5` and more than 50000 frames: after the second flush the file holds the first chunk once and every later chunk twice | one output per registered channel, or a duplicate argument rejected | not executed | McdRaw.DuplicateChannelFile | McdRaw.McdRaw.Extract |
