/** The converter's state and operations (mcdRaw.c): the file-scoped globals become the
    fields of one McdRaw object, and every routine that updates them a method proved against
    the specification functions of modules HeaderFormat, Catalog and Wave. */
module McdRaw {
  import opened Common
  import opened Text
  import opened HeaderFormat
  import opened Catalog
  import opened Wave
  import opened Files

  // ---------------------------------------------------------------------------------------
  // The float factors of the command line

  /** An amplification or speed factor: exactly 1.0, or another value whose effect is the
      given function (the float arithmetic of the program is not modelled). */
  datatype Factor<F> = One | Other(positive: bool, apply: F)
  {
    /** factor > 0.0 */
    predicate Positive()
    {
      One? || positive
    }
  }

  /** ampFactor: another value scales each sample, (short)((float)s * ampFactor). */
  type AmpFactor = Factor<Sample -> Sample>

  /** speedFactor: another value gives the output rate (int)((float)rate * speedFactor). */
  type SpeedFactor = Factor<int -> int>

  /** The sample writeSampleBuffer stores for `s`. */
  function Amplify(amp: AmpFactor, s: Sample): Sample
  {
    match amp
    case One => s
    case Other(_, scale) => scale(s)
  }

  /** outputSampleRate as mcdRaw_extract sets it. */
  function OutputRate(rate: int, speed: SpeedFactor): int
  {
    match speed
    case One => rate
    case Other(_, rateFor) => rateFor(rate)
  }

  // ---------------------------------------------------------------------------------------
  // The input after the header, and what each output file receives

  /** The complete frames of `input` (one sample per catalog channel, `n` channels), in
      order: what the fread loop of mcdRaw_extract reads before its first short read. */
  function Frames(input: seq<Sample>, n: nat): (r: seq<seq<Sample>>)
    requires n >= 1
    ensures forall j :: 0 <= j < |r| ==> |r[j]| == n
    decreases |input|
  {
    if |input| < n then [] else [input[..n]] + Frames(input[n..], n)
  }

  /** The samples after the last complete frame: what the final short fread returns. */
  function Remainder(input: seq<Sample>, n: nat): (r: seq<Sample>)
    requires n >= 1
    ensures |r| < n
    decreases |input|
  {
    if |input| < n then input else Remainder(input[n..], n)
  }

  /** In closed form: `input` holds |input| / n complete frames, frame j is samples
      j*n .. j*n + n - 1, and the remainder is the last |input| % n samples. */
  lemma FramesClosedForm(input: seq<Sample>, n: nat)
    requires n >= 1
    ensures |Frames(input, n)| == |input| / n
    ensures Remainder(input, n) == input[|input| - |input| % n..]
    ensures forall j :: 0 <= j < |Frames(input, n)| ==>
      j * n + n <= |input| && Frames(input, n)[j] == input[j * n..j * n + n]
  {
    FramesSize(input, n);
    QuotientUnique(|input|, n, |Frames(input, n)|, |Remainder(input, n)|);
    forall j | 0 <= j < |Frames(input, n)|
      ensures j * n + n <= |input| && Frames(input, n)[j] == input[j * n..j * n + n]
    {
      FrameAt(input, n, j);
    }
  }

  /** The frames and the remainder split `input` exactly. */
  lemma {:induction false} FramesSize(input: seq<Sample>, n: nat)
    requires n >= 1
    ensures |input| == |Frames(input, n)| * n + |Remainder(input, n)|
    ensures Remainder(input, n) == input[|Frames(input, n)| * n..]
    decreases |input|
  {
    if |input| >= n {
      var k := |Frames(input[n..], n)|;
      FramesSize(input[n..], n);
      assert (k + 1) * n == k * n + n;
    }
  }

  /** Frame j of `input` is samples j*n .. j*n + n - 1. */
  lemma {:induction false} FrameAt(input: seq<Sample>, n: nat, j: nat)
    requires n >= 1 && j < |Frames(input, n)|
    ensures j * n + n <= |input| && Frames(input, n)[j] == input[j * n..j * n + n]
    decreases j
  {
    if j > 0 {
      FrameAt(input[n..], n, j - 1);
      assert (j - 1) * n + n == j * n;
    }
  }

  /** Euclidean division: a quotient and remainder in range are the ones `/` and `%` give. */
  lemma QuotientUnique(m: nat, n: nat, q: nat, r: nat)
    requires n >= 1 && r < n && m == q * n + r
    ensures m / n == q && m % n == r
  {
    MulGap(q, m / n, n);
    MulGap(m / n, q, n);
  }

  /** Multiples of `n` at distinct factors lie at least `n` apart. */
  lemma {:induction false} MulGap(a: nat, b: nat, n: nat)
    ensures a < b ==> a * n + n <= b * n
    decreases b
  {
    if a + 1 < b {
      MulGap(a, b - 1, n);
      assert (b - 1) * n + n == b * n;
    } else if a + 1 == b {
      assert (a + 1) * n == a * n + n;
    }
  }

  /** The samples of catalog position `column` over the given frames, as writeSampleBuffer
      stores them. */
  function Channel(frames: seq<seq<Sample>>, column: nat, amp: AmpFactor): (r: seq<Sample>)
    requires forall j :: 0 <= j < |frames| ==> column < |frames[j]|
    ensures |r| == |frames|
    ensures forall j :: 0 <= j < |frames| ==> r[j] == Amplify(amp, frames[j][column])
  {
    seq(|frames|, j requires 0 <= j < |frames| => Amplify(amp, frames[j][column]))
  }

  /** Every frame has `c` samples. */
  ghost predicate FrameShaped(frames: seq<seq<Sample>>, c: nat)
  {
    forall j :: 0 <= j < |frames| ==> |frames[j]| == c
  }

  /** At most MaxChannels registry entries, each a position below `c`. */
  ghost predicate Fits(reg: seq<nat>, c: nat)
  {
    |reg| <= MaxChannels && forall k :: 0 <= k < |reg| ==> reg[k] < c
  }

  /** An output file in the making: the 44-byte header slot followed by `xs`. */
  ghost predicate Holds(file: seq<byte>, xs: seq<Sample>)
  {
    |file| == HeaderSize + 2 * |xs| && file[HeaderSize..] == EncodeSamples(xs)
  }

  /** The file stored under `k`, if any. */
  function Lookup(files: map<nat, seq<byte>>, k: nat): (r: Option<seq<byte>>)
    ensures r.Some? <==> k in files
    ensures r.Some? ==> r.value == files[k]
  {
    if k in files then Some(files[k]) else None
  }

  /** What flushSampleBuffers does to the file of one registry position, which was `prior`
      before the call: `chunk` is the row of that position's buffer, `first` and `finalize`
      the flags of the call. */
  ghost predicate Flushed(prior: Option<seq<byte>>, file: seq<byte>, first: bool, finalize: bool,
                          junk: seq<byte>, chunk: seq<Sample>, rate: int)
  {
    && (first && !finalize ==> file == junk + EncodeSamples(chunk))
    && (first && finalize ==> file == WaveHeader(HeaderSize, rate))
    && (!first && !finalize ==>
          file == (if prior.Some? then prior.value else []) + EncodeSamples(chunk))
    && (!first && finalize ==>
          prior.Some? && file == Overwrite(prior.value, WaveHeader(|prior.value|, rate)))
  }

  /** The bytes of a file that may be missing. */
  function Contents(file: Option<seq<byte>>): seq<byte>
  {
    if file.Some? then file.value else []
  }

  /** What a flush without `finalize` leaves in one file, whether it completes or stops at a
      failed fopen or a short fwrite: the file as it was, or a prefix of what the complete
      flush writes (the placeholder `junk` on the first flush, the old contents otherwise,
      followed by the chunk's samples). */
  ghost predicate Appended(prior: Option<seq<byte>>, file: Option<seq<byte>>, first: bool,
                           junk: seq<byte>, chunk: seq<Sample>)
  {
    file == prior ||
    (file.Some? && file.value <= (if first then junk else Contents(prior)) + EncodeSamples(chunk))
  }

  /** A header rewrite, complete or not, keeps the length and the bytes after the header
      slot of a file that has one. */
  ghost predicate KeepsData(prior: seq<byte>, file: seq<byte>)
  {
    |prior| >= HeaderSize ==> |file| == |prior| && file[HeaderSize..] == prior[HeaderSize..]
  }

  /** What flushSampleBuffers leaves in one file whether or not it completes: without
      `finalize`, the file as it was or a prefix of the complete flush's bytes; finalizing
      after the first flush, the file's samples intact. */
  ghost predicate Outcome(prior: Option<seq<byte>>, file: Option<seq<byte>>, first: bool, finalize: bool,
                          junk: seq<byte>, chunk: seq<Sample>)
  {
    && (!finalize ==> Appended(prior, file, first, junk, chunk))
    && (finalize && !first && prior.Some? ==> file.Some? && KeepsData(prior.value, file.value))
  }

  /** A completed flush of a file has the outcome of any flush. */
  lemma FlushedOutcome(prior: Option<seq<byte>>, file: seq<byte>, first: bool, finalize: bool,
                       junk: seq<byte>, chunk: seq<Sample>, rate: int)
    requires Flushed(prior, file, first, finalize, junk, chunk, rate)
    ensures Outcome(prior, Some(file), first, finalize, junk, chunk)
  {
    if finalize && !first {
      OverwriteKeepsData(prior.value, WaveHeader(|prior.value|, rate));
    }
  }

  // ---------------------------------------------------------------------------------------
  // Output file names as written (mcdRaw.c:338): the name carries the channel id of a
  // registry entry, not its position, so two entries of the same channel share one file.
  // Class McdRaw keys its files by registry position instead.

  /** One flushSampleBuffers call as written, over files keyed by channel id: registry entry
      i, of channel ids[i], writes `chunks[i]` after the placeholder `junk` into a file
      opened with "w" on the first call, and at the end of a file opened with "a" on the
      others. */
  function FlushByIdAsWritten(files: map<int, seq<byte>>, ids: seq<int>, chunks: seq<seq<byte>>,
                              junk: seq<byte>, first: bool): (r: map<int, seq<byte>>)
    requires |chunks| == |ids|
    ensures forall c :: c in ids ==> c in r
    ensures forall c :: c !in ids ==> (c in r <==> c in files) && (c in r ==> r[c] == files[c])
  {
    if ids == [] then files
    else
      var n := |ids| - 1;
      var prev := FlushByIdAsWritten(files, ids[..n], chunks[..n], junk, first);
      var id := ids[n];
      assert forall c :: c in ids ==> c in ids[..n] || c == id;
      if first then prev[id := junk + chunks[n]]
      else prev[id := (if id in prev then prev[id] else []) + chunks[n]]
  }

  /** With pairwise distinct channel ids, flushing as written gives each registry entry a
      file of its own, holding what the per-position flush writes: the placeholder on the
      first call, the file's earlier contents on the others, then the entry's chunk. */
  lemma FlushByIdDistinct(files: map<int, seq<byte>>, ids: seq<int>, chunks: seq<seq<byte>>,
                          junk: seq<byte>, first: bool)
    requires |chunks| == |ids|
    requires forall i, j :: 0 <= i < j < |ids| ==> ids[i] != ids[j]
    ensures forall i :: 0 <= i < |ids| ==>
      FlushByIdAsWritten(files, ids, chunks, junk, first)[ids[i]] ==
        (if first then junk else if ids[i] in files then files[ids[i]] else []) + chunks[i]
  {
    forall i | 0 <= i < |ids|
      ensures FlushByIdAsWritten(files, ids, chunks, junk, first)[ids[i]] ==
        (if first then junk else if ids[i] in files then files[ids[i]] else []) + chunks[i]
    {
      FlushByIdEntry(files, ids, chunks, junk, first, i);
    }
  }

  /** The file of one registry entry whose channel id no other entry shares. */
  lemma {:induction false} FlushByIdEntry(files: map<int, seq<byte>>, ids: seq<int>, chunks: seq<seq<byte>>,
                                          junk: seq<byte>, first: bool, i: nat)
    requires |chunks| == |ids| && i < |ids|
    requires forall j :: 0 <= j < |ids| && j != i ==> ids[j] != ids[i]
    ensures FlushByIdAsWritten(files, ids, chunks, junk, first)[ids[i]] ==
      (if first then junk else if ids[i] in files then files[ids[i]] else []) + chunks[i]
  {
    var n := |ids| - 1;
    var prev := FlushByIdAsWritten(files, ids[..n], chunks[..n], junk, first);
    if i == n {
      assert ids[i] !in ids[..n];
    } else {
      assert ids[..n][i] == ids[i] && chunks[..n][i] == chunks[i];
      assert ids[n] != ids[i];
      FlushByIdEntry(files, ids[..n], chunks[..n], junk, first, i);
    }
  }

  /** Channel 5 registered twice (the arguments "5 5") and two flushes, whose chunks of
      channel 5 are `a` and `b`: as written the single file "…_5_…" ends with `b` twice,
      where each registry position's own file is junk + a + b. */
  lemma DuplicateChannelFile(junk: seq<byte>, a: seq<byte>, b: seq<byte>)
    requires b != []
    ensures var once := FlushByIdAsWritten(map[], [5, 5], [a, a], junk, true);
      && FlushByIdAsWritten(once, [5, 5], [b, b], junk, false)[5] == junk + a + b + b
      && FlushByIdAsWritten(once, [5, 5], [b, b], junk, false)[5] != junk + a + b
  {
    var ids := [5, 5];
    assert ids[..1] == [5];
    assert [a, a][..1] == [a] && [b, b][..1] == [b];
    var once := FlushByIdAsWritten(map[], ids, [a, a], junk, true);
    assert once == map[5 := junk + a];
    var half := FlushByIdAsWritten(once, [5], [b], junk, false);
    assert half == map[5 := junk + a + b];
    var twice := FlushByIdAsWritten(once, ids, [b, b], junk, false);
    assert twice == half[5 := half[5] + b];
    assert |junk + a + b + b| > |junk + a + b|;
  }

  // ---------------------------------------------------------------------------------------
  // The converter

  class McdRaw {
    /** SAMPLE_BUFFER_NUM_SAMPLES: samples each channel buffer holds. */
    const capacity: nat
    /** sampleBuffer: one row of `capacity` samples per registry position. */
    const buffer: array2<Sample>
    /** datafileChannels[0 .. datafileChannelsCount): the channel ids of the recording. */
    var catalog: seq<int>
    /** channelIndexes[0 .. channelIndexesCount): catalog positions to extract. */
    var registry: seq<nat>
    /** datafileSampleRate */
    var sampleRate: int
    /** outputSampleRate */
    var outputRate: int
    /** The static `first` flag of flushSampleBuffers: no flush has completed yet. */
    var first: bool

    ghost predicate Valid()
      reads this
    {
      && capacity >= 1
      && buffer.Length0 == MaxChannels && buffer.Length1 == capacity
      && |catalog| <= MaxChannels && |registry| <= MaxChannels
      && Indexes(registry, catalog)
    }

    /** The program's initial state: empty catalog and registry, both rates 1. */
    constructor(capacity: nat)
      requires capacity >= 1
      ensures Valid() && fresh(buffer)
      ensures this.capacity == capacity
      ensures catalog == [] && registry == [] && sampleRate == 1 && outputRate == 1 && first
    {
      this.capacity := capacity;
      buffer := new Sample[MaxChannels, capacity];
      catalog := [];
      registry := [];
      sampleRate := 1;
      outputRate := 1;
      first := true;
    }

    // -------------------------------------------------------------------------------------
    // decode_channels (mcdRaw.c:91-126)

    /** Scans the C string `s` one character at a time, collecting each ';'-separated token
        in a MAX_CS_STR + 1 character buffer and appending the channel number it names to the
        catalog. */
    method DecodeChannels(s: string) returns (error: Option<ChannelError>)
      requires Valid() && NoNul(s)
      modifies this`catalog
      ensures Valid()
      ensures catalog == old(catalog) + HeaderFormat.DecodeChannels(s, |old(catalog)|).appended
      ensures error == HeaderFormat.DecodeChannels(s, |old(catalog)|).error
    {
      var cs := new char[MaxCsStr + 1];
      var csIndex: nat := 0;
      var p: nat := 0;
      ghost var closed: seq<string> := [];
      ghost var open: string := [];
      ghost var acc: seq<int> := [];
      while true
        invariant csIndex < MaxCsStr && cs[..csIndex] == open
        invariant Scanning(s, p, closed, open, |old(catalog)|, acc)
        invariant catalog == old(catalog) + acc && Valid()
        decreases |s| - p
      {
        var done;
        csIndex, done, error, closed, open, acc := ScanChar(cs, csIndex, s, p, closed, open, acc, old(catalog));
        if done {
          return;
        }
        p := p + 1;
      }
    }

    /** One pass of the loop of decode_channels, at position p of `s`: a ';' or the end of
        `s` closes the open token and decodes it; any other character joins the open token,
        which fails once it reaches MAX_CS_STR characters. `done` says the loop returns. */
    method ScanChar(cs: array<char>, csIndex: nat, s: string, p: nat, ghost closed: seq<string>,
                    ghost open: string, ghost acc: seq<int>, ghost base: seq<int>)
      returns (csIndex': nat, done: bool, error: Option<ChannelError>,
               ghost closed': seq<string>, ghost open': string, ghost acc': seq<int>)
      requires Valid() && NoNul(s) && cs.Length == MaxCsStr + 1
      requires csIndex < MaxCsStr && cs[..csIndex] == open
      requires Scanning(s, p, closed, open, |base|, acc) && catalog == base + acc
      modifies cs, this`catalog
      ensures Valid()
      ensures done ==> catalog == base + HeaderFormat.DecodeChannels(s, |base|).appended
      ensures done ==> error == HeaderFormat.DecodeChannels(s, |base|).error
      ensures !done ==> p < |s| && catalog == base + acc'
      ensures !done ==> csIndex' < MaxCsStr && cs[..csIndex'] == open'
      ensures !done ==> Scanning(s, p + 1, closed', open', |base|, acc')
    {
      closed', open', acc' := closed, open, acc;
      if p == |s| || s[p] == ';' {
        // the token ends: the characters before the terminator are the C string
        var token := cs[..csIndex];
        cs[csIndex] := '\0';
        csIndex' := 0;
        error, acc' := CloseToken(token, s, p, closed, acc, base);
        done := error.Some? || p == |s|;
        if !done {
          closed', open' := closed + [token], [];
        }
      } else {
        StoreChar(cs, csIndex, s[p], open);
        csIndex' := csIndex + 1;
        SplitOpen(s, p, closed, open);
        open' := open + [s[p]];
        done := csIndex' >= MaxCsStr;
        error := None;
        if done {
          cs[csIndex'] := '\0';
          error := Some(TokenTooLong);
          DecodeLongToken(s, p + 1, closed, open', |base|);
        }
      }
    }

    /** One more character of the open token goes into the token buffer. */
    static method StoreChar(cs: array<char>, csIndex: nat, c: char, ghost open: string)
      requires csIndex < cs.Length && cs[..csIndex] == open
      modifies cs
      ensures cs[..csIndex + 1] == open + [c]
    {
      cs[csIndex] := c;
      assert cs[..csIndex + 1] == cs[..csIndex] + [c];
    }

    /** The end of one token in decode_channels, seen against the whole list `s`: the
        token closed at position p of s follows the tokens `closed`, which decoded without
        error to `acc` after a catalog of `base`. */
    method CloseToken(token: string, ghost s: string, ghost p: nat, ghost closed: seq<string>,
                      ghost acc: seq<int>, ghost base: seq<int>)
      returns (error: Option<ChannelError>, ghost acc': seq<int>)
      requires Valid() && |token| < MaxCsStr
      requires p <= |s| && (p < |s| ==> s[p] == ';')
      requires Split(s[..p]) == closed + [token]
      requires DecodeTokens(closed, |base|) == Decoded(acc, None) && catalog == base + acc
      modifies this`catalog
      ensures Valid() && catalog == base + acc'
      ensures error.Some? || p == |s| ==> Decoded(acc', error) == HeaderFormat.DecodeChannels(s, |base|)
      ensures error.None? ==> DecodeTokens(closed + [token], |base|) == Decoded(acc', None)
      ensures p < |s| ==> Split(s[..p + 1]) == closed + [token] + [[]]
    {
      ghost var d := DecodeToken(token, |base| + |acc|);
      error := AppendChannel(token);
      AppendAssoc(base, acc, d.appended);
      acc' := acc + d.appended;
      DecodeCloseStep(s, p, closed, token, |base|, acc, d);
    }

    /** The end of one token in decode_channels: its number, read after the "El_" stem,
        is appended to the catalog. */
    method AppendChannel(token: string) returns (error: Option<ChannelError>)
      requires Valid() && |token| < MaxCsStr
      modifies this`catalog
      ensures Valid()
      ensures catalog == old(catalog) + DecodeToken(token, |old(catalog)|).appended
      ensures error == DecodeToken(token, |old(catalog)|).error
    {
      if |catalog| >= MaxChannels {
        return Some(CatalogFull);
      }
      if !HasPrefix(token, ElectrodeStem) {
        return Some(MissingStem);
      }
      var number := ScanInt(token[|ElectrodeStem|..]);
      if number.None? {
        // the slot is claimed before the scan fails; it keeps its zero
        catalog := catalog + [0];
        return Some(BadNumber);
      }
      catalog := catalog + [number.value];
      return None;
    }

    // -------------------------------------------------------------------------------------
    // mcdRaw_read_header (mcdRaw.c:132-171)

    /** One header line as mcdRaw_read_header sees it: fgets stores the line and a NUL in
        the line buffer, and removeCRLF blanks its line ending. */
    static method ReadLine(raw: string) returns (text: string)
      ensures text == Line(raw) && NoNul(text)
    {
      var line := new char[|raw| + 1](j requires 0 <= j <= |raw| => if j < |raw| then raw[j] else '\0');
      assert line[..] == raw + ['\0'];
      RemoveCRLF(line);
      BlankCRLFText(raw + ['\0']);
      CStrOfTerminated(raw);
      text := CStr(line[..]);
      CStrNoNul(line[..]);
    }

    /** Reads the eight header lines (each as fgets returns it), removes the line ending of
        each and checks lines 0, 3, 6 and 7, recording the sample rate and the channel
        catalog. */
    method ReadHeader(lines: seq<string>) returns (error: Option<HeaderError>)
      requires Valid()
      modifies this`sampleRate, this`catalog
      ensures Valid()
      ensures var r := ParseFrom(lines, 0, old(sampleRate), old(catalog));
        && (r.Success? ==> error == None && sampleRate == r.value.rate && catalog == r.value.channels)
        && (r.Failure? ==> error == Some(r.error))
    {
      ghost var start := ParseFrom(lines, 0, sampleRate, catalog);
      for i := 0 to NumHeaderLines
        invariant Valid()
        invariant start == ParseFrom(lines, i, sampleRate, catalog)
      {
        error := HeaderLine(lines, i);
        if error.Some? {
          return;
        }
      }
      return None;
    }

    /** One pass of the loop of mcdRaw_read_header: line `i` is read and checked, and may
        set the sample rate or extend the catalog; a missing line is an error. */
    method HeaderLine(lines: seq<string>, i: nat) returns (error: Option<HeaderError>)
      requires Valid() && i < NumHeaderLines
      modifies this`sampleRate, this`catalog
      ensures Valid()
      ensures error.None? ==>
        ParseFrom(lines, i, old(sampleRate), old(catalog)) == ParseFrom(lines, i + 1, sampleRate, catalog)
      ensures error.Some? ==> ParseFrom(lines, i, old(sampleRate), old(catalog)) == Failure(error.value)
    {
      if i >= |lines| {
        return Some(Truncated(i));
      }
      ParseFromStep(lines, i, sampleRate, catalog, LineStep(i, Line(lines[i]), sampleRate, catalog));
      error := CheckLine(i, lines[i]);
    }

    /** Header line 3: "Sample rate = " and the rate. */
    method ReadSampleRate(text: string) returns (error: Option<HeaderError>)
      modifies this`sampleRate
      ensures error.None? ==>
        LineStep(3, text, old(sampleRate), catalog) == Success(Header(sampleRate, catalog))
      ensures error.Some? ==> LineStep(3, text, old(sampleRate), catalog) == Failure(error.value)
    {
      if !HasPrefix(text, SampleRateVar) {
        return Some(MissingSampleRate);
      }
      var rate := ScanInt(text[|SampleRateVar|..]);
      if rate.None? {
        return Some(BadSampleRate);
      }
      sampleRate := rate.value;
      error := None;
    }

    /** Header line 6: "Streams = " and the channel list, decoded into the catalog. */
    method ReadStreams(text: string) returns (error: Option<HeaderError>)
      requires Valid() && NoNul(text)
      modifies this`catalog
      ensures Valid()
      ensures error.None? ==>
        LineStep(6, text, sampleRate, old(catalog)) == Success(Header(sampleRate, catalog))
      ensures error.Some? ==> LineStep(6, text, sampleRate, old(catalog)) == Failure(error.value)
    {
      if !HasPrefix(text, StreamsVar) {
        return Some(MissingStreams);
      }
      error := None;
      var e := DecodeChannels(text[|StreamsVar|..]);
      if e.Some? {
        error := Some(ChannelList(e.value));
      }
    }

    /** Checks line `i`, read from `raw`, as LineStep does. */
    method CheckLine(i: nat, raw: string) returns (error: Option<HeaderError>)
      requires Valid() && i < NumHeaderLines
      modifies this`sampleRate, this`catalog
      ensures Valid()
      ensures error.None? ==>
        LineStep(i, Line(raw), old(sampleRate), old(catalog)) == Success(Header(sampleRate, catalog))
      ensures error.Some? ==>
        LineStep(i, Line(raw), old(sampleRate), old(catalog)) == Failure(error.value)
    {
      error := None;
      var text := ReadLine(raw);
      if i == 0 {
        if text != HeaderId {
          error := Some(BadHeaderId);
        }
      } else if i == 3 {
        error := ReadSampleRate(text);
      } else if i == 6 {
        error := ReadStreams(text);
      } else if i == 7 {
        if text != HeaderEnd {
          error := Some(BadHeaderEnd);
        }
      }
    }

    // -------------------------------------------------------------------------------------
    // The catalog searches and the registry (mcdRaw.c:177-235)

    /** indexForChannel: a linear search for the first catalog entry equal to `channel`. */
    method IndexForChannel(channel: int) returns (r: int)
      ensures r == IndexFor(catalog, channel)
    {
      for i := 0 to |catalog|
        invariant forall j :: 0 <= j < i ==> catalog[j] != channel
      {
        if channel == catalog[i] {
          return i;
        }
      }
      return -1;
    }

    /** mcdRaw_contains_channel */
    method ContainsChannel(channel: int) returns (b: bool)
      ensures b <==> channel in catalog
    {
      for i := 0 to |catalog|
        invariant forall j :: 0 <= j < i ==> catalog[j] != channel
      {
        if channel == catalog[i] {
          return true;
        }
      }
      return false;
    }

    /** mcdRaw_register_extract_channel: appends the first catalog position of `channel`,
        when there is one, to the registry. */
    method RegisterExtractChannel(channel: int)
      requires Valid() && |registry| < MaxChannels
      modifies this`registry
      ensures Valid()
      ensures registry == old(registry) +
        (if channel in catalog then [IndexFor(catalog, channel) as nat] else [])
    {
      var index := IndexForChannel(channel);
      if index >= 0 {
        registry := registry + [index];
      }
    }

    /** mcdRaw_register_extract_all_channels: registers every catalog channel, in catalog
        order. */
    method RegisterExtractAllChannels()
      requires Valid() && |registry| + |catalog| <= MaxChannels
      modifies this`registry
      ensures Valid()
      ensures registry == old(registry) + AllIndexes(catalog)
    {
      for i := 0 to |catalog|
        invariant Valid()
        invariant registry == old(registry) + AllIndexes(catalog)[..i]
      {
        RegisterExtractChannel(catalog[i]);
        assert AllIndexes(catalog)[..i + 1] == AllIndexes(catalog)[..i] + [AllIndexes(catalog)[i]];
      }
    }

    // -------------------------------------------------------------------------------------
    // The sample buffers (mcdRaw.c:241-248)

    /** The first `count` samples of the buffer of registry position `k`. */
    function Row(k: nat, count: nat): (r: seq<Sample>)
      requires k < buffer.Length0 && count <= buffer.Length1
      reads buffer
      ensures |r| == count && forall j :: 0 <= j < count ==> r[j] == buffer[k, j]
    {
      seq(count, j requires 0 <= j < count reads buffer => buffer[k, j])
    }

    /** The first `count` samples of every registered buffer row. */
    ghost function Rows(count: nat): (rows: seq<seq<Sample>>)
      requires Valid() && count <= capacity
      reads this, buffer
      ensures |rows| == |registry| && forall k :: 0 <= k < |registry| ==> rows[k] == Row(k, count)
    {
      seq(|registry|, k requires 0 <= k < |registry| && k < buffer.Length0 && count <= buffer.Length1
                      reads this, buffer => Row(k, count))
    }

    /** writeSampleBuffer: stores the (amplified) sample of every registered channel of one
        frame at offset `sampleCount` of that channel's buffer. */
    method WriteSampleBuffer(frame: seq<Sample>, sampleCount: nat, amp: AmpFactor)
      requires Valid() && |frame| == |catalog| && sampleCount < capacity
      modifies buffer
      ensures forall k, j :: 0 <= k < MaxChannels && 0 <= j < capacity ==>
        buffer[k, j] == if k < |registry| && j == sampleCount
                        then Amplify(amp, frame[registry[k]]) else old(buffer[k, j])
      ensures forall k :: 0 <= k < |registry| ==>
        Row(k, sampleCount + 1) == old(Row(k, sampleCount)) + [Amplify(amp, frame[registry[k]])]
    {
      for i := 0 to |registry|
        invariant forall k, j :: 0 <= k < MaxChannels && 0 <= j < capacity ==>
          buffer[k, j] == if k < i && j == sampleCount
                          then Amplify(amp, frame[registry[k]]) else old(buffer[k, j])
      {
        if amp.One? {
          buffer[i, sampleCount] := frame[registry[i]];
        } else {
          buffer[i, sampleCount] := amp.apply(frame[registry[i]]);
        }
      }
      forall k | 0 <= k < |registry|
        ensures Row(k, sampleCount + 1) == old(Row(k, sampleCount)) + [Amplify(amp, frame[registry[k]])]
      {
        assert forall j :: 0 <= j < sampleCount ==> buffer[k, j] == old(buffer[k, j]);
      }
    }

    // -------------------------------------------------------------------------------------
    // The output files (mcdRaw.c:281-378)

    /** writeWaveHeader: measures the open file of registry position `k` and rewrites its
        first 44 bytes with the header for that size. */
    static method WriteWaveHeader(fs: FileStore, k: nat, rate: int) returns (failed: bool)
      requires k in fs.files
      modifies fs
      ensures k in fs.files && fs.files == old(fs.files)[k := fs.files[k]]
      ensures !failed ==> fs.files[k] == Overwrite(old(fs.files)[k], WaveHeader(|old(fs.files)[k]|, rate))
      ensures KeepsData(old(fs.files)[k], fs.files[k])
    {
      var ok, fileSize := fs.SeekEnd(k);
      if !ok {
        return true;
      }
      var header := WaveHeader(fileSize, rate);
      var written := fs.WriteAtStart(k, header);
      OverwriteKeepsData(old(fs.files)[k], header[..written]);
      if written != |header| {
        return true;
      }
      assert header[..written] == header;
      return false;
    }

    /** flushSampleBuffers: writes the first `count` samples of every registered channel's
        buffer to that channel's file, or, with `finalize`, writes each file's header. The
        first call creates the files and reserves their header slot with the 44 bytes
        `junk`; a completed call clears `first`. */
    method FlushSampleBuffers(count: nat, finalize: bool, junk: seq<byte>, fs: FileStore)
      returns (failed: bool)
      requires Valid() && count <= capacity && |junk| == HeaderSize
      modifies this`first, fs
      ensures UntouchedFrom(old(fs.files), fs.files, |registry|)
      ensures failed ==> first == old(first)
      ensures !failed ==> !first
      ensures !failed ==> forall k :: 0 <= k < |registry| ==>
        (k in fs.files &&
         Flushed(Lookup(old(fs.files), k), fs.files[k], old(first), finalize, junk, Row(k, count), outputRate))
      ensures forall k :: 0 <= k < |registry| ==>
        Outcome(Lookup(old(fs.files), k), Lookup(fs.files, k), old(first), finalize, junk, Row(k, count))
    {
      ghost var rows := Rows(count);
      for i := 0 to |registry|
        invariant first == old(first)
        invariant UntouchedFrom(old(fs.files), fs.files, i)
        invariant forall k :: 0 <= k < i ==>
          (k in fs.files && Flushed(Lookup(old(fs.files), k), fs.files[k], first, finalize, junk, rows[k], outputRate))
      {
        assert Lookup(old(fs.files), i) == Lookup(fs.files, i);
        ghost var mid := fs.files;
        failed := FlushFile(fs, i, Row(i, count), first, finalize, junk, outputRate);
        FlushStep(old(fs.files), mid, fs.files, i, rows, first, finalize, junk, outputRate, failed);
        if failed {
          StoppedOutcome(old(fs.files), fs.files, i, rows, first, finalize, junk, outputRate);
          return;
        }
      }
      StoppedOutcome(old(fs.files), fs.files, |registry|, rows, first, finalize, junk, outputRate);
      first := false;
      return false;
    }

    /** One more file flushed by flushSampleBuffers leaves the earlier ones as they were. */
    static lemma FlushStep(before: map<nat, seq<byte>>, mid: map<nat, seq<byte>>, files: map<nat, seq<byte>>,
                           i: nat, rows: seq<seq<Sample>>, first: bool, finalize: bool, junk: seq<byte>,
                           rate: int, failed: bool)
      requires i < |rows|
      requires UntouchedFrom(before, mid, i)
      requires forall k :: 0 <= k < i ==>
        (k in mid && Flushed(Lookup(before, k), mid[k], first, finalize, junk, rows[k], rate))
      requires files == mid || (i in files && files == mid[i := files[i]])
      requires Lookup(mid, i) == Lookup(before, i)
      requires !failed ==> (i in files && Flushed(Lookup(mid, i), files[i], first, finalize, junk, rows[i], rate))
      ensures UntouchedFrom(before, files, i + 1)
      ensures forall k :: 0 <= k < i ==>
        (k in files && Flushed(Lookup(before, k), files[k], first, finalize, junk, rows[k], rate))
      ensures !failed ==> forall k :: 0 <= k < i + 1 ==>
        (k in files && Flushed(Lookup(before, k), files[k], first, finalize, junk, rows[k], rate))
    {
    }

    /** The outcome of a flushSampleBuffers that has completed the files before position
        `i` and stopped at `i`, or ran to the end when `i` is the registry's length. */
    static lemma StoppedOutcome(before: map<nat, seq<byte>>, files: map<nat, seq<byte>>, i: nat,
                                rows: seq<seq<Sample>>, first: bool, finalize: bool, junk: seq<byte>, rate: int)
      requires i <= |rows|
      requires forall k :: 0 <= k < i ==>
        (k in files && Flushed(Lookup(before, k), files[k], first, finalize, junk, rows[k], rate))
      requires i < |rows| ==> Outcome(Lookup(before, i), Lookup(files, i), first, finalize, junk, rows[i])
      requires UntouchedFrom(before, files, i + 1)
      ensures forall k :: 0 <= k < |rows| ==>
        Outcome(Lookup(before, k), Lookup(files, k), first, finalize, junk, rows[k])
    {
      forall k | 0 <= k < |rows|
        ensures Outcome(Lookup(before, k), Lookup(files, k), first, finalize, junk, rows[k])
      {
        if k < i {
          FlushedOutcome(Lookup(before, k), files[k], first, finalize, junk, rows[k], rate);
        } else if k > i {
          assert Lookup(before, k) == Lookup(files, k);
        }
      }
    }

    /** One pass of the loop of flushSampleBuffers: the file of registry position `i`. */
    static method FlushFile(fs: FileStore, i: nat, samples: seq<Sample>, first: bool, finalize: bool,
                            junk: seq<byte>, rate: int)
      returns (failed: bool)
      requires |junk| == HeaderSize
      modifies fs
      ensures fs.files == old(fs.files) || (i in fs.files && fs.files == old(fs.files)[i := fs.files[i]])
      ensures !failed ==>
        (i in fs.files && Flushed(Lookup(old(fs.files), i), fs.files[i], first, finalize, junk, samples, rate))
      ensures Outcome(Lookup(old(fs.files), i), Lookup(fs.files, i), first, finalize, junk, samples)
    {
      var mode := if first then Truncate else if finalize then Update else Append;
      var ok := fs.Open(i, mode);
      if !ok {
        return true;
      }
      // what this flush writes after the file's current contents
      ghost var base := if first then junk else Contents(Lookup(old(fs.files), i));
      assert fs.files[i] == if first then [] else base;
      if first {
        var written := fs.Write(i, junk);
        assert junk[..written] <= base + EncodeSamples(samples);
        if written != |junk| {
          return true;
        }
        assert junk[..written] == junk;
      }
      if finalize {
        failed := WriteWaveHeader(fs, i, rate);
        if failed {
          return;
        }
      } else {
        var chunk := EncodeSamples(samples);
        var written := fs.Write(i, chunk);
        assert fs.files[i] == base + chunk[..written];
        assert base + chunk[..written] <= base + chunk;
        if written != |chunk| {
          return true;
        }
        assert chunk[..written] == chunk;
      }
      return false;
    }

    // -------------------------------------------------------------------------------------
    // mcdRaw_extract (mcdRaw.c:384-443)

    /** Every buffer row of `reg` holds the samples of its channel over `frames`, frames of
        `c` samples each. */
    ghost predicate Buffered(reg: seq<nat>, c: nat, frames: seq<seq<Sample>>, amp: AmpFactor)
      reads buffer
    {
      && buffer.Length0 == MaxChannels && |frames| <= buffer.Length1
      && Fits(reg, c) && FrameShaped(frames, c)
      && forall k :: 0 <= k < |reg| ==> Row(k, |frames|) == Channel(frames, reg[k], amp)
    }

    /** Empty buffers hold no frames. */
    lemma BufferedEmpty(amp: AmpFactor)
      requires Valid()
      ensures Buffered(registry, |catalog|, [], amp)
    {
      forall k | 0 <= k < |registry|
        ensures Row(k, 0) == Channel([], registry[k], amp)
      {
      }
    }

    /** mcdRaw_extract: reads the frames of `input`, the recording after its header, through
        the channel buffers into one file per registry position, then finalizes every
        file's header. Reports the number of complete frames and whether a partial frame was
        left over. */
    method Extract(input: seq<Sample>, amp: AmpFactor, speed: SpeedFactor, junk: seq<byte>, fs: FileStore)
      returns (failed: bool, total: nat, truncated: bool)
      requires Valid() && first && |catalog| >= 1 && |junk| == HeaderSize
      modifies this, buffer, fs
      ensures Valid()
      ensures catalog == old(catalog) && registry == old(registry) && sampleRate == old(sampleRate)
      ensures outputRate == OutputRate(sampleRate, speed)
      ensures UntouchedFrom(old(fs.files), fs.files, |registry|)
      ensures !failed ==> !first
      ensures failed ==>
        Interrupted(old(fs.files), fs.files, registry, |catalog|, Frames(input, |catalog|), amp, junk) ||
        (!first && Holding(fs.files, registry, |catalog|, Frames(input, |catalog|), amp))
      ensures !failed ==> total == |Frames(input, |catalog|)|
      ensures !failed ==> (truncated <==> Remainder(input, |catalog|) != [])
      ensures !failed ==> forall k :: 0 <= k < |registry| ==>
        (k in fs.files &&
         fs.files[k] == WaveFile(outputRate, Channel(Frames(input, |catalog|), registry[k], amp)))
    {
      if speed.One? {
        outputRate := sampleRate;
      } else {
        outputRate := speed.apply(sampleRate);
      }
      var n;
      failed, total, n := Demux(input, amp, junk, fs);
      truncated := false;
      if failed {
        return;
      }
      // n != 0: "End of file reached prematurely", reported without failing
      truncated := n != 0;
      SpooledHolding(fs.files, registry, |catalog|, Frames(input, |catalog|), amp, junk);
      failed := Finalize(junk, fs, Frames(input, |catalog|), amp);
    }

    /** The last flushSampleBuffers of mcdRaw_extract, with no samples and the finalize flag:
        every file that held its channel over `frames` becomes the WAVE file of it. */
    method Finalize(junk: seq<byte>, fs: FileStore, ghost frames: seq<seq<Sample>>, ghost amp: AmpFactor)
      returns (failed: bool)
      requires Valid() && !first && |junk| == HeaderSize
      requires Holding(fs.files, registry, |catalog|, frames, amp)
      modifies this`first, fs
      ensures UntouchedFrom(old(fs.files), fs.files, |registry|)
      ensures !first
      ensures Holding(fs.files, registry, |catalog|, frames, amp)
      ensures !failed ==> forall k :: 0 <= k < |registry| ==>
        (k in fs.files && fs.files[k] == WaveFile(outputRate, Channel(frames, registry[k], amp)))
    {
      ghost var before := fs.files;
      failed := FlushSampleBuffers(0, true, junk, fs);
      forall k | 0 <= k < |registry|
        ensures k in fs.files && Holds(fs.files[k], Channel(frames, registry[k], amp))
      {
        assert Lookup(before, k) == Some(before[k]) && |before[k]| >= HeaderSize;
        assert Outcome(Lookup(before, k), Lookup(fs.files, k), false, true, junk, Row(k, 0));
      }
      if !failed {
        forall k | 0 <= k < |registry|
          ensures k in fs.files && fs.files[k] == WaveFile(outputRate, Channel(frames, registry[k], amp))
        {
          FinalHeader(before[k], Channel(frames, registry[k], amp), outputRate);
        }
      }
    }

    /** A non-final flush of the buffered frames `pending`, `all` being every frame of the
        input: every file that held the placeholder and the frames `flushed` then holds
        `flushed + pending`; if the flush fails, every file is as it was before the first
        flush (`orig`) or holds a prefix of what the complete read loop writes. */
    method FlushPending(count: nat, junk: seq<byte>, fs: FileStore, ghost orig: map<nat, seq<byte>>,
                        ghost flushed: seq<seq<Sample>>, ghost pending: seq<seq<Sample>>,
                        ghost all: seq<seq<Sample>>, ghost amp: AmpFactor)
      returns (failed: bool)
      requires Valid() && |junk| == HeaderSize && count == |pending|
      requires Buffered(registry, |catalog|, pending, amp)
      requires FrameShaped(all, |catalog|) && flushed + pending <= all
      requires first ==> flushed == [] && fs.files == orig
      requires !first ==> Spooled(fs.files, registry, |catalog|, flushed, amp, junk)
      modifies this`first, fs
      ensures UntouchedFrom(old(fs.files), fs.files, |registry|)
      ensures !failed ==> !first && Spooled(fs.files, registry, |catalog|, flushed + pending, amp, junk)
      ensures failed ==> Interrupted(orig, fs.files, registry, |catalog|, all, amp, junk)
    {
      ghost var before := fs.files;
      ghost var wasFirst := first;
      failed := FlushSampleBuffers(count, false, junk, fs);
      if !failed {
        assert FrameShaped(flushed + pending, |catalog|) by {
          assert forall j :: 0 <= j < |flushed + pending| ==> (flushed + pending)[j] == all[j];
        }
        forall k | 0 <= k < |registry|
          ensures k in fs.files &&
            fs.files[k] == junk + EncodeSamples(Channel(flushed + pending, registry[k], amp))
        {
          FlushSpools(Lookup(before, k), fs.files[k], flushed, pending, registry[k], amp, wasFirst, junk,
                      outputRate);
        }
      } else {
        assert FrameShaped(flushed, |catalog|);
        forall k | 0 <= k < |registry|
          ensures Lookup(fs.files, k) == Lookup(orig, k) ||
            (k in fs.files && fs.files[k] <= junk + EncodeSamples(Channel(all, registry[k], amp)))
        {
          AppendedPrefix(Lookup(before, k), Lookup(fs.files, k), Lookup(orig, k), flushed, pending, all,
                         registry[k], amp, wasFirst, junk);
        }
      }
    }

    /** Storing one more frame keeps the buffer rows holding the buffered frames. */
    method StoreFrame(frame: seq<Sample>, sampleCount: nat, ghost pending: seq<seq<Sample>>, amp: AmpFactor)
      requires Valid() && |frame| == |catalog| && sampleCount == |pending| < capacity
      requires Buffered(registry, |catalog|, pending, amp)
      modifies buffer
      ensures Buffered(registry, |catalog|, pending + [frame], amp)
    {
      WriteSampleBuffer(frame, sampleCount, amp);
      forall k | 0 <= k < |registry|
        ensures Row(k, |pending| + 1) == Channel(pending + [frame], registry[k], amp)
      {
        ChannelAppend(pending, [frame], registry[k], amp);
      }
    }

    /** The fread of one frame at `pos` and, when it is complete, its store in the buffers:
        `n` samples are read, fewer than a frame only at the end of the input. */
    method ReadFrame(input: seq<Sample>, pos: nat, sampleCount: nat, amp: AmpFactor,
                     ghost reg: seq<nat>, ghost flushed: seq<seq<Sample>>, ghost pending: seq<seq<Sample>>)
      returns (n: nat, failedRead: bool, ghost pending': seq<seq<Sample>>)
      requires Valid() && reg == registry && sampleCount == |pending| < capacity
      requires Buffered(reg, |catalog|, pending, amp) && Reading(input, |catalog|, pos, flushed, pending)
      modifies buffer
      ensures pos + n <= |input| && (failedRead <==> n != |catalog|)
      ensures Buffered(reg, |catalog|, pending', amp)
      ensures !failedRead ==> pending' == pending + [input[pos..pos + n]]
      ensures !failedRead ==> Reading(input, |catalog|, pos + n, flushed, pending')
      ensures failedRead ==> pending' == pending && Drained(input, |catalog|, flushed + pending, n)
    {
      var c := |catalog|;
      n := if |input| - pos < c then |input| - pos else c;
      failedRead := n != c;
      pending' := pending;
      if failedRead {
        ReadShort(input, c, pos, flushed, pending);
      } else {
        var frame := input[pos..pos + n];
        ReadFull(input, c, pos, flushed, pending);
        StoreFrame(frame, sampleCount, pending, amp);
        pending' := pending + [frame];
      }
    }

    /** The read loop of mcdRaw_extract: one fread of a frame per pass, stored in the
        buffers, which are flushed when full and once more after the first short read.
        Returns the frame count and the size `n` of the short read. */
    method Demux(input: seq<Sample>, amp: AmpFactor, junk: seq<byte>, fs: FileStore)
      returns (failed: bool, total: nat, n: nat)
      requires Valid() && first && |catalog| >= 1 && |junk| == HeaderSize
      modifies this`first, buffer, fs
      ensures UntouchedFrom(old(fs.files), fs.files, |registry|)
      ensures !failed ==> !first && total == |Frames(input, |catalog|)|
      ensures !failed ==> (n != 0 <==> Remainder(input, |catalog|) != [])
      ensures !failed ==> Spooled(fs.files, registry, |catalog|, Frames(input, |catalog|), amp, junk)
      ensures failed ==>
        Interrupted(old(fs.files), fs.files, registry, |catalog|, Frames(input, |catalog|), amp, junk)
    {
      var c := |catalog|;
      ghost var reg := registry;
      var pos := 0;
      n := 0;
      var sampleCount := 0;
      total := 0;
      var failedRead := false;
      ghost var flushed: seq<seq<Sample>> := [];
      ghost var pending: seq<seq<Sample>> := [];
      BufferedEmpty(amp);
      while !failedRead
        invariant first ==> !failedRead
        invariant total == |flushed| + |pending| && sampleCount == |pending|
        invariant FrameShaped(flushed, c) && Buffered(reg, c, pending, amp)
        invariant !failedRead ==> sampleCount < capacity && Reading(input, c, pos, flushed, pending)
        invariant failedRead ==> pending == [] && Drained(input, c, flushed, n)
        invariant first ==> fs.files == old(fs.files) && flushed == []
        invariant !first ==> Spooled(fs.files, reg, c, flushed, amp, junk)
        invariant UntouchedFrom(old(fs.files), fs.files, |reg|)
        decreases |input| - pos + (if failedRead then 0 else 1)
      {
        // fread of one frame: `n` samples, fewer than c at the end of the input
        n, failedRead, pending := ReadFrame(input, pos, sampleCount, amp, reg, flushed, pending);
        pos := pos + n;
        if !failedRead {
          sampleCount := sampleCount + 1;
          total := total + 1;
        }
        if failedRead || sampleCount >= capacity {
          ghost var before := fs.files;
          assert flushed + pending <= Frames(input, c) by {
            if failedRead {
              assert Frames(input, c) == flushed + pending;
            } else {
              assert Frames(input, c) == flushed + pending + Frames(input[pos..], c);
            }
          }
          var e := FlushPending(sampleCount, junk, fs, old(fs.files), flushed, pending, Frames(input, c), amp);
          if e {
            return true, total, n;
          }
          if !failedRead {
            ReadingFlushed(input, c, pos, flushed, pending);
          }
          flushed := flushed + pending;
          pending := [];
          sampleCount := 0;
          BufferedEmpty(amp);
        }
      }
      return false, total, n;
    }
  }

  // ---------------------------------------------------------------------------------------
  // Proof steps of Extract

  /** The read loop after the samples before `pos`: the frames `flushed` went to the
      files, `pending` sit in the buffers and the frames of input[pos..] are still to come. */
  ghost predicate Reading(input: seq<Sample>, c: nat, pos: nat, flushed: seq<seq<Sample>>,
                          pending: seq<seq<Sample>>)
  {
    && c >= 1 && pos <= |input|
    && Frames(input, c) == flushed + pending + Frames(input[pos..], c)
    && Remainder(input, c) == Remainder(input[pos..], c)
  }

  /** A flush moves the buffered frames to the flushed ones. */
  lemma ReadingFlushed(input: seq<Sample>, c: nat, pos: nat, flushed: seq<seq<Sample>>,
                       pending: seq<seq<Sample>>)
    requires Reading(input, c, pos, flushed, pending)
    ensures Reading(input, c, pos, flushed + pending, [])
  {
    assert flushed + pending + [] == flushed + pending;
  }

  /** The read loop after the short read of `n` samples: every frame went to the files. */
  ghost predicate Drained(input: seq<Sample>, c: nat, flushed: seq<seq<Sample>>, n: nat)
  {
    c >= 1 && Frames(input, c) == flushed && (n != 0 <==> Remainder(input, c) != [])
  }

  /** A complete frame at `pos` joins the buffered frames. */
  lemma ReadFull(input: seq<Sample>, c: nat, pos: nat, flushed: seq<seq<Sample>>,
                 pending: seq<seq<Sample>>)
    requires pos + c <= |input| && Reading(input, c, pos, flushed, pending)
    ensures Reading(input, c, pos + c, flushed, pending + [input[pos..pos + c]])
  {
    var frame := input[pos..pos + c];
    var rest := Frames(input[pos + c..], c);
    assert input[pos..][..c] == frame;
    assert input[pos..][c..] == input[pos + c..];
    assert Frames(input[pos..], c) == [frame] + rest;
    assert flushed + pending + ([frame] + rest) == flushed + (pending + [frame]) + rest;
  }

  /** Fewer than c samples from `pos` on: the buffered frames are the last ones and those
      samples are the remainder. */
  lemma ReadShort(input: seq<Sample>, c: nat, pos: nat, flushed: seq<seq<Sample>>,
                  pending: seq<seq<Sample>>)
    requires |input| - pos < c && Reading(input, c, pos, flushed, pending)
    ensures Drained(input, c, flushed + pending, |input| - pos)
  {
    assert Frames(input[pos..], c) == [];
    assert flushed + pending + [] == flushed + pending;
  }

  lemma {:induction false} ChannelAppend(a: seq<seq<Sample>>, b: seq<seq<Sample>>, column: nat, amp: AmpFactor)
    requires forall j :: 0 <= j < |a| ==> column < |a[j]|
    requires forall j :: 0 <= j < |b| ==> column < |b[j]|
    ensures Channel(a + b, column, amp) == Channel(a, column, amp) + Channel(b, column, amp)
  {
    var ab := a + b;
    assert forall j :: 0 <= j < |ab| ==> column < |ab[j]| by {
      forall j | 0 <= j < |ab| ensures column < |ab[j]| {
        if j >= |a| { assert ab[j] == b[j - |a|]; }
      }
    }
  }

  /** A completed flush of the buffered frames `pending` leaves a file that held the
      placeholder and the samples of the frames `flushed` holding those of both. */
  lemma FlushSpools(prior: Option<seq<byte>>, file: seq<byte>, flushed: seq<seq<Sample>>,
                    pending: seq<seq<Sample>>, column: nat, amp: AmpFactor, first: bool,
                    junk: seq<byte>, rate: int)
    requires forall j :: 0 <= j < |flushed| ==> column < |flushed[j]|
    requires forall j :: 0 <= j < |pending| ==> column < |pending[j]|
    requires first ==> flushed == []
    requires !first ==> prior == Some(junk + EncodeSamples(Channel(flushed, column, amp)))
    requires Flushed(prior, file, first, false, junk, Channel(pending, column, amp), rate)
    ensures file == junk + EncodeSamples(Channel(flushed + pending, column, amp))
  {
    var chunk := Channel(pending, column, amp);
    if first {
      assert flushed + pending == pending;
    } else {
      ChannelAppend(flushed, pending, column, amp);
      EncodeSamplesAppend(Channel(flushed, column, amp), chunk);
    }
  }

  /** The samples of a channel over the first frames are a prefix of those over all. */
  lemma ChannelPrefix(a: seq<seq<Sample>>, all: seq<seq<Sample>>, column: nat, amp: AmpFactor)
    requires a <= all && forall j :: 0 <= j < |all| ==> column < |all[j]|
    ensures forall j :: 0 <= j < |a| ==> column < |a[j]|
    ensures Channel(a, column, amp) <= Channel(all, column, amp)
  {
    assert forall j :: 0 <= j < |a| ==> a[j] == all[j];
    var x, y := Channel(a, column, amp), Channel(all, column, amp);
    assert x == y[..|x|];
  }

  /** A placeholder and fewer samples are a prefix of the placeholder and more. */
  lemma SpoolPrefix(junk: seq<byte>, xs: seq<Sample>, ys: seq<Sample>)
    requires xs <= ys
    ensures junk + EncodeSamples(xs) <= junk + EncodeSamples(ys)
  {
    assert ys == xs + ys[|xs|..];
    EncodeSamplesAppend(xs, ys[|xs|..]);
    assert junk + EncodeSamples(ys) == (junk + EncodeSamples(xs)) + EncodeSamples(ys[|xs|..]);
  }

  /** Prefixes of prefixes. */
  lemma PrefixTrans(a: seq<byte>, b: seq<byte>, c: seq<byte>)
    requires a <= b && b <= c
    ensures a <= c
  {
    assert a == c[..|a|] by {
      assert b == c[..|b|];
      assert a == b[..|a|];
    }
  }

  /** What any flush without `finalize`, complete or not, leaves in a file during the read
      loop: the file as it was before the first flush, or a prefix of the placeholder followed
      by the channel's samples over all the frames `all` of the input. */
  lemma AppendedPrefix(prior: Option<seq<byte>>, file: Option<seq<byte>>, orig: Option<seq<byte>>,
                       flushed: seq<seq<Sample>>, pending: seq<seq<Sample>>, all: seq<seq<Sample>>,
                       column: nat, amp: AmpFactor, first: bool, junk: seq<byte>)
    requires forall j :: 0 <= j < |all| ==> column < |all[j]|
    requires forall j :: 0 <= j < |flushed| ==> column < |flushed[j]|
    requires forall j :: 0 <= j < |pending| ==> column < |pending[j]|
    requires flushed + pending <= all
    requires first ==> flushed == [] && prior == orig
    requires !first ==> prior == Some(junk + EncodeSamples(Channel(flushed, column, amp)))
    requires Appended(prior, file, first, junk, Channel(pending, column, amp))
    ensures file == orig || (file.Some? && file.value <= junk + EncodeSamples(Channel(all, column, amp)))
  {
    var whole := junk + EncodeSamples(Channel(all, column, amp));
    ChannelPrefix(flushed + pending, all, column, amp);
    var both := Channel(flushed + pending, column, amp);
    SpoolPrefix(junk, both, Channel(all, column, amp));
    assert flushed <= flushed + pending;
    if first {
      assert flushed + pending == pending;
      if file != orig {
        PrefixTrans(file.value, junk + EncodeSamples(both), whole);
      }
    } else {
      ChannelPrefix(flushed, flushed + pending, column, amp);
      ChannelAppend(flushed, pending, column, amp);
      EncodeSamplesAppend(Channel(flushed, column, amp), Channel(pending, column, amp));
      var spooled := junk + EncodeSamples(both);
      assert prior.value + EncodeSamples(Channel(pending, column, amp)) == spooled;
      assert prior.value <= spooled;
      PrefixTrans(prior.value, spooled, whole);
      if file != prior {
        PrefixTrans(file.value, spooled, whole);
      }
    }
  }

  /** Every output file of `reg` holds, after its header slot, the samples of its channel
      over `frames`. */
  ghost predicate Holding(files: map<nat, seq<byte>>, reg: seq<nat>, c: nat, frames: seq<seq<Sample>>,
                          amp: AmpFactor)
  {
    && Fits(reg, c) && FrameShaped(frames, c)
    && forall k :: 0 <= k < |reg| ==> k in files && Holds(files[k], Channel(frames, reg[k], amp))
  }

  /** Every output file of `reg` is the placeholder followed by the samples of its channel
      over `frames`: what the flushes of the read loop have written. */
  ghost predicate Spooled(files: map<nat, seq<byte>>, reg: seq<nat>, c: nat, frames: seq<seq<Sample>>,
                          amp: AmpFactor, junk: seq<byte>)
  {
    && Fits(reg, c) && FrameShaped(frames, c)
    && forall k :: 0 <= k < |reg| ==>
         k in files && files[k] == junk + EncodeSamples(Channel(frames, reg[k], amp))
  }

  /** The read loop stopped by a failed flush: every output file of `reg` is as it was
      before the first flush, or holds a prefix of the placeholder followed by its channel's
      samples over `frames`. No header has been written. */
  ghost predicate Interrupted(before: map<nat, seq<byte>>, files: map<nat, seq<byte>>, reg: seq<nat>,
                              c: nat, frames: seq<seq<Sample>>, amp: AmpFactor, junk: seq<byte>)
  {
    && Fits(reg, c) && FrameShaped(frames, c)
    && forall k :: 0 <= k < |reg| ==>
         Lookup(files, k) == Lookup(before, k) ||
         (k in files && files[k] <= junk + EncodeSamples(Channel(frames, reg[k], amp)))
  }

  /** Spooled files hold their samples after a 44-byte slot. */
  lemma SpooledHolding(files: map<nat, seq<byte>>, reg: seq<nat>, c: nat, frames: seq<seq<Sample>>,
                       amp: AmpFactor, junk: seq<byte>)
    requires Spooled(files, reg, c, frames, amp, junk) && |junk| == HeaderSize
    ensures Holding(files, reg, c, frames, amp)
  {
    forall k | 0 <= k < |reg|
      ensures Holds(files[k], Channel(frames, reg[k], amp))
    {
      var e := EncodeSamples(Channel(frames, reg[k], amp));
      assert (junk + e)[HeaderSize..] == e;
    }
  }

  /** Writing at most a header's worth of bytes at offset 0 keeps the data after the header
      slot. */
  lemma OverwriteKeepsData(file: seq<byte>, data: seq<byte>)
    requires |data| <= HeaderSize
    ensures KeepsData(file, Overwrite(file, data))
  {
    if |file| >= HeaderSize {
      var r := Overwrite(file, data);
      assert r[HeaderSize..] == r[|data|..][HeaderSize - |data|..];
      assert file[HeaderSize..] == file[|data|..][HeaderSize - |data|..];
    }
  }

  /** Writing the header over a file that holds `xs` gives the WAVE file of `xs`. */
  lemma FinalHeader(file: seq<byte>, xs: seq<Sample>, rate: int)
    requires Holds(file, xs)
    ensures Overwrite(file, WaveHeader(|file|, rate)) == WaveFile(rate, xs)
  {
    WaveFileParts(rate, xs);
    var w := WaveFile(rate, xs);
    assert w == w[..HeaderSize] + w[HeaderSize..];
  }

  // ---------------------------------------------------------------------------------------
  // Proof steps of DecodeChannels

  /** The loop state of decode_channels after the first p characters of `s`: the tokens
      `closed` ended by a ';' decoded without error to `acc`, and `open` is the token being
      collected, shorter than MAX_CS_STR. */
  ghost predicate Scanning(s: string, p: nat, closed: seq<string>, open: string, count: nat,
                           acc: seq<int>)
  {
    && p <= |s| && |open| < MaxCsStr
    && Split(s[..p]) == closed + [open]
    && DecodeTokens(closed, count) == Decoded(acc, None)
  }

  /** Tokens already closed in a prefix of `s` are tokens of `s`. */
  lemma FinishedTokens(s: string, q: nat, done: seq<string>)
    requires q <= |s| && |done| < |Split(s[..q])| && Split(s[..q])[..|done|] == done
    ensures |done| < |Split(s)| && Split(s)[..|done|] == done
  {
    assert s[..q] <= s;
    SplitExtends(s[..q], s);
    var r1, r2 := Split(s[..q]), Split(s);
    assert r2[..|done|] == r2[..|r1| - 1][..|done|];
    assert r1[..|done|] == r1[..|r1| - 1][..|done|];
  }

  /** DecodeClose in terms of the token's own decoding `d`, with `acc` the channels of the
      closed tokens. */
  lemma DecodeCloseStep(s: string, p: nat, closed: seq<string>, token: string, count: nat,
                        acc: seq<int>, d: Decoded)
    requires p <= |s| && (p < |s| ==> s[p] == ';')
    requires Split(s[..p]) == closed + [token]
    requires DecodeTokens(closed, count) == Decoded(acc, None)
    requires d == DecodeToken(token, count + |acc|)
    ensures d.error.Some? || p == |s| ==> DecodeChannels(s, count) == Decoded(acc + d.appended, d.error)
    ensures d.error.None? ==> DecodeTokens(closed + [token], count) == Decoded(acc + d.appended, None)
    ensures p < |s| ==> Split(s[..p + 1]) == closed + [token] + [[]]
  {
    DecodeClose(s, p, closed, token, count);
    DecodeTokensSnoc(closed, token, count);
    assert DecodeTokens(closed + [token], count) == Extend(Decoded(acc, None), token, count);
  }

  /** A character other than ';' extends the open token. */
  lemma SplitOpen(s: string, p: nat, closed: seq<string>, open: string)
    requires p < |s| && s[p] != ';'
    requires Split(s[..p]) == closed + [open]
    ensures Split(s[..p + 1]) == closed + [open + [s[p]]]
  {
    assert s[..p + 1] == s[..p] + [s[p]];
    SplitSnocChar(s[..p], s[p]);
  }

  /** Closing the token at position p (at a ';' or at the end of s): a failing token
      decides the decoding of all of s; a valid one extends the closed tokens, and at the
      end of s they are all of its tokens. */
  lemma DecodeClose(s: string, p: nat, closed: seq<string>, token: string, count: nat)
    requires p <= |s| && (p < |s| ==> s[p] == ';')
    requires Split(s[..p]) == closed + [token]
    requires DecodeTokens(closed, count).error.None?
    ensures DecodeTokens(closed + [token], count).error.Some? ==>
      DecodeChannels(s, count) == DecodeTokens(closed + [token], count)
    ensures p == |s| ==> DecodeChannels(s, count) == DecodeTokens(closed + [token], count)
    ensures p < |s| ==> Split(s[..p + 1]) == closed + [token] + [[]]
  {
    var done := closed + [token];
    if p < |s| {
      CloseAtSeparator(s, p, done);
      if DecodeTokens(done, count).error.Some? {
        DecodeStops(s, p + 1, done, count);
      }
    } else {
      assert s[..p] == s;
    }
  }

  /** A ';' at position p starts a new empty token after the tokens `done` of s[..p]. */
  lemma CloseAtSeparator(s: string, p: nat, done: seq<string>)
    requires p < |s| && s[p] == ';' && Split(s[..p]) == done
    ensures Split(s[..p + 1]) == done + [[]]
    ensures |done| < |Split(s[..p + 1])| && Split(s[..p + 1])[..|done|] == done
  {
    SplitSnocSeparator(s[..p]);
    assert s[..p + 1] == s[..p] + [';'];
    assert (done + [[]])[..|done|] == done;
  }

  /** A token list that failed, closed in the prefix s[..q], fixes the decoding of all of s. */
  lemma DecodeStops(s: string, q: nat, done: seq<string>, count: nat)
    requires q <= |s| && |done| <= |Split(s[..q])|
    requires q < |s| ==> |done| < |Split(s[..q])|
    requires Split(s[..q])[..|done|] == done
    requires DecodeTokens(done, count).error.Some?
    ensures DecodeChannels(s, count) == DecodeTokens(done, count)
  {
    if q < |s| {
      FinishedTokens(s, q, done);
    } else {
      assert s[..q] == s;
    }
    var r := Split(s);
    assert r == done + r[|done|..];
    DecodeTokensSticky(done, r[|done|..], count);
  }

  /** The open token of the prefix s[..q] has reached MAX_CS_STR characters: decoding all
      of s stops there with TokenTooLong. */
  lemma DecodeLongToken(s: string, q: nat, closed: seq<string>, open: string, count: nat)
    requires q <= |s|
    requires Split(s[..q]) == closed + [open] && |open| >= MaxCsStr
    requires DecodeTokens(closed, count).error.None?
    ensures DecodeChannels(s, count) ==
      Decoded(DecodeTokens(closed, count).appended, Some(TokenTooLong))
  {
    var r := Split(s);
    var m := |closed|;
    assert r[..m] == closed && |r[m]| >= MaxCsStr by {
      assert s[..q] <= s;
      SplitExtends(s[..q], s);
      var r1 := closed + [open];
      assert r1[..m] == closed && r1[m] == open;
    }
    var prev := DecodeTokens(closed, count);
    DecodeTokensFirstFailure(r, m, count, prev);
    assert prev.appended + [] == prev.appended;
  }

  /** The C string of any buffer holds no NUL. */
  lemma CStrNoNul(s: string)
    ensures NoNul(CStr(s))
  {
  }
}
