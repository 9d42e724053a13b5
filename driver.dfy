/** The command-line driver (main.c:84-134): after getopt and atof have produced the two
    factors and the operands, it checks the arguments, opens the recording, collects the
    requested channel numbers, reads the header, registers the channels and extracts. The
    exit status is a function of the command line, of whether the input file opens and of
    the header lines; the samples and the output files do not enter into it. */
module Driver {
  import opened Common
  import opened Text
  import opened HeaderFormat
  import opened Catalog
  import opened Wave
  import opened Files
  import opened McdRaw

  /** The command line after option parsing: argc, the -a and -s factors, and the operands
      argv[optind..] (the recording's file name, then the channel numbers). */
  datatype CommandLine = CommandLine(argc: nat, amp: AmpFactor, speed: SpeedFactor, operands: seq<string>)
  {
    /** usage() and exit(-1): no arguments at all, a factor that is not positive, or no
        file name. */
    predicate Usage()
    {
      argc == 1 || !amp.Positive() || !speed.Positive() || operands == []
    }

    /** The channel arguments: every operand after the file name. */
    function ChannelArgs(): seq<string>
    {
      if operands == [] then [] else operands[1..]
    }
  }

  /** The channel number an argument names: sscanf("%d") succeeds and the value lies in
      [0, MAX_CHANNELS). */
  function ChannelArg(arg: string): (r: Option<int>)
    ensures r.Some? ==> 0 <= r.value < MaxChannels
  {
    match ScanInt(arg)
    case None => None
    case Some(v) => if 0 <= v < MaxChannels then Some(v) else None
  }

  /** What the argument loop sees of each channel argument: its channel number, or None
      when it names no channel. A function of its own, with only its length stated, so
      that proofs about the loop reach an argument's scan through ScannedAt alone. */
  function Scanned(args: seq<string>): (r: seq<Option<int>>)
    ensures |r| == |args|
  {
    if args == [] then [] else Scanned(args[..|args| - 1]) + [ChannelArg(args[|args| - 1])]
  }

  lemma {:induction false} ScannedAt(args: seq<string>, i: nat)
    requires i < |args|
    ensures Scanned(args)[i] == ChannelArg(args[i])
  {
    if i < |args| - 1 {
      ScannedAt(args[..|args| - 1], i);
    }
  }

  /** The argument loop of main over the first `n` scanned arguments `nums`, one at a time:
      a MAX_CHANNELS + 1st argument exits with -1 and an argument that names no channel
      exits with -3. */
  function ParseChannels(nums: seq<Option<int>>, n: nat): Result<seq<int>, int>
    requires n <= |nums|
  {
    if n == 0 then Success([]) else NextChannel(ParseChannels(nums, n - 1), nums[n - 1])
  }

  /** One pass of the argument loop, after the arguments before `number` gave `prev`. */
  function NextChannel(prev: Result<seq<int>, int>, number: Option<int>): Result<seq<int>, int>
  {
    match prev
    case Failure(e) => Failure(e)
    case Success(channels) =>
      if |channels| >= MaxChannels then Failure(-1)
      else match number
        case None => Failure(-3)
        case Some(v) => Success(channels + [v])
  }

  /** The whole argument loop over the channel arguments `args`. */
  function Arguments(args: seq<string>): Result<seq<int>, int>
  {
    ParseChannels(Scanned(args), |args|)
  }

  /** The catalog position of each requested channel, in command-line order. */
  function Positions(channels: seq<int>, catalog: seq<int>): (r: seq<nat>)
    requires forall i :: 0 <= i < |channels| ==> channels[i] in catalog
    ensures |r| == |channels|
    ensures forall i :: 0 <= i < |r| ==> r[i] < |catalog| && catalog[r[i]] == channels[i]
  {
    seq(|channels|, i requires 0 <= i < |channels| => IndexFor(catalog, channels[i]) as nat)
  }

  /** The registry main builds: the requested channels, or every catalog channel when none
      was requested. */
  function Registration(channels: seq<int>, catalog: seq<int>): (r: seq<nat>)
    requires forall i :: 0 <= i < |channels| ==> channels[i] in catalog
    ensures Indexes(r, catalog)
  {
    if channels == [] then AllIndexes(catalog) else Positions(channels, catalog)
  }

  /** Every requested channel is in the catalog. */
  predicate AllPresent(channels: seq<int>, catalog: seq<int>)
  {
    forall i :: 0 <= i < |channels| ==> channels[i] in catalog
  }

  /** The exit status of main for the command line `cmd`, the outcome `inputOpen` of fopen
      on the recording, and the header `lines` of the recording. */
  function Verdict(cmd: CommandLine, inputOpen: bool, lines: seq<string>): int
  {
    if cmd.Usage() then -1
    else if !inputOpen then -2
    else match Arguments(cmd.ChannelArgs())
      case Failure(e) => e
      case Success(channels) =>
        match ParseHeader(lines)
        case Failure(_) => -3
        case Success(h) => if AllPresent(channels, h.channels) then 0 else -4
  }

  /** main, from the end of option parsing: `inputOpen` says whether fopen of the recording
      succeeds, `lines` are its header lines and `input` the samples after them. Returns the
      exit status, the converter state and what mcdRaw_extract returned (main ignores it). */
  method Run(cmd: CommandLine, inputOpen: bool, lines: seq<string>, input: seq<Sample>,
             junk: seq<byte>, fs: FileStore)
    returns (status: int, tool: McdRaw, failed: bool)
    requires |junk| == HeaderSize
    modifies fs
    ensures status == Verdict(cmd, inputOpen, lines)
    ensures status != 0 ==> fs.files == old(fs.files)
    ensures status != 0 && status != -4 ==> tool.registry == []
    ensures status == 0 ==> ParseHeader(lines).Success? && tool.catalog == ParseHeader(lines).value.channels
    ensures status == 0 ==>
      && Arguments(cmd.ChannelArgs()).Success?
      && AllPresent(Arguments(cmd.ChannelArgs()).value, tool.catalog)
      && tool.registry == Registration(Arguments(cmd.ChannelArgs()).value, tool.catalog)
    ensures status == 0 ==>
      && tool.sampleRate == ParseHeader(lines).value.rate
      && tool.outputRate == OutputRate(ParseHeader(lines).value.rate, cmd.speed)
    ensures tool.Valid() && tool.capacity == SampleBufferNumSamples && (status == 0 ==> |tool.catalog| >= 1)
    ensures status == 0 && !failed ==> forall k :: 0 <= k < |tool.registry| ==>
      (k in fs.files &&
       fs.files[k] == WaveFile(tool.outputRate, Channel(Frames(input, |tool.catalog|), tool.registry[k], cmd.amp)))
  {
    tool := new McdRaw(SampleBufferNumSamples);
    failed := false;
    if cmd.Usage() {
      return -1, tool, failed;
    }
    if !inputOpen {
      return -2, tool, failed;
    }
    var args := cmd.operands[1..];
    assert args == cmd.ChannelArgs();
    var parsed := CollectChannels(args);
    if parsed.Failure? {
      ParseChannelsCodes(Scanned(args), |args|);
      return parsed.error, tool, failed;
    }
    status, failed := Convert(tool, parsed.value, lines, input, cmd.amp, cmd.speed, junk, fs);
  }

  /** The rest of main once the arguments are collected: read the header, check and register
      the requested channels (every channel when none was requested), extract. */
  method Convert(tool: McdRaw, channels: seq<int>, lines: seq<string>, input: seq<Sample>,
                 amp: AmpFactor, speed: SpeedFactor, junk: seq<byte>, fs: FileStore)
    returns (status: int, failed: bool)
    requires tool.Valid() && tool.first && |channels| <= MaxChannels && |junk| == HeaderSize
    requires tool.catalog == [] && tool.registry == [] && tool.sampleRate == 1
    modifies tool, tool.buffer, fs
    ensures status == match ParseHeader(lines)
      case Failure(_) => -3
      case Success(h) => if AllPresent(channels, h.channels) then 0 else -4
    ensures status != 0 ==> fs.files == old(fs.files)
    ensures status == -3 ==> tool.registry == []
    ensures tool.Valid()
    ensures status == 0 ==>
      && ParseHeader(lines).Success?
      && tool.catalog == ParseHeader(lines).value.channels
      && |tool.catalog| >= 1
      && AllPresent(channels, tool.catalog)
      && tool.registry == Registration(channels, tool.catalog)
      && tool.sampleRate == ParseHeader(lines).value.rate
      && tool.outputRate == OutputRate(ParseHeader(lines).value.rate, speed)
    ensures status == 0 && !failed ==> forall k :: 0 <= k < |tool.registry| ==>
      (k in fs.files &&
       fs.files[k] == WaveFile(tool.outputRate, Channel(Frames(input, |tool.catalog|), tool.registry[k], amp)))
  {
    failed := false;
    var error := tool.ReadHeader(lines);
    if error.Some? {
      return -3, failed;
    }
    ParsedCatalogSize(lines);
    var present := RegisterRequested(tool, channels);
    if !present {
      return -4, failed;
    }
    if channels == [] {
      tool.RegisterExtractAllChannels();
    }
    var total, truncated;
    failed, total, truncated := tool.Extract(input, amp, speed, junk, fs);
    return 0, failed;
  }

  /** The argument loop of main (main.c:94-109), collecting the channel numbers in an array
      of MAX_CHANNELS entries. */
  method CollectChannels(args: seq<string>) returns (r: Result<seq<int>, int>)
    ensures r == Arguments(args)
  {
    ghost var nums := Scanned(args);
    var channels := new int[MaxChannels];
    var channelCount := 0;
    ghost var collected: seq<int> := [];
    for i := 0 to |args|
      invariant channelCount == i == |collected| <= MaxChannels
      invariant forall j :: 0 <= j < channelCount ==> channels[j] == collected[j]
      invariant ParseChannels(nums, i) == Success(collected)
    {
      if channelCount >= MaxChannels {
        ParseChannelsStops(nums, i, collected);
        return Failure(-1);
      }
      var number := ScanArgument(args, i);
      if number.None? {
        ParseChannelsStops(nums, i, collected);
        return Failure(-3);
      }
      ParseChannelsNext(nums, i, collected);
      channels[channelCount] := number.value;
      channelCount := channelCount + 1;
      collected := collected + [number.value];
    }
    assert channels[..channelCount] == collected;
    return Success(channels[..channelCount]);
  }

  /** The sscanf of argument `i` in the argument loop. */
  method ScanArgument(args: seq<string>, i: nat) returns (number: Option<int>)
    requires i < |args|
    ensures number == Scanned(args)[i]
  {
    ScannedAt(args, i);
    number := ChannelArg(args[i]);
  }

  /** The validation loop of main (main.c:114-125): each requested channel is looked up in
      the catalog and registered; the first one missing stops the loop. */
  method RegisterRequested(tool: McdRaw, channels: seq<int>) returns (present: bool)
    requires tool.Valid() && tool.registry == [] && |channels| <= MaxChannels
    modifies tool`registry
    ensures tool.Valid()
    ensures present <==> AllPresent(channels, tool.catalog)
    ensures present ==> tool.registry == Positions(channels, tool.catalog)
  {
    for i := 0 to |channels|
      invariant tool.Valid()
      invariant AllPresent(channels[..i], tool.catalog)
      invariant tool.registry == Positions(channels[..i], tool.catalog)
    {
      present := tool.ContainsChannel(channels[i]);
      if !present {
        return;
      }
      tool.RegisterExtractChannel(channels[i]);
      assert channels[..i + 1] == channels[..i] + [channels[i]];
    }
    assert channels[..|channels|] == channels;
    present := true;
  }

  // ---------------------------------------------------------------------------------------
  // Properties of the argument checks

  /** The first argument that fails decides the outcome of the whole argument loop. */
  lemma {:induction false} ParseChannelsSticky(nums: seq<Option<int>>, i: nat, n: nat)
    requires i <= n <= |nums| && ParseChannels(nums, i).Failure?
    ensures ParseChannels(nums, n) == ParseChannels(nums, i)
  {
    if n > i {
      ParseChannelsSticky(nums, i, n - 1);
    }
  }

  /** An argument that fails after the arguments before it succeeded decides the outcome. */
  lemma ParseChannelsStops(nums: seq<Option<int>>, i: nat, collected: seq<int>)
    requires i < |nums| && ParseChannels(nums, i) == Success(collected)
    requires NextChannel(Success(collected), nums[i]).Failure?
    ensures ParseChannels(nums, |nums|) == NextChannel(Success(collected), nums[i])
  {
    ParseChannelsSticky(nums, i + 1, |nums|);
  }

  /** An argument that names a channel, within the limit, extends the collected channels. */
  lemma ParseChannelsNext(nums: seq<Option<int>>, i: nat, collected: seq<int>)
    requires i < |nums| && ParseChannels(nums, i) == Success(collected)
    requires |collected| < MaxChannels && nums[i].Some?
    ensures ParseChannels(nums, i + 1) == Success(collected + [nums[i].value])
  {
  }

  /** The argument loop succeeds exactly when there are at most MAX_CHANNELS arguments and
      each names a channel; the channels are then those the arguments name, in order. */
  lemma {:induction false} ParseChannelsOk(nums: seq<Option<int>>, n: nat)
    requires n <= |nums|
    ensures ParseChannels(nums, n).Success? <==>
      n <= MaxChannels && forall i :: 0 <= i < n ==> nums[i].Some?
    ensures ParseChannels(nums, n).Success? ==>
      |ParseChannels(nums, n).value| == n &&
      forall i :: 0 <= i < n ==> nums[i] == Some(ParseChannels(nums, n).value[i])
  {
    if n > 0 {
      ParseChannelsOk(nums, n - 1);
      var prev := ParseChannels(nums, n - 1);
      if prev.Success? && n - 1 < MaxChannels && nums[n - 1].Some? {
        var all := prev.value + [nums[n - 1].value];
        assert ParseChannels(nums, n) == Success(all);
        assert forall i :: 0 <= i < n ==> nums[i] == Some(all[i]);
      }
    }
  }

  /** More than MAX_CHANNELS scanned channel arguments, the first MAX_CHANNELS of them
      valid: exit(-1) at the first argument too many. */
  lemma TooManyChannels(nums: seq<Option<int>>)
    requires |nums| > MaxChannels
    requires forall i :: 0 <= i < MaxChannels ==> nums[i].Some?
    ensures ParseChannels(nums, |nums|) == Failure(-1)
  {
    ParseChannelsOk(nums, MaxChannels);
    ParseChannelsSticky(nums, MaxChannels + 1, |nums|);
  }

  /** The first argument that names no channel, among the first MAX_CHANNELS: exit(-3). */
  lemma BadChannelArg(nums: seq<Option<int>>, k: nat)
    requires k < |nums| && k < MaxChannels && nums[k].None?
    requires forall i :: 0 <= i < k ==> nums[i].Some?
    ensures ParseChannels(nums, |nums|) == Failure(-3)
  {
    ParseChannelsOk(nums, k);
    ParseChannelsSticky(nums, k + 1, |nums|);
  }

  /** The usage checks come before the input file is opened and the header is read: their
      exit status does not depend on either. */
  lemma UsageBeforeOpen(cmd: CommandLine, inputOpen: bool, lines: seq<string>, inputOpen': bool,
                        lines': seq<string>)
    requires cmd.Usage()
    ensures Verdict(cmd, inputOpen, lines) == Verdict(cmd, inputOpen', lines') == -1
  {
  }

  /** The argument loop fails only with -1 or -3. */
  lemma {:induction false} ParseChannelsCodes(nums: seq<Option<int>>, n: nat)
    requires n <= |nums|
    ensures ParseChannels(nums, n).Failure? ==> ParseChannels(nums, n).error in {-1, -3}
  {
    if n > 0 {
      ParseChannelsCodes(nums, n - 1);
    }
  }

  /** Each requested channel is registered at its first catalog position. */
  lemma RegistrationFirstMatch(channels: seq<int>, catalog: seq<int>, k: nat)
    requires channels != [] && AllPresent(channels, catalog) && k < |channels|
    ensures Registration(channels, catalog)[k] == IndexFor(catalog, channels[k])
    ensures forall j :: 0 <= j < Registration(channels, catalog)[k] ==> catalog[j] != channels[k]
  {
  }
}
