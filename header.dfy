/** The fixed 8-line text preamble of an MC_DataTool raw recording (mcdRaw_read_header) and
    its "Streams = " channel list (decode_channels), as functions of the header lines. The
    imperative parser in module McdRaw is proved to compute exactly these functions. */
module HeaderFormat {
  import opened Common
  import opened Text

  const HeaderId := "MC_DataTool binary conversion"
  const SampleRateVar := "Sample rate = "
  const StreamsVar := "Streams = "
  const HeaderEnd := "EOH"
  const NumHeaderLines: nat := 8
  /** MAX_CS_STR: a channel token must be shorter than this. */
  const MaxCsStr: nat := 10
  const ElectrodeStem := "El_"

  // ---------------------------------------------------------------------------------------
  // decode_channels (mcdRaw.c:91-126)

  datatype ChannelError =
    | TokenTooLong   // a token reached MAX_CS_STR characters
    | CatalogFull    // the catalog already holds MAX_CHANNELS entries
    | MissingStem    // the token does not start with "El_"
    | BadNumber      // the text after "El_" does not scan as an integer

  /** What decoding appends to the catalog, and the error that stopped it, if any. */
  datatype Decoded = Decoded(appended: seq<int>, error: Option<ChannelError>)

  /** One token closed by ';' or by the end of the line, with `count` entries already in the
      catalog. A token that fails to scan still takes a catalog slot, as the count is
      incremented before the scan result is tested (mcdRaw.c:106); the slot keeps the zero of
      the statically initialised channel array. */
  function DecodeToken(token: string, count: nat): Decoded
  {
    if |token| >= MaxCsStr then Decoded([], Some(TokenTooLong))
    else if count >= MaxChannels then Decoded([], Some(CatalogFull))
    else if !HasPrefix(token, ElectrodeStem) then Decoded([], Some(MissingStem))
    else match ScanInt(token[|ElectrodeStem|..])
      case None => Decoded([0], Some(BadNumber))
      case Some(v) => Decoded([v], None)
  }

  /** Decoding one more token after `prev`: nothing changes once an error has occurred,
      otherwise the token's slot and error are added. */
  function Extend(prev: Decoded, t: string, count: nat): Decoded
  {
    if prev.error.Some? then prev
    else
      var d := DecodeToken(t, count + |prev.appended|);
      Decoded(prev.appended + d.appended, d.error)
  }

  /** The tokens decoded in order; the first error stops decoding. */
  function DecodeTokens(tokens: seq<string>, count: nat): Decoded
  {
    if tokens == [] then Decoded([], None)
    else Extend(DecodeTokens(tokens[..|tokens| - 1], count), tokens[|tokens| - 1], count)
  }

  /** The channel list of the "Streams = " line, appended to a catalog of `count` entries. */
  function DecodeChannels(s: string, count: nat): Decoded
  {
    DecodeTokens(Split(s), count)
  }

  /** A token decode_channels accepts. */
  predicate ValidToken(t: string)
  {
    |t| < MaxCsStr && HasPrefix(t, ElectrodeStem) && ScanInt(t[|ElectrodeStem|..]).Some?
  }

  /** Token `t` names the channel number `v`: "El_" followed by text that scans as `v`. */
  predicate Names(t: string, v: int)
  {
    |t| >= |ElectrodeStem| && ScanInt(t[|ElectrodeStem|..]) == Some(v)
  }

  /** Token `t` is valid and the catalog still has slot `slot` for it. */
  predicate Admits(t: string, slot: int)
  {
    slot < MaxChannels && ValidToken(t)
  }

  /** One step succeeds exactly when nothing failed before and the token is valid and finds
      room in the catalog; it then adds the token's number. */
  lemma ExtendOk(prev: Decoded, t: string, count: nat)
    ensures Extend(prev, t, count).error.None? <==>
      prev.error.None? && Admits(t, count + |prev.appended|)
    ensures Extend(prev, t, count).error.None? ==>
      |Extend(prev, t, count).appended| == |prev.appended| + 1 &&
      Extend(prev, t, count).appended[..|prev.appended|] == prev.appended &&
      Names(t, Extend(prev, t, count).appended[|prev.appended|])
  {
  }

  lemma DecodeTokensSnoc(tokens: seq<string>, t: string, count: nat)
    ensures DecodeTokens(tokens + [t], count) == Extend(DecodeTokens(tokens, count), t, count)
  {
    var all := tokens + [t];
    assert all[..|all| - 1] == tokens;
  }

  /** Once a token has failed, later tokens change nothing. */
  lemma {:induction false} DecodeTokensSticky(tokens: seq<string>, more: seq<string>, count: nat)
    requires DecodeTokens(tokens, count).error.Some?
    ensures DecodeTokens(tokens + more, count) == DecodeTokens(tokens, count)
  {
    if more == [] {
      assert tokens + more == tokens;
    } else {
      var front := more[..|more| - 1];
      var last := more[|more| - 1];
      DecodeTokensSticky(tokens, front, count);
      FrontLast(more);
      AppendAssoc(tokens, front, [last]);
      DecodeTokensSnoc(tokens + front, last, count);
    }
  }

  /** The first failing token fixes the result of decoding any longer token list. */
  lemma DecodeTokensFirstFailure(tokens: seq<string>, m: nat, count: nat, prev: Decoded)
    requires m < |tokens| && prev == DecodeTokens(tokens[..m], count)
    requires Extend(prev, tokens[m], count).error.Some?
    ensures DecodeTokens(tokens, count) == Extend(prev, tokens[m], count)
  {
    var done := tokens[..m + 1];
    assert done == tokens[..m] + [tokens[m]];
    DecodeTokensSnoc(tokens[..m], tokens[m], count);
    assert tokens == done + tokens[m + 1..];
    DecodeTokensSticky(done, tokens[m + 1..], count);
  }

  /** Decoding succeeds exactly when every token is valid and finds the catalog with room
      for it. */
  lemma {:induction false} DecodeTokensOk(tokens: seq<string>, count: nat)
    ensures DecodeTokens(tokens, count).error.None? <==>
      forall i :: 0 <= i < |tokens| ==> Admits(tokens[i], count + i)
  {
    if tokens != [] {
      var front := tokens[..|tokens| - 1];
      var t := tokens[|tokens| - 1];
      var prev := DecodeTokens(front, count);
      assert DecodeTokens(tokens, count) == Extend(prev, t, count);
      DecodeTokensOk(front, count);
      DecodeTokensLength(front, count);
      FrontLast(tokens);
      ExtendAdmits(front, t, count, prev, tokens);
    }
  }

  /** DecodeTokensOk's step, for the decoding `prev` of the tokens before the last one. */
  lemma ExtendAdmits(front: seq<string>, t: string, count: nat, prev: Decoded, tokens: seq<string>)
    requires tokens == front + [t]
    requires prev.error.None? <==> forall i :: 0 <= i < |front| ==> Admits(front[i], count + i)
    requires prev.error.None? ==> |prev.appended| == |front|
    ensures Extend(prev, t, count).error.None? <==>
      forall i :: 0 <= i < |tokens| ==> Admits(tokens[i], count + i)
  {
    ExtendOk(prev, t, count);
    if Extend(prev, t, count).error.None? {
      forall i | 0 <= i < |tokens|
        ensures Admits(tokens[i], count + i)
      {
        if i < |front| {
          assert tokens[i] == front[i];
        } else {
          assert i == |front| && tokens[i] == t;
        }
      }
    } else if prev.error.Some? {
      var k :| 0 <= k < |front| && !Admits(front[k], count + k);
      assert front[k] == tokens[k];
    } else {
      assert !Admits(tokens[|front|], count + |front|);
    }
  }

  /** A successful decoding gives one slot per token. */
  lemma {:induction false} DecodeTokensLength(tokens: seq<string>, count: nat)
    ensures DecodeTokens(tokens, count).error.None? ==> |DecodeTokens(tokens, count).appended| == |tokens|
  {
    if tokens != [] {
      var front := tokens[..|tokens| - 1];
      DecodeTokensLength(front, count);
      ExtendOk(DecodeTokens(front, count), tokens[|tokens| - 1], count);
    }
  }

  /** After a successful decoding `d`, slot i holds the number token i names. */
  lemma {:induction false} DecodeTokensValues(tokens: seq<string>, count: nat, d: Decoded)
    requires d == DecodeTokens(tokens, count) && d.error.None?
    ensures |d.appended| == |tokens|
    ensures forall i :: 0 <= i < |tokens| ==> Names(tokens[i], d.appended[i])
  {
    DecodeTokensLength(tokens, count);
    if tokens != [] {
      var front := tokens[..|tokens| - 1];
      var t := tokens[|tokens| - 1];
      var prev := DecodeTokens(front, count);
      assert d == Extend(prev, t, count);
      ExtendOk(prev, t, count);
      DecodeTokensValues(front, count, prev);
      FrontLast(tokens);
      ExtendNames(front, t, count, prev, tokens);
    }
  }

  /** DecodeTokensValues' step, for the decoding `prev` of the tokens before the last one. */
  lemma ExtendNames(front: seq<string>, t: string, count: nat, prev: Decoded, tokens: seq<string>)
    requires tokens == front + [t]
    requires |prev.appended| == |front|
    requires forall i :: 0 <= i < |front| ==> Names(front[i], prev.appended[i])
    requires Extend(prev, t, count).error.None?
    ensures forall i :: 0 <= i < |tokens| ==> Names(tokens[i], Extend(prev, t, count).appended[i])
  {
    var all := Extend(prev, t, count).appended;
    ExtendOk(prev, t, count);
    forall i | 0 <= i < |tokens|
      ensures Names(tokens[i], all[i])
    {
      if i < |front| {
        assert tokens[i] == front[i];
        assert all[i] == all[..|front|][i];
      }
    }
  }

  /** The decoded channel list is never empty: the end of the line always closes a token. */
  lemma DecodeChannelsNonEmpty(s: string, count: nat)
    requires DecodeChannels(s, count).error.None?
    ensures |DecodeChannels(s, count).appended| == |Split(s)| >= 1
  {
    DecodeTokensLength(Split(s), count);
  }

  /** The token "El_<id>". */
  function ElectrodeToken(id: nat): string
  {
    ElectrodeStem + Decimal(id)
  }

  function ElectrodeTokens(ids: seq<nat>): (ts: seq<string>)
    ensures |ts| == |ids| && forall i :: 0 <= i < |ids| ==> ts[i] == ElectrodeToken(ids[i])
  {
    seq(|ids|, i requires 0 <= i < |ids| => ElectrodeToken(ids[i]))
  }

  /** The "Streams = " list naming the given channel ids. */
  function StreamList(ids: seq<nat>): string
    requires |ids| >= 1
  {
    Join(ElectrodeTokens(ids))
  }

  /** The decimal text of a number below 1000000 has at most six digits. */
  lemma {:induction false} DecimalLength(n: nat, k: nat)
    requires 1 <= k <= 6
    requires n < [10, 100, 1000, 10000, 100000, 1000000][k - 1]
    ensures |Decimal(n)| <= k
  {
    if n >= 10 {
      DecimalLength(n / 10, k - 1);
    }
  }

  /** "El_<id>" is a token decode_channels accepts, naming `id`. */
  lemma ElectrodeTokenValid(id: nat)
    requires id < 1000000
    ensures ';' !in ElectrodeToken(id) && ValidToken(ElectrodeToken(id))
    ensures Names(ElectrodeToken(id), id)
  {
    var t := ElectrodeToken(id);
    var d := Decimal(id);
    DecimalLength(id, 6);
    assert t[|ElectrodeStem|..] == d + [];
    ScanIntDecimal(id, []);
    assert ';' !in ElectrodeStem;
  }

  /** Valid tokens, as many as the catalog has room for, decode to the numbers they name. */
  lemma DecodeValidTokens(tokens: seq<string>, ids: seq<int>)
    requires |tokens| == |ids| <= MaxChannels
    requires forall i :: 0 <= i < |tokens| ==> ValidToken(tokens[i]) && Names(tokens[i], ids[i])
    ensures DecodeTokens(tokens, 0) == Decoded(ids, None)
  {
    DecodeTokensOk(tokens, 0);
    var d := DecodeTokens(tokens, 0);
    DecodeTokensValues(tokens, 0, d);
    forall i | 0 <= i < |ids|
      ensures d.appended[i] == ids[i]
    {
      assert Names(tokens[i], d.appended[i]) && Names(tokens[i], ids[i]);
    }
  }

  /** Writing channel ids as an "El_" list and decoding it gives the ids back in order. */
  lemma StreamListRoundTrip(ids: seq<nat>)
    requires 1 <= |ids| <= MaxChannels
    requires forall i :: 0 <= i < |ids| ==> ids[i] < 1000000
    ensures DecodeChannels(StreamList(ids), 0) == Decoded(ids, None)
  {
    var tokens := ElectrodeTokens(ids);
    forall i | 0 <= i < |ids|
      ensures ';' !in tokens[i] && ValidToken(tokens[i]) && Names(tokens[i], ids[i])
    {
      ElectrodeTokenValid(ids[i]);
    }
    SplitJoin(tokens);
    DecodeValidTokens(tokens, ids);
  }

  // ---------------------------------------------------------------------------------------
  // mcdRaw_read_header (mcdRaw.c:132-171)

  datatype HeaderError =
    | Truncated(line: nat)       // fgets found no line number `line`
    | BadHeaderId                // line 0 is not the identifying string
    | MissingSampleRate          // line 3 does not start with "Sample rate = "
    | BadSampleRate              // no number follows that prefix
    | MissingStreams             // line 6 does not start with "Streams = "
    | ChannelList(reason: ChannelError)
    | BadHeaderEnd               // line 7 is not "EOH"

  /** The nominal sample rate and the channel catalog. */
  datatype Header = Header(rate: int, channels: seq<int>)

  /** A header line as the parser compares it: the C string with trailing CR/LF removed. */
  function Line(raw: string): string
  {
    StripCRLF(CStr(raw))
  }

  /** What header line `i`, read as `text`, does to datafileSampleRate and
      datafileChannels: lines 0 and 7 are compared, line 3 sets the rate, line 6 extends the
      catalog, and lines 1, 2, 4 and 5 are only echoed. */
  function LineStep(i: nat, text: string, rate: int, channels: seq<int>): Result<Header, HeaderError>
  {
    if i == 0 then
      if text != HeaderId then Failure(BadHeaderId) else Success(Header(rate, channels))
    else if i == 3 then
      if !HasPrefix(text, SampleRateVar) then Failure(MissingSampleRate)
      else match ScanInt(text[|SampleRateVar|..])
        case None => Failure(BadSampleRate)
        case Some(r) => Success(Header(r, channels))
    else if i == 6 then
      if !HasPrefix(text, StreamsVar) then Failure(MissingStreams)
      else
        var d := DecodeChannels(text[|StreamsVar|..], |channels|);
        if d.error.Some? then Failure(ChannelList(d.error.value))
        else Success(Header(rate, channels + d.appended))
    else if i == 7 then
      if text != HeaderEnd then Failure(BadHeaderEnd) else Success(Header(rate, channels))
    else Success(Header(rate, channels))
  }

  /** The header parser from line `i` on, with `rate` and `channels` the values of
      datafileSampleRate and datafileChannels so far: one step per line, stopping at the
      first failure. */
  function ParseFrom(lines: seq<string>, i: nat, rate: int, channels: seq<int>): Result<Header, HeaderError>
    requires i <= NumHeaderLines
    decreases NumHeaderLines - i
  {
    if i == NumHeaderLines then Success(Header(rate, channels))
    else if i >= |lines| then Failure(Truncated(i))
    else match LineStep(i, Line(lines[i]), rate, channels)
      case Failure(e) => Failure(e)
      case Success(h) => ParseFrom(lines, i + 1, h.rate, h.channels)
  }

  /** One line of the parser: a failing line decides the result, a passing one hands its
      rate and catalog to the next line. */
  lemma ParseFromStep(lines: seq<string>, i: nat, rate: int, channels: seq<int>,
                      r: Result<Header, HeaderError>)
    requires i < NumHeaderLines && i < |lines| && r == LineStep(i, Line(lines[i]), rate, channels)
    ensures r.Failure? ==> ParseFrom(lines, i, rate, channels) == Failure(r.error)
    ensures r.Success? ==>
      ParseFrom(lines, i, rate, channels) == ParseFrom(lines, i + 1, r.value.rate, r.value.channels)
  {
  }

  /** The header of a fresh run: datafileSampleRate starts at 1, the catalog empty. */
  function ParseHeader(lines: seq<string>): Result<Header, HeaderError>
  {
    ParseFrom(lines, 0, 1, [])
  }

  /** Every check the header must pass. */
  predicate WellFormed(lines: seq<string>)
  {
    && |lines| >= NumHeaderLines
    && Line(lines[0]) == HeaderId
    && HasPrefix(Line(lines[3]), SampleRateVar)
    && ScanInt(Line(lines[3])[|SampleRateVar|..]).Some?
    && HasPrefix(Line(lines[6]), StreamsVar)
    && DecodeChannels(Line(lines[6])[|StreamsVar|..], 0).error.None?
    && Line(lines[7]) == HeaderEnd
  }

  /** The header parses exactly when it is well formed; then the rate is the integer after
      the line-3 prefix and the catalog is the decoded line-6 list. */
  lemma ParseHeaderSpec(lines: seq<string>)
    ensures ParseHeader(lines).Success? <==> WellFormed(lines)
    ensures WellFormed(lines) ==> ParseHeader(lines) == Success(Header(
      ScanInt(Line(lines[3])[|SampleRateVar|..]).value,
      DecodeChannels(Line(lines[6])[|StreamsVar|..], 0).appended))
  {
    if |lines| < NumHeaderLines {
      if ParseHeader(lines).Success? {
        ParseFromNeedsAllLines(lines, 0, 1, []);
      }
      return;
    }
    var t0, t3, t6, t7 := Line(lines[0]), Line(lines[3]), Line(lines[6]), Line(lines[7]);
    if t0 != HeaderId {
      assert ParseFrom(lines, 0, 1, []) == Failure(BadHeaderId);
      return;
    }
    assert ParseFrom(lines, 0, 1, []) == ParseFrom(lines, 1, 1, []);
    assert ParseFrom(lines, 1, 1, []) == ParseFrom(lines, 2, 1, []);
    assert ParseFrom(lines, 2, 1, []) == ParseFrom(lines, 3, 1, []);
    if !HasPrefix(t3, SampleRateVar) {
      assert ParseFrom(lines, 3, 1, []) == Failure(MissingSampleRate);
      return;
    }
    var scanned := ScanInt(t3[|SampleRateVar|..]);
    if scanned.None? {
      assert ParseFrom(lines, 3, 1, []) == Failure(BadSampleRate);
      return;
    }
    var r := scanned.value;
    assert ParseFrom(lines, 3, 1, []) == ParseFrom(lines, 4, r, []);
    assert ParseFrom(lines, 4, r, []) == ParseFrom(lines, 5, r, []);
    assert ParseFrom(lines, 5, r, []) == ParseFrom(lines, 6, r, []);
    if !HasPrefix(t6, StreamsVar) {
      assert ParseFrom(lines, 6, r, []) == Failure(MissingStreams);
      return;
    }
    var d := DecodeChannels(t6[|StreamsVar|..], 0);
    if d.error.Some? {
      assert ParseFrom(lines, 6, r, []) == Failure(ChannelList(d.error.value));
      return;
    }
    assert [] + d.appended == d.appended;
    assert ParseFrom(lines, 6, r, []) == ParseFrom(lines, 7, r, d.appended);
    if t7 != HeaderEnd {
      assert ParseFrom(lines, 7, r, d.appended) == Failure(BadHeaderEnd);
      return;
    }
    assert ParseFrom(lines, 7, r, d.appended) == Success(Header(r, d.appended));
  }

  /** A parsed header names between 1 and MAX_CHANNELS channels. */
  lemma ParsedCatalogSize(lines: seq<string>)
    requires ParseHeader(lines).Success?
    ensures 1 <= |ParseHeader(lines).value.channels| <= MaxChannels
  {
    ParseHeaderSpec(lines);
    var s := Line(lines[6])[|StreamsVar|..];
    var tokens := Split(s);
    DecodeChannelsNonEmpty(s, 0);
    DecodeTokensOk(tokens, 0);
    assert Admits(tokens[|tokens| - 1], |tokens| - 1);
  }

  /** A header can only parse when all eight lines are there. */
  lemma {:induction false} ParseFromNeedsAllLines(lines: seq<string>, i: nat, rate: int, channels: seq<int>)
    requires i <= NumHeaderLines
    requires ParseFrom(lines, i, rate, channels).Success?
    ensures i < NumHeaderLines ==> |lines| >= NumHeaderLines
    decreases NumHeaderLines - i
  {
    if i < NumHeaderLines {
      var h := LineStep(i, Line(lines[i]), rate, channels).value;
      ParseFromNeedsAllLines(lines, i + 1, h.rate, h.channels);
    }
  }

  /** Lines 1, 2, 4 and 5 change nothing. */
  lemma FreeLineStep(i: nat, text: string, other: string, rate: int, channels: seq<int>)
    requires i !in {0, 3, 6, 7}
    ensures LineStep(i, text, rate, channels) == LineStep(i, other, rate, channels)
  {
  }

  /** The parser never looks at lines 1, 2, 4 and 5. */
  lemma {:induction false} ParseFromIgnoresFreeLines(lines: seq<string>, other: seq<string>, i: nat, rate: int, channels: seq<int>)
    requires i <= NumHeaderLines
    requires |lines| == |other|
    requires forall j :: j in {0, 3, 6, 7} && j < |lines| ==> lines[j] == other[j]
    ensures ParseFrom(lines, i, rate, channels) == ParseFrom(other, i, rate, channels)
    decreases NumHeaderLines - i
  {
    if i < NumHeaderLines && i < |lines| {
      if i in {0, 3, 6, 7} {
        assert lines[i] == other[i];
      } else {
        FreeLineStep(i, Line(lines[i]), Line(other[i]), rate, channels);
      }
      var step := LineStep(i, Line(lines[i]), rate, channels);
      if step.Success? {
        ParseFromIgnoresFreeLines(lines, other, i + 1, step.value.rate, step.value.channels);
      }
    }
  }

  /** A fixed header line followed by a CR/LF line ending reads back as itself. */
  lemma LineOfTerminated(x: string, eol: string)
    requires NoNul(x) && (x == [] || !IsCRLF(x[|x| - 1]))
    requires forall i :: 0 <= i < |eol| ==> IsCRLF(eol[i])
    ensures Line(x + eol) == x
  {
    var t := x + eol;
    assert forall i :: 0 <= i < |t| ==> t[i] != '\0';
    CLenUnique(t, |t|);
    assert CStr(t) == t;
    StripCRLFUnique(t, |x|);
    assert t[..|x|] == x;
  }

  /** The header MC_DataTool writes for a recording at `rate` Hz of the channels `ids`, with
      free-form lines 1, 2, 4 and 5 and the given line ending. */
  function RenderHeader(rate: nat, ids: seq<nat>, free: seq<string>, eol: string): seq<string>
    requires |ids| >= 1 && |free| == 4
  {
    [ HeaderId + eol, free[0], free[1],
      SampleRateVar + Decimal(rate) + eol, free[2], free[3],
      StreamsVar + StreamList(ids) + eol, HeaderEnd + eol ]
  }

  /** Parsing a rendered header gives back its rate and channel ids. */
  lemma RenderHeaderRoundTrip(rate: nat, ids: seq<nat>, free: seq<string>, eol: string)
    requires 1 <= |ids| <= MaxChannels && |free| == 4
    requires forall i :: 0 <= i < |ids| ==> ids[i] < 1000000
    requires forall i :: 0 <= i < |eol| ==> IsCRLF(eol[i])
    ensures ParseHeader(RenderHeader(rate, ids, free, eol)) == Success(Header(rate, ids))
  {
    var lines := RenderHeader(rate, ids, free, eol);
    LineOfTerminated(HeaderId, eol);
    LineOfTerminated(HeaderEnd, eol);
    RateLine(lines[3], rate, eol);
    StreamLine(lines[6], ids, eol);
    ParseHeaderSpec(lines);
  }

  /** The rendered line 3 reads back as its rate. */
  lemma RateLine(line: string, rate: nat, eol: string)
    requires forall i :: 0 <= i < |eol| ==> IsCRLF(eol[i])
    requires line == SampleRateVar + Decimal(rate) + eol
    ensures HasPrefix(Line(line), SampleRateVar)
    ensures ScanInt(Line(line)[|SampleRateVar|..]) == Some(rate as int)
  {
    var rateLine := SampleRateVar + Decimal(rate);
    PrefixedDecimal(SampleRateVar, rate, rateLine);
    LineOfTerminated(rateLine, eol);
    ScanIntDecimal(rate, []);
  }

  /** A NUL-free prefix followed by a decimal number is C-string text ending in a digit. */
  lemma PrefixedDecimal(prefix: string, n: nat, t: string)
    requires NoNul(prefix) && t == prefix + Decimal(n)
    ensures NoNul(t) && !IsCRLF(t[|t| - 1]) && t[|prefix|..] == Decimal(n) + []
  {
    var d := Decimal(n);
    assert d[|d| - 1] == t[|t| - 1];
    forall i | 0 <= i < |t|
      ensures t[i] != '\0'
    {
      if i >= |prefix| {
        assert t[i] == d[i - |prefix|];
      }
    }
  }

  /** The rendered line 6 decodes to its channel ids. */
  lemma StreamLine(line: string, ids: seq<nat>, eol: string)
    requires 1 <= |ids| <= MaxChannels
    requires forall i :: 0 <= i < |ids| ==> ids[i] < 1000000
    requires forall i :: 0 <= i < |eol| ==> IsCRLF(eol[i])
    requires line == StreamsVar + StreamList(ids) + eol
    ensures HasPrefix(Line(line), StreamsVar)
    ensures DecodeChannels(Line(line)[|StreamsVar|..], 0) == Decoded(ids, None)
  {
    var streamLine := StreamsVar + StreamList(ids);
    StreamListNoNul(ids);
    LineOfTerminated(streamLine, eol);
    assert streamLine[|StreamsVar|..] == StreamList(ids);
    StreamListRoundTrip(ids);
  }

  /** A rendered stream list is C-string text ending in a digit. */
  lemma StreamListNoNul(ids: seq<nat>)
    requires |ids| >= 1
    ensures NoNul(StreamsVar + StreamList(ids))
    ensures !IsCRLF((StreamsVar + StreamList(ids))[|StreamsVar + StreamList(ids)| - 1])
  {
    StreamListText(ids);
    var j := StreamList(ids);
    var t := StreamsVar + j;
    assert forall k :: 0 <= k < |j| ==> t[k + |StreamsVar|] == j[k];
  }

  /** No NUL and no line break. */
  predicate PlainText(s: string)
  {
    forall k :: 0 <= k < |s| ==> s[k] != '\0' && !IsCRLF(s[k])
  }

  /** "El_<id>" is plain text ending in a digit. */
  lemma ElectrodeTokenText(id: nat)
    ensures PlainText(ElectrodeToken(id)) && IsDigit(ElectrodeToken(id)[|ElectrodeToken(id)| - 1])
  {
    var t := ElectrodeToken(id);
    var d := Decimal(id);
    assert forall k :: |ElectrodeStem| <= k < |t| ==> t[k] == d[k - |ElectrodeStem|];
  }

  /** Joining plain texts with ';' gives plain text ending where the second one ends. */
  lemma JoinText(a: string, b: string, j: string)
    requires PlainText(a) && PlainText(b) && |b| >= 1 && j == a + ";" + b
    ensures PlainText(j) && j[|j| - 1] == b[|b| - 1]
  {
    assert forall k :: 0 <= k < |b| ==> j[|a| + 1 + k] == b[k];
  }

  /** "El_" tokens joined by ';' hold no NUL and no line break, and end in a digit. */
  lemma {:induction false} StreamListText(ids: seq<nat>)
    requires |ids| >= 1
    ensures |StreamList(ids)| >= 1 && IsDigit(StreamList(ids)[|StreamList(ids)| - 1])
    ensures PlainText(StreamList(ids))
  {
    var t := ElectrodeToken(ids[0]);
    ElectrodeTokenText(ids[0]);
    var tokens := ElectrodeTokens(ids);
    if |ids| == 1 {
      assert StreamList(ids) == t;
    } else {
      StreamListText(ids[1..]);
      var rest := StreamList(ids[1..]);
      assert tokens[1..] == ElectrodeTokens(ids[1..]);
      assert StreamList(ids) == t + ";" + rest;
      JoinText(t, rest, StreamList(ids));
    }
  }

  // ---------------------------------------------------------------------------------------
  // decode_channels as written (mcdRaw.c:103-104): numberStart is only assigned for a token
  // that starts with "El_", and always to the same place, cs + 3. A later token without the
  // stem is therefore not rejected but scanned from its fourth character.

  /** decode_channels as written, for one token of at least three characters after a token
      with the stem has set numberStart. */
  function DecodeTokenAsWritten(token: string, count: nat): (d: Decoded)
    requires |token| >= |ElectrodeStem|
    ensures HasPrefix(token, ElectrodeStem) ==> d == DecodeToken(token, count)
    ensures d.error != Some(MissingStem)
  {
    if |token| >= MaxCsStr then Decoded([], Some(TokenTooLong))
    else if count >= MaxChannels then Decoded([], Some(CatalogFull))
    else match ScanInt(token[|ElectrodeStem|..])
      case None => Decoded([0], Some(BadNumber))
      case Some(v) => Decoded([v], None)
  }

  /** As written, a stemless token whose fourth character onwards scans as a number is taken
      as that channel; DecodeToken rejects it. */
  lemma StemlessTokenAccepted(token: string, count: nat, v: int)
    requires |ElectrodeStem| <= |token| < MaxCsStr && count < MaxChannels
    requires !HasPrefix(token, ElectrodeStem) && ScanInt(token[|ElectrodeStem|..]) == Some(v)
    ensures DecodeTokenAsWritten(token, count) == Decoded([v], None)
    ensures DecodeToken(token, count) == Decoded([], Some(MissingStem))
  {
  }

  /** The stream list "El_1;XY_5": its second token "XY_5" is read as channel 5. */
  lemma StaleNumberStart()
    ensures DecodeTokenAsWritten("XY_5", 1) == Decoded([5], None)
    ensures DecodeToken("XY_5", 1) == Decoded([], Some(MissingStem))
  {
    var t := "XY_5";
    assert t[|ElectrodeStem|..] == "5";
    assert !HasPrefix(t, ElectrodeStem) by {
      assert t[0] != ElectrodeStem[0];
    }
    ScanFive();
    StemlessTokenAccepted(t, 1, 5);
  }

  /** "5" scans as 5. */
  lemma ScanFive()
    ensures ScanInt("5") == Some(5)
  {
    ScanIntUnsigned("5");
    assert DigitRun("5") == "5";
    assert DigitsValue("5") == 5 by {
      assert "5"[..0] == [];
    }
  }
}
