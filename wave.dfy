/** The WAVE file the converter writes (writeWaveHeader, swap_short, swap_int): a 44-byte
    RIFF/WAVE PCM header followed by 16-bit little-endian mono samples. The host is taken to
    be little-endian, the default build, where swap_short and swap_int are the identity. */
module Wave {
  import opened Common

  const HeaderSize: nat := 44

  // ---------------------------------------------------------------------------------------
  // Little-endian two's-complement fields

  /** The two bytes of a C `short` holding `v` (wrapped to 16 bits), low byte first. */
  function Le16(v: int): (r: seq<byte>)
    ensures |r| == 2
  {
    var u := v % 0x1_0000;
    [u % 256, u / 256]
  }

  /** The four bytes of a C `int` holding `v` (wrapped to 32 bits), low byte first. */
  function Le32(v: int): (r: seq<byte>)
    ensures |r| == 4
  {
    var u := v % 0x1_0000_0000;
    [u % 256, (u / 256) % 256, (u / 256 / 256) % 256, u / 256 / 256 / 256]
  }

  /** The signed 16-bit value stored in two little-endian bytes. */
  function FromLe16(b: seq<byte>): (v: int)
    requires |b| == 2
    ensures -0x8000 <= v < 0x8000
  {
    var u := b[0] as int + 256 * b[1] as int;
    if u < 0x8000 then u else u - 0x1_0000
  }

  /** The signed 32-bit value stored in four little-endian bytes. */
  function FromLe32(b: seq<byte>): (v: int)
    requires |b| == 4
    ensures -0x8000_0000 <= v < 0x8000_0000
  {
    var u := b[0] as int + 256 * b[1] as int + 0x1_0000 * b[2] as int + 0x100_0000 * b[3] as int;
    if u < 0x8000_0000 then u else u - 0x1_0000_0000
  }

  /** A 16-bit C `short` holding `v` after wrap-around. */
  function Int16(v: int): (r: int)
    ensures -0x8000 <= r < 0x8000
    ensures (r - v) % 0x1_0000 == 0
  {
    var u := v % 0x1_0000;
    if u < 0x8000 then u else u - 0x1_0000
  }

  /** A 32-bit C `int` holding `v` after wrap-around. */
  function Int32(v: int): (r: int)
    ensures -0x8000_0000 <= r < 0x8000_0000
    ensures (r - v) % 0x1_0000_0000 == 0
  {
    var u := v % 0x1_0000_0000;
    if u < 0x8000_0000 then u else u - 0x1_0000_0000
  }

  /** C integer division, which truncates toward zero. */
  function CDiv(a: int, b: int): (q: int)
    requires b > 0
    ensures a >= 0 ==> q == a / b
    ensures a < 0 ==> q == -((-a) / b)
  {
    if a >= 0 then a / b else -((-a) / b)
  }

  lemma Le16RoundTrip(v: int)
    ensures FromLe16(Le16(v)) == Int16(v)
    ensures -0x8000 <= v < 0x8000 ==> FromLe16(Le16(v)) == v
  {
    var u := v % 0x1_0000;
    assert u == u % 256 + 256 * (u / 256);
  }

  lemma Le32RoundTrip(v: int)
    ensures FromLe32(Le32(v)) == Int32(v)
  {
    var u := v % 0x1_0000_0000;
    var q1 := u / 256;
    var q2 := q1 / 256;
    var q3 := q2 / 256;
    assert u == u % 256 + 256 * q1;
    assert q1 == q1 % 256 + 256 * q2;
    assert q2 == q2 % 256 + 256 * q3;
    assert q3 < 256;
    var b := Le32(v);
    assert b == [u % 256, q1 % 256, q2 % 256, q3];
    assert b[0] as int + 256 * b[1] as int + 0x1_0000 * b[2] as int + 0x100_0000 * b[3] as int == u;
  }

  /** Values that fit a C `short` are kept as they are. */
  lemma Int16Exact(v: int)
    requires -0x8000 <= v < 0x8000
    ensures Int16(v) == v
  {
  }

  /** Values that fit a C `int` are kept as they are. */
  lemma Int32Exact(v: int)
    requires -0x8000_0000 <= v < 0x8000_0000
    ensures Int32(v) == v
  {
  }

  // ---------------------------------------------------------------------------------------
  // The 44-byte header (struct WaveHeader, mcdRaw.c:56-71, filled at mcdRaw.c:299-311)

  const Riff: seq<byte> := [0x52, 0x49, 0x46, 0x46]       // "RIFF"
  const WaveTag: seq<byte> := [0x57, 0x41, 0x56, 0x45]    // "WAVE"
  const FmtTag: seq<byte> := [0x66, 0x6d, 0x74, 0x20]     // "fmt "
  const DataTag: seq<byte> := [0x64, 0x61, 0x74, 0x61]    // "data"

  const FormatDataLen: int := 16
  const PcmFormat: int := 1
  const MonoChannels: int := 1
  const SampleBits: int := 16

  /** The byte rate field: (rate * 16 * 1) / 8 evaluated in C `int` arithmetic. */
  function ByteRate(rate: int): (r: int)
    ensures -0x1000_0000 <= r <= 0x1000_0000
  {
    CDiv(Int32(Int32(rate) * SampleBits * MonoChannels), 8)
  }

  /** The members of struct WaveHeader. */
  datatype WaveFields = WaveFields(
    riff: seq<byte>, riffSize: int, wave: seq<byte>, fmt: seq<byte>, fmtLen: int,
    format: int, channels: int, sampleRate: int, byteRate: int, blockAlign: int,
    bitsPerSample: int, data: seq<byte>, dataSize: int)
  {
    /** Every tag has its four characters. */
    predicate Tagged()
    {
      |riff| == 4 && |wave| == 4 && |fmt| == 4 && |data| == 4
    }

    /** The members as the C struct holds them: the values after wrap-around. */
    function Stored(): WaveFields
    {
      this.(riffSize := Int32(riffSize), fmtLen := Int32(fmtLen), format := Int16(format),
            channels := Int16(channels), sampleRate := Int32(sampleRate),
            byteRate := Int32(byteRate), blockAlign := Int16(blockAlign),
            bitsPerSample := Int16(bitsPerSample), dataSize := Int32(dataSize))
    }
  }

  /** The 44 bytes of struct WaveHeader: its members in declaration order, with no padding. */
  function EncodeFields(f: WaveFields): (h: seq<byte>)
    requires f.Tagged()
    ensures |h| == HeaderSize
  {
    f.riff + Le32(f.riffSize) + f.wave + f.fmt + Le32(f.fmtLen)
    + Le16(f.format) + Le16(f.channels) + Le32(f.sampleRate) + Le32(f.byteRate)
    + Le16(f.blockAlign) + Le16(f.bitsPerSample) + f.data + Le32(f.dataSize)
  }

  /** Reads the members back from 44 bytes. */
  function ParseWaveHeader(b: seq<byte>): WaveFields
    requires |b| == HeaderSize
  {
    WaveFields(
      b[0..4], FromLe32(b[4..8]), b[8..12], b[12..16], FromLe32(b[16..20]),
      FromLe16(b[20..22]), FromLe16(b[22..24]), FromLe32(b[24..28]), FromLe32(b[28..32]),
      FromLe16(b[32..34]), FromLe16(b[34..36]), b[36..40], FromLe32(b[40..44]))
  }

  /** Where each member sits in the concatenation. */
  lemma Layout(a0: seq<byte>, a1: seq<byte>, a2: seq<byte>, a3: seq<byte>, a4: seq<byte>,
               a5: seq<byte>, a6: seq<byte>, a7: seq<byte>, a8: seq<byte>, a9: seq<byte>,
               a10: seq<byte>, a11: seq<byte>, a12: seq<byte>)
    requires |a0| == |a1| == |a2| == |a3| == |a4| == 4 && |a5| == |a6| == 2
    requires |a7| == |a8| == 4 && |a9| == |a10| == 2 && |a11| == |a12| == 4
    ensures var h := a0 + a1 + a2 + a3 + a4 + a5 + a6 + a7 + a8 + a9 + a10 + a11 + a12;
      && h[0..4] == a0 && h[4..8] == a1 && h[8..12] == a2 && h[12..16] == a3
      && h[16..20] == a4 && h[20..22] == a5 && h[22..24] == a6 && h[24..28] == a7
      && h[28..32] == a8 && h[32..34] == a9 && h[34..36] == a10 && h[36..40] == a11
      && h[40..44] == a12
  {
  }

  /** Reading an encoded header gives back its members as the C struct stores them. */
  lemma FieldsRoundTrip(f: WaveFields)
    requires f.Tagged()
    ensures ParseWaveHeader(EncodeFields(f)) == f.Stored()
  {
    Layout(f.riff, Le32(f.riffSize), f.wave, f.fmt, Le32(f.fmtLen), Le16(f.format),
           Le16(f.channels), Le32(f.sampleRate), Le32(f.byteRate), Le16(f.blockAlign),
           Le16(f.bitsPerSample), f.data, Le32(f.dataSize));
    Le32RoundTrip(f.riffSize);
    Le32RoundTrip(f.fmtLen);
    Le16RoundTrip(f.format);
    Le16RoundTrip(f.channels);
    Le32RoundTrip(f.sampleRate);
    Le32RoundTrip(f.byteRate);
    Le16RoundTrip(f.blockAlign);
    Le16RoundTrip(f.bitsPerSample);
    Le32RoundTrip(f.dataSize);
  }

  /** The values writeWaveHeader gives the members for a file of `fileSize` bytes whose
      samples play at `rate` Hz. */
  function HeaderFields(fileSize: int, rate: int): (f: WaveFields)
    ensures f.Tagged()
  {
    WaveFields(Riff, fileSize - 8, WaveTag, FmtTag, FormatDataLen, PcmFormat, MonoChannels,
               rate, ByteRate(rate), SampleBits * MonoChannels / 8, SampleBits, DataTag,
               fileSize - HeaderSize)
  }

  /** The header written for a file of `fileSize` bytes at `rate` Hz. */
  function WaveHeader(fileSize: int, rate: int): (h: seq<byte>)
    ensures |h| == HeaderSize
  {
    EncodeFields(HeaderFields(fileSize, rate))
  }

  /** Every member of the written header, as a reader sees it: RIFF size = file size - 8,
      a 16-byte PCM fmt chunk, one channel, the rate, the byte rate, block align 2, 16 bits,
      data size = file size - 44, sizes and rate as C `int` values. */
  lemma WaveHeaderFields(fileSize: int, rate: int)
    ensures ParseWaveHeader(WaveHeader(fileSize, rate)) == WaveFields(
      Riff, Int32(fileSize - 8), WaveTag, FmtTag, 16, 1, 1, Int32(rate), ByteRate(rate),
      2, 16, DataTag, Int32(fileSize - HeaderSize))
  {
    var f := HeaderFields(fileSize, rate);
    FieldsRoundTrip(f);
    Int32Exact(16);
    Int32Exact(ByteRate(rate));
    Int16Exact(1);
    Int16Exact(2);
    Int16Exact(16);
    assert f.blockAlign == 2;
  }

  /** For sizes and rates that fit, the header states exactly the file size minus 8, the
      rate, twice the rate as byte rate and the file size minus 44. */
  lemma WaveHeaderExact(fileSize: int, rate: int)
    requires HeaderSize <= fileSize < 0x8000_0000
    requires 0 <= rate < 0x800_0000
    ensures var f := ParseWaveHeader(WaveHeader(fileSize, rate));
      f.riffSize == fileSize - 8 && f.dataSize == fileSize - HeaderSize &&
      f.sampleRate == rate && f.byteRate == 2 * rate
  {
    WaveHeaderFields(fileSize, rate);
    Int32Exact(fileSize - 8);
    Int32Exact(fileSize - HeaderSize);
    Int32Exact(rate);
    ByteRateExact(rate);
  }

  /** For a rate below 2^27 the byte rate is twice the rate: nothing wraps around. */
  lemma ByteRateExact(rate: int)
    requires 0 <= rate < 0x800_0000
    ensures ByteRate(rate) == 2 * rate
  {
    Int32Exact(rate);
    Int32Exact(rate * 16);
    assert ByteRate(rate) == CDiv(rate * 16, 8);
  }

  // ---------------------------------------------------------------------------------------
  // Sample data

  /** Samples as the bytes fwrite stores on a little-endian host. */
  function EncodeSamples(xs: seq<Sample>): (b: seq<byte>)
    ensures |b| == 2 * |xs|
  {
    if xs == [] then [] else Le16(xs[0]) + EncodeSamples(xs[1..])
  }

  /** Bytes read back as 16-bit samples, pairwise, as fread of shorts does: a trailing odd
      byte is not a sample. */
  function DecodeSamples(b: seq<byte>): (xs: seq<Sample>)
    ensures |xs| == |b| / 2
  {
    if |b| < 2 then [] else [FromLe16(b[..2])] + DecodeSamples(b[2..])
  }

  lemma {:induction false} EncodeSamplesAppend(xs: seq<Sample>, ys: seq<Sample>)
    ensures EncodeSamples(xs + ys) == EncodeSamples(xs) + EncodeSamples(ys)
  {
    if xs == [] {
      assert xs + ys == ys;
    } else {
      var t := xs[1..];
      assert (xs + ys)[1..] == t + ys;
      EncodeSamplesAppend(t, ys);
      AppendAssoc(Le16(xs[0]), EncodeSamples(t), EncodeSamples(ys));
    }
  }

  lemma {:induction false} SamplesRoundTrip(xs: seq<Sample>)
    ensures DecodeSamples(EncodeSamples(xs)) == xs
  {
    if xs != [] {
      SamplesRoundTrip(xs[1..]);
      var b := EncodeSamples(xs);
      assert b[..2] == Le16(xs[0]);
      assert b[2..] == EncodeSamples(xs[1..]);
      Le16RoundTrip(xs[0]);
    }
  }

  /** The complete output file for the samples `xs` at `rate` Hz. */
  function WaveFile(rate: int, xs: seq<Sample>): (f: seq<byte>)
    ensures |f| == HeaderSize + 2 * |xs|
  {
    WaveHeader(HeaderSize + 2 * |xs|, rate) + EncodeSamples(xs)
  }

  lemma WaveFileParts(rate: int, xs: seq<Sample>)
    ensures WaveFile(rate, xs)[..HeaderSize] == WaveHeader(HeaderSize + 2 * |xs|, rate)
    ensures WaveFile(rate, xs)[HeaderSize..] == EncodeSamples(xs)
  {
    Prefix(WaveHeader(HeaderSize + 2 * |xs|, rate), EncodeSamples(xs));
  }

  lemma Prefix(h: seq<byte>, e: seq<byte>)
    ensures (h + e)[..|h|] == h && (h + e)[|h|..] == e
  {
  }

  /** A reader recovers the header's claims and the samples from a written file. */
  lemma WaveFileRoundTrip(rate: int, xs: seq<Sample>)
    ensures var f := WaveFile(rate, xs);
      && ParseWaveHeader(f[..HeaderSize]).dataSize == Int32(2 * |xs|)
      && ParseWaveHeader(f[..HeaderSize]).sampleRate == Int32(rate)
      && DecodeSamples(f[HeaderSize..]) == xs
  {
    var n := HeaderSize + 2 * |xs|;
    WaveFileParts(rate, xs);
    WaveHeaderFields(n, rate);
    var p := ParseWaveHeader(WaveHeader(n, rate));
    assert p.dataSize == Int32(n - HeaderSize) && p.sampleRate == Int32(rate);
    assert n - HeaderSize == 2 * |xs|;
    SamplesRoundTrip(xs);
  }

  // ---------------------------------------------------------------------------------------
  // swap_short / swap_int of the SWAP_ENDIAN build (mcdRaw.c:255-268)

  /** (val << 8) | ((val >> 8) & 0xFF), truncated to a short. */
  function SwapShort(v: bv16): (r: bv16)
    ensures r & 0xFF == (v >> 8) && r >> 8 == v & 0xFF
  {
    (v << 8) | ((v >> 8) & 0xFF)
  }

  /** The two-step exchange of bytes 0/1 and 2/3, then of the two halves. */
  function SwapInt(v: bv32): (r: bv32)
    ensures r & 0xFF == (v >> 24) & 0xFF
    ensures (r >> 8) & 0xFF == (v >> 16) & 0xFF
    ensures (r >> 16) & 0xFF == (v >> 8) & 0xFF
    ensures (r >> 24) & 0xFF == v & 0xFF
  {
    var w := ((v << 8) & 0xFF00FF00) | ((v >> 8) & 0xFF00FF);
    (w << 16) | ((w >> 16) & 0xFFFF)
  }

  lemma SwapShortInvolution(v: bv16)
    ensures SwapShort(SwapShort(v)) == v
  {
  }

  lemma SwapIntInvolution(v: bv32)
    ensures SwapInt(SwapInt(v)) == v
  {
  }
}
