/** Reading and writing of 16-bit PCM WAV files in audio-addon/src/pcm-wav.ts, byte by byte. */
module PcmWav {
  import opened Arithmetic
  import opened Options

  type Byte = b: int | 0 <= b < 256
  type Sample = s: int | -32768 <= s < 32768

  datatype Error = NotRiffWave | MissingChunk | Unsupported | OutOfRange
  datatype Result<+T> = Ok(value: T) | Err(error: Error)
  datatype Wav = Wav(sampleRate: nat, samples: seq<Sample>)

  const LIMIT16 := 0x1_0000
  const LIMIT32 := 0x1_0000_0000

  // ---- numbers as bytes, least significant first ----

  function LE16(v: nat): (b: seq<Byte>)
    requires v < LIMIT16
    ensures |b| == 2
  {
    [v % 256, v / 256]
  }

  function LE32(v: nat): (b: seq<Byte>)
    requires v < LIMIT32
    ensures |b| == 4
  {
    [v % 256, v / 256 % 256, v / 65536 % 256, v / 16777216]
  }

  function U16(b: seq<Byte>, o: nat): (v: nat)
    requires o + 2 <= |b|
    ensures v < LIMIT16
  {
    b[o] as int + 256 * b[o + 1] as int
  }

  function U32(b: seq<Byte>, o: nat): (v: nat)
    requires o + 4 <= |b|
    ensures v < LIMIT32
  {
    b[o] as int + 256 * b[o + 1] as int + 65536 * b[o + 2] as int + 16777216 * b[o + 3] as int
  }

  function I16(b: seq<Byte>, o: nat): (r: Sample)
    requires o + 2 <= |b|
  {
    if U16(b, o) < 32768 then U16(b, o) else U16(b, o) - LIMIT16
  }

  function SampleLE(s: Sample): (b: seq<Byte>)
    ensures |b| == 2
  {
    LE16(if s < 0 then s + LIMIT16 else s)
  }

  function SamplesLE(samples: seq<Sample>): (b: seq<Byte>)
    ensures |b| == 2 * |samples|
  {
    if samples == [] then [] else SamplesLE(samples[..|samples| - 1]) + SampleLE(samples[|samples| - 1])
  }

  /** `toString('ascii')` drops the high bit of every byte. */
  function Ascii(b: seq<Byte>): (s: string)
    ensures |s| == |b|
  {
    seq(|b|, i requires 0 <= i < |b| => (b[i] % 128) as char)
  }

  function AsciiBytes(s: string): (b: seq<Byte>)
    requires forall c <- s :: c < 128 as char
    ensures |b| == |s|
  {
    seq<Byte>(|s|, i requires 0 <= i < |s| => assert s[i] in s; s[i] as int as Byte)
  }

  // ---- reading ----

  datatype Format = Format(audioFormat: nat, channels: nat, sampleRate: nat, bitsPerSample: nat)
  datatype Span = Span(offset: nat, len: nat)

  /** What the walk over the chunks has found so far. */
  datatype Found = Found(fmt: Maybe<Format>, data: Maybe<Span>)

  function FormatAt(b: seq<Byte>, o: nat): (r: Format)
    requires o + 16 <= |b|
  {
    Format(U16(b, o), U16(b, o + 2), U32(b, o + 4), U16(b, o + 14))
  }

  /** Chunk after chunk; a format chunk cut short by the end of the file is a range error. */
  function Walk(b: seq<Byte>, offset: nat, f: Found): (r: Result<Found>)
    decreases |b| - offset
  {
    if offset + 8 > |b| then Ok(f)
    else
      var id, size := Ascii(b[offset..offset + 4]), U32(b, offset + 4);
      var next := offset + 8 + size + size % 2;
      if id == "fmt " then
        if offset + 24 > |b| then Err(OutOfRange) else Walk(b, next, f.(fmt := Just(FormatAt(b, offset + 8))))
      else if id == "data" then Walk(b, next, f.(data := Just(Span(offset + 8, size))))
      else Walk(b, next, f)
  }

  function Sum(b: seq<Byte>, o: nat, count: nat): (r: int)
    requires o + 2 * count <= |b|
  {
    if count == 0 then 0 else Sum(b, o, count - 1) + I16(b, o + 2 * (count - 1))
  }

  /** `Math.round(sum / count)`: to the nearest integer, halves upwards. */
  function Mean(sum: int, count: nat): (r: int)
    requires count > 0
  {
    (2 * sum + count) / (2 * count)
  }

  lemma MeanBetween(sum: int, count: nat, lo: int, hi: int)
    requires count > 0 && lo * count <= sum <= hi * count
    ensures lo <= Mean(sum, count) <= hi
  {
    var q := Mean(sum, count);
    var r := (2 * sum + count) % (2 * count);
    assert q * (2 * count) + r == 2 * sum + count;
    if q + 1 <= lo { Times(q + 1, lo, 2 * count); }
    if hi + 1 <= q { Times(hi + 1, q, 2 * count); }
  }

  lemma {:induction false} SumBetween(b: seq<Byte>, o: nat, count: nat)
    requires o + 2 * count <= |b|
    ensures -32768 * count <= Sum(b, o, count) <= 32767 * count
  {
    if count > 0 { SumBetween(b, o, count - 1); }
  }

  /** One frame averaged over its channels. */
  function Frame(b: seq<Byte>, o: nat, channels: nat): (r: Sample)
    requires channels > 0 && o + 2 * channels <= |b|
  {
    SumBetween(b, o, channels);
    MeanBetween(Sum(b, o, channels), channels, -32768, 32767);
    Mean(Sum(b, o, channels), channels)
  }

  function Frames(b: seq<Byte>, o: nat, channels: nat, count: nat): (s: seq<Sample>)
    requires channels > 0 && o + count * (2 * channels) <= |b|
    ensures |s| == count
  {
    if count == 0 then []
    else
      Room(channels, count);
      Frames(b, o, channels, count - 1) + [Frame(b, o + (count - 1) * (2 * channels), channels)]
  }

  lemma Room(channels: nat, count: nat)
    requires count > 0
    ensures (count - 1) * (2 * channels) + 2 * channels == count * (2 * channels)
  {
  }

  /** Whole frames in a data chunk of `len` bytes. */
  function FrameCount(len: nat, frame: nat): (r: nat)
    requires frame > 0
  {
    len / frame
  }

  /** The frames a data chunk holds. Zero channels leave no frame of an empty chunk and fail on any other. */
  function Decode(b: seq<Byte>, fmt: Format, data: Span): (r: Result<Wav>)
    requires data.offset <= |b|
  {
    if fmt.audioFormat != 1 || fmt.bitsPerSample != 16 then Err(Unsupported)
    else if fmt.channels == 0 then if data.len == 0 then Ok(Wav(fmt.sampleRate, [])) else Err(OutOfRange)
    else
      var count := FrameCount(data.len, 2 * fmt.channels);
      if data.offset + count * (2 * fmt.channels) > |b| then Err(OutOfRange)
      else Ok(Wav(fmt.sampleRate, Frames(b, data.offset, fmt.channels, count)))
  }

  lemma {:induction false} WalkFindsInside(b: seq<Byte>, offset: nat, f: Found)
    requires f.data.Just? ==> f.data.value.offset <= |b|
    ensures var r := Walk(b, offset, f);
            r.Ok? && r.value.data.Just? ==> r.value.data.value.offset <= |b|
    decreases |b| - offset
  {
    hide Ascii, FormatAt;
    if offset + 8 <= |b| {
      var size := U32(b, offset + 4);
      var next := offset + 8 + size + size % 2;
      if Ascii(b[offset..offset + 4]) == "fmt " {
        if offset + 24 <= |b| { WalkFindsInside(b, next, f.(fmt := Just(FormatAt(b, offset + 8)))); }
      } else if Ascii(b[offset..offset + 4]) == "data" {
        WalkFindsInside(b, next, f.(data := Just(Span(offset + 8, size))));
      } else {
        WalkFindsInside(b, next, f);
      }
    }
  }

  const NOTHING_FOUND := Found(Nothing, Nothing)

  predicate IsRiffWave(b: seq<Byte>) {
    |b| >= 12 && Ascii(b[..4]) == "RIFF" && Ascii(b[8..12]) == "WAVE"
  }

  /** The outcome of reading a whole file. */
  function Read(b: seq<Byte>): (r: Result<Wav>) {
    if !IsRiffWave(b) then Err(NotRiffWave)
    else
      WalkFindsInside(b, 12, NOTHING_FOUND);
      match Walk(b, 12, NOTHING_FOUND)
      case Err(e) => Err(e)
      case Ok(f) =>
        if f.fmt.Nothing? || f.data.Nothing? then Err(MissingChunk) else Decode(b, f.fmt.value, f.data.value)
  }

  /** The loop over the chunks. */
  method FindChunks(buf: array<Byte>) returns (r: Result<Found>)
    requires buf.Length >= 12
    ensures r == Walk(buf[..], 12, NOTHING_FOUND)
  {
    hide Ascii, U16, U32, FormatAt;
    ghost var b := buf[..];
    var offset := 12;
    var fmt: Maybe<Format> := Nothing;
    var data: Maybe<Span> := Nothing;
    while offset + 8 <= buf.Length
      invariant Walk(b, offset, Found(fmt, data)) == Walk(b, 12, NOTHING_FOUND)
      decreases buf.Length - offset
    {
      assert buf[offset..offset + 4] == b[offset..offset + 4];
      var id := Ascii(buf[offset..offset + 4]);
      var size := U32(buf[..], offset + 4);
      if id == "fmt " {
        if offset + 24 > buf.Length { return Err(OutOfRange); }
        fmt := Just(FormatAt(buf[..], offset + 8));
      } else if id == "data" {
        data := Just(Span(offset + 8, size));
      }
      offset := offset + 8 + size + size % 2;
    }
    return Ok(Found(fmt, data));
  }

  /** `readWavPcm16` */
  method ReadWavPcm16(buf: array<Byte>) returns (r: Result<Wav>)
    ensures r == Read(buf[..])
  {
    hide Ascii, Walk, Decode;
    if buf.Length < 12 || Ascii(buf[..4]) != "RIFF" || Ascii(buf[8..12]) != "WAVE" { return Err(NotRiffWave); }
    assert buf[..4] == buf[..][..4] && buf[8..12] == buf[..][8..12];
    var found := FindChunks(buf);
    if found.Err? { return Err(found.error); }
    WalkFindsInside(buf[..], 12, NOTHING_FOUND);
    var f := found.value;
    if f.fmt.Nothing? || f.data.Nothing? { return Err(MissingChunk); }
    r := DecodeData(buf, f.fmt.value, f.data.value);
  }

  method DecodeData(buf: array<Byte>, fmt: Format, data: Span) returns (r: Result<Wav>)
    requires data.offset <= buf.Length
    ensures r == Decode(buf[..], fmt, data)
  {
    if fmt.audioFormat != 1 || fmt.bitsPerSample != 16 { return Err(Unsupported); }
    if fmt.channels == 0 {
      return if data.len == 0 then Ok(Wav(fmt.sampleRate, [])) else Err(OutOfRange);
    }
    var frameCount := FrameCount(data.len, 2 * fmt.channels);
    var samples: array<Sample> := new Sample[frameCount];
    var at := data.offset;
    for i := 0 to frameCount
      invariant at == data.offset + i * (2 * fmt.channels) <= buf.Length
      invariant samples[..i] == Frames(buf[..], data.offset, fmt.channels, i)
    {
      hide Mean, Sum, I16, FrameCount, Frame;
      Room(fmt.channels, i + 1);
      if at + 2 * fmt.channels > buf.Length {
        Fits(data.offset, 2 * fmt.channels, i + 1, frameCount);
        return Err(OutOfRange);
      }
      samples[i] := ReadFrame(buf, at, fmt.channels);
      assert samples[..i + 1] == samples[..i] + [samples[i]];
      at := at + 2 * fmt.channels;
    }
    assert samples[..] == samples[..frameCount];
    return Ok(Wav(fmt.sampleRate, samples[..]));
  }

  lemma Fits(offset: nat, frame: nat, i: nat, count: nat)
    requires i <= count
    ensures offset + i * frame <= offset + count * frame
  {
  }

  /** The inner loop over the channels; one channel is read as it is. */
  method ReadFrame(buf: array<Byte>, at: nat, channels: nat) returns (s: Sample)
    requires channels > 0 && at + 2 * channels <= buf.Length
    ensures s == Frame(buf[..], at, channels)
  {
    hide I16;
    if channels == 1 {
      s := I16(buf[..], at);
      assert Sum(buf[..], at, 1) == Sum(buf[..], at, 0) + I16(buf[..], at + 2 * 0);
      return;
    }
    var sum := 0;
    for c := 0 to channels
      invariant sum == Sum(buf[..], at, c)
    {
      sum := sum + I16(buf[..], at + c * 2);
    }
    SumBetween(buf[..], at, channels);
    MeanBetween(sum, channels, -32768, 32767);
    s := Mean(sum, channels);
  }

  // ---- writing ----

  function FmtPayload(sampleRate: nat): (b: seq<Byte>)
    requires 2 * sampleRate < LIMIT32
    ensures |b| == 16
  {
    LE16(1) + LE16(1) + LE32(sampleRate) + LE32(2 * sampleRate) + LE16(2) + LE16(16)
  }

  /** A chunk: its four-byte name, its size, its payload, and a pad byte after an odd payload. */
  datatype Chunk = Chunk(id: seq<Byte>, payload: seq<Byte>, pad: Byte) {
    predicate Valid() {
      |id| == 4 && |payload| < LIMIT32
    }

    function Bytes(): (b: seq<Byte>)
      requires Valid()
      ensures |b| == 8 + |payload| + |payload| % 2
    {
      id + LE32(|payload|) + payload + if |payload| % 2 == 1 then [pad] else []
    }
  }

  predicate AllValid(cs: seq<Chunk>) {
    forall c <- cs :: c.Valid()
  }

  function ChunkBytes(cs: seq<Chunk>): (r: seq<Byte>)
    requires AllValid(cs)
  {
    if cs == [] then [] else cs[0].Bytes() + ChunkBytes(cs[1..])
  }

  /** A RIFF/WAVE file: the outer header, the chunks and fewer than eight stray bytes. */
  function RiffBytes(size: seq<Byte>, cs: seq<Chunk>, tail: seq<Byte>): (r: seq<Byte>)
    requires |size| == 4 && AllValid(cs)
  {
    AsciiBytes("RIFF") + size + AsciiBytes("WAVE") + ChunkBytes(cs) + tail
  }

  predicate FitsWav(sampleRate: nat, samples: seq<Sample>) {
    36 + 2 * |samples| < LIMIT32 && 2 * sampleRate < LIMIT32
  }

  function WavChunks(sampleRate: nat, samples: seq<Sample>): (cs: seq<Chunk>)
    requires FitsWav(sampleRate, samples)
    ensures AllValid(cs)
  {
    [Chunk(AsciiBytes("fmt "), FmtPayload(sampleRate), 0), Chunk(AsciiBytes("data"), SamplesLE(samples), 0)]
  }

  /** A mono file as the format lays it out: a RIFF file of one format chunk and one data chunk. */
  function WavBytes(sampleRate: nat, samples: seq<Sample>): (r: seq<Byte>)
    requires FitsWav(sampleRate, samples)
  {
    RiffBytes(LE32(36 + 2 * |samples|), WavChunks(sampleRate, samples), [])
  }

  method Put(buf: array<Byte>, bytes: seq<Byte>, at: nat)
    requires at + |bytes| <= buf.Length
    modifies buf
    ensures buf[..at + |bytes|] == old(buf[..at]) + bytes
  {
    for i := 0 to |bytes|
      invariant buf[..at + i] == old(buf[..at]) + bytes[..i]
    {
      buf[at + i] := bytes[i];
      assert buf[..at + i + 1] == buf[..at + i] + [bytes[i]];
    }
  }

  /** `writeUInt32LE`, which throws on a value that does not fit. */
  method PutUInt32(buf: array<Byte>, v: nat, at: nat) returns (ok: bool)
    requires at + 4 <= buf.Length
    modifies buf
    ensures ok == (v < LIMIT32)
    ensures ok ==> buf[..at + 4] == old(buf[..at]) + LE32(v)
  {
    ok := v < LIMIT32;
    if ok { Put(buf, LE32(v), at); }
  }

  /** The 44 bytes before the samples. */
  ghost function Header(sampleRate: nat, dataLen: nat): (r: seq<Byte>)
    requires 36 + dataLen < LIMIT32 && 2 * sampleRate < LIMIT32
  {
    AsciiBytes("RIFF") + LE32(36 + dataLen) + AsciiBytes("WAVE") + FmtHeader(sampleRate)
    + (AsciiBytes("data") + LE32(dataLen))
  }

  ghost function FmtHeader(sampleRate: nat): (b: seq<Byte>)
    requires 2 * sampleRate < LIMIT32
    ensures |b| == 24
  {
    AsciiBytes("fmt ") + LE32(16) + FmtPayload(sampleRate)
  }

  method PutFmt(buf: array<Byte>, sampleRate: nat) returns (ok: bool)
    requires buf.Length >= 36
    modifies buf
    ensures ok == (2 * sampleRate < LIMIT32)
    ensures ok ==> buf[..36] == old(buf[..12]) + FmtHeader(sampleRate)
  {
    hide AsciiBytes, LE16, LE32;
    Put(buf, AsciiBytes("fmt "), 12);
    ok := PutUInt32(buf, 16, 16);
    Put(buf, LE16(1), 20);
    Put(buf, LE16(1), 22);
    ok := PutUInt32(buf, sampleRate, 24);
    if !ok { return; }
    ok := PutUInt32(buf, sampleRate * 2, 28);
    if !ok { return; }
    Put(buf, LE16(2), 32);
    Put(buf, LE16(16), 34);
  }

  method PutHeader(buf: array<Byte>, sampleRate: nat, dataLen: nat) returns (ok: bool)
    requires buf.Length >= 44
    modifies buf
    ensures ok == (36 + dataLen < LIMIT32 && 2 * sampleRate < LIMIT32)
    ensures ok ==> buf[..44] == Header(sampleRate, dataLen)
  {
    hide AsciiBytes, LE16, LE32, FmtHeader;
    Put(buf, AsciiBytes("RIFF"), 0);
    ok := PutUInt32(buf, 36 + dataLen, 4);
    if !ok { return; }
    Put(buf, AsciiBytes("WAVE"), 8);
    ok := PutFmt(buf, sampleRate);
    if !ok { return; }
    Put(buf, AsciiBytes("data"), 36);
    ok := PutUInt32(buf, dataLen, 40);
  }

  /** `writeWavPcm16Mono`: the file's bytes, or the range error of a size or rate that does not fit. */
  method WriteWavPcm16Mono(wav: Wav) returns (r: Result<seq<Byte>>)
    ensures r == if FitsWav(wav.sampleRate, wav.samples) then Ok(WavBytes(wav.sampleRate, wav.samples))
                 else Err(OutOfRange)
  {
    hide Header, SampleLE, WavBytes;
    var dataLen := |wav.samples| * 2;
    var buf := new Byte[44 + dataLen](_ => 0);
    var ok := PutHeader(buf, wav.sampleRate, dataLen);
    if !ok { return Err(OutOfRange); }
    ghost var header := buf[..44];
    for i := 0 to |wav.samples|
      invariant buf[..44 + i * 2] == header + SamplesLE(wav.samples[..i])
    {
      assert wav.samples[..i + 1][..i] == wav.samples[..i];
      Put(buf, SampleLE(wav.samples[i]), 44 + i * 2);
    }
    HeaderIs(wav);
    assert wav.samples[..|wav.samples|] == wav.samples && buf[..44 + dataLen] == buf[..];
    return Ok(buf[..]);
  }

  lemma HeaderIs(wav: Wav)
    requires FitsWav(wav.sampleRate, wav.samples)
    ensures Header(wav.sampleRate, |wav.samples| * 2) + SamplesLE(wav.samples) == WavBytes(wav.sampleRate, wav.samples)
  {
    hide AsciiBytes, LE16, LE32, SamplesLE;
    var cs := WavChunks(wav.sampleRate, wav.samples);
    assert ChunkBytes(cs) == cs[0].Bytes() + (cs[1].Bytes() + ChunkBytes([])) by {
      assert cs[1..] == [cs[1]] && [cs[1]][1..] == [];
    }
  }

  // ---- a file's chunks decide what is read ----

  lemma LE32Value(v: nat)
    requires v < LIMIT32
    ensures U32(LE32(v), 0) == v
  {
    Quarters(v);
    var a, b := v / 256, v / 256 / 256;
    assert v == 256 * a + v % 256 && a == 256 * b + a % 256 && b == 256 * (b / 256) + b % 256;
  }

  lemma Quarters(v: nat)
    ensures v / 65536 == v / 256 / 256 && v / 16777216 == v / 256 / 256 / 256
  {
  }

  lemma SampleValue(s: Sample)
    ensures I16(SampleLE(s), 0) == s
  {
  }

  lemma NameValue(name: string)
    requires forall c <- name :: c < 128 as char
    ensures Ascii(AsciiBytes(name)) == name
  {
    forall i | 0 <= i < |name|
      ensures Ascii(AsciiBytes(name))[i] == name[i]
    {
      assert name[i] in name;
    }
  }

  lemma Inside(pre: seq<Byte>, part: seq<Byte>, post: seq<Byte>, k: nat)
    requires k <= |part|
    ensures k + 2 <= |part| ==> U16(pre + part + post, |pre| + k) == U16(part, k)
    ensures k + 4 <= |part| ==> U32(pre + part + post, |pre| + k) == U32(part, k)
    ensures k + 16 <= |part| ==> FormatAt(pre + part + post, |pre| + k) == FormatAt(part, k)
  {
    var b := pre + part + post;
    assert forall i | k <= i < |part| :: b[|pre| + i] == part[i];
  }

  /** The payload of the last chunk of a given name. */
  function LastPayload(cs: seq<Chunk>, name: string): (r: Maybe<seq<Byte>>) {
    if cs == [] then Nothing
    else
      var later := LastPayload(cs[1..], name);
      if later.Just? then later else if Ascii(cs[0].id) == name then Just(cs[0].payload) else Nothing
  }

  /** The file from the payload of its first chunk on. */
  function FromPayload(cs: seq<Chunk>, tail: seq<Byte>): (b: seq<Byte>)
    requires cs != [] && AllValid(cs)
  {
    (ChunkBytes(cs) + tail)[8..]
  }

  /** The file from the payload of its last format chunk on: sixteen bytes of it are read as the format, even where
      the chunk declares fewer. */
  function LastFormat(cs: seq<Chunk>, tail: seq<Byte>): (b: Maybe<seq<Byte>>)
    requires AllValid(cs)
  {
    if cs == [] then Nothing
    else
      var later := LastFormat(cs[1..], tail);
      if later.Just? then later else if Ascii(cs[0].id) == "fmt " then Just(FromPayload(cs, tail)) else Nothing
  }

  /** Sixteen bytes follow wherever a format chunk's payload starts. */
  predicate FormatsFit(cs: seq<Chunk>, tail: seq<Byte>)
    requires AllValid(cs)
  {
    cs == [] || ((Ascii(cs[0].id) == "fmt " ==> |FromPayload(cs, tail)| >= 16) && FormatsFit(cs[1..], tail))
  }

  predicate FullFormats(cs: seq<Chunk>) {
    forall c <- cs :: Ascii(c.id) == "fmt " ==> |c.payload| >= 16
  }

  /** A format chunk that declares sixteen bytes or more is read from its own payload. */
  lemma {:induction false} FullFormatsRead(cs: seq<Chunk>, tail: seq<Byte>)
    requires AllValid(cs) && FullFormats(cs)
    ensures var fmt, own := LastFormat(cs, tail), LastPayload(cs, "fmt ");
            && FormatsFit(cs, tail) && (fmt.Just? <==> own.Just?)
            && (own.Just? ==> |own.value| >= 16 && |fmt.value| >= 16
                              && FormatAt(fmt.value, 0) == FormatAt(own.value, 0))
  {
    hide Ascii, FormatAt, LE32, ChunkBytes;
    if cs != [] {
      var c, rest := cs[0], cs[1..];
      assert c in cs;
      FullFormatsRead(rest, tail);
      ChunksCons([], cs, tail);
      var after := PayloadThen(c, ChunkBytes(rest) + tail);
      if |c.payload| >= 16 { FormatIn(c.payload, after); }
    }
  }

  ghost predicate Holds(b: seq<Byte>, span: Span, part: seq<Byte>) {
    span.len == |part| && span.offset + span.len <= |b| && b[span.offset..span.offset + span.len] == part
  }

  lemma HoldsFits(b: seq<Byte>, span: Span, part: seq<Byte>)
    requires Holds(b, span, part)
    ensures span.offset + |part| <= |b|
  {
  }

  lemma FormatIn(part: seq<Byte>, after: seq<Byte>)
    requires |part| >= 16
    ensures FormatAt(part + after, 0) == FormatAt(part, 0)
  {
    hide FormatAt;
    assert [] + part + after == part + after;
    Inside([], part, after, 0);
  }

  /** After its eight bytes of name and size a chunk goes on with its payload. */
  lemma PayloadThen(c: Chunk, post: seq<Byte>) returns (after: seq<Byte>)
    requires c.Valid()
    ensures (c.Bytes() + post)[8..] == c.payload + after
    ensures after == (if |c.payload| % 2 == 1 then [c.pad] else []) + post
  {
    hide LE32;
    after := (if |c.payload| % 2 == 1 then [c.pad] else []) + post;
    assert c.Bytes() + post == (c.id + LE32(|c.payload|)) + (c.payload + after);
  }

  /** One chunk of the walk. */
  lemma WalkChunk(pre: seq<Byte>, c: Chunk, post: seq<Byte>, f: Found)
    requires c.Valid()
    ensures var b, from := pre + c.Bytes() + post, (c.Bytes() + post)[8..];
            && Holds(b, Span(|pre| + 8, |c.payload|), c.payload)
            && Walk(b, |pre|, f) ==
                 if Ascii(c.id) == "fmt " && |from| < 16 then Err(OutOfRange)
                 else Walk(b, |pre + c.Bytes()|, TakeChunk(|pre|, c, from, f))
  {
    hide Ascii, LE32, U32, FormatAt, Walk;
    var b := pre + c.Bytes() + post;
    var from := (c.Bytes() + post)[8..];
    HeaderReads(pre, c, post);
    var after := PayloadThen(c, post);
    PayloadAt(pre, c, post);
    if |from| >= 16 { FormatAfter(b[..|pre| + 8], from); }
    WalkStep(b, |pre|, c.id, |c.payload|, f);
  }

  /** What a chunk adds to what was found; `from` is the file from its payload on. */
  function TakeChunk(at: nat, c: Chunk, from: seq<Byte>, f: Found): (g: Found)
    requires Ascii(c.id) == "fmt " ==> |from| >= 16
  {
    if Ascii(c.id) == "fmt " then f.(fmt := Just(FormatAt(from, 0)))
    else if Ascii(c.id) == "data" then f.(data := Just(Span(at + 8, |c.payload|)))
    else f
  }

  lemma HeaderReads(pre: seq<Byte>, c: Chunk, post: seq<Byte>)
    requires c.Valid()
    ensures var b := pre + c.Bytes() + post;
            b[|pre|..|pre| + 4] == c.id && U32(b, |pre| + 4) == |c.payload|
  {
    hide LE32, U32;
    var size, pad := LE32(|c.payload|), if |c.payload| % 2 == 1 then [c.pad] else [];
    ChunkLayout(pre, c.id, size, c.payload, pad, post);
    Inside(pre + c.id, size, c.payload + pad + post, 0);
    LE32Value(|c.payload|);
  }

  lemma PayloadAt(pre: seq<Byte>, c: Chunk, post: seq<Byte>)
    requires c.Valid()
    ensures var b := pre + c.Bytes() + post;
            b == b[..|pre| + 8] + (c.Bytes() + post)[8..] && Holds(b, Span(|pre| + 8, |c.payload|), c.payload)
  {
    hide LE32;
    var size, pad := LE32(|c.payload|), if |c.payload| % 2 == 1 then [c.pad] else [];
    ChunkLayout(pre, c.id, size, c.payload, pad, post);
    var b := pre + c.Bytes() + post;
    assert b == pre + (c.Bytes() + post);
    assert b[|pre| + 8..] == (c.Bytes() + post)[8..];
  }

  lemma FormatAfter(pre: seq<Byte>, part: seq<Byte>)
    requires |part| >= 16
    ensures FormatAt(pre + part, |pre|) == FormatAt(part, 0)
  {
    hide FormatAt;
    assert pre + part + [] == pre + part;
    Inside(pre, part, [], 0);
  }

  lemma ChunkLayout(pre: seq<Byte>, id: seq<Byte>, size: seq<Byte>, payload: seq<Byte>, pad: seq<Byte>, post: seq<Byte>)
    ensures var b, at := pre + (id + size + payload + pad) + post, |pre + id + size|;
            && b == pre + id + size + (payload + pad + post) == pre + id + size + payload + (pad + post)
            && b[|pre|..|pre| + |id|] == id && b[at..at + |payload|] == payload
  {
  }

  lemma WalkStep(b: seq<Byte>, offset: nat, id: seq<Byte>, size: nat, f: Found)
    requires offset + 8 + size <= |b| && b[offset..offset + 4] == id && U32(b, offset + 4) == size
    ensures Walk(b, offset, f) ==
              if Ascii(id) == "fmt " && offset + 24 > |b| then Err(OutOfRange)
              else Walk(b, offset + 8 + size + size % 2,
                if Ascii(id) == "fmt " then f.(fmt := Just(FormatAt(b, offset + 8)))
                else if Ascii(id) == "data" then f.(data := Just(Span(offset + 8, size)))
                else f)
  {
    hide Ascii, U32, FormatAt;
  }

  lemma WalkStops(b: seq<Byte>, offset: nat, f: Found)
    requires offset + 8 > |b|
    ensures Walk(b, offset, f) == Ok(f)
  {
  }

  lemma NoChunks(pre: seq<Byte>, tail: seq<Byte>)
    ensures pre + ChunkBytes([]) + tail == pre + tail
  {
    assert pre + [] == pre;
  }

  lemma ChunksCons(pre: seq<Byte>, cs: seq<Chunk>, tail: seq<Byte>)
    requires cs != [] && AllValid(cs)
    ensures var c, rest := cs[0], cs[1..];
            && c in cs
            && pre + ChunkBytes(cs) + tail == pre + c.Bytes() + (ChunkBytes(rest) + tail)
            && ChunkBytes(cs) + tail == c.Bytes() + (ChunkBytes(rest) + tail)
            && pre + ChunkBytes(cs) + tail == pre + c.Bytes() + ChunkBytes(rest) + tail
  {
    RegroupChunks(pre, cs[0].Bytes(), ChunkBytes(cs[1..]), tail);
    RegroupChunks([], cs[0].Bytes(), ChunkBytes(cs[1..]), tail);
    assert [] + cs[0].Bytes() == cs[0].Bytes() && [] + ChunkBytes(cs) == ChunkBytes(cs);
  }

  lemma RegroupChunks(a: seq<Byte>, b: seq<Byte>, c: seq<Byte>, d: seq<Byte>)
    ensures a + (b + c) + d == a + b + c + d == a + b + (c + d)
  {
  }

  /** Walking over a list of chunks finds the last format and the last data. */
  lemma {:induction false} WalkChunks(pre: seq<Byte>, cs: seq<Chunk>, tail: seq<Byte>, f: Found)
    requires AllValid(cs) && |tail| < 8
    ensures var b, fmt, data := pre + ChunkBytes(cs) + tail, LastFormat(cs, tail), LastPayload(cs, "data");
            if !FormatsFit(cs, tail) then Walk(b, |pre|, f) == Err(OutOfRange)
            else
              && Walk(b, |pre|, f).Ok?
              && (fmt.Just? ==> |fmt.value| >= 16)
              && var g := Walk(b, |pre|, f).value;
                 && g.fmt == (if fmt.Just? then Just(FormatAt(fmt.value, 0)) else f.fmt)
                 && (data.Nothing? ==> g.data == f.data)
                 && (data.Just? ==> g.data.Just? && Holds(b, g.data.value, data.value))
    decreases |cs|
  {
    hide Ascii, FormatAt, U32, Holds, Walk, ChunkBytes;
    if cs == [] {
      NoChunks(pre, tail);
      WalkStops(pre + tail, |pre|, f);
    } else {
      var c, rest := cs[0], cs[1..];
      var post := ChunkBytes(rest) + tail;
      assert c in cs;
      WalkChunk(pre, c, post, f);
      ChunksCons(pre, cs, tail);
      var from := FromPayload(cs, tail);
      if Ascii(c.id) != "fmt " || |from| >= 16 {
        WalkChunks(pre + c.Bytes(), rest, tail, TakeChunk(|pre|, c, from, f));
      }
    }
  }

  /** The samples of a data payload under a format payload. */
  function DecodePayloads(fmt: seq<Byte>, data: seq<Byte>): (r: Result<Wav>)
    requires |fmt| >= 16
  {
    Decode(data, FormatAt(fmt, 0), Span(0, |data|))
  }

  lemma {:induction false} SumInside(b: seq<Byte>, offset: nat, part: seq<Byte>, o: nat, count: nat)
    requires Holds(b, Span(offset, |part|), part) && o + 2 * count <= |part|
    ensures Sum(b, offset + o, count) == Sum(part, o, count)
  {
    if count > 0 {
      SumInside(b, offset, part, o, count - 1);
      var k := o + 2 * (count - 1);
      assert b[offset..offset + |part|][k] == part[k] && b[offset..offset + |part|][k + 1] == part[k + 1];
    }
  }

  lemma {:induction false} FramesInside(b: seq<Byte>, offset: nat, part: seq<Byte>, channels: nat, count: nat)
    requires Holds(b, Span(offset, |part|), part) && channels > 0 && count * (2 * channels) <= |part|
    ensures Frames(b, offset, channels, count) == Frames(part, 0, channels, count)
  {
    hide Holds, Mean, Sum;
    HoldsFits(b, Span(offset, |part|), part);
    if count > 0 {
      Room(channels, count);
      FramesInside(b, offset, part, channels, count - 1);
      SumInside(b, offset, part, (count - 1) * (2 * channels), channels);
    }
  }

  lemma CountFits(len: nat, frame: nat)
    requires frame > 0
    ensures FrameCount(len, frame) * frame <= len
  {
  }

  lemma DecodeInside(b: seq<Byte>, fmt: Format, span: Span, part: seq<Byte>)
    requires Holds(b, span, part)
    ensures Decode(b, fmt, span) == Decode(part, fmt, Span(0, |part|))
  {
    hide Frames, FrameCount;
    if fmt.channels > 0 {
      CountFits(|part|, 2 * fmt.channels);
      FramesInside(b, span.offset, part, fmt.channels, FrameCount(|part|, 2 * fmt.channels));
    }
  }

  /** Whatever chunks a file is made of, reading it gives what its last format chunk says of its last data
      chunk, or a range error when some format chunk starts less than sixteen bytes before the end of the file;
      other chunks, their order and the outer size do not matter, and neither does what follows a format chunk
      unless it declares fewer than sixteen bytes. */
  lemma ReadIsLastFormatAndData(size: seq<Byte>, cs: seq<Chunk>, tail: seq<Byte>)
    requires |size| == 4 && AllValid(cs) && |tail| < 8
    ensures var fmt, data := LastFormat(cs, tail), LastPayload(cs, "data");
            && (FormatsFit(cs, tail) && fmt.Just? ==> |fmt.value| >= 16)
            && Read(RiffBytes(size, cs, tail)) ==
                 if !FormatsFit(cs, tail) then Err(OutOfRange)
                 else if fmt.Nothing? || data.Nothing? then Err(MissingChunk)
                 else DecodePayloads(fmt.value, data.value)
    ensures var fmt, data := LastPayload(cs, "fmt "), LastPayload(cs, "data");
            FullFormats(cs) ==>
              && (fmt.Just? ==> |fmt.value| >= 16)
              && Read(RiffBytes(size, cs, tail)) ==
                   if fmt.Nothing? || data.Nothing? then Err(MissingChunk) else DecodePayloads(fmt.value, data.value)
  {
    hide Walk, Decode, AsciiBytes, Ascii, FormatAt, Holds;
    var pre := AsciiBytes("RIFF") + size + AsciiBytes("WAVE");
    var b := RiffBytes(size, cs, tail);
    NameValue("RIFF");
    NameValue("WAVE");
    assert b[..4] == AsciiBytes("RIFF") && b[8..12] == AsciiBytes("WAVE");
    WalkChunks(pre, cs, tail, NOTHING_FOUND);
    if FormatsFit(cs, tail) {
      var data, g := LastPayload(cs, "data"), Walk(b, 12, NOTHING_FOUND).value;
      if data.Just? && g.fmt.Just? {
        DecodeInside(b, g.fmt.value, g.data.value, data.value);
      }
    }
    if FullFormats(cs) { FullFormatsRead(cs, tail); }
  }

  // ---- consequences ----

  /** Chunks of other names may come or go anywhere. */
  lemma {:induction false} UnknownChunk(before: seq<Chunk>, c: Chunk, after: seq<Chunk>, name: string)
    requires Ascii(c.id) != name
    ensures LastPayload(before + [c] + after, name) == LastPayload(before + after, name)
  {
    hide Ascii;
    if before == [] {
      assert ([c] + after)[1..] == after && [] + [c] + after == [c] + after && [] + after == after;
    } else {
      assert (before + [c] + after)[1..] == before[1..] + [c] + after && (before + after)[1..] == before[1..] + after;
      UnknownChunk(before[1..], c, after, name);
    }
  }

  lemma {:induction false} OnlyOne(cs: seq<Chunk>, name: string, c: Chunk)
    requires c in cs && Ascii(c.id) == name
    requires forall d <- cs :: Ascii(d.id) == name ==> d == c
    ensures LastPayload(cs, name) == Just(c.payload)
  {
    hide Ascii;
    assert cs[0] in cs;
    if c in cs[1..] {
      OnlyOne(cs[1..], name, c);
    } else {
      NoneNamed(cs[1..], name, c);
    }
  }

  lemma {:induction false} NoneNamed(cs: seq<Chunk>, name: string, c: Chunk)
    requires c !in cs && forall d <- cs :: Ascii(d.id) == name ==> d == c
    ensures LastPayload(cs, name) == Nothing
  {
    hide Ascii;
    if cs != [] {
      assert cs[0] in cs;
      NoneNamed(cs[1..], name, c);
    }
  }

  /** Two files with one format chunk and one data chunk, the same in both, read alike, wherever these two
      stand and whatever other chunks either file has. */
  lemma ChunkIndependence(size: seq<Byte>, cs: seq<Chunk>, tail: seq<Byte>,
                          size': seq<Byte>, cs': seq<Chunk>, tail': seq<Byte>, fmt: Chunk, data: Chunk)
    requires |size| == 4 && AllValid(cs) && |tail| < 8 && |size'| == 4 && AllValid(cs') && |tail'| < 8
    requires Ascii(fmt.id) == "fmt " && |fmt.payload| >= 16 && Ascii(data.id) == "data"
    requires forall c <- [cs, cs'] :: fmt in c && data in c
    requires forall c | c in cs || c in cs' ::
               (Ascii(c.id) == "fmt " ==> c == fmt) && (Ascii(c.id) == "data" ==> c == data)
    ensures Read(RiffBytes(size, cs, tail)) == Read(RiffBytes(size', cs', tail'))
         == DecodePayloads(fmt.payload, data.payload)
  {
    hide Ascii, DecodePayloads, Read, RiffBytes, LastPayload;
    assert cs in [cs, cs'] && cs' in [cs, cs'];
    OnlyOne(cs, "fmt ", fmt);
    OnlyOne(cs, "data", data);
    OnlyOne(cs', "fmt ", fmt);
    OnlyOne(cs', "data", data);
    ReadIsLastFormatAndData(size, cs, tail);
    ReadIsLastFormatAndData(size', cs', tail');
  }

  // ---- the header that is written ----

  lemma FmtPayloadFields(sampleRate: nat)
    requires 2 * sampleRate < LIMIT32
    ensures var p := FmtPayload(sampleRate);
            && U16(p, 0) == 1 && U16(p, 2) == 1 && U32(p, 4) == sampleRate && U32(p, 8) == 2 * sampleRate
            && U16(p, 12) == 2 && U16(p, 14) == 16
  {
    hide LE32, U32;
    var one, rate, byteRate := LE16(1), LE32(sampleRate), LE32(2 * sampleRate);
    LE32Value(sampleRate);
    LE32Value(2 * sampleRate);
    Inside(one + one, rate, byteRate + LE16(2) + LE16(16), 0);
    assert FmtPayload(sampleRate) == one + one + rate + (byteRate + LE16(2) + LE16(16));
    Inside(one + one + rate, byteRate, LE16(2) + LE16(16), 0);
    assert FmtPayload(sampleRate) == one + one + rate + byteRate + (LE16(2) + LE16(16));
  }

  /** The header's redundant fields agree with each other, as the format demands: the outer size is the file's but
      eight, a block is the channels' bytes, the byte rate is the blocks of one second, and the data is the rest. */
  lemma HeaderIsConsistent(wav: Wav)
    requires FitsWav(wav.sampleRate, wav.samples)
    ensures var b := WavBytes(wav.sampleRate, wav.samples);
            && |b| == 44 + 2 * |wav.samples|
            && U32(b, 4) == |b| - 8 && U32(b, 16) == 16 && U16(b, 20) == 1 && U32(b, 24) == wav.sampleRate
            && U16(b, 32) == U16(b, 22) * U16(b, 34) / 8 && U32(b, 28) == U32(b, 24) * U16(b, 32)
            && U32(b, 40) == |b| - 44
  {
    hide AsciiBytes, LE16, LE32, U16, U32, SamplesLE, FmtPayload, WavBytes;
    var n := 2 * |wav.samples|;
    HeaderIs(wav);
    FmtPayloadFields(wav.sampleRate);
    LE32Value(36 + n);
    LE32Value(16);
    LE32Value(n);
    var riff, size, wave, fmt := AsciiBytes("RIFF"), LE32(36 + n), AsciiBytes("WAVE"), AsciiBytes("fmt ");
    var sixteen, payload, data, len := LE32(16), FmtPayload(wav.sampleRate), AsciiBytes("data"), LE32(n);
    FieldsStand(riff, size, wave, fmt, sixteen, payload, data, len, SamplesLE(wav.samples));
  }

  lemma FieldsStand(riff: seq<Byte>, size: seq<Byte>, wave: seq<Byte>, fmt: seq<Byte>, sixteen: seq<Byte>,
                    payload: seq<Byte>, data: seq<Byte>, len: seq<Byte>, samples: seq<Byte>)
    requires |riff| == |size| == |wave| == |fmt| == |sixteen| == |data| == |len| == 4 && |payload| == 16
    ensures var b := riff + size + wave + (fmt + sixteen + payload) + (data + len) + samples;
            && |b| == 44 + |samples| && U32(b, 4) == U32(size, 0) && U32(b, 16) == U32(sixteen, 0)
            && U16(b, 20) == U16(payload, 0) && U16(b, 22) == U16(payload, 2) && U32(b, 24) == U32(payload, 4)
            && U32(b, 28) == U32(payload, 8) && U16(b, 32) == U16(payload, 12) && U16(b, 34) == U16(payload, 14)
            && U32(b, 40) == U32(len, 0)
  {
    hide U16, U32;
    var b := riff + size + wave + (fmt + sixteen + payload) + (data + len) + samples;
    var afterLen := samples;
    var afterPayload := data + len + samples;
    var afterSixteen := payload + afterPayload;
    assert b == riff + size + (wave + (fmt + (sixteen + afterSixteen)));
    Inside(riff, size, wave + (fmt + (sixteen + afterSixteen)), 0);
    assert b == (riff + size + wave + fmt) + sixteen + afterSixteen;
    Inside(riff + size + wave + fmt, sixteen, afterSixteen, 0);
    var pre := riff + size + wave + fmt + sixteen;
    assert b == pre + payload + afterPayload;
    Inside(pre, payload, afterPayload, 0);
    Inside(pre, payload, afterPayload, 2);
    Inside(pre, payload, afterPayload, 4);
    Inside(pre, payload, afterPayload, 8);
    Inside(pre, payload, afterPayload, 12);
    Inside(pre, payload, afterPayload, 14);
    assert b == (pre + payload + data) + len + samples;
    Inside(pre + payload + data, len, samples, 0);
  }

  // ---- interleaved channels ----

  /** The frames one after the other, the channels of each next to each other. */
  function Interleaved(frames: seq<seq<Sample>>): (b: seq<Byte>) {
    if frames == [] then [] else SamplesLE(frames[0]) + Interleaved(frames[1..])
  }

  function Total(frame: seq<Sample>): (sum: int) {
    if frame == [] then 0 else frame[0] as int + Total(frame[1..])
  }

  /** The nearest whole number to `sum / count`; halfway between two it is the greater one. */
  predicate IsRoundedMean(m: int, sum: int, count: nat) {
    (2 * m - 1) * count <= 2 * sum < (2 * m + 1) * count
  }

  lemma MeanIsRounded(sum: int, count: nat)
    requires count > 0
    ensures IsRoundedMean(Mean(sum, count), sum, count)
  {
    var m := Mean(sum, count);
    assert m * (2 * count) + (2 * sum + count) % (2 * count) == 2 * sum + count;
    assert (2 * m - 1) * count == m * (2 * count) - count && (2 * m + 1) * count == m * (2 * count) + count;
  }

  lemma {:induction false} TotalSnoc(frame: seq<Sample>, s: Sample)
    ensures Total(frame + [s]) == Total(frame) + s
  {
    if frame == [] {
      assert frame + [s] == [s] && [s][1..] == [];
    } else {
      assert (frame + [s])[1..] == frame[1..] + [s];
      TotalSnoc(frame[1..], s);
    }
  }

  lemma {:induction false} SampleAt(samples: seq<Sample>, k: nat)
    requires k < |samples|
    ensures I16(SamplesLE(samples), 2 * k) == samples[k]
  {
    hide SampleLE;
    var n := |samples| - 1;
    var front := SamplesLE(samples[..n]);
    if k == n {
      SampleValue(samples[n]);
      Inside(front, SampleLE(samples[n]), [], 0);
      assert SamplesLE(samples) == front + SampleLE(samples[n]) + [];
    } else {
      SampleAt(samples[..n], k);
      assert SamplesLE(samples)[2 * k] == front[2 * k] && SamplesLE(samples)[2 * k + 1] == front[2 * k + 1];
    }
  }

  lemma {:induction false} SumIsTotal(b: seq<Byte>, o: nat, frame: seq<Sample>, count: nat)
    requires Holds(b, Span(o, 2 * |frame|), SamplesLE(frame)) && count <= |frame|
    ensures o + 2 * count <= |b| && Sum(b, o, count) == Total(frame[..count])
  {
    hide SamplesLE;
    if count > 0 {
      SumIsTotal(b, o, frame, count - 1);
      var k := count - 1;
      SampleAt(frame, k);
      var part := SamplesLE(frame);
      assert b[o..o + |part|][2 * k] == part[2 * k] && b[o..o + |part|][2 * k + 1] == part[2 * k + 1];
      TotalSnoc(frame[..k], frame[k]);
      assert frame[..k] + [frame[k]] == frame[..count];
    }
  }

  lemma {:induction false} InterleavedSize(frames: seq<seq<Sample>>, channels: nat)
    requires forall f <- frames :: |f| == channels
    ensures |Interleaved(frames)| == |frames| * (2 * channels)
  {
    hide SamplesLE;
    if frames != [] {
      assert frames[0] in frames && forall f <- frames[1..] :: f in frames;
      InterleavedSize(frames[1..], channels);
      Room(channels, |frames|);
    }
  }

  lemma {:induction false} FrameStands(frames: seq<seq<Sample>>, extra: seq<Byte>, channels: nat, k: nat)
    requires k < |frames| && forall f <- frames :: |f| == channels
    ensures Holds(Interleaved(frames) + extra, Span(k * (2 * channels), 2 * channels), SamplesLE(frames[k]))
  {
    hide SamplesLE, Interleaved, Holds;
    assert frames[0] in frames && frames[k] in frames && forall f <- frames[1..] :: f in frames;
    var first, rest := SamplesLE(frames[0]), Interleaved(frames[1..]) + extra;
    FirstFrame(frames, extra);
    if k == 0 {
      AtFront(first, rest);
    } else {
      FrameStands(frames[1..], extra, channels, k - 1);
      Room(channels, k);
      Shifted(first, rest, Span((k - 1) * (2 * channels), 2 * channels), SamplesLE(frames[k]));
    }
  }

  lemma FirstFrame(frames: seq<seq<Sample>>, extra: seq<Byte>)
    requires frames != []
    ensures Interleaved(frames) + extra == SamplesLE(frames[0]) + (Interleaved(frames[1..]) + extra)
  {
    hide SamplesLE;
  }

  lemma AtFront(first: seq<Byte>, rest: seq<Byte>)
    ensures Holds(first + rest, Span(0, |first|), first)
  {
    assert (first + rest)[0..0 + |first|] == first;
  }

  lemma Shifted(first: seq<Byte>, rest: seq<Byte>, span: Span, part: seq<Byte>)
    requires Holds(rest, span, part)
    ensures Holds(first + rest, Span(|first| + span.offset, span.len), part)
  {
    assert (first + rest)[|first| + span.offset..|first| + span.offset + span.len]
        == rest[span.offset..span.offset + span.len];
  }

  lemma {:induction false} FramesAt(b: seq<Byte>, o: nat, channels: nat, count: nat, k: nat)
    requires channels > 0 && o + count * (2 * channels) <= |b| && k < count
    ensures o + k * (2 * channels) + 2 * channels <= |b|
    ensures Frames(b, o, channels, count)[k] == Frame(b, o + k * (2 * channels), channels)
  {
    hide Frame;
    Room(channels, count);
    if k < count - 1 { FramesAt(b, o, channels, count - 1, k); }
  }

  lemma WholeFrames(count: nat, frame: nat, extra: nat)
    requires extra < frame
    ensures FrameCount(count * frame + extra, frame) == count
  {
    var q, r := (count * frame + extra) / frame, (count * frame + extra) % frame;
    assert q * frame + r == count * frame + extra;
    if q < count { Times(q + 1, count, frame); }
    if q > count { Times(count + 1, q, frame); }
  }

  /** A file of interleaved channels is read as one sample for each whole frame, the rounded mean of its channels; a
      part of a frame at the end is dropped. */
  lemma ChannelsAreAveraged(fmt: Format, frames: seq<seq<Sample>>, extra: seq<Byte>)
    requires fmt.audioFormat == 1 && fmt.bitsPerSample == 16 && fmt.channels > 0 && |extra| < 2 * fmt.channels
    requires forall f <- frames :: |f| == fmt.channels
    ensures var b := Interleaved(frames) + extra;
            var r := Decode(b, fmt, Span(0, |b|));
            && r.Ok? && r.value.sampleRate == fmt.sampleRate && |r.value.samples| == |frames|
            && forall k | 0 <= k < |frames| :: IsRoundedMean(r.value.samples[k], Total(frames[k]), fmt.channels)
  {
    hide Frame, Interleaved, Mean, FrameCount, IsRoundedMean, Holds, SamplesLE, Total;
    var c, b := fmt.channels, Interleaved(frames) + extra;
    InterleavedSize(frames, c);
    WholeFrames(|frames|, 2 * c, |extra|);
    forall k | 0 <= k < |frames|
      ensures IsRoundedMean(Frames(b, 0, c, |frames|)[k], Total(frames[k]), c)
    {
      assert frames[k] in frames;
      FramesAt(b, 0, c, |frames|, k);
      FrameStands(frames, extra, c, k);
      FrameIsMean(b, k * (2 * c), frames[k]);
    }
  }

  lemma FrameIsMean(b: seq<Byte>, o: nat, frame: seq<Sample>)
    requires frame != [] && Holds(b, Span(o, 2 * |frame|), SamplesLE(frame))
    ensures o + 2 * |frame| <= |b| && IsRoundedMean(Frame(b, o, |frame|), Total(frame), |frame|)
  {
    hide Mean, IsRoundedMean, Sum, Total, SamplesLE;
    SumIsTotal(b, o, frame, |frame|);
    assert frame[..|frame|] == frame;
    MeanIsRounded(Total(frame), |frame|);
  }

  // ---- what was written is read back ----

  lemma {:induction false} MonoFrames(samples: seq<Sample>, k: nat)
    requires k <= |samples|
    ensures Frames(SamplesLE(samples), 0, 1, k) == samples[..k]
  {
    if k > 0 {
      hide SampleLE, I16, Mean, Frame;
      MonoFrames(samples, k - 1);
      MonoSample(samples, k - 1);
      assert samples[..k] == samples[..k - 1] + [samples[k - 1]];
    }
  }

  lemma {:induction false} MonoSample(samples: seq<Sample>, k: nat)
    requires k < |samples|
    ensures Frame(SamplesLE(samples), 2 * k, 1) == samples[k]
  {
    hide SampleLE;
    var b, n := SamplesLE(samples), |samples| - 1;
    if k == n {
      SampleValue(samples[n]);
      Inside(SamplesLE(samples[..n]), SampleLE(samples[n]), [], 0);
      assert b == SamplesLE(samples[..n]) + SampleLE(samples[n]) + [];
      assert Sum(b, 2 * k, 1) == Sum(b, 2 * k, 0) + I16(b, 2 * k + 2 * 0);
    } else {
      MonoSample(samples[..n], k);
      SamePrefixFrame(SamplesLE(samples[..n]), b, 2 * k);
    }
  }

  lemma SamePrefixFrame(a: seq<Byte>, b: seq<Byte>, o: nat)
    requires o + 2 <= |a| <= |b| && a == b[..|a|]
    ensures Frame(a, o, 1) == Frame(b, o, 1)
  {
    hide Mean;
    assert a[o] == b[o] && a[o + 1] == b[o + 1];
    assert Sum(a, o, 1) == Sum(a, o, 0) + I16(a, o + 2 * 0);
    assert Sum(b, o, 1) == Sum(b, o, 0) + I16(b, o + 2 * 0);
  }

  lemma FmtPayloadValue(sampleRate: nat)
    requires 2 * sampleRate < LIMIT32
    ensures FormatAt(FmtPayload(sampleRate), 0) == Format(1, 1, sampleRate, 16)
  {
    hide LE32;
    var one, rate, byteRate := LE16(1), LE32(sampleRate), LE32(2 * sampleRate);
    LE32Value(sampleRate);
    Inside(one + one, rate, byteRate + LE16(2) + LE16(16), 0);
    assert FmtPayload(sampleRate) == one + one + rate + (byteRate + LE16(2) + LE16(16));
  }

  /** Reading what the writer wrote gives the same rate and the same samples, for every recording the writer
      accepts. */
  lemma WavRoundTrip(wav: Wav)
    requires FitsWav(wav.sampleRate, wav.samples)
    ensures Read(WavBytes(wav.sampleRate, wav.samples)) == Ok(wav)
  {
    hide Ascii, AsciiBytes, FmtPayload, SamplesLE, Read, RiffBytes, FormatAt, Frames, LE32;
    var cs := WavChunks(wav.sampleRate, wav.samples);
    NameValue("fmt ");
    NameValue("data");
    OnlyOne(cs, "fmt ", cs[0]);
    OnlyOne(cs, "data", cs[1]);
    ReadIsLastFormatAndData(LE32(36 + 2 * |wav.samples|), cs, []);
    FmtPayloadValue(wav.sampleRate);
    MonoFrames(wav.samples, |wav.samples|);
    assert wav.samples[..|wav.samples|] == wav.samples;
    assert FrameCount(2 * |wav.samples|, 2) == |wav.samples|;
  }
}
