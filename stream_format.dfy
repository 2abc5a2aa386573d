/** Sample representations, the integer sample conversions, and the decoding
    of a WAVEFORMATEX header into the recorder's stream format
    (src/stream_format.rs). Floating-point conversions are not modelled. */
module StreamFormats {
  import opened Rust

  datatype SampleFormat = I16 | I32 | U16 | F32

  /** Byte width of one sample of the given representation. */
  function SampleSize(f: SampleFormat): (r: nat)
    ensures r == 2 || r == 4
    ensures r == 2 <==> (f == I16 || f == U16)
  {
    match f
    case I16 => SIZE_OF_I16
    case I32 => SIZE_OF_I32
    case U16 => SIZE_OF_U16
    case F32 => SIZE_OF_F32
  }

  // ---------------------------------------------------------------------
  // The per-type conversions of the `Sample` impls for i16, u16 and i32.
  // ---------------------------------------------------------------------

  /** `i16::to_u16`: adds the 32768 bias, branching on the sign so that
      neither branch overflows. */
  function I16ToU16(v: Int16): (r: UInt16)
    ensures r as int == v as int + 0x8000
  {
    if v < 0 then AsUInt16((v - I16_MIN) as int)
    else AsUInt16(v as int) + 0x8000
  }

  /** `u16::to_i16`: removes the 32768 bias. */
  function U16ToI16(v: UInt16): (r: Int16)
    ensures r as int == v as int - 0x8000
  {
    if v >= 0x8000 then AsInt16((v - 0x8000) as int)
    else AsInt16(v as int) - 0x7FFF - 1
  }

  /** `i16::to_i32`: sign-extending widening. */
  function I16ToI32(v: Int16): (r: Int32)
    ensures r as int == v as int
  {
    v as int as Int32
  }

  /** The else-branch of `i32::to_i16` computes `(v as i16) - 32767 - 1` in
      checked i16 arithmetic; it stays in range exactly when the low 16 bits
      of `v`, read as an i16, are not negative. */
  predicate I32ToI16NoOverflow(v: Int32) {
    v >= 0x8000 || AsInt16(v as int) >= 0
  }

  /** `i32::to_i16`: the offset-and-truncate narrowing. The result is
      `v - 32768` modulo 2^16, and exactly `v - 32768` whenever that fits. */
  function I32ToI16(v: Int32): (r: Int16)
    requires I32ToI16NoOverflow(v)
    ensures (r as int - (v as int - 0x8000)) % 0x1_0000 == 0
    ensures 0 <= v <= 0xFFFF ==> r as int == v as int - 0x8000
  {
    if v >= 0x8000 then AsInt16((v - 0x8000) as int)
    else AsInt16(v as int) - 0x7FFF - 1
  }

  /** `i32::to_u16` is `to_i16` followed by `i16::to_u16`; the two offsets
      cancel, leaving the low 16 bits of `v`. */
  function I32ToU16(v: Int32): (r: UInt16)
    requires I32ToI16NoOverflow(v)
    ensures r as int == v as int % 0x1_0000
  {
    var n := I32ToI16(v);
    assert (n as int + 0x8000 - v as int) % 0x1_0000 == 0;
    I16ToU16(n)
  }

  /** `u16::to_i32` is `to_i16` followed by `i16::to_i32`. */
  function U16ToI32(v: UInt16): (r: Int32)
    ensures r as int == v as int - 0x8000
  {
    I16ToI32(U16ToI16(v))
  }

  /** Which i32 values `i32::to_i16` accepts: every non-negative one, and no
      value in the negative i16 range. */
  lemma I32ToI16Domain(v: Int32)
    ensures v >= 0 ==> I32ToI16NoOverflow(v)
    ensures -0x8000 <= v < 0 ==> !I32ToI16NoOverflow(v)
    ensures I32ToI16NoOverflow(v) <==> (v >= 0x8000 || v as int % 0x1_0000 < 0x8000)
  {
  }

  lemma U16I16RoundTrip(u: UInt16)
    ensures I16ToU16(U16ToI16(u)) == u
  {
  }

  lemma I16U16RoundTrip(v: Int16)
    ensures U16ToI16(I16ToU16(v)) == v
  {
  }

  /** `i16::to_u16` reaches every u16 value. */
  lemma I16ToU16Onto(u: UInt16)
    ensures exists v: Int16 :: I16ToU16(v) == u
  {
    var v := U16ToI16(u);
    assert I16ToU16(v) == u;
  }

  /** Widening and then narrowing is not the identity: the narrowing applies
      the 32768 offset again, so it accepts only the non-negative i16 values
      and maps each of them `v` to `v - 32768`. */
  lemma I16ToI32ToI16(v: Int16)
    ensures I32ToI16NoOverflow(I16ToI32(v)) <==> v >= 0
    ensures v >= 0 ==> I32ToI16(I16ToI32(v)) as int == v as int - 0x8000
    ensures v >= 0 ==> I32ToI16(I16ToI32(v)) != v
  {
    I32ToI16Domain(I16ToI32(v));
  }

  // ---------------------------------------------------------------------
  // The `Sample` trait over the three integer sample types.
  // ---------------------------------------------------------------------

  /** A sample of one of the integer implementors of `Sample`. */
  datatype Sample = SampleI16(i16: Int16) | SampleI32(i32: Int32) | SampleU16(u16: UInt16)

  /** `Sample::FORMAT` of the sample's type. */
  function Format(s: Sample): (f: SampleFormat)
    ensures f != F32
    ensures f == I16 <==> s.SampleI16?
    ensures f == I32 <==> s.SampleI32?
  {
    match s
    case SampleI16(_) => I16
    case SampleI32(_) => I32
    case SampleU16(_) => U16
  }

  /** `to_i16` and `to_u16` panic only for an i32 the narrowing rejects. */
  predicate NarrowingDefined(s: Sample) {
    s.SampleI32? ==> I32ToI16NoOverflow(s.i32)
  }

  /** `Sample::to_i16` of each implementor. */
  function ToI16(s: Sample): (r: Int16)
    requires NarrowingDefined(s)
    ensures s.SampleI16? ==> r == s.i16
    ensures s.SampleU16? ==> r as int == s.u16 as int - 0x8000
    ensures s.SampleI32? ==> (r as int - (s.i32 as int - 0x8000)) % 0x1_0000 == 0
  {
    match s
    case SampleI16(v) => v
    case SampleI32(v) => I32ToI16(v)
    case SampleU16(v) => U16ToI16(v)
  }

  /** `Sample::to_i32` of each implementor. */
  function ToI32(s: Sample): (r: Int32)
    ensures s.SampleI16? ==> r as int == s.i16 as int
    ensures s.SampleI32? ==> r == s.i32
    ensures s.SampleU16? ==> r as int == s.u16 as int - 0x8000
  {
    match s
    case SampleI16(v) => I16ToI32(v)
    case SampleI32(v) => v
    case SampleU16(v) => U16ToI32(v)
  }

  /** `Sample::to_u16` of each implementor. */
  function ToU16(s: Sample): (r: UInt16)
    requires NarrowingDefined(s)
    ensures s.SampleI16? ==> r as int == s.i16 as int + 0x8000
    ensures s.SampleI32? ==> r as int == s.i32 as int % 0x1_0000
    ensures s.SampleU16? ==> r == s.u16
  {
    match s
    case SampleI16(v) => I16ToU16(v)
    case SampleI32(v) => I32ToU16(v)
    case SampleU16(v) => v
  }

  /** `Sample::from::<S>` for an integer target type: the target asks the
      source sample for its own representation. */
  function From(target: SampleFormat, s: Sample): (r: Sample)
    requires target != F32
    requires target != I32 ==> NarrowingDefined(s)
    ensures Format(r) == target
    ensures Format(s) == target ==> r == s
    ensures target == I16 ==> r.i16 == ToI16(s)
    ensures target == I32 ==> r.i32 == ToI32(s)
    ensures target == U16 ==> r.u16 == ToU16(s)
  {
    match target
    case I16 => SampleI16(ToI16(s))
    case I32 => SampleI32(ToI32(s))
    case U16 => SampleU16(ToU16(s))
  }

  // ---------------------------------------------------------------------
  // WAVE format tags (the WAVE_FORMAT_* codes of Microsoft's mmreg.h).
  // ---------------------------------------------------------------------

  const WAVE_FORMAT_PCM: UInt16 := 0x0001
  const WAVE_FORMAT_ADPCM: UInt16 := 0x0002
  const WAVE_FORMAT_IEEE_FLOAT: UInt16 := 0x0003
  const WAVE_FORMAT_ALAW: UInt16 := 0x0006
  const WAVE_FORMAT_MULAW: UInt16 := 0x0007
  const WAVE_FORMAT_DRM: UInt16 := 0x0009
  const WAVE_FORMAT_MPEG: UInt16 := 0x0050
  const WAVE_FORMAT_DOLBY_AC3_SPDIF: UInt16 := 0x0092
  const WAVE_FORMAT_WMASPDIF: UInt16 := 0x0164
  const WAVE_FORMAT_EXTENSIBLE: UInt16 := 0xFFFE

  datatype FormatTag = PCM | IeeFloat | DRM | Extensible | Alaw | Mulaw | ADPCM | MPEG | DolbySpdif | WmaSpdif

  /** `FormatTag::value`: the wFormatTag code of a tag. */
  function Value(t: FormatTag): UInt16 {
    match t
    case PCM => WAVE_FORMAT_PCM
    case IeeFloat => WAVE_FORMAT_IEEE_FLOAT
    case DRM => WAVE_FORMAT_DRM
    case Extensible => WAVE_FORMAT_EXTENSIBLE
    case Alaw => WAVE_FORMAT_ALAW
    case Mulaw => WAVE_FORMAT_MULAW
    case ADPCM => WAVE_FORMAT_ADPCM
    case MPEG => WAVE_FORMAT_MPEG
    case DolbySpdif => WAVE_FORMAT_DOLBY_AC3_SPDIF
    case WmaSpdif => WAVE_FORMAT_WMASPDIF
  }

  /** `FormatTag::from(u16)`: the tag whose code is `input`; `None` stands for
      the panic on any other code. */
  function FormatTagFrom(input: UInt16): (r: Option<FormatTag>)
    ensures r.Some? ==> Value(r.value) == input
    ensures r.None? <==> forall t: FormatTag :: Value(t) != input
  {
    if input == Value(PCM) then Some(PCM)
    else if input == Value(IeeFloat) then Some(IeeFloat)
    else if input == Value(DRM) then Some(DRM)
    else if input == Value(Extensible) then Some(Extensible)
    else if input == Value(Alaw) then Some(Alaw)
    else if input == Value(Mulaw) then Some(Mulaw)
    else if input == Value(ADPCM) then Some(ADPCM)
    else if input == Value(MPEG) then Some(MPEG)
    else if input == Value(DolbySpdif) then Some(DolbySpdif)
    else if input == Value(WmaSpdif) then Some(WmaSpdif)
    else None
  }

  /** Decoding a tag's own code gives the tag back, so no two tags share a code. */
  lemma FormatTagRoundTrip(t: FormatTag)
    ensures FormatTagFrom(Value(t)) == Some(t)
  {
  }

  // ---------------------------------------------------------------------
  // WAVEFORMATEX -> StreamFormat.
  // ---------------------------------------------------------------------

  /** The fields of the platform's WAVEFORMATEX header. */
  datatype WaveFormatEx = WaveFormatEx(
    wFormatTag: UInt16,
    nChannels: UInt16,
    nSamplesPerSec: UInt32,
    nAvgBytesPerSec: UInt32,
    nBlockAlign: UInt16,
    wBitsPerSample: UInt16,
    cbSize: UInt16)

  datatype StreamFormat = StreamFormat(
    formatTag: FormatTag,
    nChannels: UInt32,
    nSamplePerSec: UInt32,
    nAvgBytesPerSec: UInt32,
    nBlockAlign: UInt32,
    wBitsPerSample: UInt32,
    cbSize: UInt32,
    sampleFormat: SampleFormat)

  /** The two panics of `StreamFormat::from`. */
  datatype FormatError = UnknownFormatTag | UnknownSampleFormat

  datatype Result<T> = Ok(value: T) | Err(error: FormatError)

  /** `StreamFormat::from(WAVEFORMATEX)`: decode the tag (panicking on an
      unknown code), pick the sample format from (bits, tag), copy the rest. */
  function StreamFormatFrom(w: WaveFormatEx): (r: Result<StreamFormat>)
    ensures FormatTagFrom(w.wFormatTag).None? ==> r == Err(UnknownFormatTag)
    ensures r.Ok? <==>
      FormatTagFrom(w.wFormatTag).Some? &&
      (w.wBitsPerSample == 32 || (w.wBitsPerSample == 16 && w.wFormatTag == WAVE_FORMAT_PCM))
    ensures r.Ok? ==>
      && Value(r.value.formatTag) == w.wFormatTag
      && r.value.sampleFormat == (if w.wBitsPerSample == 16 then I16 else F32)
      && r.value.nChannels as int == w.nChannels as int
      && r.value.nSamplePerSec == w.nSamplesPerSec
      && r.value.nAvgBytesPerSec == w.nAvgBytesPerSec
      && r.value.nBlockAlign as int == w.nBlockAlign as int
      && r.value.wBitsPerSample as int == w.wBitsPerSample as int
      && r.value.cbSize as int == w.cbSize as int
  {
    match FormatTagFrom(w.wFormatTag)
    case None => Err(UnknownFormatTag)
    case Some(formatTag) =>
      var sampleFormat :=
        if w.wBitsPerSample == 16 && formatTag == PCM then Some(I16)
        else if w.wBitsPerSample == 32 && formatTag == IeeFloat then Some(F32)
        else if w.wBitsPerSample == 32 then Some(F32)
        else None;
      match sampleFormat
      case None => Err(UnknownSampleFormat)
      case Some(f) =>
        Ok(StreamFormat(
             formatTag,
             w.nChannels as int as UInt32,
             w.nSamplesPerSec,
             w.nAvgBytesPerSec,
             w.nBlockAlign as int as UInt32,
             w.wBitsPerSample as int as UInt32,
             w.cbSize as int as UInt32,
             f))
  }

  /** The decoded stream never uses the I32 or U16 representation. */
  lemma StreamFormatIsI16OrF32(w: WaveFormatEx)
    requires StreamFormatFrom(w).Ok?
    ensures StreamFormatFrom(w).value.sampleFormat in {I16, F32}
  {
  }
}
