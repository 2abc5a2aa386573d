# audia loopback recorder core, in Dafny

This project models the sequential core of the `audia` Windows loopback
recorder. Three source files are covered.

- **Sample formats** (`src/stream_format.rs`, module `StreamFormats`):
  - the byte width of each sample representation;
  - the integer conversions between `i16`, `u16` and `i32` samples, with the
    same Rust casts and the same checked arithmetic;
  - the decoding of a WAVE `wFormatTag` into a `FormatTag`;
  - the choice of sample format when a `WAVEFORMATEX` becomes a
    `StreamFormat`.
- **The drop-oldest buffer** (`src/buffer.rs`, module `Buffers`):
  - `ExtensibleBuffer<T>` is a class with the same fields. Its `extend`
    method rotates, splices and appends branch for branch, as the source does,
    and recurses the same way.
  - It is proved against a specification. Given a consistent buffer, the
    buffer afterwards holds the newest `max_len` samples of old and new
    together, oldest first.
  - The untyped `Buffer` is a tag-checked view.
- **The capture loop** (`src/capture_client.rs`, modules `CaptureProtocol`
  and `CaptureClients`):
  - `RecordingAudioClient<T>` is a class. Its methods follow
    `get_next_packet_size`, `get_buffer`, `write_to_internal_vector`,
    `release_buffer` and the two nested `while` loops of `stream_to_sink`.
  - Its `WriteToInternalVector` is the corrected copy: it extends the
    buffer with the packet's samples. As written, the code hands `extend`
    an empty vector, so no packet after the first reaches the buffer. The
    code as written is modelled beside it (see "## Findings").
  - The capture hardware is a scripted source: three queues of replies.
  - Every call the loop makes is appended to a trace. The class invariant says
    that `CaptureProtocol`'s automaton accepts the trace, and that the
    automaton's buffer state equals the object's buffer.
  - The class invariant also says the hardware calls in the trace are the
    script's replies, taken in order. A seeded or extended buffer takes its
    samples from the packet the last `GetBuffer` handed out. The hardware
    holds exactly the replies not yet used.
  - `TraceDeterminedByScript` shows that the script fixes the trace: two
    accepted traces of equal length that the same script answers are
    equal.
  - Lemmas over accepted traces state how the calls are ordered and paired,
    and what the sink receives.

Module `Rust` holds the fixed-width integer newtypes, the truncating `as`
casts and `Option`. Arithmetic on the newtypes makes Dafny check every
intermediate value, just as a debug build checks for overflow. A panic in the
source is either an error value (`None`, `Err`, a `Panic` call in the trace)
or a precondition. Most preconditions are cases the source's callers
themselves rule out. The exception is the overflow inside `i32::to_i16`
(`I32ToI16NoOverflow`): no caller rules it out, and it is a precondition
because the overflow happens inside the arithmetic of the conversion
itself.

Some details of the code that the model keeps:

- On an empty packet (`NoData`), the code still calls `release_buffer(0)`.
  That call reaches the hardware once the buffer exists. The loop then
  queries the packet size again and keeps draining
  (`src/capture_client.rs:123-126`).
- `i32::to_i16` overflows for some inputs (see `I32ToI16NoOverflow`).
- `close` is never called on the sink. `is_done` is never set, so the outer
  loop runs for ever (`src/capture_client.rs:95-100`).
- The sink's `write` result is dropped, not reported
  (`src/capture_client.rs:115-118`).

## Model

| member | source | states |
|---|---|---|
| StreamFormats.SampleSize | src/stream_format.rs:18-25 | the width is 2 exactly for I16 and U16, and 4 otherwise |
| StreamFormats.I16ToU16 | src/stream_format.rs:142-148 | adds the 32768 bias to any i16, with no overflow in either branch |
| StreamFormats.U16ToI16 | src/stream_format.rs:97-103 | subtracts the 32768 bias from any u16, with no overflow in either branch |
| StreamFormats.I16ToI32 | src/stream_format.rs:132-134 | the widening keeps the value (sign extension) |
| StreamFormats.I32ToI16 | src/stream_format.rs:61-67 | for inputs where the checked else-branch does not overflow, the result is v - 32768 modulo 2^16, and exactly v - 32768 for 0 <= v <= 65535 |
| StreamFormats.I32ToU16 | src/stream_format.rs:69-72 | going through to_i16 and then to_u16 leaves the low 16 bits of v |
| StreamFormats.U16ToI32 | src/stream_format.rs:91-94 | the result is v - 32768 |
| StreamFormats.I32ToI16Domain | src/stream_format.rs:61-67 | to_i16 is defined for every non-negative i32 and for no i32 in [-32768, 0); in general, exactly when v >= 32768 or the low 16 bits are below 32768 |
| StreamFormats.U16I16RoundTrip | src/stream_format.rs:97-103 | u16 to i16 to u16 is the identity |
| StreamFormats.I16U16RoundTrip | src/stream_format.rs:142-148 | i16 to u16 to i16 is the identity |
| StreamFormats.I16ToU16Onto | src/stream_format.rs:142-148 | every u16 value is reached by i16::to_u16 |
| StreamFormats.I16ToI32ToI16 | src/stream_format.rs:61-67 | widening then narrowing is defined only for non-negative i16 values, and maps v to v - 32768, never to v |
| StreamFormats.Format | src/stream_format.rs:49-120 | each integer sample type carries its own FORMAT tag (lines 49, 84 and 120 for i32, u16 and i16), never F32 |
| StreamFormats.ToI16 | src/stream_format.rs:61-67 | to_i16 of each type: the identity on i16, the bias removed on u16, the offset and truncation on i32 |
| StreamFormats.ToI32 | src/stream_format.rs:55-58 | to_i32 of each type: the identity on i32, sign extension on i16, the bias removed on u16 |
| StreamFormats.ToU16 | src/stream_format.rs:105-108 | to_u16 of each type: the identity on u16, the bias added on i16, the low 16 bits of an i32 |
| StreamFormats.From | src/stream_format.rs:75-80 | from::<S> gives a sample of the target type, dispatches to the source's to_X for that type, and is the identity when source and target types agree |
| StreamFormats.Value | src/stream_format.rs:213-228 | each tag's wFormatTag code, the WAVE_FORMAT_* constant of that name; FormatTagRoundTrip shows that no two tags share a code |
| StreamFormats.FormatTagFrom | src/stream_format.rs:230-256 | a decoded tag has the input as its code; decoding fails (the panic) exactly when no tag has that code |
| StreamFormats.FormatTagRoundTrip | src/stream_format.rs:213-228 | decoding a tag's own code gives the tag back, for each of the ten tags |
| StreamFormats.StreamFormatFrom | src/stream_format.rs:270-295 | decoding fails on an unknown tag; it succeeds exactly for (16 bits, PCM) or 32 bits with any tag, choosing I16 for 16 bits and F32 for 32; every other field is copied unchanged |
| StreamFormats.StreamFormatIsI16OrF32 | src/stream_format.rs:277-282 | a decoded stream is always I16 or F32 |
| Buffers.RotateLeft | src/buffer.rs:81 | rotate_left moves the first mid elements, in order, to the end |
| Buffers.SpliceTail | src/buffer.rs:86 | splice(start..) keeps the prefix before start and replaces the rest by the new items |
| Buffers.Newest | src/buffer.rs:74-75 | the newest n elements are the suffix of length min(size, n) |
| Buffers.Extended | src/buffer.rs:76-107 | when extend does not panic and len starts within capacity, len stays within capacity |
| Buffers.ExtendEmptyIsNoop | src/buffer.rs:77 | an empty slice leaves both data and len unchanged |
| Buffers.ExtendWithRoom | src/buffer.rs:92-98 | with room for the whole burst, data becomes old ++ new and len grows by data_len |
| Buffers.ExtendWhenFull | src/buffer.rs:78-86 | a full buffer becomes old[data_len..] ++ new with len unchanged, and panics exactly when data_len > max_len |
| Buffers.ExtendStraddling | src/buffer.rs:99-103 | a burst larger than the free space first fills the buffer, then the rest goes through the full-buffer branch |
| Buffers.ExtendLen | src/buffer.rs:76-107 | len is unchanged by an empty burst and otherwise becomes min(len + data_len, max_len) |
| Buffers.FullNetEffect | src/buffer.rs:78-86 | on a full buffer with data.len() == max_len, extend panics exactly when data_len > max_len, and otherwise keeps the newest max_len samples of old ++ new |
| Buffers.RoomNetEffect | src/buffer.rs:92-98 | with room for the whole burst, the newest max_len samples of old ++ new are all of them |
| Buffers.StraddleNetEffect | src/buffer.rs:99-103 | a burst larger than the free space panics exactly when data_len > 2 * max_len - len, and otherwise leaves the newest max_len samples with len at capacity |
| Buffers.ExtendNetEffect | src/buffer.rs:76-107 | with data.len() == len and a burst of data_len samples: extend panics exactly when data_len > 2 * max_len - len, and otherwise leaves the newest max_len samples of old ++ new with a matching len |
| Buffers.NewestOfNewest | src/buffer.rs:76-107 | keeping the newest n, then adding more and keeping the newest n, is the same as keeping the newest n once |
| Buffers.NewestAcross | src/buffer.rs:76-107 | the newest samples after one burst and then the rest are the newest samples of the whole stream, with matching lengths |
| Buffers.ExtendAllKeepsNewest | src/buffer.rs:76-107 | after any sequence of bursts, each at most the capacity, the buffer holds the newest max_len samples of everything seen, oldest first |
| Buffers.TwoBurstsScenario | src/buffer.rs:92-98 | a ten-sample buffer fed two bursts of four holds all eight samples, with len 8 |
| Buffers.ThreeBurstsScenario | src/buffer.rs:76-107 | a third burst of four drops the two oldest samples: the buffer holds 3..12 with len 10 |
| Buffers.ExtensibleBuffer.New | src/buffer.rs:30-39 | new wraps the given vector with len = its length and max_len = BUFFER_LENGTH, without checking it against the capacity |
| Buffers.ExtensibleBuffer.FromRawParts | src/buffer.rs:41-53 | from_raw_parts takes the first len samples, demands len <= BUFFER_LENGTH, and sets max_len = BUFFER_LENGTH |
| Buffers.ExtensibleBuffer.Len | src/buffer.rs:55-57 | len equals the vector's length when the buffer is consistent |
| Buffers.ExtensibleBuffer.IsEmpty | src/buffer.rs:59-61 | is_empty holds exactly when len is 0, that is, when the vector is empty in a consistent buffer |
| Buffers.ExtensibleBuffer.LenUnusedBuffer | src/buffer.rs:63-65 | len plus the free space is the capacity |
| Buffers.ExtensibleBuffer.HasUnusedBuffer | src/buffer.rs:67-69 | there is free space exactly when len < max_len |
| Buffers.ExtensibleBuffer.AsSlice | src/buffer.rs:109-115 | None exactly when len exceeds the vector's length, otherwise the first len elements, which is the whole vector in a consistent buffer |
| Buffers.ExtensibleBuffer.Extend | src/buffer.rs:76-107 | the method's new state is the one Extended specifies, len stays within capacity, and a consistent buffer given a burst of data_len samples stays consistent and holds the newest max_len samples of old ++ new |
| Buffers.Buffer.Bytes | src/buffer.rs:132-137 | bytes has length len * sample_size and is a prefix of the memory behind the pointer |
| Buffers.Buffer.AsSlice | src/buffer.rs:144-155 | as_slice succeeds exactly when T::FORMAT equals the stored format, and then spans len samples of T; a mismatched format returns None without reading the memory |
| Buffers.MismatchedFormatReadsNothing | src/buffer.rs:148-154 | as_slice with a format other than the stored one is None for any memory, even memory shorter than len samples, such as a Buffer from_raw_parts builds from fewer than BUFFER_LENGTH samples |
| Buffers.BufferFromRawParts | src/buffer.rs:119-130 | Buffer::from_raw_parts keeps the pointer and format and records len = BUFFER_LENGTH |
| Buffers.BufferLenIgnoresArgument | src/buffer.rs:119-142 | for any len below BUFFER_LENGTH, Buffer::len is not the len given, and bytes spans more memory than len samples |
| CaptureProtocol.Failed | src/utils.rs:6-12 | check_result fails exactly on a negative HRESULT |
| CaptureProtocol.Step | src/capture_client.rs:100-127 | the calls the loop may make from each phase, and the state after: a panicked thread makes no further call, and only storing a packet changes the buffer |
| CaptureProtocol.SampleCount | src/capture_client.rs:73-74 | the sample count is frames * n_block_align / sample_size in integer division |
| CaptureProtocol.RunSnoc | src/capture_client.rs:94-129 | one more call is one more automaton step |
| CaptureProtocol.StepAt | src/capture_client.rs:94-129 | every prefix of an accepted trace is accepted, and call i is the step from the state its prefix reaches |
| CaptureProtocol.PrefixAccepted | src/capture_client.rs:94-129 | every prefix of an accepted trace is accepted |
| CaptureProtocol.PhaseAfter | src/capture_client.rs:100-127 | whatever the state, two successive calls are related by Follows |
| CaptureProtocol.NextCall | src/capture_client.rs:100-127 | in an accepted trace each call is followed as Follows says: a failed HRESULT or a panic ends the trace, a query re-runs after every release, an empty packet goes straight to release(0), a packet goes to the buffer, then to the sink, then to the release of its frames |
| CaptureProtocol.FirstCallIsSleep | src/capture_client.rs:100-105 | an accepted trace starts with the sleep of the first wake-up |
| CaptureProtocol.WritingAfterStore | src/capture_client.rs:108-118 | the sink-write phase is reached only by storing a packet from the storing phase |
| CaptureProtocol.WritingHasBuffer | src/capture_client.rs:115-118 | in the sink-write phase the buffer exists, so the unwrap cannot fail |
| CaptureProtocol.StoringAfterGetBuffer | src/capture_client.rs:57-63 | the storing phase is reached only by a get_buffer that reported frames and succeeded |
| CaptureProtocol.SinkWriteAfterStore | src/capture_client.rs:107-119 | the sink is written only right after a successful get_buffer with frames and the storing of that packet; it receives that frame count and the buffer as it is after the packet went in |
| CaptureProtocol.IdleAllowsSleep | src/capture_client.rs:100-103 | between wake-ups the loop can always sleep again, so the outer loop never ends short of a panic |
| CaptureProtocol.SleepsSnoc | src/capture_client.rs:100-103 | one more call adds one sleep exactly when it is a sleep |
| CaptureProtocol.GetReleasePairing | src/capture_client.rs:106-127 | every get_buffer is matched by one release_buffer: outside a drain iteration the counts agree, inside one exactly one packet is held, and after a panic at most one is unreleased |
| CaptureProtocol.BufferIsNewestStored | src/capture_client.rs:76-89 | the buffer does not exist before the first packet, and afterwards holds the newest BUFFER_LENGTH samples of all packets stored, oldest first |
| CaptureProtocol.StepBuffer | src/capture_client.rs:76-89 | seeding needs no buffer and at most BUFFER_LENGTH samples, and becomes the buffer; extending needs a buffer and keeps the newest samples; every other call leaves the buffer alone |
| CaptureProtocol.SinkSeesNewestSamples | src/capture_client.rs:115-118 | every sink write receives the newest BUFFER_LENGTH samples of the packets stored before it |
| CaptureProtocol.NeverClosed | src/capture_client.rs:94-129 | the sink's close is never called |
| CaptureClients.RecordingAudioClient.constructor | src/capture_client.rs:26-34 | a client starts without a buffer, with an empty trace, in the idle phase, with the hardware it is given as its script |
| CaptureClients.RecordingAudioClient.Record | src/capture_client.rs:94-129 | appending a call the automaton allows keeps the trace accepted, counts a sleep exactly when it is one, and replays the trace one call further |
| CaptureClients.RecordingAudioClient.GetNextPacketSize | src/capture_client.rs:132-145 | takes the next reply; returns its frames, or None (the panic) when the HRESULT fails; the phase becomes Draining, Idle or Halted accordingly |
| CaptureClients.RecordingAudioClient.GetBuffer | src/capture_client.rs:41-65 | takes the next reply and writes back its frame count; NoData when the count is 0, before the HRESULT is checked; otherwise None (the panic) when it fails, else the packet, which becomes the one the next store copies from |
| CaptureClients.RecordingAudioClient.SeedBuffer | src/capture_client.rs:82-88 | the None arm: the packet's first len samples become a fresh buffer, or from_raw_parts panics when len > BUFFER_LENGTH |
| CaptureClients.RecordingAudioClient.ExtendInternal | src/capture_client.rs:77-81 | the Some arm with the copied samples: the buffer becomes the newest BUFFER_LENGTH samples of old ++ packet[..len], or extend panics exactly when len > 2 * BUFFER_LENGTH - len(buffer), leaving it unchanged |
| CaptureClients.RecordingAudioClient.WriteToInternalVector | src/capture_client.rs:67-91 | copies from the packet get_buffer handed out; converts frames to samples; the first packet seeds a fresh buffer with exactly that many samples, or panics above BUFFER_LENGTH; a later one extends the buffer to the newest BUFFER_LENGTH samples, or panics when extend would |
| CaptureClients.RecordingAudioClient.WriteToSink | src/capture_client.rs:115-118 | the sink receives the current buffer and the packet's frame count |
| CaptureClients.RecordingAudioClient.ReleaseBuffer | src/capture_client.rs:150-165 | without a buffer: Ok, and the hardware is not touched; otherwise it releases exactly n_frames and fails exactly when the HRESULT does |
| CaptureClients.RecordingAudioClient.StorePacket | src/capture_client.rs:108-121 | the Streaming arm: the packet is stored and, unless that panics, the sink is written, ending in the release phase of that packet's frames |
| CaptureClients.RecordingAudioClient.ReleaseAndQuery | src/capture_client.rs:125-126 | the release, then the next query; it ends Halted on either failure, else Draining or Idle by the frames reported, and the queue of packet sizes shrinks unless already empty |
| CaptureClients.RecordingAudioClient.DrainOnePacket | src/capture_client.rs:107-126 | one inner iteration: get, store and write when there is a packet, release, query again; the old trace is a proper prefix of the new, and the calls appended hold exactly one get_buffer, the first; the calls appended are exactly the answers of the hardware as it stood on entry, and leave it holding the replies not used; the queue of packet sizes shrinks unless already empty |
| CaptureClients.RecordingAudioClient.DrainPackets | src/capture_client.rs:106-127 | the inner loop runs while frames are pending and ends Idle, or Halted after a panic; it makes no sleep; the old trace is a prefix of the new, and the calls appended are the answers of the hardware as it stood on entry |
| CaptureClients.RecordingAudioClient.StreamToSink | src/capture_client.rs:94-129 | runs wakeCycles wake-ups; the old trace is a prefix of the new; the calls appended are the answers of the hardware as it stood on entry, and the whole trace is accepted and matches the buffer; it ends Halted after a panic, otherwise Idle with exactly wakeCycles more sleeps |
| CaptureClients.ReplayConcat | src/capture_client.rs:94-129 | replaying a trace in two parts equals replaying it whole: the second part is answered by what the first part left |
| CaptureClients.ReplayExtends | src/capture_client.rs:94-129 | the calls a trace gains past a prefix are answered by the hardware as the prefix left it |
| CaptureClients.StepDeterministic | src/capture_client.rs:100-127 | from any state, two calls that the automaton allows and the hardware answers are the same call |
| CaptureClients.TraceDeterminedByScript | src/capture_client.rs:94-129 | two accepted traces of equal length that the same script answers are the same trace, so the script fixes every call the loop makes |
| CaptureClients.CopiedPacket | src/capture_client.rs:78-79 | after with_capacity and ptr::copy the vector's visible elements are empty and the samples sit in its spare capacity |
| CaptureClients.AsWrittenExtendDropsPacket | src/capture_client.rs:78-80 | extend as written receives an empty slice and leaves the buffer unchanged, whatever the packet |
| CaptureClients.AsWrittenDiffersFromCopy | src/capture_client.rs:78-80 | extending a buffer that has room with the copied samples never leaves it unchanged |

## Findings

| source | as written | input that shows it | evidently intended | confidence | as-written member | corrected member |
|---|---|---|---|---|---|---|
| src/capture_client.rs:78-80 | `Vec::with_capacity(len)` followed by `ptr::copy` into `as_mut_ptr()` never sets the vector's length, so `extend(&data, len)` receives an empty slice and returns at once | any second packet with frames > 0, while the buffer holds fewer than BUFFER_LENGTH samples: the buffer after it equals the buffer before it | the packet's `len` samples are appended to the buffer (for example through `set_len(len)` after the copy) | high; not executed | CaptureClients.AsWrittenExtendDropsPacket | CaptureClients.RecordingAudioClient.WriteToInternalVector |

The as-written half is `CopiedPacket` with `AsWrittenExtendDropsPacket`;
`AsWrittenDiffersFromCopy` shows the corrected extend does change such a
buffer. The drain loop uses the corrected `WriteToInternalVector`, which
calls `extend` on the copied samples.

## Left out

- Floating-point conversions (`to_f32` of every type, and `f32`'s `to_i32`, `to_i16`, `to_u16` and `from`): they depend on float scaling and rounding. `i32::to_f32` (`src/stream_format.rs:51-53`) calls `self.to_i32().to_f32()` on an `i32`, which is itself, so it never terminates; it is not modelled.
- StreamFormats.From: the F32 target is excluded, because it converts through `to_f32`.
- StreamFormats.I32ToI16: the overflow of the else-branch is a precondition (`I32ToI16NoOverflow`), not an error result, because in a debug build an arithmetic overflow panics inside the conversion.
- The wake interval (`actual_duration`, computed in f32 from the hardware buffer size) and `thread::sleep`: a sleep is a `Sleep` call with no duration.
- CaptureClients.RecordingAudioClient.StreamToSink: the outer loop runs `wakeCycles` times instead of for ever, because a loop that never ends cannot be verified here; `IdleAllowsSleep` states that it can always continue.
- The capture hardware (`IAudioCaptureClient`, COM): replaced by a scripted source, `CaptureHardware`. An exhausted queue answers S_OK with zero frames and an empty packet. The script is assumed to deliver at least as many samples as the frames it reports hold.
- Raw pointers: `ptr::copy`, `Vec::from_raw_parts` and `slice::from_raw_parts` are copies of sample sequences. The aliasing between the internal buffer and the hardware's memory, which `ExtensibleBuffer::from_raw_parts` creates, is not modelled. Neither is the undefined behaviour of reading past that memory.
- Buffers.Buffer.Bytes: the reinterpretation of samples as bytes is not modelled; the memory is already a byte sequence.
- `usize` overflow in `frames * n_block_align` is not modelled: a u32 times a u32 does not overflow a 64-bit usize.
- The sink (`AudioWriter`, its WAV and ASR implementations) is not part of this model: a write is recorded in the trace with what it receives, and its result is dropped, as in the code.
- `Drop for RecordingAudioClient`, which releases the COM object, the `debug!` and `dbg!` logging, and the `debug_assert!` that the packet pointer is non-null are not modelled.
- `src/audio_client.rs`, `src/device.rs`, `src/device_enumerator.rs`, `src/utils.rs` (apart from the sign test of `check_result`), `src/main.rs`, `src/writer/`, `src/audio_sink.rs` and `src/asr/` are not part of this model.
