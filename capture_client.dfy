/** `RecordingAudioClient` of src/capture_client.rs: the loop that wakes up,
    drains the capture hardware packet by packet into the internal
    `ExtensibleBuffer`, and hands that buffer to the sink after each packet.

    The capture hardware (`IAudioCaptureClient`) is replaced by a scripted
    source: queues of the replies its three methods give, taken from the
    front. Every call the loop makes to the hardware, the buffer and the sink
    is appended to `trace`, and `Valid()` says the trace is one the protocol
    automaton of `CaptureProtocol` accepts, that it ends with the buffer this
    object holds, and that replaying it against the script (`Replay`) leaves
    exactly the replies the hardware has still to give. */
module CaptureClients {
  import opened Rust
  import opened StreamFormats
  import opened Buffers
  import opened CaptureProtocol

  /** `GetNextPacketSize`: an HRESULT and the frames of the next packet. */
  datatype PacketSizeReply = PacketSizeReply(hr: Int32, frames: UInt32)

  /** `GetBuffer`: an HRESULT, the frames available and the samples
      readable at the returned data pointer. */
  datatype BufferReply<T> = BufferReply(hr: Int32, frames: UInt32, packet: seq<T>)

  /** The scripted capture hardware. An exhausted queue answers `S_OK` with
      zero frames. */
  datatype CaptureHardware<T> = CaptureHardware(
    packetSizes: seq<PacketSizeReply>,
    buffers: seq<BufferReply<T>>,
    releases: seq<Int32>)

  /** The hardware hands out at least as many samples as the frames it
      reports hold. */
  predicate ScriptWellFormed<T>(h: CaptureHardware<T>, fmt: StreamFormat) {
    forall i :: 0 <= i < |h.buffers| ==> SampleCount(h.buffers[i].frames as nat, fmt) <= |h.buffers[i].packet|
  }

  /** The reply at the head of each queue; an exhausted queue answers
      `S_OK` with zero frames and an empty packet. */
  function NextSize(q: seq<PacketSizeReply>): PacketSizeReply {
    if q == [] then PacketSizeReply(0, 0) else q[0]
  }

  function NextBuffer<T>(q: seq<BufferReply<T>>): BufferReply<T> {
    if q == [] then BufferReply(0, 0, []) else q[0]
  }

  function NextRelease(q: seq<Int32>): Int32 {
    if q == [] then 0 else q[0]
  }

  /** A queue once its head reply is used up. */
  function Dequeue<R>(q: seq<R>): (r: seq<R>)
    ensures q != [] ==> q == [q[0]] + r
    ensures q == [] ==> r == []
  {
    if q == [] then [] else q[1..]
  }

  /** The scripted hardware part way through a run: the replies it has
      left, and the samples of the packet it handed out last. */
  datatype Replayed<T> = Replayed(hardware: CaptureHardware<T>, granted: seq<T>)

  /** Whether the hardware, as it stands in `r`, gave call `c` the values
      `c` records, and what it has left afterwards. A query, a
      `GetBuffer` and a hardware release each use up the head of their
      queue; seeding or extending the buffer must take its samples from the
      front of the packet handed out last; the other calls do not reach the
      hardware. */
  ghost function Answer<T>(r: Replayed<T>, c: Call<T>): Option<Replayed<T>> {
    var h := r.hardware;
    match c
    case GetNextPacketSize(frames, hr) =>
      var reply := NextSize(h.packetSizes);
      if frames == reply.frames as nat && hr == reply.hr
      then Some(r.(hardware := h.(packetSizes := Dequeue(h.packetSizes))))
      else None
    case GetBuffer(frames, hr) =>
      var reply := NextBuffer(h.buffers);
      if frames == reply.frames as nat && hr == reply.hr
      then Some(Replayed(h.(buffers := Dequeue(h.buffers)), reply.packet))
      else None
    case ReleaseBuffer(_, hr) =>
      if hr == NextRelease(h.releases)
      then Some(r.(hardware := h.(releases := Dequeue(h.releases))))
      else None
    case Seed(samples) => if samples <= r.granted then Some(r) else None
    case Extend(samples) => if samples <= r.granted then Some(r) else None
    case _ => Some(r)
  }

  /** The hardware after answering every call of `t` in turn, or `None` if
      some call of `t` records values the hardware did not give. */
  ghost function Replay<T>(r: Replayed<T>, t: seq<Call<T>>): Option<Replayed<T>>
    decreases |t|
  {
    if t == [] then Some(r)
    else match Replay(r, t[..|t| - 1])
      case None => None
      case Some(r') => Answer(r', t[|t| - 1])
  }

  lemma ReplaySnoc<T>(r: Replayed<T>, t: seq<Call<T>>, c: Call<T>)
    ensures Replay(r, t + [c]) == if Replay(r, t).None? then None else Answer(Replay(r, t).value, c)
  {
    assert (t + [c])[..|t|] == t;
  }

  /** Replaying a trace in two parts is replaying it at once: the second
      part is answered by what the first part left. */
  lemma {:induction false} ReplayConcat<T>(r: Replayed<T>, a: seq<Call<T>>, b: seq<Call<T>>)
    ensures Replay(r, a + b) == if Replay(r, a).None? then None else Replay(Replay(r, a).value, b)
    decreases |b|
  {
    if b == [] {
      assert a + b == a;
    } else {
      var b', x := b[..|b| - 1], b[|b| - 1];
      assert b == b' + [x];
      assert a + b == (a + b') + [x];
      ReplayConcat(r, a, b');
      ReplaySnoc(r, a + b', x);
      if Replay(r, a).Some? {
        ReplaySnoc(Replay(r, a).value, b', x);
      }
    }
  }

  /** So the calls a trace gains after a prefix are answered by the
      hardware as the prefix left it. */
  lemma ReplayExtends<T>(r: Replayed<T>, a: seq<Call<T>>, b: seq<Call<T>>)
    requires a <= b
    ensures Replay(r, b) == if Replay(r, a).None? then None else Replay(Replay(r, a).value, b[|a|..])
  {
    assert b == a + b[|a|..];
    ReplayConcat(r, a, b[|a|..]);
  }

  /** From any state, the automaton and the hardware together leave at most
      one call to make: which call comes next, and every value it records,
      is fixed by the phase, the buffer and the hardware's next reply. */
  lemma StepDeterministic<T>(fmt: StreamFormat, s: State<T>, r: Replayed<T>, c: Call<T>, d: Call<T>)
    requires Step(fmt, s, c).Some? && Step(fmt, s, d).Some?
    requires Answer(r, c).Some? && Answer(r, d).Some?
    ensures c == d
  {
    if c.Seed? || c.Extend? {
      assert c.samples == r.granted[..|c.samples|];
      assert d.samples == r.granted[..|d.samples|];
    }
  }

  /** The loop's calls are determined by the script: two traces of the same
      length that the protocol accepts and the same hardware answers are
      the same trace. */
  lemma {:induction false} TraceDeterminedByScript<T>(fmt: StreamFormat, r: Replayed<T>, a: seq<Call<T>>, b: seq<Call<T>>)
    requires Accepted(fmt, a) && Accepted(fmt, b) && |a| == |b|
    requires Replay(r, a).Some? && Replay(r, b).Some?
    ensures a == b
    decreases |a|
  {
    if a != [] {
      var n := |a| - 1;
      var a', b' := a[..n], b[..n];
      assert Accepted(fmt, a') && Accepted(fmt, b');
      assert Replay(r, a').Some? && Replay(r, b').Some?;
      TraceDeterminedByScript(fmt, r, a', b');
      StepDeterministic(fmt, Run(fmt, a').value, Replay(r, a').value, a[n], b[n]);
      assert a == a' + [a[n]] && b == b' + [b[n]];
    }
  }

  /** No call of `t` from index `from` on is a `GetBuffer`. */
  ghost predicate NoGetBufferFrom<T>(t: seq<Call<T>>, from: nat) {
    forall i | from <= i < |t| :: !t[i].GetBuffer?
  }

  /** `BufferStatus`: a packet to copy, or none. */
  datatype BufferStatus<T> = Streaming(packet: seq<T>) | NoData

  class RecordingAudioClient<T> {
    var buffer: ExtensibleBuffer?<T>
    const format: StreamFormat
    var hardware: CaptureHardware<T>
    var trace: seq<Call<T>>
    /** The number of sleeps in `trace`. */
    ghost var sleeps: nat
    /** The hardware as the run found it, and the packet it handed out last. */
    ghost const script: CaptureHardware<T>
    ghost var granted: seq<T>

    /** The samples the internal buffer holds, `None` before it exists. */
    ghost function BufferView(): Option<seq<T>>
      reads this, buffer
    {
      if buffer == null then None else Some(buffer.data)
    }

    ghost predicate Valid()
      reads this, buffer
    {
      && ScriptWellFormed(hardware, format)
      && (buffer != null ==> buffer.Valid() && buffer.Consistent() && buffer.maxLen == BUFFER_LENGTH)
      && Accepted(format, trace)
      && Run(format, trace).value.buffer == BufferView()
      && sleeps == Sleeps(trace)
      && Replay(Replayed(script, []), trace) == Some(Replayed(hardware, granted))
    }

    /** Where in the loop the calls made so far have left it. */
    ghost function Phase(): Phase
      reads this, buffer
      requires Valid()
    {
      Run(format, trace).value.phase
    }

    constructor (format: StreamFormat, hardware: CaptureHardware<T>)
      requires ScriptWellFormed(hardware, format)
      ensures Valid() && Phase() == Idle
      ensures buffer == null && this.format == format && this.hardware == hardware && trace == []
      ensures script == hardware
    {
      sleeps := 0;
      script := hardware;
      granted := [];
      buffer := null;
      this.format := format;
      this.hardware := hardware;
      trace := [];
    }

    /** Appends `c`, which the automaton allows from the current state; the
        buffer view afterwards is the automaton's. */
    method Record(c: Call<T>)
      requires Accepted(format, trace) && Step(format, Run(format, trace).value, c).Some?
      modifies this
      ensures trace == old(trace) + [c] && buffer == old(buffer) && hardware == old(hardware)
      ensures Accepted(format, trace) && Run(format, trace) == Step(format, Run(format, old(trace)).value, c)
      ensures Sleeps(trace) == Sleeps(old(trace)) + (if c.Sleep? then 1 else 0)
      ensures sleeps == old(sleeps) + (if c.Sleep? then 1 else 0)
      ensures var before := Replay(Replayed(script, []), old(trace));
        Replay(Replayed(script, []), trace) == if before.None? then None else Answer(before.value, c)
      ensures granted == old(granted)
    {
      RunSnoc(format, trace, c);
      SleepsSnoc(trace, c);
      ReplaySnoc(Replayed(script, []), trace, c);
      trace := trace + [c];
      sleeps := sleeps + if c.Sleep? then 1 else 0;
    }

    /** `get_next_packet_size`: the frames of the next packet, or `None`
        where the failing HRESULT makes it panic. */
    method GetNextPacketSize() returns (r: Option<UInt32>)
      requires Valid() && Phase() == Querying
      modifies this
      ensures Valid() && buffer == old(buffer) && sleeps == old(sleeps) && granted == old(granted)
      ensures var reply := NextSize(old(hardware.packetSizes));
        && hardware == old(hardware).(packetSizes := Dequeue(old(hardware.packetSizes)))
        && trace == old(trace) + [Call.GetNextPacketSize(reply.frames as nat, reply.hr)]
        && r == (if Failed(reply.hr) then None else Some(reply.frames))
      ensures Phase() == if r.None? then Halted else if r.value > 0 then Draining else Idle
    {
      var reply := NextSize(hardware.packetSizes);
      hardware := hardware.(packetSizes := Dequeue(hardware.packetSizes));
      Record(Call.GetNextPacketSize(reply.frames as nat, reply.hr));
      r := if Failed(reply.hr) then None else Some(reply.frames);
    }

    /** `get_buffer`: `NoData` when no frames are available, whatever the
        HRESULT; otherwise the packet, or `None` where a failing HRESULT
        makes it panic. `numFrames` is the frame count written back. */
    method GetBuffer() returns (status: Option<BufferStatus<T>>, numFrames: UInt32)
      requires Valid() && Phase() == Draining
      modifies this
      ensures Valid() && buffer == old(buffer) && sleeps == old(sleeps)
      ensures var reply := NextBuffer(old(hardware.buffers));
        && hardware == old(hardware).(buffers := Dequeue(old(hardware.buffers)))
        && granted == reply.packet
        && trace == old(trace) + [Call.GetBuffer(reply.frames as nat, reply.hr)]
        && numFrames == reply.frames
        && status == (if reply.frames == 0 then Some(NoData) else if Failed(reply.hr) then None else Some(Streaming(reply.packet)))
      ensures status == Some(NoData) ==> numFrames == 0 && Phase() == Releasing(0)
      ensures status.None? ==> Phase() == Halted
      ensures status.Some? && status.value.Streaming? ==>
        Phase() == Storing(numFrames as nat) && SampleCount(numFrames as nat, format) <= |status.value.packet|
        && status.value.packet == granted
    {
      var reply := NextBuffer(hardware.buffers);
      hardware := hardware.(buffers := Dequeue(hardware.buffers));
      granted := reply.packet;
      Record(Call.GetBuffer(reply.frames as nat, reply.hr));
      numFrames := reply.frames;
      if numFrames == 0 {
        status := Some(NoData);
      } else if Failed(reply.hr) {
        status := None;
      } else {
        status := Some(Streaming(reply.packet));
      }
    }

    /** The `None` arm of `write_to_internal_vector`: the packet's first
        `len` samples become the buffer, or `from_raw_parts` panics when
        they are more than `BUFFER_LENGTH`. */
    method SeedBuffer(packet: seq<T>, numFrames: UInt32) returns (panicked: bool)
      requires Valid() && Phase() == Storing(numFrames as nat) && buffer == null
      requires SampleCount(numFrames as nat, format) <= |packet| && packet == granted
      modifies this
      ensures Valid() && hardware == old(hardware) && sleeps == old(sleeps) && granted == old(granted)
      ensures buffer == null || fresh(buffer)
      ensures var len := SampleCount(numFrames as nat, format);
        if len > BUFFER_LENGTH then panicked && trace == old(trace) + [Panic(SeedTooLong)] && buffer == null
        else !panicked && trace == old(trace) + [Seed(packet[..len])] && buffer.data == packet[..len]
      ensures Phase() == if panicked then Halted else Writing(numFrames as nat)
    {
      var len := SampleCount(numFrames as nat, format);
      if len > BUFFER_LENGTH {
        Record(Panic(SeedTooLong));
        return true;
      }
      buffer := new ExtensibleBuffer.FromRawParts(packet, len, format.sampleFormat);
      assert Answer(Replayed(hardware, granted), Seed(packet[..len])) == Some(Replayed(hardware, granted));
      Record(Seed(packet[..len]));
      panicked := false;
    }

    /** The `Some` arm of `write_to_internal_vector`, with the copied
        samples: the buffer is extended by the packet's first `len`
        samples, or `extend` panics when they do not fit. */
    method ExtendInternal(packet: seq<T>, numFrames: UInt32) returns (panicked: bool)
      requires Valid() && Phase() == Storing(numFrames as nat) && buffer != null
      requires SampleCount(numFrames as nat, format) <= |packet| && packet == granted
      modifies this, buffer
      ensures Valid() && hardware == old(hardware) && sleeps == old(sleeps) && granted == old(granted)
      ensures buffer == old(buffer)
      ensures var len := SampleCount(numFrames as nat, format);
        if len > 2 * BUFFER_LENGTH - |old(buffer.data)| then
          panicked && trace == old(trace) + [Panic(ExtendOverflow)] && unchanged(buffer)
        else
          !panicked && trace == old(trace) + [Extend(packet[..len])]
          && buffer.data == Newest(old(buffer.data) + packet[..len], BUFFER_LENGTH)
      ensures Phase() == if panicked then Halted else Writing(numFrames as nat)
    {
      var len := SampleCount(numFrames as nat, format);
      if len > 2 * BUFFER_LENGTH - buffer.len {
        Record(Panic(ExtendOverflow));
        return true;
      }
      var samples := packet[..len];
      ExtendNetEffect(buffer.data, buffer.maxLen, samples);
      buffer.Extend(samples, len);
      assert Answer(Replayed(hardware, granted), Extend(samples)) == Some(Replayed(hardware, granted));
      Record(Extend(samples));
      panicked := false;
    }

    /** `write_to_internal_vector`, with the packet's samples copied before
        `extend` (see `CopiedPacket` for the code as written): the first
        packet becomes the buffer, later ones extend it. Returns whether it
        panicked: in `from_raw_parts` when the first packet holds more than
        `BUFFER_LENGTH` samples, in `extend` when a packet does not fit. */
    method WriteToInternalVector(packet: seq<T>, numFrames: UInt32) returns (panicked: bool)
      requires Valid() && Phase() == Storing(numFrames as nat)
      requires SampleCount(numFrames as nat, format) <= |packet| && packet == granted
      modifies this, buffer
      ensures Valid() && hardware == old(hardware) && sleeps == old(sleeps) && granted == old(granted)
      ensures old(buffer) != null ==> buffer == old(buffer)
      ensures old(buffer) == null ==> buffer == null || fresh(buffer)
      ensures var len := SampleCount(numFrames as nat, format);
        if old(buffer) == null then
          if len > BUFFER_LENGTH then panicked && trace == old(trace) + [Panic(SeedTooLong)] && buffer == null
          else !panicked && trace == old(trace) + [Seed(packet[..len])] && buffer.data == packet[..len]
        else
          if len > 2 * BUFFER_LENGTH - |old(buffer.data)| then
            panicked && trace == old(trace) + [Panic(ExtendOverflow)] && unchanged(buffer)
          else
            !panicked && trace == old(trace) + [Extend(packet[..len])]
            && buffer.data == Newest(old(buffer.data) + packet[..len], BUFFER_LENGTH)
      ensures Phase() == if panicked then Halted else Writing(numFrames as nat)
    {
      if buffer == null {
        panicked := SeedBuffer(packet, numFrames);
      } else {
        panicked := ExtendInternal(packet, numFrames);
      }
    }

    /** `sink.write(self.buffer.as_ref().unwrap(), num_frames)`: the sink
        sees the buffer as it is now; its result is dropped. */
    method WriteToSink(numFrames: UInt32)
      requires Valid() && Phase() == Writing(numFrames as nat)
      modifies this
      ensures Valid() && buffer == old(buffer) && hardware == old(hardware) && sleeps == old(sleeps)
      ensures granted == old(granted)
      ensures buffer != null && trace == old(trace) + [SinkWrite(buffer.data, numFrames as nat)]
      ensures Phase() == Releasing(numFrames as nat)
    {
      WritingHasBuffer(format, trace, numFrames as nat);
      Record(SinkWrite(buffer.data, numFrames as nat));
    }

    /** `release_buffer`: nothing happens before the internal buffer exists;
        afterwards the hardware's `ReleaseBuffer` is called and its HRESULT
        decides the result. */
    method ReleaseBuffer(numFrames: UInt32) returns (ok: bool)
      requires Valid() && Phase() == Releasing(numFrames as nat)
      modifies this
      ensures Valid() && buffer == old(buffer) && sleeps == old(sleeps) && granted == old(granted)
      ensures buffer == null ==>
        ok && hardware == old(hardware) && trace == old(trace) + [ReleaseSkipped(numFrames as nat)]
      ensures buffer != null ==>
        var hr := NextRelease(old(hardware.releases));
        && hardware == old(hardware).(releases := Dequeue(old(hardware.releases)))
        && trace == old(trace) + [Call.ReleaseBuffer(numFrames as nat, hr)]
        && (ok <==> !Failed(hr))
      ensures Phase() == if ok then Querying else Halted
    {
      if buffer == null {
        Record(ReleaseSkipped(numFrames as nat));
        return true;
      }
      ghost var before := Replayed(hardware, granted);
      var hr := NextRelease(hardware.releases);
      hardware := hardware.(releases := Dequeue(hardware.releases));
      assert Answer(before, Call.ReleaseBuffer(numFrames as nat, hr)) == Some(Replayed(hardware, granted));
      Record(Call.ReleaseBuffer(numFrames as nat, hr));
      ok := !Failed(hr);
    }

    /** The `Streaming` arm of the inner loop: store the packet and, unless
        that panics, hand the buffer to the sink. */
    method StorePacket(packet: seq<T>, numFrames: UInt32) returns (panicked: bool)
      requires Valid() && Phase() == Storing(numFrames as nat)
      requires SampleCount(numFrames as nat, format) <= |packet| && packet == granted
      modifies this, buffer
      ensures Valid() && hardware == old(hardware) && sleeps == old(sleeps) && granted == old(granted)
      ensures old(buffer) != null ==> buffer == old(buffer)
      ensures old(buffer) == null ==> buffer == null || fresh(buffer)
      ensures Phase() == if panicked then Halted else Releasing(numFrames as nat)
      ensures old(trace) <= trace && NoGetBufferFrom(trace, |old(trace)|)
    {
      panicked := WriteToInternalVector(packet, numFrames);
      if !panicked {
        WriteToSink(numFrames);
      }
    }

    /** The end of an inner iteration: release the packet's frames and ask
        for the frames still pending. */
    method ReleaseAndQuery(numFrames: UInt32) returns (panicked: bool, pending: UInt32)
      requires Valid() && Phase() == Releasing(numFrames as nat)
      modifies this
      ensures Valid() && buffer == old(buffer) && sleeps == old(sleeps)
      ensures Phase() == if panicked then Halted else if pending > 0 then Draining else Idle
      ensures old(trace) <= trace && NoGetBufferFrom(trace, |old(trace)|)
      ensures !panicked ==>
        if old(hardware.packetSizes) == [] then pending == 0 && hardware.packetSizes == []
        else |hardware.packetSizes| == |old(hardware.packetSizes)| - 1
    {
      panicked, pending := true, 0;
      var ok := ReleaseBuffer(numFrames);
      if ok {
        var next := GetNextPacketSize();
        if next.Some? {
          panicked, pending := false, next.value;
        }
      }
    }

    /** One iteration of the inner loop of `stream_to_sink`: get a packet,
        store it and hand the buffer to the sink (both skipped when the
        packet is empty), release it, and ask for the frames still pending.
        Returns whether the thread panicked and, if not, those frames. The
        calls it makes extend the trace, and are exactly the answers the
        hardware gave, as it stood on entry, leaving what it has left. */
    method DrainOnePacket() returns (panicked: bool, pending: UInt32)
      requires Valid() && Phase() == Draining
      modifies this, buffer
      ensures Valid()
      ensures old(buffer) != null ==> buffer == old(buffer)
      ensures old(buffer) == null ==> buffer == null || fresh(buffer)
      ensures Phase() == if panicked then Halted else if pending > 0 then Draining else Idle
      ensures sleeps == old(sleeps)
      ensures old(trace) < trace && trace[|old(trace)|].GetBuffer? && NoGetBufferFrom(trace, |old(trace)| + 1)
      ensures Replay(Replayed(old(hardware), old(granted)), trace[|old(trace)|..]) == Some(Replayed(hardware, granted))
      ensures !panicked ==>
        if old(hardware.packetSizes) == [] then pending == 0 && hardware.packetSizes == []
        else |hardware.packetSizes| == |old(hardware.packetSizes)| - 1
    {
      panicked, pending := true, 0;
      var status, numFrames := GetBuffer();
      ghost var t1 := trace;
      if status.Some? {
        if status.value.Streaming? {
          panicked := StorePacket(status.value.packet, numFrames);
        } else {
          panicked := false;
        }
        if !panicked {
          ghost var t2 := trace;
          panicked, pending := ReleaseAndQuery(numFrames);
          assert t1 <= t2 <= trace;
        }
      }
      assert old(trace) <= t1 <= trace;
      ReplayExtends(Replayed(script, []), old(trace), trace);
    }

    /** The inner loop of `stream_to_sink`: drains packets while the last
        query reported frames. Returns whether the thread panicked; if not,
        the hardware has reported no more pending frames. The calls it makes
        extend the trace and are the answers of the hardware as it stood on
        entry. */
    method DrainPackets(packetLength: UInt32) returns (panicked: bool)
      requires Valid() && Phase() == if packetLength > 0 then Draining else Idle
      modifies this, buffer
      ensures Valid()
      ensures old(buffer) != null ==> buffer == old(buffer)
      ensures old(buffer) == null ==> buffer == null || fresh(buffer)
      ensures Phase() == if panicked then Halted else Idle
      ensures sleeps == old(sleeps)
      ensures old(trace) <= trace
      ensures Replay(Replayed(old(hardware), old(granted)), trace[|old(trace)|..]) == Some(Replayed(hardware, granted))
    {
      var pending := packetLength;
      panicked := false;
      while pending > 0 && !panicked
        invariant Valid()
        invariant Phase() == if panicked then Halted else if pending > 0 then Draining else Idle
        invariant old(buffer) != null ==> buffer == old(buffer)
        invariant old(buffer) == null ==> buffer == null || fresh(buffer)
        invariant sleeps == old(sleeps)
        invariant old(trace) <= trace
        decreases if panicked then 0 else 1, |hardware.packetSizes| + (if pending > 0 then 1 else 0)
      {
        ghost var t0 := trace;
        panicked, pending := DrainOnePacket();
        assert old(trace) <= t0 <= trace;
      }
      ReplayExtends(Replayed(script, []), old(trace), trace);
    }

    /** `stream_to_sink` for `wakeCycles` wake-ups (the source loops for
        ever): each wake-up sleeps, asks for the pending frames and drains
        them. Returns whether the thread panicked; if not, exactly
        `wakeCycles` sleeps were made. Either way the calls made extend the
        trace, are the answers of the hardware as it stood on entry, and
        form a trace the protocol accepts, ending in the buffer this object
        holds. */
    method StreamToSink(wakeCycles: nat) returns (panicked: bool)
      requires Valid() && Phase() == Idle
      modifies this, buffer
      ensures Valid()
      ensures old(buffer) != null ==> buffer == old(buffer)
      ensures old(trace) <= trace
      ensures Replay(Replayed(old(hardware), old(granted)), trace[|old(trace)|..]) == Some(Replayed(hardware, granted))
      ensures panicked ==> Phase() == Halted
      ensures !panicked ==> Phase() == Idle && Sleeps(trace) == Sleeps(old(trace)) + wakeCycles
    {
      var cycle := 0;
      panicked := false;
      while cycle < wakeCycles && !panicked
        invariant cycle <= wakeCycles
        invariant Valid() && Phase() == if panicked then Halted else Idle
        invariant old(buffer) != null ==> buffer == old(buffer)
        invariant old(buffer) == null ==> buffer == null || fresh(buffer)
        invariant !panicked ==> sleeps == old(sleeps) + cycle
        invariant old(trace) <= trace
        decreases if panicked then 0 else 1, wakeCycles - cycle
      {
        ghost var t0 := trace;
        Record(Sleep);
        var next := GetNextPacketSize();
        if next.None? {
          panicked := true;
        } else {
          ghost var t1 := trace;
          panicked := DrainPackets(next.value);
          assert t1 <= trace;
          cycle := cycle + 1;
        }
        assert old(trace) <= t0 <= trace;
      }
      ReplayExtends(Replayed(script, []), old(trace), trace);
    }
  }

  // ---------------------------------------------------------------------
  // The copy in write_to_internal_vector as written.
  // ---------------------------------------------------------------------

  /** A `Vec<T>`: its initialised elements, as `&data` sees them, and what
      has been written into its spare capacity. */
  datatype RawVec<T> = RawVec(elements: seq<T>, spare: seq<T>)

  /** `Vec::with_capacity(len)` followed by `ptr::copy(packet, data.as_mut_ptr(), len)`:
      the samples land in the spare capacity and the length stays zero,
      because `set_len` is never called. */
  function CopiedPacket<T>(packet: seq<T>, len: nat): (v: RawVec<T>)
    requires len <= |packet|
    ensures v.elements == [] && v.spare == packet[..len]
  {
    RawVec([], packet[..len])
  }

  /** Hence `extend(&data, len)` as written receives an empty slice and
      leaves the buffer as it was: no later packet ever reaches it. */
  lemma AsWrittenExtendDropsPacket<T>(data: seq<T>, len: nat, packet: seq<T>, n: nat)
    requires n <= |packet|
    ensures Extended(data, len, BUFFER_LENGTH, CopiedPacket(packet, n).elements, n) == Some((data, len))
  {
  }

  /** Whereas extending with the copied samples (as `WriteToInternalVector`
      does) never leaves a buffer with room left as it was: the packet
      either goes in or makes `extend` panic. */
  lemma AsWrittenDiffersFromCopy<T>(data: seq<T>, packet: seq<T>, n: nat)
    requires 0 < n <= |packet| && |data| < BUFFER_LENGTH
    ensures Extended(data, |data|, BUFFER_LENGTH, packet[..n], n) != Some((data, |data|))
  {
    ExtendNetEffect(data, BUFFER_LENGTH, packet[..n]);
  }
}
