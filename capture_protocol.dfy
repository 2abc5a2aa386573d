/** The order in which the capture loop of src/capture_client.rs talks to the
    capture hardware, the internal buffer and the sink, written as an
    automaton over the calls it makes. A run of the loop is recorded as a
    trace of such calls; the lemmas here say what every accepted trace
    looks like. */
module CaptureProtocol {
  import opened Rust
  import opened StreamFormats
  import opened Buffers

  /** `check_result`: an HRESULT fails when it is negative. */
  predicate Failed(hr: Int32) {
    hr < 0
  }

  /** `write_to_internal_vector`: the samples a packet of `frames` frames
      holds, `frames * n_block_align / sample_size` in integer division. */
  function SampleCount(frames: nat, fmt: StreamFormat): (r: nat)
    ensures r * SampleSize(fmt.sampleFormat) <= frames * fmt.nBlockAlign as int
    ensures frames * fmt.nBlockAlign as int < (r + 1) * SampleSize(fmt.sampleFormat)
  {
    var size := SampleSize(fmt.sampleFormat);
    var bytes := frames * fmt.nBlockAlign as int;
    assert 0 <= bytes by {
      MulNonNegative(frames, fmt.nBlockAlign as int);
    }
    FloorDivision(bytes, size);
    bytes / size
  }

  lemma MulNonNegative(a: nat, b: nat)
    ensures 0 <= a * b
  {
  }

  /** Integer division rounds down. */
  lemma FloorDivision(a: nat, d: nat)
    requires d > 0
    ensures (a / d) * d <= a < (a / d + 1) * d
  {
    assert a == d * (a / d) + a % d;
  }

  /** The two panics of `write_to_internal_vector`: the assertion of
      `ExtensibleBuffer::from_raw_parts` and the arithmetic of `extend`. */
  datatype PanicReason = SeedTooLong | ExtendOverflow

  /** One call made by `stream_to_sink`, with what it returned. */
  datatype Call<T> =
    | Sleep                                   // the timed wait between wake-ups
    | GetNextPacketSize(frames: nat, hr: Int32)
    | GetBuffer(frames: nat, hr: Int32)
    | Seed(samples: seq<T>)                   // first packet becomes the buffer
    | Extend(samples: seq<T>)                 // later packet goes through `extend`
    | Panic(reason: PanicReason)
    | SinkWrite(snapshot: seq<T>, frames: nat)
    | ReleaseBuffer(frames: nat, hr: Int32)   // hardware ReleaseBuffer issued
    | ReleaseSkipped(frames: nat)             // `release_buffer` with no buffer yet
    | SinkClose

  datatype Phase =
    | Idle                  // before the sleep of an outer iteration
    | Querying              // about to ask for the next packet size
    | Draining              // pending frames reported: about to get a buffer
    | Storing(frames: nat)  // got a packet: about to put it in the buffer
    | Writing(frames: nat)  // packet stored: about to call the sink
    | Releasing(frames: nat)
    | Halted                // the thread has panicked

  /** The automaton's state: where the loop is, and the samples the internal
      buffer holds (`None` before the first packet). */
  datatype State<T> = State(phase: Phase, buffer: Option<seq<T>>)

  /** The calls the loop may make in each state, and the state after. A
      panicked thread makes no further call, and only storing a packet
      changes the buffer. */
  ghost function Step<T>(fmt: StreamFormat, s: State<T>, c: Call<T>): (r: Option<State<T>>)
    ensures s.phase == Halted ==> r.None?
    ensures r.Some? && r.value.buffer != s.buffer ==> c.Seed? || c.Extend?
  {
    match s.phase
    case Idle =>
      if c.Sleep? then Some(s.(phase := Querying)) else None
    case Querying =>
      if c.GetNextPacketSize? then
        Some(s.(phase := if Failed(c.hr) then Halted else if c.frames > 0 then Draining else Idle))
      else None
    case Draining =>
      if c.GetBuffer? then
        Some(s.(phase := if c.frames == 0 then Releasing(0) else if Failed(c.hr) then Halted else Storing(c.frames)))
      else None
    case Storing(f) =>
      var count := SampleCount(f, fmt);
      if c.Seed? && s.buffer.None? && |c.samples| == count && count <= BUFFER_LENGTH then
        Some(State(Writing(f), Some(c.samples)))
      else if c.Extend? && s.buffer.Some? && |c.samples| == count && count <= 2 * BUFFER_LENGTH - |s.buffer.value| then
        Some(State(Writing(f), Some(Newest(s.buffer.value + c.samples, BUFFER_LENGTH))))
      else if c == Panic(SeedTooLong) && s.buffer.None? && count > BUFFER_LENGTH then
        Some(s.(phase := Halted))
      else if c == Panic(ExtendOverflow) && s.buffer.Some? && count > 2 * BUFFER_LENGTH - |s.buffer.value| then
        Some(s.(phase := Halted))
      else None
    case Writing(f) =>
      if c.SinkWrite? && c.frames == f && s.buffer == Some(c.snapshot) then Some(s.(phase := Releasing(f)))
      else None
    case Releasing(f) =>
      if c.ReleaseBuffer? && c.frames == f && s.buffer.Some? then
        Some(s.(phase := if Failed(c.hr) then Halted else Querying))
      else if c.ReleaseSkipped? && c.frames == f && s.buffer.None? then
        Some(s.(phase := Querying))
      else None
    case Halted => None
  }

  /** The state after a trace, or `None` if the loop cannot make it. */
  ghost function Run<T>(fmt: StreamFormat, t: seq<Call<T>>): Option<State<T>>
    decreases |t|
  {
    if t == [] then Some(State(Idle, None))
    else match Run(fmt, t[..|t| - 1])
      case None => None
      case Some(s) => Step(fmt, s, t[|t| - 1])
  }

  ghost predicate Accepted<T>(fmt: StreamFormat, t: seq<Call<T>>) {
    Run(fmt, t).Some?
  }

  /** Running a trace one call longer is one more step. */
  lemma RunSnoc<T>(fmt: StreamFormat, t: seq<Call<T>>, c: Call<T>)
    ensures Run(fmt, t + [c]) == if Run(fmt, t).None? then None else Step(fmt, Run(fmt, t).value, c)
  {
    assert (t + [c])[..|t|] == t;
  }

  /** Every prefix of an accepted trace is accepted, and call `i` is the step
      from the state its prefix reaches. */
  lemma {:induction false} StepAt<T>(fmt: StreamFormat, t: seq<Call<T>>, i: nat)
    requires Accepted(fmt, t) && i < |t|
    ensures Accepted(fmt, t[..i])
    ensures Run(fmt, t[..i + 1]) == Step(fmt, Run(fmt, t[..i]).value, t[i])
    decreases |t|
  {
    var u := t[..|t| - 1];
    assert t[..i + 1][..i] == t[..i];
    if i < |t| - 1 {
      assert Accepted(fmt, u);
      StepAt(fmt, u, i);
      assert u[..i] == t[..i] && u[..i + 1] == t[..i + 1] && u[i] == t[i];
    } else {
      assert t[..i + 1] == t && t[..i] == u;
    }
  }

  lemma PrefixAccepted<T>(fmt: StreamFormat, t: seq<Call<T>>, k: nat)
    requires Accepted(fmt, t) && k <= |t|
    ensures Accepted(fmt, t[..k])
  {
    if k < |t| {
      StepAt(fmt, t, k);
    } else {
      assert t[..k] == t;
    }
  }

  // ---------------------------------------------------------------------
  // What one call allows as the next one.
  // ---------------------------------------------------------------------

  /** The call that may come right after `c`, whatever came before:
      a failing HRESULT or a panic ends the trace, a sleep or a release is
      followed by a packet-size query, a query reporting frames by
      `get_buffer`, a query reporting none by the next sleep, an empty
      `get_buffer` directly by the release of zero frames, a packet by
      storing it, a stored packet by the sink write, and the sink write by
      the release of that packet's frames. */
  ghost predicate Follows<T>(c: Call<T>, d: Call<T>) {
    match c
    case Sleep => d.GetNextPacketSize?
    case GetNextPacketSize(n, hr) =>
      !Failed(hr) && (if n > 0 then d.GetBuffer? else d.Sleep?)
    case GetBuffer(f, hr) =>
      if f == 0 then (d.ReleaseBuffer? && d.frames == 0) || d == ReleaseSkipped(0)
      else !Failed(hr) && (d.Seed? || d.Extend? || d.Panic?)
    case Seed(_) => d.SinkWrite?
    case Extend(_) => d.SinkWrite?
    case Panic(_) => false
    case SinkWrite(_, f) => d.ReleaseBuffer? && d.frames == f
    case ReleaseBuffer(_, hr) => !Failed(hr) && d.GetNextPacketSize?
    case ReleaseSkipped(_) => d.GetNextPacketSize?
    case SinkClose => false
  }

  /** The phase a call leaves the automaton in depends on that call only,
      except for the frame count carried from `get_buffer` to the sink. */
  lemma PhaseAfter<T>(fmt: StreamFormat, s: State<T>, c: Call<T>, d: Call<T>)
    requires Step(fmt, s, c).Some? && Step(fmt, Step(fmt, s, c).value, d).Some?
    ensures Follows(c, d)
  {
  }

  /** In an accepted trace every call is followed by one `Follows` allows. */
  lemma NextCall<T>(fmt: StreamFormat, t: seq<Call<T>>, i: nat)
    requires Accepted(fmt, t) && i + 1 < |t|
    ensures Follows(t[i], t[i + 1])
  {
    PrefixAccepted(fmt, t, i + 2);
    StepAt(fmt, t, i + 1);
    StepAt(fmt, t, i);
    PhaseAfter(fmt, Run(fmt, t[..i]).value, t[i], t[i + 1]);
  }

  /** The first call is the sleep of the first wake-up. */
  lemma FirstCallIsSleep<T>(fmt: StreamFormat, t: seq<Call<T>>)
    requires Accepted(fmt, t) && t != []
    ensures t[0] == Sleep
  {
    PrefixAccepted(fmt, t, 1);
    StepAt(fmt, t, 0);
    assert t[..0] == [];
  }

  // ---------------------------------------------------------------------
  // What reaching the sink requires.
  // ---------------------------------------------------------------------

  /** Only a stored packet leads to the sink-write phase. */
  lemma WritingAfterStore<T>(fmt: StreamFormat, t: seq<Call<T>>, f: nat)
    requires Accepted(fmt, t) && Run(fmt, t).value.phase == Writing(f)
    ensures t != [] && (t[|t| - 1].Seed? || t[|t| - 1].Extend?)
    ensures Accepted(fmt, t[..|t| - 1]) && Run(fmt, t[..|t| - 1]).value.phase == Storing(f)
  {
  }

  /** So in the sink-write phase the buffer exists. */
  lemma WritingHasBuffer<T>(fmt: StreamFormat, t: seq<Call<T>>, f: nat)
    requires Accepted(fmt, t) && Run(fmt, t).value.phase == Writing(f)
    ensures Run(fmt, t).value.buffer.Some?
  {
    WritingAfterStore(fmt, t, f);
    StepBuffer(fmt, Run(fmt, t[..|t| - 1]).value, t[|t| - 1]);
  }

  /** Only a successful `get_buffer` with frames leads to the storing phase. */
  lemma StoringAfterGetBuffer<T>(fmt: StreamFormat, t: seq<Call<T>>, f: nat)
    requires Accepted(fmt, t) && Run(fmt, t).value.phase == Storing(f)
    ensures t != [] && t[|t| - 1].GetBuffer? && t[|t| - 1].frames == f && f > 0 && !Failed(t[|t| - 1].hr)
  {
  }

  /** The sink is written only right after a successful `get_buffer` with
      frames and the storing of that packet, with that packet's frame count
      and the buffer as it is after the packet went in. */
  lemma SinkWriteAfterStore<T>(fmt: StreamFormat, t: seq<Call<T>>, i: nat)
    requires Accepted(fmt, t) && i < |t| && t[i].SinkWrite?
    ensures i >= 2
    ensures t[i - 1].Seed? || t[i - 1].Extend?
    ensures t[i - 2].GetBuffer? && t[i - 2].frames == t[i].frames > 0 && !Failed(t[i - 2].hr)
    ensures Accepted(fmt, t[..i]) && Run(fmt, t[..i]).value.buffer == Some(t[i].snapshot)
  {
    var f := t[i].frames;
    PrefixAccepted(fmt, t, i + 1);
    StepAt(fmt, t, i);
    var u := t[..i];
    WritingAfterStore(fmt, u, f);
    assert u[..|u| - 1] == t[..i - 1] && u[|u| - 1] == t[i - 1];
    StoringAfterGetBuffer(fmt, t[..i - 1], f);
    assert t[..i - 1][i - 2] == t[i - 2];
  }

  // ---------------------------------------------------------------------
  // Wake-ups.
  // ---------------------------------------------------------------------

  /** Between wake-ups the loop can always sleep again: nothing ever makes
      the outer loop stop short of a panic. */
  lemma IdleAllowsSleep<T>(fmt: StreamFormat, t: seq<Call<T>>)
    requires Accepted(fmt, t) && Run(fmt, t).value.phase == Idle
    ensures Accepted(fmt, t + [Sleep]) && Run(fmt, t + [Sleep]).value.phase == Querying
    ensures Run(fmt, t + [Sleep]).value.buffer == Run(fmt, t).value.buffer
  {
    RunSnoc(fmt, t, Sleep);
  }

  /** The number of sleeps, one per iteration of the outer loop. */
  function Sleeps<T>(t: seq<Call<T>>): nat
    decreases |t|
  {
    if t == [] then 0 else Sleeps(t[..|t| - 1]) + (if t[|t| - 1].Sleep? then 1 else 0)
  }

  lemma SleepsSnoc<T>(t: seq<Call<T>>, c: Call<T>)
    ensures Sleeps(t + [c]) == Sleeps(t) + (if c.Sleep? then 1 else 0)
  {
    assert (t + [c])[..|t|] == t;
  }

  // ---------------------------------------------------------------------
  // get_buffer / release_buffer pairing.
  // ---------------------------------------------------------------------

  function Gets<T>(t: seq<Call<T>>): nat
    decreases |t|
  {
    if t == [] then 0 else Gets(t[..|t| - 1]) + (if t[|t| - 1].GetBuffer? then 1 else 0)
  }

  function Releases<T>(t: seq<Call<T>>): nat
    decreases |t|
  {
    if t == [] then 0
    else Releases(t[..|t| - 1]) + (if t[|t| - 1].ReleaseBuffer? || t[|t| - 1].ReleaseSkipped? then 1 else 0)
  }

  /** A packet that has been got and not yet released. */
  predicate Holding(p: Phase) {
    p.Storing? || p.Writing? || p.Releasing?
  }

  /** Every `get_buffer` is matched by one `release_buffer`: outside a drain
      iteration the two counts agree, inside one exactly one packet is held;
      a panic leaves at most that one packet unreleased. */
  lemma {:induction false} GetReleasePairing<T>(fmt: StreamFormat, t: seq<Call<T>>)
    requires Accepted(fmt, t)
    ensures Releases(t) <= Gets(t) <= Releases(t) + 1
    ensures Run(fmt, t).value.phase != Halted ==>
      Gets(t) == Releases(t) + (if Holding(Run(fmt, t).value.phase) then 1 else 0)
    decreases |t|
  {
    if t != [] {
      GetReleasePairing(fmt, t[..|t| - 1]);
    }
  }

  // ---------------------------------------------------------------------
  // The buffer the sink sees.
  // ---------------------------------------------------------------------

  /** Every sample put into the buffer so far, in arrival order. */
  function Stored<T>(t: seq<Call<T>>): seq<T>
    decreases |t|
  {
    if t == [] then []
    else
      var last := t[|t| - 1];
      Stored(t[..|t| - 1]) + (if last.Seed? || last.Extend? then last.samples else [])
  }

  /** Whether the first packet has seeded the buffer. */
  predicate Seeded<T>(t: seq<Call<T>>)
    decreases |t|
  {
    t != [] && (t[|t| - 1].Seed? || Seeded(t[..|t| - 1]))
  }

  /** The buffer holds the newest `BUFFER_LENGTH` samples of all packets
      stored so far, oldest first, and does not exist before the first. */
  lemma {:induction false} BufferIsNewestStored<T>(fmt: StreamFormat, t: seq<Call<T>>)
    requires Accepted(fmt, t)
    ensures Run(fmt, t).value.buffer == if Seeded(t) then Some(Newest(Stored(t), BUFFER_LENGTH)) else None
    ensures !Seeded(t) ==> Stored(t) == []
    decreases |t|
  {
    if t != [] {
      var u, c := t[..|t| - 1], t[|t| - 1];
      assert Accepted(fmt, u);
      BufferIsNewestStored(fmt, u);
      var s := Run(fmt, u).value;
      assert Run(fmt, t) == Step(fmt, s, c);
      assert Stored(t) == Stored(u) + (if c.Seed? || c.Extend? then c.samples else []);
      assert Seeded(t) == (c.Seed? || Seeded(u));
      StepBuffer(fmt, s, c);
      if c.Seed? {
        assert Stored(t) == c.samples;
      } else if c.Extend? {
        NewestOfNewest(Stored(u), c.samples, BUFFER_LENGTH);
      } else {
        assert Stored(t) == Stored(u);
      }
    }
  }

  /** How one step changes the buffer. */
  lemma StepBuffer<T>(fmt: StreamFormat, s: State<T>, c: Call<T>)
    requires Step(fmt, s, c).Some?
    ensures c.Seed? ==> s.buffer.None? && |c.samples| <= BUFFER_LENGTH
    ensures c.Extend? ==> s.buffer.Some?
    ensures Step(fmt, s, c).value.buffer
         == if c.Seed? then Some(c.samples)
            else if c.Extend? then Some(Newest(s.buffer.value + c.samples, BUFFER_LENGTH))
            else s.buffer
  {
  }

  /** So every sink write receives the newest `BUFFER_LENGTH` samples of the
      packets stored before it. */
  lemma SinkSeesNewestSamples<T>(fmt: StreamFormat, t: seq<Call<T>>, i: nat)
    requires Accepted(fmt, t) && i < |t| && t[i].SinkWrite?
    ensures t[i].snapshot == Newest(Stored(t[..i]), BUFFER_LENGTH)
    ensures |t[i].snapshot| <= BUFFER_LENGTH
  {
    SinkWriteAfterStore(fmt, t, i);
    var u := t[..i];
    BufferIsNewestStored(fmt, u);
    assert Seeded(u) by {
      assert u[|u| - 1] == t[i - 1];
    }
  }

  /** `close` is never called on the sink: `SinkClose` stands for the
      sink's `close`, which `stream_to_sink` never calls, and so `Step` has
      no transition for it in any phase. */
  lemma {:induction false} NeverClosed<T>(fmt: StreamFormat, t: seq<Call<T>>)
    requires Accepted(fmt, t)
    ensures SinkClose !in t
    decreases |t|
  {
    if t != [] {
      NeverClosed(fmt, t[..|t| - 1]);
      assert t == t[..|t| - 1] + [t[|t| - 1]];
    }
  }
}
