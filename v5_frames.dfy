/**
 * The Solarman V5 frame codec of the push server (server.py): scanning a
 * received byte buffer for frames and building the acknowledgement frame.
 *
 * Wire layout of one frame, multi-byte fields little-endian:
 *   0 start 0xA5 | 1..2 length L | 3..4 control | 5..6 sequence | 7..10 serial
 *   | 11 frame type | 12.. payload | checksum | end 0x15
 * The whole frame is 1 + 2 + L + 1 + 1 bytes; the checksum is the sum of all
 * bytes before it, modulo 256.
 */
module V5Frames {
  import opened Common

  const V5_START: byte := 0xA5
  const V5_END: byte := 0x15

  const FRAME_HEARTBEAT: byte := 0x47
  const FRAME_DATA: byte := 0x42
  const FRAME_HELLO: byte := 0x41

  /** start(1) + length(2) + control(2) + seq(2) + serial(4) + type(1) + checksum(1) + end(1) */
  const MIN_FRAME_SIZE: nat := 14
  /** start(1) + length(2) + control(2) + seq(2) + serial(4) + type(1) */
  const HEADER_SIZE: nat := 12

  /** A decoded frame: `(frame_type, logger_serial, payload)`. */
  datatype Frame = Frame(frameType: byte, serial: u32, payload: seq<byte>)

  /** The header of a frame could not be read: a frame that passed the end-marker and
      checksum checks is shorter than its fixed 12-byte header. */
  datatype ScanError = HeaderTooShort(start: nat)

  // ---------------------------------------------------------------------------
  // Byte-level helpers
  // ---------------------------------------------------------------------------

  /** `sum(s)`: the plain sum of the bytes. */
  function Sum(s: seq<byte>): nat {
    if s == [] then 0 else Sum(s[..|s| - 1]) + s[|s| - 1]
  }

  /** The sum of the bytes `s[lo..hi]`, indexed in place. */
  function SumRange(s: seq<byte>, lo: nat, hi: nat): nat
    requires lo <= hi <= |s|
    decreases hi - lo
  {
    if lo == hi then 0 else SumRange(s, lo, hi - 1) + s[hi - 1]
  }

  /** Summing in place is summing the slice. */
  lemma {:induction false} SumRangeIsSum(s: seq<byte>, lo: nat, hi: nat)
    requires lo <= hi <= |s|
    decreases hi - lo
    ensures SumRange(s, lo, hi) == Sum(s[lo .. hi])
  {
    if lo < hi {
      SumRangeIsSum(s, lo, hi - 1);
      assert s[lo .. hi][..hi - lo - 1] == s[lo .. hi - 1];
    }
  }

  /** Little-endian unsigned 16-bit field at `at` (`struct.unpack_from("<H", ...)`). */
  function LE16(s: seq<byte>, at: nat): u16
    requires at + 2 <= |s|
  {
    s[at] as int + 0x100 * s[at + 1] as int
  }

  /** Little-endian unsigned 32-bit field at `at` (`struct.unpack_from("<I", ...)`). */
  function LE32(s: seq<byte>, at: nat): u32
    requires at + 4 <= |s|
  {
    s[at] as int + 0x100 * s[at + 1] as int + 0x1_0000 * s[at + 2] as int + 0x100_0000 * s[at + 3] as int
  }

  /** `struct.pack("<H", v)`. */
  function PackLE16(v: u16): (r: seq<byte>)
    ensures |r| == 2 && LE16(r, 0) == v
  {
    [v % 0x100, v / 0x100]
  }

  /** `struct.pack("<I", v)`. */
  function PackLE32(v: u32): (r: seq<byte>)
    ensures |r| == 4 && LE32(r, 0) == v
  {
    var b0, r0 := v % 0x100, v / 0x100;
    var b1, r1 := r0 % 0x100, r0 / 0x100;
    var b2, b3 := r1 % 0x100, r1 / 0x100;
    assert r1 == b2 + 0x100 * b3;
    assert r0 == b1 + 0x100 * r1;
    assert v == b0 + 0x100 * r0;
    [b0, b1, b2, b3]
  }

  // ---------------------------------------------------------------------------
  // Scanning a buffer (_parse_v5_frames)
  // ---------------------------------------------------------------------------

  /** `data.find(V5_START, pos)`: the first start marker at or after `pos`. */
  function FindStart(data: seq<byte>, pos: nat): (r: Option<nat>)
    decreases |data| - pos
    ensures r.Some? ==> pos <= r.value < |data| && data[r.value] == V5_START
  {
    if pos >= |data| then None
    else if data[pos] == V5_START then Some(pos)
    else FindStart(data, pos + 1)
  }

  /** `FindStart` finds the first marker: none lies between `pos` and what it returns, and when it
      returns nothing there is none from `pos` on. */
  lemma {:induction false} FindStartFirst(data: seq<byte>, pos: nat)
    decreases |data| - pos
    ensures var r := FindStart(data, pos);
      && (r.Some? ==> forall k | pos <= k < r.value :: data[k] != V5_START)
      && (r.None? ==> forall k | pos <= k < |data| :: data[k] != V5_START)
  {
    if pos < |data| && data[pos] != V5_START {
      FindStartFirst(data, pos + 1);
    }
  }

  /** Total size the candidate at `start` claims: start(1) + length field(2) + length + checksum(1) + end(1). */
  function ClaimedSize(data: seq<byte>, start: nat): nat
    requires start + 3 <= |data|
  {
    1 + 2 + LE16(data, start + 1) + 1 + 1
  }

  /** The `size` bytes at `start` end with the end marker, preceded by the checksum of all bytes before it. */
  predicate EndAndChecksumOk(data: seq<byte>, start: nat, size: nat)
    requires 2 <= size && start + size <= |data|
  {
    && data[start + size - 1] == V5_END
    && data[start + size - 2] == SumRange(data, start, start + size - 2) % 0x100
  }

  /** Where a frame lies in the scanned buffer. */
  datatype Span = Span(start: nat, size: nat)

  /** A span the scanner accepts: a start marker, the size its length field claims, inside the
      buffer, ending with the end marker after a correct checksum. */
  predicate AcceptedSpan(data: seq<byte>, sp: Span) {
    && sp.start + MIN_FRAME_SIZE <= |data|
    && sp.start + sp.size <= |data|
    && data[sp.start] == V5_START
    && sp.size == ClaimedSize(data, sp.start)
    && EndAndChecksumOk(data, sp.start, sp.size)
  }

  /** What one pass of the scan loop does at `pos`. */
  datatype Step =
    | Stop              // no whole candidate left: `break`
    | Retry(next: nat)  // bad end marker or checksum: `pos = start + 1`
    | TooShort(sp: Span) // accepted, but the header extraction raises
    | Accept(sp: Span)   // the frame is appended: `pos = start + frame_size`

  /** What the scan loop does with the start marker at `start`: stop when fewer than 14 bytes
      remain from it or the size its length field claims runs past the buffer; retry one byte
      later after a bad end marker or checksum; otherwise accept. */
  function CandidateStep(data: seq<byte>, start: nat): (st: Step)
    requires start < |data| && data[start] == V5_START
    ensures st.Retry? ==> st.next == start + 1
    ensures st.TooShort? ==> st.sp.start == start && AcceptedSpan(data, st.sp) && st.sp.size < HEADER_SIZE
    ensures st.Accept? ==> st.sp.start == start && AcceptedSpan(data, st.sp) && HEADER_SIZE <= st.sp.size
  {
    if start + MIN_FRAME_SIZE > |data| then Stop
    else
      var size := ClaimedSize(data, start);
      if start + size > |data| then Stop
      else if !EndAndChecksumOk(data, start, size) then Retry(start + 1)
      else if size < HEADER_SIZE then TooShort(Span(start, size))
      else Accept(Span(start, size))
  }

  /** One pass of the scan loop of `_parse_v5_frames` at `pos`: find the next marker and stop
      when there is none; otherwise what the candidate there calls for. */
  function NextStep(data: seq<byte>, pos: nat): (st: Step)
    ensures st.Retry? ==> pos < st.next
    ensures st.TooShort? ==> pos <= st.sp.start && AcceptedSpan(data, st.sp) && st.sp.size < HEADER_SIZE
    ensures st.Accept? ==> pos <= st.sp.start && AcceptedSpan(data, st.sp) && HEADER_SIZE <= st.sp.size
  {
    match FindStart(data, pos)
    case None => Stop
    case Some(start) => CandidateStep(data, start)
  }

  /** The spans the scan loop accepts from `pos` on, in order. An accepted span shorter than the
      header makes the header extraction fail, so it is the last one. */
  function Spans(data: seq<byte>, pos: nat): seq<Span>
    decreases |data| - pos
  {
    if pos >= |data| then []
    else match NextStep(data, pos)
      case Stop => []
      case Retry(next) => Spans(data, next)
      case TooShort(sp) => [sp]
      case Accept(sp) => [sp] + Spans(data, sp.start + sp.size)
  }

  /** Accepted spans at or after `pos`, in buffer order without overlapping, all but the last
      holding a header. */
  predicate WellFormedSpans(data: seq<byte>, pos: nat, r: seq<Span>) {
    forall i: nat | i < |r| :: WellFormedAt(data, pos, r, i)
  }

  /** The `i`-th span is accepted, at or after `pos`, and, unless it is the last, holds a header
      and ends before the next one starts. */
  predicate WellFormedAt(data: seq<byte>, pos: nat, r: seq<Span>, i: nat) {
    i < |r| ==>
      && pos <= r[i].start && AcceptedSpan(data, r[i])
      && (i + 1 < |r| ==> HEADER_SIZE <= r[i].size && r[i].start + r[i].size <= r[i + 1].start)
  }

  lemma WellFormedWeaken(data: seq<byte>, p: nat, q: nat, r: seq<Span>)
    requires p <= q && WellFormedSpans(data, q, r)
    ensures WellFormedSpans(data, p, r)
  {
    forall i: nat | i < |r|
      ensures WellFormedAt(data, p, r, i)
    {
      assert WellFormedAt(data, q, r, i);
    }
  }

  lemma WellFormedCons(data: seq<byte>, pos: nat, sp: Span, rest: seq<Span>)
    requires pos <= sp.start && AcceptedSpan(data, sp) && HEADER_SIZE <= sp.size
    requires WellFormedSpans(data, sp.start + sp.size, rest)
    ensures WellFormedSpans(data, pos, [sp] + rest)
  {
    var r := [sp] + rest;
    forall i: nat | i < |r|
      ensures WellFormedAt(data, pos, r, i)
    {
      if 1 <= i {
        assert WellFormedAt(data, sp.start + sp.size, rest, i - 1);
        assert r[i] == rest[i - 1];
      } else if 1 < |r| {
        assert WellFormedAt(data, sp.start + sp.size, rest, 0);
      }
    }
  }

  /** Every span the scan accepts from `pos` on is an accepted frame at or after `pos`; they come
      in buffer order without overlapping, and only the last can be shorter than the header. */
  lemma {:induction false} SpansWellFormed(data: seq<byte>, pos: nat)
    decreases |data| - pos
    ensures WellFormedSpans(data, pos, Spans(data, pos))
  {
    if pos < |data| {
      match NextStep(data, pos)
      case Stop =>
      case Retry(next) =>
        SpansWellFormed(data, next);
        WellFormedWeaken(data, pos, next, Spans(data, next));
      case TooShort(sp) =>
        assert WellFormedAt(data, pos, [sp], 0);
      case Accept(sp) =>
        SpansWellFormed(data, sp.start + sp.size);
        WellFormedCons(data, pos, sp, Spans(data, sp.start + sp.size));
    }
  }

  /** The span lies inside the buffer and holds a whole header. */
  predicate Decodable(data: seq<byte>, sp: Span) {
    HEADER_SIZE <= sp.size && sp.start + sp.size <= |data|
  }

  predicate DecodableSpans(data: seq<byte>, spans: seq<Span>) {
    forall i | 0 <= i < |spans| :: Decodable(data, spans[i])
  }

  /** When the last accepted span holds a header, every one does. */
  lemma SpansDecodable(data: seq<byte>)
    ensures var r := Spans(data, 0);
      r == [] || HEADER_SIZE <= r[|r| - 1].size ==> DecodableSpans(data, r)
  {
    SpansWellFormed(data, 0);
    var r := Spans(data, 0);
    if r == [] || HEADER_SIZE <= r[|r| - 1].size {
      forall i | 0 <= i < |r|
        ensures Decodable(data, r[i])
      {
        assert WellFormedAt(data, 0, r, i);
      }
    }
  }

  /** The header fields and payload of a span: serial at offset 7, type at offset 11, payload
      from offset 12 up to the checksum (`frame[12:-2]`, empty when that slice is). */
  function DecodeSpan(data: seq<byte>, sp: Span): Frame
    requires Decodable(data, sp)
  {
    Frame(
      data[sp.start + 11],
      LE32(data, sp.start + 7),
      if sp.size >= HEADER_SIZE + 2 then data[sp.start + HEADER_SIZE .. sp.start + sp.size - 2] else [])
  }

  /** The frames of the spans, in order. */
  function DecodeSpans(data: seq<byte>, spans: seq<Span>): (fs: seq<Frame>)
    requires DecodableSpans(data, spans)
    ensures |fs| == |spans|
  {
    if spans == [] then []
    else
      assert Decodable(data, spans[0]);
      [DecodeSpan(data, spans[0])] + DecodeSpans(data, spans[1..])
  }

  /** The `i`-th frame is the decoding of the `i`-th span. */
  lemma {:induction false} DecodeSpansAt(data: seq<byte>, spans: seq<Span>, i: nat)
    requires DecodableSpans(data, spans) && i < |spans|
    ensures Decodable(data, spans[i]) && DecodeSpans(data, spans)[i] == DecodeSpan(data, spans[i])
  {
    if i > 0 {
      DecodeSpansAt(data, spans[1..], i - 1);
    }
  }

  /** The scan of `_parse_v5_frames` from `pos` on, after the frames `found` so far: the frames
      it returns, or the header error it raises. */
  function ScanFrom(data: seq<byte>, pos: nat, found: seq<Frame>): Result<seq<Frame>, ScanError>
    decreases |data| - pos
  {
    if pos >= |data| then Ok(found)
    else match NextStep(data, pos)
      case Stop => Ok(found)
      case Retry(next) => ScanFrom(data, next, found)
      case TooShort(sp) => Err(HeaderTooShort(sp.start))
      case Accept(sp) => ScanFrom(data, sp.start + sp.size, found + [DecodeSpan(data, sp)])
  }

  /** What `_parse_v5_frames(data)` returns, or the header error it raises. */
  function ParsedFrames(data: seq<byte>): Result<seq<Frame>, ScanError> {
    ScanFrom(data, 0, [])
  }

  /** The result `res` of a scan that had found `found` and then accepts `spans`: the header
      error at the last span when it is too short for a header, and otherwise `found` followed by
      the frames of all the spans. */
  predicate ScanOutcome(data: seq<byte>, spans: seq<Span>, found: seq<Frame>, res: Result<seq<Frame>, ScanError>) {
    if spans != [] && spans[|spans| - 1].size < HEADER_SIZE then
      res == Err(HeaderTooShort(spans[|spans| - 1].start))
    else
      DecodableSpans(data, spans) && res == Ok(found + DecodeSpans(data, spans))
  }

  /** Accepting one more header-sized span in front keeps the outcome, its frame moving from
      `found` into the decoded spans. */
  lemma ScanOutcomeCons(data: seq<byte>, sp: Span, rest: seq<Span>, found: seq<Frame>, res: Result<seq<Frame>, ScanError>)
    requires Decodable(data, sp)
    requires ScanOutcome(data, rest, found + [DecodeSpan(data, sp)], res)
    ensures ScanOutcome(data, [sp] + rest, found, res)
  {
    var r := [sp] + rest;
    assert r[1..] == rest;
    if rest != [] {
      assert r[|r| - 1] == rest[|rest| - 1];
    }
    if !(rest != [] && rest[|rest| - 1].size < HEADER_SIZE) {
      forall i | 0 <= i < |r|
        ensures Decodable(data, r[i])
      {
        if i > 0 {
          assert r[i] == rest[i - 1];
        }
      }
      var f := DecodeSpan(data, sp);
      assert DecodeSpans(data, r) == [f] + DecodeSpans(data, rest);
      assert found + [f] + DecodeSpans(data, rest) == found + ([f] + DecodeSpans(data, rest));
    }
  }

  /** The scan from `pos` fails exactly when its last accepted span is too short for a header,
      and otherwise appends the frames of all the spans it accepts. */
  lemma {:induction false} ScanFromSpans(data: seq<byte>, pos: nat, found: seq<Frame>)
    decreases |data| - pos
    ensures ScanOutcome(data, Spans(data, pos), found, ScanFrom(data, pos, found))
  {
    if pos < |data| {
      match NextStep(data, pos)
      case Stop =>
        assert found + [] == found;
      case Retry(next) =>
        ScanFromSpans(data, next, found);
      case TooShort(sp) =>
      case Accept(sp) =>
        var next := sp.start + sp.size;
        ScanFromSpans(data, next, found + [DecodeSpan(data, sp)]);
        ScanOutcomeCons(data, sp, Spans(data, next), found, ScanFrom(data, next, found + [DecodeSpan(data, sp)]));
    } else {
      assert found + [] == found;
    }
  }

  /** The end-marker and checksum tests on the sliced-out frame are those on the buffer. */
  lemma FrameChecks(data: seq<byte>, start: nat, size: nat)
    requires 2 <= size && start + size <= |data|
    ensures var frame := data[start .. start + size];
      EndAndChecksumOk(data, start, size) <==>
        frame[|frame| - 1] == V5_END && frame[|frame| - 2] == Sum(frame[..|frame| - 2]) % 0x100
  {
    var frame := data[start .. start + size];
    assert frame[..|frame| - 2] == data[start .. start + size - 2];
    SumRangeIsSum(data, start, start + size - 2);
  }

  /** The header fields and payload read from the sliced-out frame are those `DecodeSpan` reads. */
  lemma FrameFields(data: seq<byte>, sp: Span, frame: seq<byte>)
    requires Decodable(data, sp) && frame == data[sp.start .. sp.start + sp.size]
    ensures DecodeSpan(data, sp) == Frame(
      frame[11], LE32(frame, 7),
      if |frame| >= HEADER_SIZE + 2 then frame[HEADER_SIZE .. |frame| - 2] else [])
  {
  }

  /** The body of the scan loop of `_parse_v5_frames` after it found the marker at `start`: it
      slices out the candidate, checks its end marker and checksum and reads its header. */
  method ScanCandidate(data: seq<byte>, start: nat) returns (step: Step, frame: Option<Frame>)
    requires start < |data| && data[start] == V5_START
    ensures step == CandidateStep(data, start)
    ensures step.Accept? ==> Decodable(data, step.sp) && frame == Some(DecodeSpan(data, step.sp))
    ensures !step.Accept? ==> frame == None
  {
    if start + MIN_FRAME_SIZE > |data| {
      return Stop, None;
    }
    var length: nat := LE16(data, start + 1);
    var frameSize: nat := 1 + 2 + length + 1 + 1;
    if start + frameSize > |data| {
      return Stop, None;
    }
    var bytes := data[start .. start + frameSize];
    assert EndAndChecksumOk(data, start, frameSize) <==>
      bytes[|bytes| - 1] == V5_END && bytes[|bytes| - 2] == Sum(bytes[..|bytes| - 2]) % 0x100 by {
      FrameChecks(data, start, frameSize);
    }
    if bytes[|bytes| - 1] != V5_END {
      return Retry(start + 1), None;
    }
    var expectedCs := Sum(bytes[..|bytes| - 2]) % 0x100;
    if bytes[|bytes| - 2] != expectedCs {
      return Retry(start + 1), None;
    }
    if |bytes| < HEADER_SIZE {
      return TooShort(Span(start, frameSize)), None;
    }
    var serial := LE32(bytes, 7);
    var frameType := bytes[11];
    var payload := if |bytes| >= HEADER_SIZE + 2 then bytes[HEADER_SIZE .. |bytes| - 2] else [];
    FrameFields(data, Span(start, frameSize), bytes);
    return Accept(Span(start, frameSize)), Some(Frame(frameType, serial, payload));
  }

  /** One pass of the body of the scan loop of `_parse_v5_frames` at `pos`, after the frames
      `frames`: either the scan ends here with `done`, or it goes on from `next` after the frames
      `more`, the same scan from a later position. */
  method ScanPass(data: seq<byte>, pos: nat, frames: seq<Frame>)
      returns (next: nat, more: seq<Frame>, done: Option<Result<seq<Frame>, ScanError>>)
    requires pos < |data|
    ensures done.Some? ==> ScanFrom(data, pos, frames) == done.value
    ensures done.None? ==> pos < next && ScanFrom(data, pos, frames) == ScanFrom(data, next, more)
  {
    var found := FindStart(data, pos);
    if found.None? {
      return pos, frames, Some(Ok(frames));
    }
    var step, frame := ScanCandidate(data, found.value);
    match step
    case Stop =>
      return pos, frames, Some(Ok(frames));
    case Retry(n) =>
      return n, frames, None;
    case TooShort(sp) =>
      return pos, frames, Some(Err(HeaderTooShort(sp.start)));
    case Accept(sp) =>
      return sp.start + sp.size, frames + [frame.value], None;
  }

  /** `_parse_v5_frames`: the scan loop, appending each decoded frame. */
  method ParseV5Frames(data: seq<byte>) returns (r: Result<seq<Frame>, ScanError>)
    ensures r == ParsedFrames(data)
  {
    var frames: seq<Frame> := [];
    var pos := 0;
    while pos < |data|
      invariant ScanFrom(data, pos, frames) == ParsedFrames(data)
      decreases |data| - pos
    {
      var done;
      pos, frames, done := ScanPass(data, pos, frames);
      if done.Some? {
        return done.value;
      }
    }
    return Ok(frames);
  }

  // ---------------------------------------------------------------------------
  // What a scan yields
  // ---------------------------------------------------------------------------

  /** Every frame the scan returns is the decoding of an accepted span of the buffer, in buffer
      order; when it fails, it failed on an accepted span too short for a header. */
  lemma ParsedFramesAccepted(data: seq<byte>)
    ensures var spans := Spans(data, 0);
      match ParsedFrames(data)
      case Ok(fs) =>
        && |fs| == |spans|
        && forall i | 0 <= i < |fs| ::
             && AcceptedSpan(data, spans[i]) && HEADER_SIZE <= spans[i].size
             && fs[i] == DecodeSpan(data, spans[i])
             && (i + 1 < |fs| ==> spans[i].start + spans[i].size <= spans[i + 1].start)
      case Err(e) =>
        && spans != [] && spans[|spans| - 1].start == e.start
        && AcceptedSpan(data, spans[|spans| - 1]) && spans[|spans| - 1].size < HEADER_SIZE
  {
    SpansWellFormed(data, 0);
    ScanFromSpans(data, 0, []);
    var spans := Spans(data, 0);
    if ParsedFrames(data).Ok? {
      var fs := ParsedFrames(data).value;
      assert [] + DecodeSpans(data, spans) == DecodeSpans(data, spans);
      forall i | 0 <= i < |fs|
        ensures AcceptedSpan(data, spans[i]) && HEADER_SIZE <= spans[i].size
        ensures fs[i] == DecodeSpan(data, spans[i])
        ensures i + 1 < |fs| ==> spans[i].start + spans[i].size <= spans[i + 1].start
      {
        assert WellFormedAt(data, 0, spans, i);
        DecodeSpansAt(data, spans, i);
      }
    } else {
      assert WellFormedAt(data, 0, spans, |spans| - 1);
    }
  }

  // ---------------------------------------------------------------------------
  // Skipping noise
  // ---------------------------------------------------------------------------

  lemma {:induction false} NoMarkerBefore(x: seq<byte>, k: nat)
    requires k <= |x| && forall i | 0 <= i < k :: x[i] != V5_START
    ensures FindStart(x, 0) == FindStart(x, k)
  {
    if k > 0 {
      NoMarkerBefore(x, k - 1);
      assert FindStart(x, k - 1) == FindStart(x, k);
    }
  }

  /** The scan from `p` depends only on the first marker from `p`. */
  lemma SpansSameStart(x: seq<byte>, p: nat, q: nat)
    requires FindStart(x, p) == FindStart(x, q)
    ensures Spans(x, p) == Spans(x, q)
  {
    if p >= |x| || q >= |x| {
      assert NextStep(x, p).Stop? && NextStep(x, q).Stop? by {
        assert FindStart(x, p).None?;
      }
    } else {
      NextStepSameStart(x, p, q);
    }
  }

  /** The next step of the scan depends only on the first marker from where it starts. */
  lemma NextStepSameStart(x: seq<byte>, p: nat, q: nat)
    requires FindStart(x, p) == FindStart(x, q)
    ensures NextStep(x, p) == NextStep(x, q)
  {
  }

  /** Leading bytes without a start marker do not change the scan: it begins at the first marker. */
  lemma LeadingNoiseSkipped(data: seq<byte>, k: nat)
    requires k <= |data| && forall i | 0 <= i < k :: data[i] != V5_START
    ensures Spans(data, 0) == Spans(data, k)
  {
    NoMarkerBefore(data, k);
    SpansSameStart(data, 0, k);
  }

  /** The candidate at `start` of `data` reads the same fields after `pre` is put in front. */
  lemma CandidateShift(pre: seq<byte>, data: seq<byte>, start: nat)
    requires start + 3 <= |data|
    ensures ClaimedSize(pre + data, |pre| + start) == ClaimedSize(data, start)
    ensures var size := ClaimedSize(data, start);
      2 <= size && start + size <= |data| ==>
        EndAndChecksumOk(pre + data, |pre| + start, size) == EndAndChecksumOk(data, start, size)
  {
    var x := pre + data;
    assert x[|pre| + start + 1] == data[start + 1] && x[|pre| + start + 2] == data[start + 2];
    var size := ClaimedSize(data, start);
    if 2 <= size && start + size <= |data| {
      SumRangeShift(pre, data, start, start + size - 2);
      assert x[|pre| + start + size - 1] == data[start + size - 1];
      assert x[|pre| + start + size - 2] == data[start + size - 2];
    }
  }

  lemma {:induction false} SumRangeShift(pre: seq<byte>, data: seq<byte>, lo: nat, hi: nat)
    requires lo <= hi <= |data|
    decreases hi - lo
    ensures SumRange(pre + data, |pre| + lo, |pre| + hi) == SumRange(data, lo, hi)
  {
    if lo < hi {
      SumRangeShift(pre, data, lo, hi - 1);
      assert (pre + data)[|pre| + hi - 1] == data[hi - 1];
    }
  }

  lemma SliceShift(pre: seq<byte>, data: seq<byte>, lo: nat, hi: nat)
    requires lo <= hi <= |data|
    ensures (pre + data)[|pre| + lo .. |pre| + hi] == data[lo..hi]
  {
    var x := pre + data;
    assert forall j | 0 <= j < hi - lo :: x[|pre| + lo .. |pre| + hi][j] == data[lo..hi][j];
  }

  lemma DecodeSpanShift(pre: seq<byte>, data: seq<byte>, sp: Span)
    requires Decodable(data, sp)
    ensures Decodable(pre + data, Span(|pre| + sp.start, sp.size))
    ensures DecodeSpan(pre + data, Span(|pre| + sp.start, sp.size)) == DecodeSpan(data, sp)
  {
    var x := pre + data;
    var k := |pre|;
    var a := sp.start;
    assert x[k + a + 11] == data[a + 11];
    assert LE32(x, k + a + 7) == LE32(data, a + 7) by {
      assert x[k + a + 7] == data[a + 7];
      assert x[k + a + 8] == data[a + 8];
      assert x[k + a + 9] == data[a + 9];
      assert x[k + a + 10] == data[a + 10];
    }
    if sp.size >= HEADER_SIZE + 2 {
      SliceShift(pre, data, a + HEADER_SIZE, a + sp.size - 2);
    }
  }

  // ---------------------------------------------------------------------------
  // Acknowledgements (_build_v5_ack)
  // ---------------------------------------------------------------------------

  /** The 14 bytes of an acknowledgement before its checksum, field by field: start marker,
      length 11, control code 0x1010, sequence, serial (all little-endian), the acknowledged
      frame type, status 0x01 (OK) and a padding byte 0x00. */
  function AckHead(frameType: byte, serial: u32, sequence: u16): (h: seq<byte>)
    ensures |h| == 14
  {
    var s := PackLE32(serial);
    [V5_START, 11, 0x00, 0x10, 0x10, sequence % 0x100, sequence / 0x100, s[0], s[1], s[2], s[3],
     frameType, 0x01, 0x00]
  }

  lemma AckHeadFields(frameType: byte, serial: u32, sequence: u16)
    ensures var h := AckHead(frameType, serial, sequence);
      && h[0] == V5_START && LE16(h, 1) == 11 && LE16(h, 3) == 0x1010
      && LE16(h, 5) == sequence && LE32(h, 7) == serial
      && h[11] == frameType && h[12] == 0x01 && h[13] == 0x00
  {
  }

  /** The acknowledgement frame `_build_v5_ack(frame_type, serial, sequence)` returns: the head,
      the checksum of the head and the end marker. */
  function AckFrame(frameType: byte, serial: u32, sequence: u16): (r: seq<byte>)
    ensures |r| == 16
  {
    var head := AckHead(frameType, serial, sequence);
    head + [Sum(head) % 0x100, V5_END]
  }

  /** The acknowledgement is its head followed by the head's checksum and the end marker. */
  lemma AckFrameLayout(frameType: byte, serial: u32, sequence: u16)
    ensures var r := AckFrame(frameType, serial, sequence);
      && r[..14] == AckHead(frameType, serial, sequence)
      && r[14] == Sum(r[..14]) % 0x100 && r[15] == V5_END
  {
    var head := AckHead(frameType, serial, sequence);
    assert (head + [Sum(head) % 0x100, V5_END])[..14] == head;
  }

  /** `_build_v5_ack`: the acknowledgement assembled field by field. */
  method BuildV5Ack(frameType: byte, serial: u32, sequence: u16) returns (ack: seq<byte>)
    ensures ack == AckFrame(frameType, serial, sequence)
  {
    var payload: seq<byte> := [];
    payload := payload + [V5_START];
    payload := payload + PackLE16(11);
    payload := payload + PackLE16(0x1010);
    payload := payload + PackLE16(sequence);
    payload := payload + PackLE32(serial);
    payload := payload + [frameType];
    payload := payload + [0x01];
    payload := payload + [0x00];
    assert payload == AckHead(frameType, serial, sequence);
    var cs := Sum(payload) % 0x100;
    payload := payload + [cs];
    payload := payload + [V5_END];
    ack := payload;
  }

  /** The checksum of an acknowledgement is the one the scan expects. */
  lemma AckChecksum(frameType: byte, serial: u32, sequence: u16)
    ensures var a := AckFrame(frameType, serial, sequence);
      EndAndChecksumOk(a, 0, 16)
  {
    var a := AckFrame(frameType, serial, sequence);
    AckFrameLayout(frameType, serial, sequence);
    SumRangeIsSum(a, 0, 14);
    assert a[0 .. 14] == a[..14];
  }

  /** An acknowledgement is one whole candidate the scan accepts, 16 bytes long, and decodes to
      its type and serial with the status and padding bytes as payload. */
  lemma AckAccepted(frameType: byte, serial: u32, sequence: u16)
    ensures var a := AckFrame(frameType, serial, sequence);
      && FindStart(a, 0) == Some(0) && ClaimedSize(a, 0) == 16 && EndAndChecksumOk(a, 0, 16)
      && DecodeSpan(a, Span(0, 16)) == Frame(frameType, serial, [0x01, 0x00])
  {
    var a := AckFrame(frameType, serial, sequence);
    var h := AckHead(frameType, serial, sequence);
    AckFrameLayout(frameType, serial, sequence);
    AckHeadFields(frameType, serial, sequence);
    AckChecksum(frameType, serial, sequence);
    assert a[0] == h[0] && a[1] == h[1] && a[2] == h[2];
    assert a[7] == h[7] && a[8] == h[8] && a[9] == h[9] && a[10] == h[10] && a[11] == h[11];
    assert a[12 .. 14] == [h[12], h[13]];
  }

  /** Scanning an acknowledgement gives back one frame with its type and serial, whose payload
      is the status and padding bytes. */
  lemma AckRoundTrip(frameType: byte, serial: u32, sequence: u16)
    ensures ParsedFrames(AckFrame(frameType, serial, sequence)) == Ok([Frame(frameType, serial, [0x01, 0x00])])
  {
    var a := AckFrame(frameType, serial, sequence);
    var f := Frame(frameType, serial, [0x01, 0x00]);
    AckAccepted(frameType, serial, sequence);
    assert NextStep(a, 0) == Accept(Span(0, 16));
    assert [] + [f] == [f];
    assert ScanFrom(a, 0, []) == ScanFrom(a, 16, [f]);
  }

  /** Whatever follows an acknowledgement, the scan accepts the acknowledgement first. */
  lemma AckThenMore(frameType: byte, serial: u32, sequence: u16, more: seq<byte>, found: seq<Frame>)
    ensures var x := AckFrame(frameType, serial, sequence) + more;
      ScanFrom(x, 0, found) == ScanFrom(x, 16, found + [Frame(frameType, serial, [0x01, 0x00])])
  {
    var a := AckFrame(frameType, serial, sequence);
    var x := a + more;
    AckAccepted(frameType, serial, sequence);
    CandidatePrefix(a, more, 0);
    DecodeSpanPrefix(a, more, Span(0, 16));
    assert FindStart(x, 0) == Some(0) by { assert x[0] == a[0]; }
    assert NextStep(x, 0) == Accept(Span(0, 16));
  }

  /** An acknowledgement behind 16 other bytes is accepted by the scan from there, as the last frame. */
  lemma AckAfter(pre: seq<byte>, frameType: byte, serial: u32, sequence: u16, found: seq<Frame>)
    requires |pre| == 16
    ensures var x := pre + AckFrame(frameType, serial, sequence);
      ScanFrom(x, 16, found) == Ok(found + [Frame(frameType, serial, [0x01, 0x00])])
  {
    var a := AckFrame(frameType, serial, sequence);
    var x := pre + a;
    AckAccepted(frameType, serial, sequence);
    CandidateShift(pre, a, 0);
    DecodeSpanShift(pre, a, Span(0, 16));
    assert FindStart(x, 16) == Some(16) by { assert x[16] == a[0]; }
    assert NextStep(x, 16) == Accept(Span(16, 16));
    assert ScanFrom(x, 16, found) == ScanFrom(x, 32, found + [Frame(frameType, serial, [0x01, 0x00])]);
  }

  /** Two acknowledgements in one buffer are scanned as two frames, in order. */
  lemma TwoAcksInOneRead(t1: byte, s1: u32, q1: u16, t2: byte, s2: u32, q2: u16)
    ensures ParsedFrames(AckFrame(t1, s1, q1) + AckFrame(t2, s2, q2))
         == Ok([Frame(t1, s1, [0x01, 0x00]), Frame(t2, s2, [0x01, 0x00])])
  {
    var f1, f2 := Frame(t1, s1, [0x01, 0x00]), Frame(t2, s2, [0x01, 0x00]);
    AckThenMore(t1, s1, q1, AckFrame(t2, s2, q2), []);
    AckAfter(AckFrame(t1, s1, q1), t2, s2, q2, [f1]);
    assert [] + [f1] == [f1];
    assert [f1] + [f2] == [f1, f2];
  }

  /** The candidate at `start` of `data` reads the same fields when more bytes follow the buffer. */
  lemma CandidatePrefix(data: seq<byte>, post: seq<byte>, start: nat)
    requires start + 3 <= |data|
    ensures ClaimedSize(data + post, start) == ClaimedSize(data, start)
    ensures var size := ClaimedSize(data, start);
      2 <= size && start + size <= |data| ==>
        EndAndChecksumOk(data + post, start, size) == EndAndChecksumOk(data, start, size)
  {
    var x := data + post;
    assert x[start + 1] == data[start + 1] && x[start + 2] == data[start + 2];
    var size := ClaimedSize(data, start);
    if 2 <= size && start + size <= |data| {
      SumRangePrefix(data, post, start, start + size - 2);
    }
  }

  lemma {:induction false} SumRangePrefix(data: seq<byte>, post: seq<byte>, lo: nat, hi: nat)
    requires lo <= hi <= |data|
    decreases hi - lo
    ensures SumRange(data + post, lo, hi) == SumRange(data, lo, hi)
  {
    if lo < hi {
      SumRangePrefix(data, post, lo, hi - 1);
    }
  }

  lemma DecodeSpanPrefix(data: seq<byte>, post: seq<byte>, sp: Span)
    requires Decodable(data, sp)
    ensures Decodable(data + post, sp) && DecodeSpan(data + post, sp) == DecodeSpan(data, sp)
  {
    var x := data + post;
    assert x[sp.start + 7 .. sp.start + 12] == data[sp.start + 7 .. sp.start + 12];
    if sp.size >= HEADER_SIZE + 2 {
      assert x[sp.start + HEADER_SIZE .. sp.start + sp.size - 2] == data[sp.start + HEADER_SIZE .. sp.start + sp.size - 2];
    }
  }

  /** A buffer cut inside an acknowledgement yields no frame: the incomplete frame ends the scan
      and its bytes are not kept for the next read. */
  lemma TruncatedAckYieldsNothing(frameType: byte, serial: u32, sequence: u16, k: nat)
    requires k < 16
    ensures ParsedFrames(AckFrame(frameType, serial, sequence)[..k]) == Ok([])
  {
    var a := AckFrame(frameType, serial, sequence);
    var x := a[..k];
    AckAccepted(frameType, serial, sequence);
    if 0 < k {
      assert FindStart(x, 0) == Some(0) by { assert x[0] == a[0]; }
      if 3 <= k {
        assert x[1] == a[1] && x[2] == a[2];
      }
    }
    assert NextStep(x, 0) == Stop;
  }

  /** One corrupted byte in the length field of a frame makes it claim more bytes than the
      buffer holds, so the scan stops there and the intact frame behind it is lost too. */
  lemma CorruptLengthHidesNextFrame(t1: byte, s1: u32, q1: u16, t2: byte, s2: u32, q2: u16)
    ensures var x := AckFrame(t1, s1, q1)[2 := 0xFF] + AckFrame(t2, s2, q2);
      ParsedFrames(x) == Ok([])
  {
    var a1 := AckFrame(t1, s1, q1);
    var x := a1[2 := 0xFF] + AckFrame(t2, s2, q2);
    var h := AckHead(t1, s1, q1);
    assert a1[0] == h[0] && a1[1] == h[1];
    assert x[0] == V5_START && x[1] == a1[1] && x[2] == 0xFF;
    assert FindStart(x, 0) == Some(0);
    assert ClaimedSize(x, 0) > |x|;
    assert NextStep(x, 0) == Stop;
  }
}
