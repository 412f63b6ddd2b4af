/** Captured-stream framing and the one scan a certificate rests on (src/result_parse.rs). */
module Framing {
  import opened Wrappers
  import opened Bytes

  const LF: byte := 10
  const MAX_EVENT_RECORD_BYTES: nat := 128 * 1024 * 1024
  const KEPT_PREFIX: nat := 512
  const USIZE_MAX: nat := 0xFFFF_FFFF_FFFF_FFFF

  // ---- The reader ----------------------------------------------------------

  /** What one read of the descriptor gives; an empty `Data` is end of file. */
  datatype Read = Data(bytes: seq<byte>) | Failed(cause: string)

  datatype Ending = Boundary | Shortened | Failure(cause: string)

  function Min(x: nat, y: nat): nat {
    if x < y then x else y
  }

  /** The bytes a bounded reader delivers before it ends, however they are chunked. */
  function Stream(source: seq<Read>, limit: nat): (s: seq<byte>)
    ensures |s| <= limit
    decreases |source|
  {
    if limit == 0 || source == [] || source[0].Failed? || source[0].bytes == [] then []
    else
      var taken := Min(|source[0].bytes|, limit);
      source[0].bytes[..taken] + Stream(source[1..], limit - taken)
  }

  function End(source: seq<Read>, limit: nat): Ending
    decreases |source|
  {
    if limit == 0 then Boundary
    else if source == [] then Shortened
    else
      match source[0]
      case Failed(cause) => Failure(cause)
      case Data(bytes) =>
        if bytes == [] then Shortened else End(source[1..], limit - Min(|bytes|, limit))
  }

  lemma {:induction false} EndMatchesStream(source: seq<Read>, limit: nat)
    ensures End(source, limit) == Boundary <==> |Stream(source, limit)| == limit
    decreases |source|
  {
    if limit != 0 && source != [] && source[0].Data? && source[0].bytes != [] {
      EndMatchesStream(source[1..], limit - Min(|source[0].bytes|, limit));
    }
  }

  /** A buffered reader over a length-bounded descriptor. */
  class BufferedReader {
    var buffer: seq<byte>
    var source: seq<Read>
    var limit: nat

    constructor (source: seq<Read>, limit: nat)
      ensures buffer == [] && this.source == source && this.limit == limit
    {
      buffer, this.source, this.limit := [], source, limit;
    }

    ghost function Pending(): seq<byte>
      reads this
    {
      buffer + Stream(source, limit)
    }

    ghost function Ending(): Ending
      reads this
    {
      End(source, limit)
    }

    /** The part of the bound the descriptor will not reach. */
    ghost function Unreached(): int
      reads this
    {
      limit - |Stream(source, limit)|
    }

    method FillBuf() returns (r: Result<seq<byte>, string>)
      modifies this
      ensures old(Pending()) == [] && old(Ending()).Failure? ==> r == Err(old(Ending()).cause)
      ensures !(old(Pending()) == [] && old(Ending()).Failure?) ==> r == Ok(buffer)
      ensures old(Pending()) != [] ==> buffer != [] && Pending() == old(Pending()) && Ending() == old(Ending())
      ensures old(Pending()) == [] ==> buffer == [] && limit == old(Unreached())
      ensures Unreached() == old(Unreached()) || old(Pending()) == []
    {
      if buffer != [] || limit == 0 || source == [] {
        return Ok(buffer);
      }
      var next := source[0];
      source := source[1..];
      if next.Failed? {
        return Err(next.cause);
      }
      var taken := Min(|next.bytes|, limit);
      buffer := next.bytes[..taken];
      limit := limit - taken;
      if taken < |next.bytes| {
        assert End(source, 0) == Boundary;
        source := [Data(next.bytes[taken..])] + source;
      }
      return Ok(buffer);
    }

    method Consume(count: nat)
      requires count <= |buffer|
      modifies this`buffer
      ensures buffer == old(buffer)[count..]
    {
      buffer := buffer[count..];
    }
  }

  // ---- Splitting at LF -----------------------------------------------------

  /** The bytes up to and including the first LF, or all of them. */
  function FirstFrame(s: seq<byte>): (f: seq<byte>)
    ensures f <= s
    ensures s != [] ==> f != []
  {
    if s == [] then []
    else if s[0] == LF then [LF]
    else [s[0]] + FirstFrame(s[1..])
  }

  predicate Terminated(f: seq<byte>) {
    f != [] && f[|f| - 1] == LF
  }

  lemma TerminatedAppend(head: seq<byte>, f: seq<byte>)
    ensures f != [] ==> (Terminated(head + f) <==> Terminated(f))
  {
  }

  lemma {:induction false} FirstFrameTerminates(s: seq<byte>)
    ensures LF in s <==> Terminated(FirstFrame(s))
    ensures !Terminated(FirstFrame(s)) ==> FirstFrame(s) == s
  {
    if s != [] && s[0] != LF {
      FirstFrameTerminates(s[1..]);
      TerminatedAppend([s[0]], FirstFrame(s[1..]));
      assert s == [s[0]] + s[1..];
    }
  }

  lemma {:induction false} FirstFrameShape(s: seq<byte>)
    ensures var f := FirstFrame(s); forall i | 0 <= i < |f| - 1 :: f[i] != LF
  {
    if s != [] && s[0] != LF {
      FirstFrameShape(s[1..]);
      var f := FirstFrame(s);
      assert forall i | 1 <= i < |f| - 1 :: f[i] == FirstFrame(s[1..])[i - 1];
    }
  }

  lemma {:induction false} FirstFrameAppend(head: seq<byte>, tail: seq<byte>)
    ensures FirstFrame(head + tail)
         == if LF in head then FirstFrame(head) else head + FirstFrame(tail)
  {
    if head == [] {
      assert head + tail == tail;
    } else {
      assert (head + tail)[1..] == head[1..] + tail;
      FirstFrameAppend(head[1..], tail);
      assert head == [head[0]] + head[1..];
    }
  }

  function Frames(s: seq<byte>): seq<seq<byte>>
    decreases |s|
  {
    if s == [] then [] else [FirstFrame(s)] + Frames(s[|FirstFrame(s)|..])
  }

  function Join(fs: seq<seq<byte>>): seq<byte> {
    if fs == [] then [] else fs[0] + Join(fs[1..])
  }

  /** An LF split: nonempty pieces, LF nowhere but at their ends, and only the last unterminated. */
  ghost predicate IsSplit(fs: seq<seq<byte>>) {
    && (forall k | 0 <= k < |fs| :: fs[k] != [] && forall i | 0 <= i < |fs[k]| - 1 :: fs[k][i] != LF)
    && (forall k | 0 <= k < |fs| - 1 :: Terminated(fs[k]))
  }

  lemma JoinCons(f: seq<byte>, rest: seq<seq<byte>>)
    ensures Join([f] + rest) == f + Join(rest)
  {
    assert ([f] + rest)[1..] == rest;
  }

  lemma {:induction false} JoinFrames(s: seq<byte>)
    ensures Join(Frames(s)) == s
    decreases |s|
  {
    hide FirstFrame;
    if s != [] {
      var f := FirstFrame(s);
      JoinFrames(s[|f|..]);
      JoinCons(f, Frames(s[|f|..]));
    }
  }

  lemma PrependToSplit(f: seq<byte>, rest: seq<seq<byte>>)
    requires f != [] && forall i | 0 <= i < |f| - 1 :: f[i] != LF
    requires IsSplit(rest) && (rest == [] || Terminated(f))
    ensures IsSplit([f] + rest)
  {
    hide Terminated;
    assert forall k | 1 <= k < |[f] + rest| :: ([f] + rest)[k] == rest[k - 1];
  }

  lemma {:induction false} FramesAreASplit(s: seq<byte>)
    ensures IsSplit(Frames(s))
    decreases |s|
  {
    hide FirstFrame, Terminated;
    if s != [] {
      var f := FirstFrame(s);
      FirstFrameShape(s);
      FirstFrameTerminates(s);
      var rest := Frames(s[|f|..]);
      FramesAreASplit(s[|f|..]);
      if s[|f|..] == [] {
        assert rest == [];
      }
      PrependToSplit(f, rest);
    }
  }

  lemma FramesSplitTheStream(s: seq<byte>)
    ensures Join(Frames(s)) == s && IsSplit(Frames(s))
  {
    JoinFrames(s);
    FramesAreASplit(s);
  }

  lemma FirstOfSplit(f: seq<byte>, rest: seq<byte>)
    requires f != [] && forall i | 0 <= i < |f| - 1 :: f[i] != LF
    requires Terminated(f) || rest == []
    ensures FirstFrame(f + rest) == f
  {
    hide FirstFrame;
    FirstFrameTerminates(f);
    FirstFrameAppend(f, rest);
    if Terminated(f) {
      FirstFrameEndsAtFirst(f);
    } else {
      assert f + rest == f;
    }
  }

  lemma {:induction false} FirstFrameEndsAtFirst(f: seq<byte>)
    requires Terminated(f) && forall i | 0 <= i < |f| - 1 :: f[i] != LF
    ensures FirstFrame(f) == f
  {
    if |f| > 1 {
      FirstFrameEndsAtFirst(f[1..]);
      assert f == [f[0]] + f[1..];
    }
  }

  /** `Frames` is the only LF split of a byte string. */
  lemma {:induction false} SplitIsUnique(fs: seq<seq<byte>>)
    requires IsSplit(fs)
    ensures Frames(Join(fs)) == fs
  {
    hide FirstFrame, Terminated;
    if fs != [] {
      var rest := fs[1..];
      assert forall k | 0 <= k < |rest| :: rest[k] == fs[k + 1];
      SplitIsUnique(rest);
      FirstOfSplit(fs[0], Join(rest));
      assert Join(fs)[|fs[0]|..] == Join(rest);
    }
  }

  // ---- One bounded record --------------------------------------------------

  datatype RecordFrame = RecordFrame(terminated: bool, overLimit: bool)

  /** What is kept of an over-limit record: at most 512 bytes of it, and never nothing. */
  ghost predicate KeptPrefix(record: seq<byte>, whole: seq<byte>, limit: nat) {
    && record <= whole
    && Min(limit + 1, KEPT_PREFIX) <= |record| <= KEPT_PREFIX
  }

  ghost predicate RecordOf(record: seq<byte>, held: seq<byte>, frame: seq<byte>, limit: nat) {
    if frame != [] && |held + frame| > limit then KeptPrefix(record, held + frame, limit)
    else record == held + frame
  }

  /** The record and its over-limit flag after one more piece of the frame. */
  function Grow(record: seq<byte>, over: bool, chunk: seq<byte>, limit: nat): (seq<byte>, bool) {
    if over then (record, true)
    else if |chunk| > (if limit < |record| then 0 else limit - |record|) then
      var extended := record + chunk[..Min(|chunk|, KEPT_PREFIX)];
      (extended[..Min(|extended|, KEPT_PREFIX)], true)
    else (record + chunk, false)
  }

  lemma GrowKeepsTheBound(record: seq<byte>, held: seq<byte>, consumed: seq<byte>, chunk: seq<byte>, limit: nat)
    requires RecordOf(record, held, consumed, limit) && chunk != []
    ensures var over := consumed != [] && |held + consumed| > limit;
            var next := consumed + chunk;
            var grown := Grow(record, over, chunk, limit);
            RecordOf(grown.0, held, next, limit) && grown.1 == (|held + next| > limit)
  {
    assert held + (consumed + chunk) == (held + consumed) + chunk;
    if consumed == [] || |held + consumed| <= limit {
      var extended := record + chunk[..Min(|chunk|, KEPT_PREFIX)];
      assert extended <= record + chunk;
      assert held + [] == held;
    }
  }

  lemma Regroup(a: seq<byte>, b: seq<byte>, c: seq<byte>, d: seq<byte>)
    ensures a + ((b + c) + d) == (a + b) + (c + d)
  {
  }

  lemma FrameAcross(consumed: seq<byte>, available: seq<byte>, rest: seq<byte>)
    requires LF !in consumed && LF in available
    ensures FirstFrame(consumed + (available + rest)) == consumed + FirstFrame(available)
  {
    hide FirstFrame;
    FirstFrameAppend(available, rest);
    FirstFrameAppend(consumed, available + rest);
  }

  /** One buffered piece either completes the first frame or lies wholly inside it. */
  lemma PieceOfFrame(consumed: seq<byte>, available: seq<byte>, rest: seq<byte>)
    requires LF !in consumed && available != []
    ensures var chunk := FirstFrame(available);
            var pending := consumed + (available + rest);
            && pending == (consumed + chunk) + (available[|chunk|..] + rest)
            && (if Terminated(chunk) then FirstFrame(pending) == consumed + chunk
                else chunk == available && LF !in consumed + chunk)
  {
    hide FirstFrame, Terminated;
    var chunk := FirstFrame(available);
    FirstFrameTerminates(available);
    if Terminated(chunk) {
      FrameAcross(consumed, available, rest);
    } else {
      NoLfAppend(consumed, chunk);
    }
    PieceSplits(consumed, chunk, available, rest);
  }

  lemma NoLfAppend(x: seq<byte>, y: seq<byte>)
    requires LF !in x && LF !in y
    ensures LF !in x + y
  {
  }

  lemma PieceSplits(consumed: seq<byte>, chunk: seq<byte>, available: seq<byte>, rest: seq<byte>)
    requires chunk <= available
    ensures consumed + (available + rest) == (consumed + chunk) + (available[|chunk|..] + rest)
  {
    assert available == chunk + available[|chunk|..];
    Regroup(consumed, chunk, available[|chunk|..], rest);
  }

  method GrowRecord(held: seq<byte>, wasOver: bool, available: seq<byte>, take: nat, limit: nat)
    returns (record: seq<byte>, over: bool)
    requires take <= |available|
    ensures (record, over) == Grow(held, wasOver, available[..take], limit)
  {
    record, over := held, wasOver;
    if !over {
      var room := if limit < |record| then 0 else limit - |record|;
      if take > room {
        over := true;
        assert available[..take][..Min(take, KEPT_PREFIX)] == available[..Min(take, KEPT_PREFIX)];
        var extended := record + available[..Min(take, KEPT_PREFIX)];
        record := extended[..Min(|extended|, KEPT_PREFIX)];
      } else {
        record := record + available[..take];
      }
    }
  }

  /** The result and record of one call, for every way of chunking the pending bytes. */
  ghost predicate Reads(pending: seq<byte>, ending: Ending, held: seq<byte>, limit: nat,
                        r: Result<RecordFrame, string>, record: seq<byte>)
  {
    var frame := FirstFrame(pending);
    && RecordOf(record, held, frame, limit)
    && (if !Terminated(frame) && ending.Failure? then r == Err(ending.cause)
        else r == Ok(RecordFrame(Terminated(frame), frame != [] && |held + frame| > limit)))
  }

  /** Midway through a record: `consumed` has been read, `left` has not. */
  ghost predicate Reading(pending: seq<byte>, held: seq<byte>, limit: nat, record: seq<byte>, over: bool,
                          consumed: seq<byte>, left: seq<byte>)
  {
    && pending == consumed + left && LF !in consumed
    && RecordOf(record, held, consumed, limit)
    && over == (consumed != [] && |held + consumed| > limit)
  }

  lemma ReadingStarts(pending: seq<byte>, held: seq<byte>, limit: nat)
    ensures Reading(pending, held, limit, held, false, [], pending)
  {
    assert held + [] == held && [] + pending == pending;
  }

  lemma ReadingEnds(pending: seq<byte>, ending: Ending, held: seq<byte>, limit: nat, record: seq<byte>, over: bool,
                    consumed: seq<byte>)
    requires Reading(pending, held, limit, record, over, consumed, [])
    ensures Reads(pending, ending, held, limit,
                  if ending.Failure? then Err(ending.cause) else Ok(RecordFrame(false, over)), record)
  {
    hide FirstFrame, RecordOf;
    assert pending == consumed;
    FirstFrameTerminates(pending);
  }

  lemma ReadingStep(pending: seq<byte>, ending: Ending, held: seq<byte>, limit: nat, record: seq<byte>, over: bool,
                    consumed: seq<byte>, available: seq<byte>, rest: seq<byte>)
    requires Reading(pending, held, limit, record, over, consumed, available + rest) && available != []
    ensures var chunk := FirstFrame(available);
            var grown := Grow(record, over, chunk, limit);
            var left := available[|chunk|..] + rest;
            if Terminated(chunk) then
              && Reads(pending, ending, held, limit, Ok(RecordFrame(true, grown.1)), grown.0)
              && left == pending[|FirstFrame(pending)|..]
            else Reading(pending, held, limit, grown.0, grown.1, consumed + chunk, left)
  {
    hide FirstFrame, Terminated, RecordOf, Grow;
    var chunk := FirstFrame(available);
    PieceOfFrame(consumed, available, rest);
    GrowKeepsTheBound(record, held, consumed, chunk, limit);
    TerminatedAppend(consumed, chunk);
  }

  method ReadBoundedRecord(reader: BufferedReader, held: seq<byte>, limit: nat)
    returns (r: Result<RecordFrame, string>, record: seq<byte>)
    modifies reader
    ensures Reads(old(reader.Pending()), old(reader.Ending()), held, limit, r, record)
    ensures r.Ok? && r.value.terminated ==>
              reader.Pending() == old(reader.Pending())[|FirstFrame(old(reader.Pending()))|..] &&
              reader.Ending() == old(reader.Ending()) && reader.Unreached() == old(reader.Unreached())
    ensures !(r.Ok? && r.value.terminated) ==> reader.buffer == [] && reader.limit == old(reader.Unreached())
  {
    hide Stream, End, FirstFrame, Grow, Reads, Reading;
    record := held;
    var over := false;
    ghost var consumed: seq<byte> := [];
    ghost var pending, ending := reader.Pending(), reader.Ending();
    ReadingStarts(pending, held, limit);
    while true
      invariant Reading(pending, held, limit, record, over, consumed, reader.Pending())
      invariant reader.Ending() == ending && reader.Unreached() == old(reader.Unreached())
      decreases |reader.Pending()|
    {
      var available := reader.FillBuf();
      if available.Err? {
        ReadingEnds(pending, ending, held, limit, record, over, consumed);
        return Err(available.error), record;
      }
      if available.value == [] {
        ReadingEnds(pending, ending, held, limit, record, over, consumed);
        return Ok(RecordFrame(false, over)), record;
      }
      ReadingStep(pending, ending, held, limit, record, over, consumed,
                  available.value, Stream(reader.source, reader.limit));
      var chunk := FirstFrame(available.value);
      var take := |chunk|;
      assert available.value[..take] == chunk;
      record, over := GrowRecord(record, over, available.value, take, limit);
      var terminated := available.value[take - 1] == LF;
      reader.Consume(take);
      consumed := consumed + chunk;
      if terminated {
        return Ok(RecordFrame(terminated, over)), record;
      }
    }
  }

  // ---- The snapshot scan ---------------------------------------------------

  datatype Gap = OverLimit | Unterminated | Blank | ReadInterrupted(cause: string)
  datatype Call = ObserveGap(gap: Gap) | Admit(line: seq<byte>, number: nat)

  /**
   * How the record owner judges, as functions of every call it has had: whether the last call
   * fails, which its own counters may do; whether the last line latches a refusal; and, at the
   * end, whether the lines it admitted make a complete run.
   */
  datatype Judge = Judge(fails: seq<Call> -> bool, refuses: seq<Call> -> bool, complete: seq<Call> -> bool)

  /** A gap latches a refusal, and a refused line does. */
  predicate Latched(judge: Judge, calls: seq<Call>) {
    calls != []
    && (Latched(judge, calls[..|calls| - 1]) || calls[|calls| - 1].ObserveGap? || judge.refuses(calls))
  }

  predicate AnyFails(judge: Judge, calls: seq<Call>) {
    calls != [] && (AnyFails(judge, calls[..|calls| - 1]) || judge.fails(calls))
  }

  lemma OneMoreCall(judge: Judge, calls: seq<Call>, call: Call)
    ensures Latched(judge, calls + [call]) == (Latched(judge, calls) || call.ObserveGap? || judge.refuses(calls + [call]))
    ensures AnyFails(judge, calls + [call]) == (AnyFails(judge, calls) || judge.fails(calls + [call]))
  {
    var longer := calls + [call];
    assert longer[..|longer| - 1] == calls;
  }

  /** The record owner: it is told of every gap and offered every other complete line. */
  class RecordOwner {
    const judge: Judge
    var calls: seq<Call>
    var refused: bool

    constructor (judge: Judge)
      ensures this.judge == judge && calls == [] && !refused
    {
      this.judge := judge;
      calls, refused := [], false;
    }

    method ObserveGap(gap: Gap) returns (ok: bool)
      modifies this
      ensures calls == old(calls) + [Call.ObserveGap(gap)] && refused
      ensures ok == !judge.fails(calls)
    {
      calls, refused := calls + [Call.ObserveGap(gap)], true;
      ok := !judge.fails(calls);
    }

    method Admit(line: seq<byte>, number: nat) returns (ok: bool)
      modifies this
      ensures calls == old(calls) + [Call.Admit(line, number)]
      ensures refused == (old(refused) || judge.refuses(calls)) && ok == !judge.fails(calls)
    {
      calls := calls + [Call.Admit(line, number)];
      refused := refused || judge.refuses(calls);
      ok := !judge.fails(calls);
    }

    method Finish() returns (certified: bool)
      ensures certified <==> !refused && judge.complete(calls)
    {
      certified := !refused && judge.complete(calls);
    }
  }

  predicate Whitespace(b: byte) {
    b == 0x20 || b == 0x09 || b == 0x0A || b == 0x0C || b == 0x0D
  }

  predicate IsBlank(line: seq<byte>) {
    forall i | 0 <= i < |line| :: Whitespace(line[i])
  }

  predicate Over(frame: seq<byte>, limit: nat) {
    |frame| > limit
  }

  /** A frame whose bytes the record owner is offered and the digest covers. */
  predicate Complete(frame: seq<byte>, limit: nat) {
    Terminated(frame) && !Over(frame, limit)
  }

  /** What the owner is told of one frame of the stream. */
  function Report(frame: seq<byte>, number: nat, ending: Ending, limit: nat): Call {
    if !Terminated(frame) && ending.Failure? then ObserveGap(ReadInterrupted(ending.cause))
    else if Over(frame, limit) then ObserveGap(OverLimit)
    else if !Terminated(frame) then ObserveGap(Unterminated)
    else if IsBlank(frame[..|frame| - 1]) then ObserveGap(Blank)
    else Admit(frame[..|frame| - 1], number)
  }

  function Reports(fs: seq<seq<byte>>, number: nat, ending: Ending, limit: nat): (r: seq<Call>)
    ensures |r| == |fs|
    decreases |fs|
  {
    if fs == [] then []
    else [Report(fs[0], number, ending, limit)] + Reports(fs[1..], number + 1, ending, limit)
  }

  /** The bytes the digest covers. */
  function Covered(fs: seq<seq<byte>>, limit: nat): seq<byte> {
    if fs == [] then []
    else (if Complete(fs[0], limit) then fs[0] else []) + Covered(fs[1..], limit)
  }

  function Extend(hashed: seq<byte>, frame: seq<byte>, limit: nat): seq<byte> {
    if Complete(frame, limit) then hashed + frame else hashed
  }

  datatype Snapshot = Snapshot(completion: Completion, certified: bool, hashed: seq<byte>)
  datatype Completion = ReachedBoundary | ReadFailed(bytesRead: int, cause: string)
                      | SourceShortened(bytesRead: int, expected: nat)
  datatype ScanError = OwnerRefused | LineCountOverflow

  function CompletionOf(ending: Ending, read: nat, extent: nat): Completion {
    match ending
    case Boundary => ReachedBoundary
    case Shortened => SourceShortened(read, extent)
    case Failure(cause) => ReadFailed(read, cause)
  }

  /** Midway through the scan of `stream`. */
  ghost predicate Scanning(stream: seq<byte>, ending: Ending, limit: nat, calls: seq<Call>, hashed: seq<byte>,
                           line: nat, left: seq<byte>)
  {
    var all := Frames(stream);
    && line <= |stream| - |left|
    && |left| <= |stream|
    && line <= |all|
    && Frames(left) == all[line..]
    && Reports(all, 1, ending, limit) == calls + Reports(Frames(left), line + 1, ending, limit)
    && Covered(all, limit) == hashed + Covered(Frames(left), limit)
  }

  lemma ScanStarts(stream: seq<byte>, ending: Ending, limit: nat)
    ensures Scanning(stream, ending, limit, [], [], 0, stream)
  {
    assert Frames(stream)[0..] == Frames(stream);
  }

  lemma ScanStep(stream: seq<byte>, ending: Ending, limit: nat, calls: seq<Call>, hashed: seq<byte>,
                 line: nat, left: seq<byte>)
    requires Scanning(stream, ending, limit, calls, hashed, line, left) && left != []
    ensures var frame := FirstFrame(left);
            Scanning(stream, ending, limit, calls + [Report(frame, line + 1, ending, limit)],
                     Extend(hashed, frame, limit), line + 1, left[|frame|..])
  {
    hide FirstFrame, Report, Complete;
    var frame := FirstFrame(left);
    var rest := left[|frame|..];
    var all := Frames(stream);
    assert Frames(left) == [frame] + Frames(rest);
    assert all[line..][1..] == all[line + 1..];
    var report := Report(frame, line + 1, ending, limit);
    assert calls + ([report] + Reports(Frames(rest), line + 2, ending, limit))
        == (calls + [report]) + Reports(Frames(rest), line + 2, ending, limit);
    var part := Extend([], frame, limit);
    assert [] + frame == frame && Extend(hashed, frame, limit) == hashed + part;
    assert hashed + (part + Covered(Frames(rest), limit)) == (hashed + part) + Covered(Frames(rest), limit);
  }

  lemma ScanEnds(stream: seq<byte>, ending: Ending, limit: nat, calls: seq<Call>, hashed: seq<byte>, line: nat)
    requires Scanning(stream, ending, limit, calls, hashed, line, [])
    ensures calls == Reports(Frames(stream), 1, ending, limit)
    ensures hashed == Covered(Frames(stream), limit)
  {
    assert calls + [] == calls && hashed + [] == hashed;
  }

  ghost predicate HasGap(calls: seq<Call>) {
    exists k :: 0 <= k < |calls| && calls[k].ObserveGap?
  }

  lemma HasGapAppend(calls: seq<Call>, call: Call)
    ensures HasGap(calls + [call]) <==> HasGap(calls) || call.ObserveGap?
  {
    if HasGap(calls) {
      var k :| 0 <= k < |calls| && calls[k].ObserveGap?;
      assert (calls + [call])[k].ObserveGap?;
    }
    if call.ObserveGap? {
      assert (calls + [call])[|calls|].ObserveGap?;
    }
  }

  /** What one frame is, read off the result of the bounded read that returned it. */
  lemma FrameFacts(left: seq<byte>, ending: Ending, limit: nat, r: Result<RecordFrame, string>, record: seq<byte>)
    requires Reads(left, ending, [], limit, r, record)
    ensures var frame := FirstFrame(left);
            && (record == [] <==> left == [])
            && (r.Ok? && record == [] ==> !r.value.terminated)
            && (r.Ok? ==> r.value == RecordFrame(Terminated(frame), Over(frame, limit)))
            && (r.Err? <==> !Terminated(frame) && ending.Failure?)
            && (r.Err? ==> r.error == ending.cause)
            && (!Over(frame, limit) ==> record == frame)
            && (!Terminated(frame) ==> left[|frame|..] == [])
  {
    hide FirstFrame;
    var frame := FirstFrame(left);
    assert [] + frame == frame;
    FirstFrameTerminates(left);
  }

  /** Tell the owner of one frame that was read, and extend the digest's input by it. */
  method ReportFrame(owner: RecordOwner, read: RecordFrame, record: seq<byte>, line: nat, before: seq<byte>, limit: nat,
                     ghost frame: seq<byte>, ghost ending: Ending)
    returns (ok: bool, hashed: seq<byte>)
    requires read == RecordFrame(Terminated(frame), Over(frame, limit))
    requires !Over(frame, limit) ==> record == frame
    requires Terminated(frame) || !ending.Failure?
    modifies owner
    ensures owner.calls == old(owner.calls) + [Report(frame, line, ending, limit)]
    ensures owner.refused == (old(owner.refused) || Report(frame, line, ending, limit).ObserveGap?
                              || owner.judge.refuses(owner.calls))
    ensures ok == !owner.judge.fails(owner.calls)
    ensures hashed == Extend(before, frame, limit)
  {
    hashed := before;
    if read.overLimit {
      ok := owner.ObserveGap(OverLimit);
    } else if !read.terminated {
      ok := owner.ObserveGap(Unterminated);
    } else {
      hashed := hashed + record;
      var text := record[..|record| - 1];
      if IsBlank(text) {
        ok := owner.ObserveGap(Blank);
      } else {
        ok := owner.Admit(text, line);
      }
    }
  }

  method ReadOpenedEventSnapshot(source: seq<Read>, extent: nat, limit: nat, owner: RecordOwner)
    returns (r: Result<Snapshot, ScanError>)
    requires owner.calls == [] && !owner.refused
    modifies owner
    ensures var stream := Stream(source, extent);
            var ending := End(source, extent);
            match r
            case Ok(snapshot) =>
              && owner.calls == Reports(Frames(stream), 1, ending, limit)
              && snapshot.hashed == Covered(Frames(stream), limit)
              && snapshot.completion == CompletionOf(ending, |stream|, extent)
              && (snapshot.completion.ReachedBoundary? <==> |stream| == extent)
              && (snapshot.completion.SourceShortened? ==>
                    snapshot.completion.bytesRead == |stream| && snapshot.completion.expected == extent)
              && (snapshot.completion.ReadFailed? ==>
                    snapshot.completion.bytesRead == |stream| && ending == Failure(snapshot.completion.cause))
              && !AnyFails(owner.judge, owner.calls)
              && (snapshot.certified <==>
                    snapshot.completion.ReachedBoundary? && !Latched(owner.judge, owner.calls)
                    && owner.judge.complete(owner.calls))
              && (snapshot.certified ==> !HasGap(owner.calls))
            case Err(LineCountOverflow) => |stream| > USIZE_MAX
            case Err(OwnerRefused) =>
              owner.calls <= Reports(Frames(stream), 1, ending, limit) && AnyFails(owner.judge, owner.calls)
  {
    hide Stream, End, Frames, FirstFrame, Terminated, Reads, Scanning, HasGap, Reports, Report, Covered, Extend;
    hide Latched, AnyFails;
    NothingJudged(owner.judge);
    var reader := new BufferedReader(source, extent);
    ghost var stream, ending := Stream(source, extent), End(source, extent);
    EndMatchesStream(source, extent);
    var completion := ReachedBoundary;
    var line := 0;
    var hashed: seq<byte> := [];
    ScanStarts(stream, ending, limit);
    NoCallsNoGap();
    var scanning := true;
    ghost var left := stream;
    while scanning
      invariant Scanning(stream, ending, limit, owner.calls, hashed, line, left)
      invariant HasGap(owner.calls) ==> owner.refused
      invariant owner.refused == Latched(owner.judge, owner.calls) && !AnyFails(owner.judge, owner.calls)
      invariant if scanning
                then left == reader.Pending() && reader.Ending() == ending && reader.Unreached() == extent - |stream|
                     && completion == ReachedBoundary
                else left == [] && reader.limit == extent - |stream|
                     && completion == (if ending.Failure? then ReadFailed(|stream|, ending.cause) else ReachedBoundary)
      decreases scanning, |left|
    {
      ghost var frame := FirstFrame(left);
      if left != [] {
        ScanStep(stream, ending, limit, owner.calls, hashed, line, left);
      }
      ScanBounds(stream, ending, limit, owner.calls, hashed, line, left);
      HasGapAppend(owner.calls, Report(frame, line + 1, ending, limit));
      OneMoreCall(owner.judge, owner.calls, Report(frame, line + 1, ending, limit));
      var read, record := ReadBoundedRecord(reader, [], limit);
      FrameFacts(left, ending, limit, read, record);
      if read.Err? {
        if record != [] {
          ReportInterrupted(frame, line + 1, ending, limit);
          var ok := owner.ObserveGap(ReadInterrupted(read.error));
          if !ok {
            return Err(OwnerRefused);
          }
          line := line + 1;
        }
        completion := ReadFailed(extent - reader.limit, read.error);
        left, scanning := [], false;
      } else if record == [] && !read.value.terminated {
        scanning := false;
      } else if line == USIZE_MAX {
        return Err(LineCountOverflow);
      } else {
        line := line + 1;
        var ok: bool;
        ok, hashed := ReportFrame(owner, read.value, record, line, hashed, limit, frame, ending);
        if !ok {
          return Err(OwnerRefused);
        }
        left := left[|frame|..];
        scanning := read.value.terminated;
      }
    }
    ScanEnds(stream, ending, limit, owner.calls, hashed, line);
    if completion.ReachedBoundary? && reader.limit != 0 {
      completion := SourceShortened(extent - reader.limit, extent);
    }
    var finished := owner.Finish();
    r := Ok(Snapshot(completion, finished && completion.ReachedBoundary?, hashed));
  }

  lemma NothingJudged(judge: Judge)
    ensures !Latched(judge, []) && !AnyFails(judge, [])
  {
  }

  lemma NoCallsNoGap()
    ensures !HasGap([])
  {
  }

  lemma ReportInterrupted(frame: seq<byte>, number: nat, ending: Ending, limit: nat)
    requires !Terminated(frame) && ending.Failure?
    ensures Report(frame, number, ending, limit) == ObserveGap(ReadInterrupted(ending.cause))
    ensures forall hashed: seq<byte> :: Extend(hashed, frame, limit) == hashed
  {
  }

  lemma ScanBounds(stream: seq<byte>, ending: Ending, limit: nat, calls: seq<Call>, hashed: seq<byte>,
                   line: nat, left: seq<byte>)
    requires Scanning(stream, ending, limit, calls, hashed, line, left)
    ensures line + |left| <= |stream|
    ensures calls <= Reports(Frames(stream), 1, ending, limit)
    ensures left != [] ==>
              calls + [Report(FirstFrame(left), line + 1, ending, limit)] <= Reports(Frames(stream), 1, ending, limit)
  {
    hide FirstFrame, Report;
    if left != [] {
      var rest := left[|FirstFrame(left)|..];
      assert Frames(left) == [FirstFrame(left)] + Frames(rest);
    }
  }

  // ---- What the scan establishes -------------------------------------------

  function Gaps(calls: seq<Call>): nat {
    if calls == [] then 0 else (if calls[0].ObserveGap? then 1 else 0) + Gaps(calls[1..])
  }

  function CountOver(fs: seq<seq<byte>>, limit: nat): nat {
    if fs == [] then 0 else (if |fs[0]| > limit then 1 else 0) + CountOver(fs[1..], limit)
  }

  /** Whether a frame has its line feed. */
  predicate HasFeed(frame: seq<byte>) {
    frame != [] && frame[|frame| - 1] == 10
  }

  /** Nothing but spaces, tabs, line feeds, form feeds and carriage returns. */
  predicate AllSpace(line: seq<byte>) {
    forall b | b in line :: b in {9, 10, 12, 13, 32}
  }

  function CountUnterminated(fs: seq<seq<byte>>, limit: nat): nat {
    if fs == [] then 0
    else (if |fs[0]| <= limit && !HasFeed(fs[0]) then 1 else 0) + CountUnterminated(fs[1..], limit)
  }

  function CountBlank(fs: seq<seq<byte>>, limit: nat): nat {
    if fs == [] then 0
    else (if |fs[0]| <= limit && HasFeed(fs[0]) && AllSpace(fs[0][..|fs[0]| - 1]) then 1 else 0) + CountBlank(fs[1..], limit)
  }

  lemma BlankExactly(line: seq<byte>)
    ensures IsBlank(line) <==> AllSpace(line)
  {
    if AllSpace(line) {
      forall i | 0 <= i < |line| ensures Whitespace(line[i]) {
        assert line[i] in line;
      }
    }
  }

  /** What the owner is told of a frame, by the bytes of the frame and by how reading ended. */
  lemma ReportIsExact(frame: seq<byte>, number: nat, ending: Ending, limit: nat)
    ensures var report := Report(frame, number, ending, limit);
            var cut := !HasFeed(frame) && ending.Failure?;
            && (report == ObserveGap(OverLimit) <==> !cut && |frame| > limit)
            && (report == ObserveGap(Unterminated) <==> !cut && |frame| <= limit && !HasFeed(frame))
            && (cut ==> report == ObserveGap(ReadInterrupted(ending.cause)))
            && (HasFeed(frame) && |frame| <= limit ==>
                  var line := frame[..|frame| - 1];
                  report == if AllSpace(line) then ObserveGap(Blank) else Admit(line, number))
  {
    if frame != [] {
      BlankExactly(frame[..|frame| - 1]);
    }
  }

  /** The gaps of a scan depend on the bytes alone, not on chunking or on how reading ended. */
  lemma {:induction false} GapsAreFramingFailures(fs: seq<seq<byte>>, number: nat, ending: Ending, limit: nat)
    ensures Gaps(Reports(fs, number, ending, limit))
         == CountOver(fs, limit) + CountUnterminated(fs, limit) + CountBlank(fs, limit)
    decreases |fs|
  {
    if fs != [] {
      if fs[0] != [] {
        BlankExactly(fs[0][..|fs[0]| - 1]);
      }
      GapsAreFramingFailures(fs[1..], number + 1, ending, limit);
      assert Reports(fs, number, ending, limit)[1..] == Reports(fs[1..], number + 1, ending, limit);
    }
  }

  lemma {:induction false} NoGapMeansAllComplete(fs: seq<seq<byte>>, number: nat, ending: Ending, limit: nat)
    requires !HasGap(Reports(fs, number, ending, limit))
    ensures Covered(fs, limit) == Join(fs)
    ensures forall k | 0 <= k < |fs| :: |fs[k]| <= limit && HasFeed(fs[k]) && !AllSpace(fs[k][..|fs[k]| - 1])
    ensures forall k | 0 <= k < |fs| :: fs[k] != [] &&
              Reports(fs, number, ending, limit)[k] == Admit(fs[k][..|fs[k]| - 1], number + k)
    decreases |fs|
  {
    if fs != [] {
      var all := Reports(fs, number, ending, limit);
      assert !all[0].ObserveGap?;
      var rest := Reports(fs[1..], number + 1, ending, limit);
      forall k | 0 <= k < |rest| ensures !rest[k].ObserveGap? { assert all[k + 1] == rest[k]; }
      NoGapMeansAllComplete(fs[1..], number + 1, ending, limit);
      BlankExactly(fs[0][..|fs[0]| - 1]);
      forall k | 1 <= k < |fs|
        ensures |fs[k]| <= limit && HasFeed(fs[k]) && !AllSpace(fs[k][..|fs[k]| - 1])
        ensures all[k] == Admit(fs[k][..|fs[k]| - 1], number + k)
      {
        assert fs[k] == fs[1..][k - 1] && all[k] == rest[k - 1];
      }
    }
  }

  /**
   * A scan that reached its boundary without a gap hashed every byte of the opened extent, and
   * offered the owner exactly the stream's lines, in order.
   */
  lemma CertificateCoversTheExtent(source: seq<Read>, extent: nat, limit: nat)
    requires End(source, extent) == Boundary
    requires !HasGap(Reports(Frames(Stream(source, extent)), 1, End(source, extent), limit))
    ensures var stream := Stream(source, extent);
            && |stream| == extent
            && Covered(Frames(stream), limit) == stream
            && forall k | 0 <= k < |Frames(stream)| ::
                 var frame := Frames(stream)[k];
                 && |frame| <= limit && HasFeed(frame) && !AllSpace(frame[..|frame| - 1])
                 && Reports(Frames(stream), 1, Boundary, limit)[k] == Admit(frame[..|frame| - 1], 1 + k)
  {
    var stream := Stream(source, extent);
    EndMatchesStream(source, extent);
    NoGapMeansAllComplete(Frames(stream), 1, Boundary, limit);
    JoinFrames(stream);
  }

  /**
   * The certifying read. `verifier` is the physical replay, bound to a byte count and a digest;
   * `sha` stands for SHA-256.
   */
  method ReadEventSnapshot(source: seq<Read>, extent: nat, owner: RecordOwner,
                           sha: seq<byte> -> seq<byte>, verifier: (nat, seq<byte>) -> bool)
    returns (r: Result<Snapshot, ScanError>)
    requires owner.calls == [] && !owner.refused
    requires extent <= USIZE_MAX
    modifies owner
    ensures r != Err(LineCountOverflow)
    ensures r == Err(OwnerRefused) ==> AnyFails(owner.judge, owner.calls)
    ensures r.Ok? ==>
              var stream := Stream(source, extent);
              && owner.calls == Reports(Frames(stream), 1, End(source, extent), MAX_EVENT_RECORD_BYTES)
              && !AnyFails(owner.judge, owner.calls)
              && (r.value.certified <==>
                    && |stream| == extent && !Latched(owner.judge, owner.calls) && owner.judge.complete(owner.calls)
                    && verifier(extent, sha(stream)))
              && (r.value.certified ==> r.value.hashed == stream)
  {
    hide Stream, End, Frames, Reports, Covered, HasGap, Latched, AnyFails, Complete;
    EndMatchesStream(source, extent);
    r := ReadOpenedEventSnapshot(source, extent, MAX_EVENT_RECORD_BYTES, owner);
    if r.Ok? && r.value.certified {
      CertificateCoversTheExtent(source, extent, MAX_EVENT_RECORD_BYTES);
      if !verifier(extent, sha(r.value.hashed)) {
        r := Ok(r.value.(certified := false));
      }
    }
  }

  lemma KeptRecordIsFixed(record: seq<byte>, frame: seq<byte>, limit: nat)
    requires limit + 1 >= KEPT_PREFIX && frame != [] && Over(frame, limit) && RecordOf(record, [], frame, limit)
    ensures record == frame[..KEPT_PREFIX]
  {
    assert [] + frame == frame;
  }

  /** The record and its over-limit flag after all pieces of a frame, as a reader hands them out. */
  function GrowAll(record: seq<byte>, over: bool, chunks: seq<seq<byte>>, limit: nat): (seq<byte>, bool)
    decreases |chunks|
  {
    if chunks == [] then (record, over)
    else
      var grown := Grow(record, over, chunks[0], limit);
      GrowAll(grown.0, grown.1, chunks[1..], limit)
  }

  predicate Pieces(chunks: seq<seq<byte>>) {
    forall i | 0 <= i < |chunks| :: chunks[i] != []
  }

  lemma {:induction false} GrowAllKeepsTheBound(record: seq<byte>, consumed: seq<byte>, chunks: seq<seq<byte>>, limit: nat)
    requires RecordOf(record, [], consumed, limit) && Pieces(chunks)
    ensures RecordOf(GrowAll(record, consumed != [] && Over(consumed, limit), chunks, limit).0, [],
                     consumed + Join(chunks), limit)
    decreases |chunks|
  {
    hide RecordOf, Grow;
    if chunks == [] {
      assert consumed + Join(chunks) == consumed;
    } else {
      var over := consumed != [] && Over(consumed, limit);
      var grown := Grow(record, over, chunks[0], limit);
      assert [] + consumed == consumed && [] + (consumed + chunks[0]) == consumed + chunks[0];
      GrowKeepsTheBound(record, [], consumed, chunks[0], limit);
      GrowAllKeepsTheBound(grown.0, consumed + chunks[0], chunks[1..], limit);
      assert (consumed + chunks[0]) + Join(chunks[1..]) == consumed + Join(chunks);
    }
  }

  /** Two ways of handing out one over-limit frame. */
  predicate TwoChunkings(xs: seq<seq<byte>>, ys: seq<seq<byte>>, limit: nat) {
    && Pieces(xs) && Pieces(ys) && Join(xs) == Join(ys)
    && Over(Join(xs), limit) && FirstFrame(Join(xs)) == Join(xs)
  }

  lemma FixedForLargeLimits(xs: seq<seq<byte>>, ys: seq<seq<byte>>, limit: nat)
    requires TwoChunkings(xs, ys, limit) && limit + 1 >= KEPT_PREFIX
    ensures GrowAll([], false, xs, limit).0 == GrowAll([], false, ys, limit).0 == Join(xs)[..KEPT_PREFIX]
  {
    hide Grow, GrowAll;
    GrowAllKeepsTheBound([], [], xs, limit);
    GrowAllKeepsTheBound([], [], ys, limit);
    assert [] + Join(xs) == Join(xs);
    KeptRecordIsFixed(GrowAll([], false, xs, limit).0, Join(xs), limit);
    KeptRecordIsFixed(GrowAll([], false, ys, limit).0, Join(xs), limit);
  }

  lemma ShortPieceIsKept(chunk: seq<byte>, limit: nat)
    requires limit < |chunk| <= KEPT_PREFIX
    ensures Grow([], false, chunk, limit) == (chunk, true)
  {
    var extended := [] + chunk[..Min(|chunk|, KEPT_PREFIX)];
    assert extended == chunk && extended[..Min(|extended|, KEPT_PREFIX)] == chunk;
  }

  /** A frame two bytes over a small limit, handed out whole and with its last byte apart. */
  lemma SmallLimitsTellChunkingsApart(limit: nat) returns (xs: seq<seq<byte>>, ys: seq<seq<byte>>)
    requires limit + 1 < KEPT_PREFIX
    ensures TwoChunkings(xs, ys, limit)
    ensures GrowAll([], false, xs, limit).0 != GrowAll([], false, ys, limit).0
  {
    var whole: seq<byte> := seq(limit + 2, _ => 65);
    var head, tail := whole[..limit + 1], whole[limit + 1..];
    xs, ys := [whole], [head, tail];
    FirstFrameTerminates(whole);
    var last := ys[1..];
    assert last == [tail] && xs[1..] == [] && last[1..] == [];
    assert Join(last) == tail;
    assert Join(xs) == whole && Join(ys) == head + tail == whole;
    ShortPieceIsKept(whole, limit);
    ShortPieceIsKept(head, limit);
    assert GrowAll(head, true, last, limit).0 == head;
  }

  /**
   * What is kept of an over-limit frame does not depend on how its bytes were handed out exactly
   * for limits of at least 511, and is then its first 512 bytes.
   */
  lemma KeptRecordIsFixedExactly(limit: nat)
    ensures limit + 1 >= KEPT_PREFIX <==>
              forall xs, ys | TwoChunkings(xs, ys, limit) ::
                GrowAll([], false, xs, limit).0 == GrowAll([], false, ys, limit).0
    ensures limit + 1 >= KEPT_PREFIX ==>
              forall xs | TwoChunkings(xs, xs, limit) :: GrowAll([], false, xs, limit).0 == Join(xs)[..KEPT_PREFIX]
  {
    hide GrowAll, TwoChunkings;
    if limit + 1 >= KEPT_PREFIX {
      forall xs, ys | TwoChunkings(xs, ys, limit)
        ensures Over(Join(xs), limit)
        ensures GrowAll([], false, xs, limit).0 == GrowAll([], false, ys, limit).0 == Join(xs)[..KEPT_PREFIX]
      {
        assert Over(Join(xs), limit) by { ChunkingsAreOver(xs, ys, limit); }
        FixedForLargeLimits(xs, ys, limit);
      }
    } else {
      var xs, ys := SmallLimitsTellChunkingsApart(limit);
    }
  }

  lemma ChunkingsAreOver(xs: seq<seq<byte>>, ys: seq<seq<byte>>, limit: nat)
    requires TwoChunkings(xs, ys, limit)
    ensures Over(Join(xs), limit)
  {
  }
}
