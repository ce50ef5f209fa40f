// The frame pump of hello_encode: the do/while loop that asks the encoder
// for an empty input buffer, paints the next test card into it, submits it,
// and appends whatever output buffer the encoder hands back to the output
// file. The encoder is not modelled: each pass of the loop consumes one
// Poll, which says what the two buffer queries returned on that pass.

module EncodePump {

  import opened Wrappers
  import opened Geometry
  import opened TestCards

  /** NUMFRAMES: the number of frames the program encodes. */
  const NUMFRAMES: nat := 300

  /** An output buffer header: its bytes, how many of them are filled, and the CODECCONFIG flag. */
  datatype OutputBuffer = OutputBuffer(data: seq<byte>, filledLen: nat, codecConfig: bool)

  /** A header whose filled length does not exceed its buffer. */
  type FilledBuffer = b: OutputBuffer | b.filledLen <= |b.data| witness OutputBuffer([], 0, false)

  /**
   * What one pass of the loop obtains: no free input buffer, or an input
   * buffer together with the output buffer query's answer (None for NULL).
   * The output query is made only on passes that obtained an input buffer.
   */
  datatype Poll = NoInput | Input(output: Option<FilledBuffer>)

  /** Finished: the loop condition failed. Stalled: the encoder's answers ran out first. */
  datatype Outcome = Finished | Stalled

  /** An input buffer handed to the encoder: the frame painted into it and its filled length. */
  datatype Submission = Submission(frame: nat, filledLen: nat)

  /** The bytes of an output buffer that go to the file: the first filledLen of them. */
  function Payload(b: FilledBuffer): (r: seq<byte>)
    ensures |r| == b.filledLen
    ensures forall n :: 0 <= n < |r| ==> r[n] == b.data[n]
  {
    b.data[..b.filledLen]
  }

  /** The number of passes that obtained an input buffer, i.e. frames painted. */
  function FramesTaken(polls: seq<Poll>): (n: nat)
    ensures n <= |polls|
  {
    if polls == [] then 0
    else FramesTaken(polls[..|polls| - 1]) + (if polls[|polls| - 1].Input? then 1 else 0)
  }

  /** The output buffer one pass receives: none unless both queries answered. */
  function Received(p: Poll): (r: seq<FilledBuffer>)
    ensures |r| <= 1
    ensures |r| == 1 <==> p.Input? && p.output.Some?
  {
    if p.Input? && p.output.Some? then [p.output.value] else []
  }

  /** The output buffers the encoder returned, in the order the loop received them. */
  function Retrieved(polls: seq<Poll>): (r: seq<FilledBuffer>)
    ensures |r| <= FramesTaken(polls)
  {
    if polls == [] then [] else Retrieved(polls[..|polls| - 1]) + Received(polls[|polls| - 1])
  }

  /** The payloads of a sequence of output buffers, one after the other. */
  function Concat(bufs: seq<FilledBuffer>): seq<byte>
  {
    if bufs == [] then [] else Concat(bufs[..|bufs| - 1]) + Payload(bufs[|bufs| - 1])
  }

  /** The output file after the given passes: every retrieved payload, in order. */
  function FileOf(polls: seq<Poll>): (r: seq<byte>)
    ensures polls != [] ==> FileOf(polls[..|polls| - 1]) <= r
  {
    ConcatOfRetrievedGrows(polls);
    Concat(Retrieved(polls))
  }

  lemma ConcatOfRetrievedGrows(polls: seq<Poll>)
    ensures polls != [] ==> Concat(Retrieved(polls[..|polls| - 1])) <= Concat(Retrieved(polls))
  {
    if polls != [] {
      ConcatAppend(Retrieved(polls[..|polls| - 1]), Received(polls[|polls| - 1]));
    }
  }

  /** The payloads of the CODECCONFIG buffers among the given ones, in order. */
  function ConfigPayloads(bufs: seq<FilledBuffer>): (r: seq<seq<byte>>)
    ensures |r| <= |bufs|
    ensures (forall n :: 0 <= n < |bufs| ==> !bufs[n].codecConfig) ==> r == []
  {
    if bufs == [] then []
    else
      var last := bufs[|bufs| - 1];
      ConfigPayloads(bufs[..|bufs| - 1]) + (if last.codecConfig then [Payload(last)] else [])
  }

  /** The buffers as the loop leaves them after writing them out: filled length reset to 0. */
  function Released(bufs: seq<FilledBuffer>): (r: seq<OutputBuffer>)
    ensures |r| == |bufs|
    ensures forall n :: 0 <= n < |r| ==> r[n].filledLen == 0
    ensures forall n :: 0 <= n < |r| ==> r[n].data == bufs[n].data && r[n].codecConfig == bufs[n].codecConfig
  {
    if bufs == [] then []
    else Released(bufs[..|bufs| - 1]) + [bufs[|bufs| - 1].(filledLen := 0)]
  }

  /** The input buffers submitted while painting n frames: frame k in the k-th, each SIZE bytes long. */
  function Schedule(n: nat): (r: seq<Submission>)
    ensures |r| == n
    ensures forall k :: 0 <= k < n ==> r[k] == Submission(k, FrameSize(LayoutOf(WIDTH)))
  {
    if n == 0 then [] else Schedule(n - 1) + [Submission(n - 1, FrameSize(LayoutOf(WIDTH)))]
  }

  /**
   * What the loop has done so far: frames painted, input buffers submitted,
   * the output file, the CODECCONFIG payloads dumped, and the output buffer
   * headers as released after writing.
   */
  datatype Log = Log(framenumber: nat, submitted: seq<Submission>, file: seq<byte>,
                     dumps: seq<seq<byte>>, released: seq<OutputBuffer>)

  /** One pass of the loop body, seen through the Log. */
  function Pass(log: Log, p: Poll): (r: Log)
    ensures r.framenumber == log.framenumber + (if p.Input? then 1 else 0)
    ensures |r.submitted| - |log.submitted| == r.framenumber - log.framenumber
    ensures log.submitted <= r.submitted && log.file <= r.file
    ensures log.dumps <= r.dumps && log.released <= r.released
    ensures |r.released| == |log.released| + |Received(p)|
    ensures |r.dumps| <= |log.dumps| + |Received(p)|
  {
    match p
    case NoInput => log
    case Input(out) =>
      var painted := log.(framenumber := log.framenumber + 1,
                          submitted := log.submitted + [Submission(log.framenumber, FrameSize(LayoutOf(WIDTH)))]);
      match out
      case None => painted
      case Some(o) => Written(painted, o)
  }

  /**
   * What writing out output buffer o does to the Log: a CODECCONFIG
   * payload is dumped, the payload is appended to the file, and the header
   * is released with filled length 0.
   */
  function Written(log: Log, o: FilledBuffer): Log
  {
    log.(dumps := log.dumps + (if o.codecConfig then [Payload(o)] else []),
         file := log.file + Payload(o),
         released := log.released + [o.(filledLen := 0)])
  }

  /** The Log after the loop body has run once per poll. */
  function Run(polls: seq<Poll>): (r: Log)
    ensures r.framenumber == |r.submitted|
    ensures |r.dumps| <= |r.released| <= r.framenumber
  {
    if polls == [] then Log(0, [], [], [], []) else Pass(Run(polls[..|polls| - 1]), polls[|polls| - 1])
  }

  /**
   * The loop of encode.c. It consumes one Poll per pass. On a pass that
   * obtains an input buffer it paints frame `framenumber` into `input`,
   * submits it and counts the frame; if that pass also obtains an output
   * buffer, a CODECCONFIG buffer's payload is dumped, the payload is appended
   * to the file, and the header is released with filled length 0. After
   * every pass (the first one included) the loop continues only while
   * framenumber < numFrames.
   */
  method EncodeLoop(polls: seq<Poll>, numFrames: nat, input: array<byte>)
    returns (outcome: Outcome, used: nat, framenumber: nat, submitted: seq<Submission>,
             file: seq<byte>, dumps: seq<seq<byte>>, released: seq<OutputBuffer>)
    requires FrameSize(LayoutOf(WIDTH)) <= input.Length
    modifies input
    ensures used <= |polls| && Log(framenumber, submitted, file, dumps, released) == Run(polls[..used])
    ensures input[..] == Painted(old(input[..]), framenumber)
    ensures outcome == Finished <==> 0 < used && numFrames <= framenumber
    ensures outcome == Stalled ==> used == |polls|
    ensures StayedBelow(polls, numFrames, used)
    ensures 0 < |polls| ==> 0 < used
    ensures 0 < |polls| && numFrames <= FramesTaken(polls) ==> outcome == Finished
    ensures outcome == Finished && 0 < numFrames ==> framenumber == numFrames
  {
    ghost var s := input[..];
    ghost var seen: seq<Poll> := [];
    used, framenumber := 0, 0;
    submitted, file, dumps, released := [], [], [], [];
    while used < |polls| && (used == 0 || framenumber < numFrames)
      invariant used <= |polls| && seen == polls[..used]
      invariant Log(framenumber, submitted, file, dumps, released) == Run(seen)
      invariant input[..] == Painted(s, framenumber)
      invariant StayedBelow(polls, numFrames, used)
      invariant framenumber == FramesTaken(seen)
      decreases |polls| - used
    {
      var poll := polls[used];
      StayedBelowUp(polls, numFrames, used);
      PrefixGrows(polls, used);
      RunStep(seen, poll);
      OnlyInputPaints(seen, poll);
      framenumber, submitted, file, dumps, released :=
        RunPass(poll, input, s, framenumber, submitted, file, dumps, released);
      seen := seen + [poll];
      used := used + 1;
    }
    outcome := if 0 < used && numFrames <= framenumber then Finished else Stalled;
    ExitFacts(polls, numFrames, used, outcome == Finished);
  }

  /**
   * One pass of the do/while body: with an input buffer, paint frame
   * `framenumber` into it, submit it and count it, then write out the
   * output buffer if one came back; without one, change nothing.
   */
  method RunPass(poll: Poll, input: array<byte>, ghost s: seq<byte>, framenumber: nat,
                 submitted: seq<Submission>, file: seq<byte>, dumps: seq<seq<byte>>,
                 released: seq<OutputBuffer>)
    returns (framenumber': nat, submitted': seq<Submission>, file': seq<byte>,
             dumps': seq<seq<byte>>, released': seq<OutputBuffer>)
    requires FrameSize(LayoutOf(WIDTH)) <= input.Length && input[..] == Painted(s, framenumber)
    modifies input
    ensures Log(framenumber', submitted', file', dumps', released') ==
            Pass(Log(framenumber, submitted, file, dumps, released), poll)
    ensures input[..] == Painted(s, framenumber')
  {
    framenumber', submitted', file', dumps', released' := framenumber, submitted, file, dumps, released;
    if poll.Input? {
      var filled := PaintNextFrame(input, s, framenumber);
      submitted' := submitted + [Submission(framenumber, filled)];
      framenumber' := framenumber + 1;
      if poll.output.Some? {
        file', dumps', released' := WriteOut(poll.output.value, file, dumps, released);
      }
    }
  }

  /**
   * The handling of an output buffer on lines 226-248: a CODECCONFIG
   * buffer's payload is dumped, every payload is appended to the file, and
   * the header goes back with filled length 0.
   */
  method WriteOut(out: FilledBuffer, file: seq<byte>, dumps: seq<seq<byte>>, released: seq<OutputBuffer>)
    returns (file': seq<byte>, dumps': seq<seq<byte>>, released': seq<OutputBuffer>)
    ensures Log(0, [], file', dumps', released') == Written(Log(0, [], file, dumps, released), out)
    ensures |file'| == |file| + out.filledLen && released'[|released|].filledLen == 0
  {
    dumps' := dumps;
    if out.codecConfig {
      dumps' := dumps' + [Payload(out)];
    }
    file' := file + Payload(out);
    released' := released + [out.(filledLen := 0)];
  }

  /**
   * What the exit condition implies: the body ran at least once, the loop
   * only stalls when the frames it was offered ran short, and it finishes
   * with exactly numFrames frames painted.
   */
  lemma ExitFacts(polls: seq<Poll>, numFrames: nat, used: nat, finished: bool)
    requires used <= |polls| && StayedBelow(polls, numFrames, used)
    requires finished <==> 0 < used && numFrames <= FramesTaken(polls[..used])
    requires !finished ==> used == |polls|
    ensures 0 < |polls| ==> 0 < used
    ensures 0 < |polls| && numFrames <= FramesTaken(polls) ==> finished
    ensures finished && 0 < numFrames ==> FramesTaken(polls[..used]) == numFrames
  {
    if !finished {
      assert polls[..used] == polls;
    }
    if finished && 0 < numFrames {
      FirstReach(polls, numFrames, used);
    }
  }

  lemma RunStep(seen: seq<Poll>, p: Poll)
    ensures Run(seen + [p]) == Pass(Run(seen), p)
  {
    assert (seen + [p])[..|seen|] == seen;
  }

  /**
   * The Log after any sequence of passes, described without the loop: the
   * frames counted are the passes with input, frame k went into the k-th
   * submission, the file is every retrieved payload in order, the dumps are
   * the CODECCONFIG payloads, and every retrieved header was released with
   * filled length 0.
   */
  lemma RunMeaning(polls: seq<Poll>)
    ensures var r := Retrieved(polls);
      Run(polls) == Log(FramesTaken(polls), Schedule(FramesTaken(polls)), FileOf(polls),
                        ConfigPayloads(r), Released(r))
  {
    RunFrames(polls);
    RunOutputs(polls);
  }

  lemma {:induction false} RunFrames(polls: seq<Poll>)
    ensures Run(polls).framenumber == FramesTaken(polls)
    ensures Run(polls).submitted == Schedule(FramesTaken(polls))
  {
    if polls != [] {
      var seen, p := polls[..|polls| - 1], polls[|polls| - 1];
      assert polls == seen + [p];
      RunFrames(seen);
      RunStep(seen, p);
      OnlyInputPaints(seen, p);
    }
  }

  lemma {:induction false} RunOutputs(polls: seq<Poll>)
    ensures Run(polls).file == FileOf(polls)
    ensures Run(polls).dumps == ConfigPayloads(Retrieved(polls))
    ensures Run(polls).released == Released(Retrieved(polls))
  {
    if polls != [] {
      var seen, p := polls[..|polls| - 1], polls[|polls| - 1];
      assert polls == seen + [p];
      RunOutputs(seen);
      RunStep(seen, p);
      OnePass(seen, p);
      match p
      case NoInput =>
      case Input(None) =>
      case Input(Some(o)) =>
        assert Received(p) == [o];
    }
  }

  /** The input buffer after frames 0 .. painted - 1 were painted over s, one after the other. */
  ghost function Painted(s: seq<byte>, painted: nat): (t: seq<byte>)
    ensures |t| == |s|
    ensures forall k :: FrameSize(LayoutOf(WIDTH)) <= k < |s| ==> t[k] == s[k]
  {
    if painted == 0 then s else TestCard(LayoutOf(WIDTH), painted - 1, Painted(s, painted - 1))
  }

  /**
   * The call `generate_test_card(buf->pBuffer, &buf->nFilledLen, framenumber++)`
   * seen from the loop: the buffer gains one more frame and its filled length
   * is the frame size.
   */
  method PaintNextFrame(input: array<byte>, ghost s: seq<byte>, frame: nat) returns (filled: nat)
    requires FrameSize(LayoutOf(WIDTH)) <= input.Length && input[..] == Painted(s, frame)
    modifies input
    ensures input[..] == Painted(s, frame + 1) && filled == FrameSize(LayoutOf(WIDTH))
    ensures filled == SizeAsWritten(LayoutOf(WIDTH)) == 353280
  {
    var status;
    Geometry640();
    filled, status := GenerateTestCard(input, LayoutOf(WIDTH), frame);
  }

  /** Each frame overwrites the previous one entirely: only the last frame painted shows. */
  lemma {:induction false} PaintedShowsLast(s: seq<byte>, painted: nat)
    requires 0 < painted
    ensures Painted(s, painted) == TestCard(LayoutOf(WIDTH), painted - 1, s)
  {
    if 1 < painted {
      PaintedShowsLast(s, painted - 1);
      TestCardOverwrite(LayoutOf(WIDTH), painted - 2, painted - 1, s);
    }
  }

  /**
   * The program's own bound: once the loop finishes with NUMFRAMES = 300,
   * frames 0 .. 299 were submitted in order, each with SIZE = 353280 bytes.
   */
  lemma FinishedAtNumFrames(polls: seq<Poll>, used: nat)
    requires 0 < used <= |polls| && StayedBelow(polls, NUMFRAMES, used)
    requires NUMFRAMES <= FramesTaken(polls[..used])
    ensures Run(polls[..used]).framenumber == NUMFRAMES
    ensures Run(polls[..used]).submitted == Schedule(NUMFRAMES)
    ensures forall k :: 0 <= k < NUMFRAMES ==> Run(polls[..used]).submitted[k] == Submission(k, 353280)
  {
    FirstReach(polls, NUMFRAMES, used);
    RunFrames(polls[..used]);
    Geometry640();
  }

  /** The loop condition held after every pass before pass `used`. */
  ghost predicate StayedBelow(polls: seq<Poll>, numFrames: nat, used: nat)
  {
    forall u :: 0 < u < used && u <= |polls| ==> FramesTaken(polls[..u]) < numFrames
  }

  lemma StayedBelowUp(polls: seq<Poll>, numFrames: nat, used: nat)
    requires StayedBelow(polls, numFrames, used) && used <= |polls|
    requires 0 < used ==> FramesTaken(polls[..used]) < numFrames
    ensures StayedBelow(polls, numFrames, used + 1)
  {
  }

  lemma PrefixGrows<T>(xs: seq<T>, n: nat)
    requires n < |xs|
    ensures xs[..n + 1] == xs[..n] + [xs[n]]
  {
  }

  /** What one more pass adds to each of the running summaries. */
  lemma OnePass(seen: seq<Poll>, p: Poll)
    ensures var after := seen + [p];
      FramesTaken(after) == FramesTaken(seen) + (if p.Input? then 1 else 0) &&
      Retrieved(after) == Retrieved(seen) + Received(p) &&
      FileOf(after) == FileOf(seen) + (if Received(p) == [] then [] else Payload(p.output.value)) &&
      ConfigPayloads(Retrieved(after)) == ConfigPayloads(Retrieved(seen)) +
        (if Received(p) != [] && p.output.value.codecConfig then [Payload(p.output.value)] else []) &&
      Released(Retrieved(after)) == Released(Retrieved(seen)) +
        (if Received(p) == [] then [] else [p.output.value.(filledLen := 0)])
  {
    var after := seen + [p];
    assert after[..|seen|] == seen;
    assert after[|seen|] == p;
    var r := Retrieved(after);
    assert r == Retrieved(seen) + Received(p);
    if Received(p) != [] {
      OneMoreBuffer(Retrieved(seen), p.output.value);
    } else {
      assert r == Retrieved(seen);
    }
  }

  /** What one more retrieved buffer adds to the file, the dumps and the released headers. */
  lemma OneMoreBuffer(bufs: seq<FilledBuffer>, o: FilledBuffer)
    ensures Concat(bufs + [o]) == Concat(bufs) + Payload(o)
    ensures ConfigPayloads(bufs + [o]) == ConfigPayloads(bufs) + (if o.codecConfig then [Payload(o)] else [])
    ensures Released(bufs + [o]) == Released(bufs) + [o.(filledLen := 0)]
  {
    assert (bufs + [o])[..|bufs|] == bufs;
    assert (bufs + [o])[|bufs|] == o;
  }

  /**
   * The frame count grows by at most one per pass, so the first pass after
   * which it reaches a positive bound leaves it exactly at that bound.
   */
  lemma FirstReach(polls: seq<Poll>, numFrames: nat, used: nat)
    requires 0 < used <= |polls| && 0 < numFrames
    requires forall u :: 0 < u < used ==> FramesTaken(polls[..u]) < numFrames
    requires numFrames <= FramesTaken(polls[..used])
    ensures FramesTaken(polls[..used]) == numFrames
  {
    assert polls[..used][..used - 1] == polls[..used - 1];
    if used == 1 {
      assert polls[..0] == [];
    }
  }

  lemma {:induction false} FramesTakenAppend(p: seq<Poll>, q: seq<Poll>)
    ensures FramesTaken(p + q) == FramesTaken(p) + FramesTaken(q)
    decreases |q|
  {
    if q == [] {
      assert p + q == p;
    } else {
      var q' := q[..|q| - 1];
      assert (p + q)[..|p + q| - 1] == p + q';
      FramesTakenAppend(p, q');
    }
  }

  /** A pass without an input buffer paints nothing; a pass with one paints exactly one frame. */
  lemma OnlyInputPaints(p: seq<Poll>, poll: Poll)
    ensures FramesTaken(p + [poll]) == FramesTaken(p) + (if poll.Input? then 1 else 0)
  {
    FramesTakenAppend(p, [poll]);
    assert [poll][..0] == [];
  }

  lemma {:induction false} RetrievedAppend(p: seq<Poll>, q: seq<Poll>)
    ensures Retrieved(p + q) == Retrieved(p) + Retrieved(q)
    decreases |q|
  {
    if q == [] {
      assert p + q == p;
    } else {
      var q' := q[..|q| - 1];
      assert (p + q)[..|p + q| - 1] == p + q';
      RetrievedAppend(p, q');
    }
  }

  lemma {:induction false} ConcatAppend(a: seq<FilledBuffer>, b: seq<FilledBuffer>)
    ensures Concat(a + b) == Concat(a) + Concat(b)
    decreases |b|
  {
    if b == [] {
      assert a + b == a;
    } else {
      var b', last := b[..|b| - 1], b[|b| - 1];
      assert (a + b)[..|a + b| - 1] == a + b';
      assert (a + b)[|a + b| - 1] == last;
      ConcatAppend(a, b');
      assert Concat(a + b) == Concat(a) + Concat(b') + Payload(last);
    }
  }

  /** The file after more passes extends the file after fewer: output is only ever appended. */
  lemma FileOfAppend(p: seq<Poll>, q: seq<Poll>)
    ensures FileOf(p + q) == FileOf(p) + FileOf(q)
  {
    RetrievedAppend(p, q);
    ConcatAppend(Retrieved(p), Retrieved(q));
  }

  /**
   * The payload of the output buffer received on pass n sits in the file
   * right after everything written before that pass.
   */
  lemma PayloadWritten(polls: seq<Poll>, n: nat, o: FilledBuffer)
    requires n < |polls| && polls[n] == Input(Some(o))
    ensures var a := |FileOf(polls[..n])|;
      a + o.filledLen <= |FileOf(polls)| && FileOf(polls)[a..a + o.filledLen] == Payload(o)
  {
    var before, rest := polls[..n], polls[n + 1..];
    assert polls == (before + [polls[n]]) + rest;
    FileOfAppend(before + [polls[n]], rest);
    FileOfAppend(before, [polls[n]]);
    FileOfOne(o);
    MiddleSlice(FileOf(before), Payload(o), FileOf(rest));
  }

  /** A single pass that receives output buffer o writes exactly its payload. */
  lemma FileOfOne(o: FilledBuffer)
    ensures FileOf([Input(Some(o))]) == Payload(o)
  {
    assert [Input(Some(o))][..0] == [];
    assert Retrieved([Input(Some(o))]) == [o];
    assert [o][..0] == [];
    assert Concat([o]) == Concat([]) + Payload(o);
  }

  lemma MiddleSlice<T>(a: seq<T>, b: seq<T>, c: seq<T>)
    ensures (a + b + c)[|a|..|a| + |b|] == b
  {
  }

  lemma {:induction false} ConfigMember(bufs: seq<FilledBuffer>, k: nat)
    requires k < |bufs| && bufs[k].codecConfig
    ensures Payload(bufs[k]) in ConfigPayloads(bufs)
    decreases |bufs|
  {
    if k < |bufs| - 1 {
      ConfigMember(bufs[..|bufs| - 1], k);
    }
  }

  /** The output buffer received on pass n is the next one after those received before it. */
  lemma RetrievedAt(polls: seq<Poll>, n: nat, o: FilledBuffer)
    requires n < |polls| && polls[n] == Input(Some(o))
    ensures |Retrieved(polls[..n])| < |Retrieved(polls)|
    ensures Retrieved(polls)[|Retrieved(polls[..n])|] == o
  {
    var before, rest := polls[..n], polls[n + 1..];
    assert polls == (before + [polls[n]]) + rest;
    RetrievedAppend(before + [polls[n]], rest);
    RetrievedAppend(before, [polls[n]]);
    assert [polls[n]][..0] == [];
    assert Retrieved([polls[n]]) == [o];
  }

  /**
   * A CODECCONFIG buffer is dumped and also written: its payload is among
   * the dumped payloads and sits in the file like any other.
   */
  lemma ConfigStillWritten(polls: seq<Poll>, n: nat, o: FilledBuffer)
    requires n < |polls| && polls[n] == Input(Some(o)) && o.codecConfig
    ensures Payload(o) in ConfigPayloads(Retrieved(polls))
    ensures var a := |FileOf(polls[..n])|;
      a + o.filledLen <= |FileOf(polls)| && FileOf(polls)[a..a + o.filledLen] == Payload(o)
  {
    PayloadWritten(polls, n, o);
    RetrievedAt(polls, n, o);
    ConfigMember(Retrieved(polls), |Retrieved(polls[..n])|);
  }
}
