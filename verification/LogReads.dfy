/** Exactly which losses the collector accepts: what a damaged log reads as, and when it parses. */
module LogReads {
  import opened PyDict
  import opened LogLines
  import opened JobLog
  import opened LogLoss

  function FrameHeader(codec: Codec, s: SeedRun): Header {
    Header(FileName(s.seed), codec.sha256(s.csv), |s.csv|)
  }

  /** What the surviving lines of one frame read as; `None` when the frame is opened and never closed on a good body. */
  function FrameRead(codec: Codec, s: SeedRun, kept: seq<bool>): Option<map<string, Bytes>>
    requires |kept| == |codec.pack(s.csv)| + 2
  {
    var n := |codec.pack(s.csv)|;
    if !kept[0] then Some(map[])
    else if !kept[n + 1] then None
    else
      match Decode(codec, FrameHeader(codec, s), Joined(Survivors(codec.pack(s.csv), kept[1..n + 1])))
      case Ok(data) => Some(map[FileName(s.seed) := data])
      case Err(_) => None
  }

  /** Frame by frame; one bad frame spoils the rest. */
  function FramesRead(codec: Codec, seeds: seq<SeedRun>, kept: seq<bool>): Option<map<string, Bytes>>
    requires |kept| == |Frames(codec, seeds)|
    decreases |seeds|
  {
    if seeds == [] then Some(map[])
    else
      var n := |FrameLines(codec, seeds[0])|;
      match FrameRead(codec, seeds[0], kept[..n])
      case None => None
      case Some(first) =>
        match FramesRead(codec, seeds[1..], kept[n..])
        case None => None
        case Some(rest) => Some(first + rest)
  }

  /** Stuck in the frame, or failed. */
  ghost predicate Spoiled(r: Result<State>, name: string) {
    r.Err? || (r.value.open.Some? && r.value.open.value.header.name == name)
  }

  lemma {:induction false} HeaderlessRead(codec: Codec, st: State, s: SeedRun, keptBody: seq<bool>, ended: bool)
    requires Faithful(codec) && IsToken(s.seed) && st.open.None? && |keptBody| == |codec.pack(s.csv)|
    ensures ScanStripped(codec, st, FrameRest(codec, s, keptBody, ended)) == Ok(st)
  {
    FileNameFacts(s.seed);
    EndLineFacts(FileName(s.seed));
    hide IsPlain, EndLine, FileName, IsBase64Line, ScanStripped;
    var rest := FrameRest(codec, s, keptBody, ended);
    forall l | l in rest ensures IsPlain(l) {
      if l in codec.pack(s.csv) { BodyLineFacts(l); }
    }
    ScanPlain(codec, st, rest);
  }

  lemma {:induction false} BegunRead(codec: Codec, st: State, s: SeedRun, mid: seq<string>, tail: seq<string>)
    requires Faithful(codec) && IsToken(s.seed) && st.open.None? && forall l :: l in mid ==> IsBase64Line(l)
    ensures ScanStripped(codec, st, [HeaderLine(codec, s)] + (mid + tail)) ==
            ScanStripped(codec, st.(open := Some(Frame(FrameHeader(codec, s), mid))), tail)
  {
    var begun := st.(open := Some(Frame(FrameHeader(codec, s), [])));
    assert FrameHeader(codec, s) == Header(FileName(s.seed), codec.sha256(s.csv), |s.csv|);
    hide *;
    OpenStep(codec, st, s);
    ScanHead(codec, st, HeaderLine(codec, s), mid + tail);
    ScanAppend(codec, begun, mid, tail);
    ScanBody(codec, begun, mid);
    assert [] + mid == mid;
  }

  /** How a frame whose header survives ends: left open without its end line, failed or read with it. */
  lemma {:induction false} BegunOutcome(codec: Codec, st: State, s: SeedRun, keptBody: seq<bool>, ended: bool)
    requires Faithful(codec) && IsToken(s.seed) && st.open.None? && |keptBody| == |codec.pack(s.csv)|
    ensures var body := Survivors(codec.pack(s.csv), keptBody);
      var r := ScanStripped(codec, st, [HeaderLine(codec, s)] + FrameRest(codec, s, keptBody, ended));
      if !ended then Spoiled(r, FileName(s.seed))
      else
        match Decode(codec, FrameHeader(codec, s), Joined(body))
        case Ok(data) => r == Ok(st.(blobs := st.blobs[FileName(s.seed) := data]))
        case Err(e) => r == Err(e)
  {
    var mid := Survivors(codec.pack(s.csv), keptBody);
    var tail := if ended then [EndLine(FileName(s.seed))] else [];
    var open := st.(open := Some(Frame(FrameHeader(codec, s), mid)));
    SurvivorsAreBase64(codec, s, keptBody);
    BegunRead(codec, st, s, mid, tail);
    FileNameFacts(s.seed);
    EndLineFacts(FileName(s.seed));
    hide Faithful, Survivors, HeaderLine, EndLine, FileName, IsToken, MatchEnd, Decode, Joined, IsBase64Line, IsPlain;
    if ended { ScanOne(codec, open, EndLine(FileName(s.seed))); }
  }

  /** What the surviving lines of a frame do to a state outside any frame. */
  ghost predicate Reads(codec: Codec, st: State, s: SeedRun, kept: seq<bool>, r: Result<State>)
    requires |kept| == |codec.pack(s.csv)| + 2
  {
    match FrameRead(codec, s, kept)
    case Some(read) => r == Ok(st.(blobs := st.blobs + read))
    case None => Spoiled(r, FileName(s.seed))
  }

  lemma {:induction false} BegunReads(codec: Codec, st: State, s: SeedRun, kept: seq<bool>)
    requires Faithful(codec) && IsToken(s.seed) && st.open.None? && |kept| == |codec.pack(s.csv)| + 2 && kept[0]
    ensures var n := |codec.pack(s.csv)|;
      Reads(codec, st, s, kept,
            ScanStripped(codec, st, [HeaderLine(codec, s)] + FrameRest(codec, s, kept[1..n + 1], kept[n + 1])))
  {
    var n := |codec.pack(s.csv)|;
    BegunOutcome(codec, st, s, kept[1..n + 1], kept[n + 1]);
    hide Faithful, Survivors, HeaderLine, FrameRest, FileName, IsToken, Decode, Joined, ScanStripped, FrameHeader;
    match Decode(codec, FrameHeader(codec, s), Joined(Survivors(codec.pack(s.csv), kept[1..n + 1])))
    case Ok(data) =>
      assert st.blobs[FileName(s.seed) := data] == st.blobs + map[FileName(s.seed) := data];
    case Err(_) =>
  }

  lemma {:induction false} HeaderlessReads(codec: Codec, st: State, s: SeedRun, kept: seq<bool>)
    requires |kept| == |codec.pack(s.csv)| + 2 && !kept[0]
    ensures Reads(codec, st, s, kept, Ok(st))
  {
    assert st.blobs + map[] == st.blobs;
  }

  lemma {:induction false} FrameOutcome(codec: Codec, st: State, s: SeedRun, kept: seq<bool>)
    requires Faithful(codec) && IsToken(s.seed) && st.open.None? && |kept| == |FrameLines(codec, s)|
    ensures |kept| == |codec.pack(s.csv)| + 2
    ensures Reads(codec, st, s, kept, ScanStripped(codec, st, Survivors(FrameLines(codec, s), kept)))
  {
    hide *;
    FrameSurvivors(codec, s, kept);
    var n := |codec.pack(s.csv)|;
    var rest := FrameRest(codec, s, kept[1..n + 1], kept[n + 1]);
    if kept[0] {
      BegunReads(codec, st, s, kept);
    } else {
      HeaderlessRead(codec, st, s, kept[1..n + 1], kept[n + 1]);
      HeaderlessReads(codec, st, s, kept);
      assert [] + rest == rest;
    }
  }

  function LastLine(done: bool): seq<string> {
    if done then ["ALL_DONE"] else []
  }

  lemma {:induction false} SpoiledStays(codec: Codec, st: State, seeds: seq<SeedRun>, kept: seq<bool>, done: bool)
    requires Faithful(codec) && DistinctSeeds(seeds) && seeds != [] && |kept| == |Frames(codec, seeds[1..])|
    requires st.open.Some? && st.open.value.header.name == FileName(seeds[0].seed)
    ensures var r := ScanStripped(codec, st, Survivors(Frames(codec, seeds[1..]), kept) + LastLine(done));
      r.Err? || r.value.open.Some?
  {
    var lines := Survivors(Frames(codec, seeds[1..]), kept) + LastLine(done);
    TailDistinct(seeds);
    AllDoneFacts();
    forall l | l in lines ensures MatchEnd(l) != Some(FileName(seeds[0].seed)) {
      if l in Frames(codec, seeds[1..]) { FramesHaveOtherEnds(codec, seeds[1..], seeds[0].seed, l); }
    }
    ScanUnclosed(codec, st, lines);
  }

  lemma {:induction false} DoneOutcome(codec: Codec, st: State, done: bool)
    requires st.open.None?
    ensures ScanStripped(codec, st, LastLine(done)) == Ok(st.(allDone := st.allDone || done))
  {
    if done { ScanDone(codec, st); }
  }

  /** What the surviving lines of several frames, and of the last line, do to a state outside any frame. */
  ghost predicate AllRead(codec: Codec, st: State, seeds: seq<SeedRun>, kept: seq<bool>, done: bool, r: Result<State>)
    requires |kept| == |Frames(codec, seeds)|
  {
    match FramesRead(codec, seeds, kept)
    case Some(read) => r == Ok(st.(blobs := st.blobs + read, allDone := st.allDone || done))
    case None => r.Err? || r.value.open.Some?
  }

  lemma {:induction false} AllReadCons(codec: Codec, st: State, seeds: seq<SeedRun>, kept: seq<bool>, done: bool,
                                       first: map<string, Bytes>, r: Result<State>)
    requires seeds != [] && |kept| == |Frames(codec, seeds)|
    requires |FrameLines(codec, seeds[0])| == |codec.pack(seeds[0].csv)| + 2
    requires FrameRead(codec, seeds[0], kept[..|FrameLines(codec, seeds[0])|]) == Some(first)
    requires AllRead(codec, st.(blobs := st.blobs + first), seeds[1..], kept[|FrameLines(codec, seeds[0])|..], done, r)
    ensures AllRead(codec, st, seeds, kept, done, r)
  {
    hide FrameLines, FrameRead;
    var tail := FramesRead(codec, seeds[1..], kept[|FrameLines(codec, seeds[0])|..]);
    if tail.Some? { assert (st.blobs + first) + tail.value == st.blobs + (first + tail.value); }
  }

  lemma {:induction false} AllReadSpoiled(codec: Codec, st: State, seeds: seq<SeedRun>, kept: seq<bool>, done: bool,
                                          r: Result<State>)
    requires seeds != [] && |kept| == |Frames(codec, seeds)|
    requires |FrameLines(codec, seeds[0])| == |codec.pack(seeds[0].csv)| + 2
    requires FrameRead(codec, seeds[0], kept[..|FrameLines(codec, seeds[0])|]) == None
    requires r.Err? || r.value.open.Some?
    ensures AllRead(codec, st, seeds, kept, done, r)
  {
    hide FrameLines, FrameRead;
  }

  lemma {:induction false} NothingToRead(codec: Codec, st: State, kept: seq<bool>, done: bool)
    requires st.open.None? && kept == []
    ensures AllRead(codec, st, [], kept, done,
                    ScanStripped(codec, st, Survivors(Frames(codec, []), kept) + LastLine(done)))
  {
    DoneOutcome(codec, st, done);
    assert st.blobs + map[] == st.blobs;
    assert Survivors([], kept) + LastLine(done) == LastLine(done);
    hide ScanStripped, LastLine;
  }

  lemma {:induction false} FramesCons(codec: Codec, seeds: seq<SeedRun>, kept: seq<bool>, done: bool)
    requires seeds != [] && |kept| == |Frames(codec, seeds)|
    ensures var n := |FrameLines(codec, seeds[0])|;
      && n <= |kept| && n == |codec.pack(seeds[0].csv)| + 2 && |kept[n..]| == |Frames(codec, seeds[1..])|
      && Survivors(Frames(codec, seeds), kept) + LastLine(done) ==
         Survivors(FrameLines(codec, seeds[0]), kept[..n])
         + (Survivors(Frames(codec, seeds[1..]), kept[n..]) + LastLine(done))
  {
    SurvivorsAppend(FrameLines(codec, seeds[0]), Frames(codec, seeds[1..]), kept);
    hide Survivors, LastLine, HeaderLine, EndLine;
  }

  /** What survives of all the frames reads frame by frame, or ends in a failure or inside a frame. */
  lemma {:induction false} FramesOutcome(codec: Codec, st: State, seeds: seq<SeedRun>, kept: seq<bool>, done: bool)
    requires Faithful(codec) && DistinctSeeds(seeds) && st.open.None? && |kept| == |Frames(codec, seeds)|
    ensures AllRead(codec, st, seeds, kept, done,
                    ScanStripped(codec, st, Survivors(Frames(codec, seeds), kept) + LastLine(done)))
    decreases |seeds|
  {
    if seeds == [] {
      NothingToRead(codec, st, kept, done);
    } else {
      FramesCons(codec, seeds, kept, done);
      var n := |FrameLines(codec, seeds[0])|;
      var frame, rest := Survivors(FrameLines(codec, seeds[0]), kept[..n]),
                         Survivors(Frames(codec, seeds[1..]), kept[n..]) + LastLine(done);
      TailDistinct(seeds);
      FrameOutcome(codec, st, seeds[0], kept[..n]);
      hide Faithful, FrameLines, Frames, FrameRead, FramesRead, Survivors, ScanStripped, LastLine, DistinctSeeds,
        FileName, IsToken, AllRead;
      ScanAppend(codec, st, frame, rest);
      match FrameRead(codec, seeds[0], kept[..n])
      case None =>
        var r := ScanStripped(codec, st, frame);
        if r.Ok? { SpoiledStays(codec, r.value, seeds, kept[n..], done); }
        AllReadSpoiled(codec, st, seeds, kept, done, ScanStripped(codec, st, frame + rest));
      case Some(first) =>
        FramesOutcome(codec, st.(blobs := st.blobs + first), seeds[1..], kept[n..], done);
        AllReadCons(codec, st, seeds, kept, done, first, ScanStripped(codec, st, frame + rest));
    }
  }

  /** The marks whose lines survive. */
  function MarksRead(job: Job, kept: seq<bool>): map<string, string>
    requires |kept| == |WindowLines(job)|
  {
    (if kept[0] then map["NODE" := job.node] else map[])
    + (if kept[1] then map["CELL_START" := Decimal(job.start)] else map[])
    + (if kept[|kept| - 1] then map["CELL_END" := Decimal(job.end)] else map[])
  }

  lemma {:induction false} MarkOutcome(codec: Codec, st: State, key: string, value: string, line: string, kept: bool)
    requires st.open.None? && MatchBegin(line).None? && MatchMark(line) == Some((key, value))
    ensures ScanStripped(codec, st, Survivors([line], [kept])) ==
            Ok(st.(marks := st.marks + if kept then map[key := value] else map[]))
  {
    assert [line][1..] == [] && [kept][1..] == [] && [line] + [] == [line];
    hide MatchBegin, MatchMark;
    if kept {
      ScanHead(codec, st, line, []);
      assert st.marks[key := value] == st.marks + map[key := value];
    } else {
      assert st.marks + map[] == st.marks;
    }
  }

  lemma {:induction false} ProgressOutcome(codec: Codec, st: State, progress: seq<string>, kept: seq<bool>)
    requires st.open.None? && |kept| == |progress| && forall l :: l in progress ==> IsPlain(l)
    ensures ScanStripped(codec, st, Survivors(progress, kept)) == Ok(st)
  {
    hide IsPlain, ScanStripped;
    ScanPlain(codec, st, Survivors(progress, kept));
  }

  /** The window's lines in their three parts, and their flags with them. */
  lemma {:induction false} WindowParts(job: Job, kept: seq<bool>)
    requires |kept| == |WindowLines(job)|
    ensures |kept| == |job.progress| + 3
    ensures Survivors(WindowLines(job), kept) ==
            Survivors(["NODE " + job.node], [kept[0]])
            + (Survivors(["CELL_START " + Decimal(job.start)], [kept[1]])
               + (Survivors(job.progress, kept[2..|kept| - 1])
                  + Survivors(["CELL_END " + Decimal(job.end)], [kept[|kept| - 1]])))
  {
    hide Survivors, Decimal;
    var n, b, p, e := ["NODE " + job.node], ["CELL_START " + Decimal(job.start)], job.progress,
                      ["CELL_END " + Decimal(job.end)];
    assert WindowLines(job) == n + (b + (p + e));
    SurvivorsAppend(n, b + (p + e), kept);
    SurvivorsAppend(b, p + e, kept[1..]);
    SurvivorsAppend(p, e, kept[2..]);
    assert kept[..1] == [kept[0]] && kept[1..][..1] == [kept[1]] && kept[1..][1..] == kept[2..];
    assert kept[2..][..|p|] == kept[2..|kept| - 1] && kept[2..][|p|..] == [kept[|kept| - 1]];
  }

  lemma {:induction false} WindowOutcome(codec: Codec, job: Job, kept: seq<bool>)
    requires WellformedJob(job) && |kept| == |WindowLines(job)|
    ensures ScanStripped(codec, INITIAL, Survivors(WindowLines(job), kept)) ==
            Ok(INITIAL.(marks := MarksRead(job, kept)))
  {
    var node, start, end := "NODE " + job.node, "CELL_START " + Decimal(job.start), "CELL_END " + Decimal(job.end);
    MarkLines(job);
    WindowParts(job, kept);
    var last := |kept| - 1;
    var a := INITIAL.(marks := map[] + if kept[0] then map["NODE" := job.node] else map[]);
    var b := a.(marks := a.marks + if kept[1] then map["CELL_START" := Decimal(job.start)] else map[]);
    var c := b.(marks := b.marks + if kept[last] then map["CELL_END" := Decimal(job.end)] else map[]);
    MarkOutcome(codec, INITIAL, "NODE", job.node, node, kept[0]);
    MarkOutcome(codec, a, "CELL_START", Decimal(job.start), start, kept[1]);
    ProgressOutcome(codec, b, job.progress, kept[2..last]);
    MarkOutcome(codec, b, "CELL_END", Decimal(job.end), end, kept[last]);
    assert c.marks == MarksRead(job, kept);
    hide Survivors, ScanStripped, Decimal, MatchBegin, MatchMark, WellformedJob, WindowLines, MarksRead;
    var ks, ke := Survivors([start], [kept[1]]), Survivors([end], [kept[last]]);
    var kp := Survivors(job.progress, kept[2..last]);
    ScanAppend(codec, INITIAL, Survivors([node], [kept[0]]), ks + (kp + ke));
    ScanAppend(codec, a, ks, kp + ke);
    ScanAppend(codec, b, kp, ke);
  }

  /** Which lines of a printed log survive: of the window, of the frames, and the last one. */
  datatype Loss = Loss(window: seq<bool>, frames: seq<bool>, last: bool) {
    function Kept(): (kept: seq<bool>)
      ensures |kept| == |window| + |frames| + 1
    {
      window + (frames + [last])
    }
  }

  ghost predicate Fits(codec: Codec, job: Job, loss: Loss) {
    |loss.window| == |WindowLines(job)| && |loss.frames| == |Frames(codec, job.seeds)|
  }

  /** Every choice of lines to keep is such a loss, and the other way round. */
  lemma {:induction false} EveryLossFits(codec: Codec, job: Job, kept: seq<bool>) returns (loss: Loss)
    requires |kept| == |Printed(codec, job)|
    ensures Fits(codec, job, loss) && loss.Kept() == kept
  {
    var w, f := |WindowLines(job)|, |Frames(codec, job.seeds)|;
    hide WindowLines, Frames;
    loss := Loss(kept[..w], kept[w..w + f], kept[w + f]);
  }

  lemma {:induction false} LossFits(codec: Codec, job: Job, loss: Loss)
    requires Fits(codec, job, loss)
    ensures |loss.window| >= 3 && |loss.Kept()| == |Printed(codec, job)| == |Unterminated(codec, job)|
  {
    assert |WindowLines(job)| >= 3;
    hide WindowLines, Frames;
  }

  lemma {:induction false} LogParts(codec: Codec, job: Job, loss: Loss)
    requires Fits(codec, job, loss) && |loss.Kept()| == |Unterminated(codec, job)|
    ensures Survivors(Unterminated(codec, job), loss.Kept()) ==
            Survivors(WindowLines(job), loss.window)
            + (Survivors(Frames(codec, job.seeds), loss.frames) + LastLine(loss.last))
  {
    var window, frames, done := WindowLines(job), Frames(codec, job.seeds), ["ALL_DONE"];
    OneSurvivor("ALL_DONE", loss.last);
    hide Frames, Survivors, WindowLines;
    assert Unterminated(codec, job) == window + (frames + done);
    var rest := loss.frames + [loss.last];
    assert loss.Kept()[..|window|] == loss.window && loss.Kept()[|window|..] == rest;
    assert rest[..|frames|] == loss.frames && rest[|frames|..] == [loss.last];
    SurvivorsAppend(window, frames + done, loss.Kept());
    SurvivorsAppend(frames, done, rest);
  }

  lemma OneSurvivor(line: string, kept: bool)
    ensures Survivors([line], [kept]) == if kept then [line] else []
  {
    assert [line][1..] == [] && [kept][1..] == [];
  }

  /** The state after a damaged log: failed, stuck inside a frame, or exactly what its surviving lines say. */
  lemma {:induction false} ScanOutcome(codec: Codec, job: Job, loss: Loss)
    requires Faithful(codec) && WellformedJob(job) && Fits(codec, job, loss)
    requires |loss.Kept()| == |Printed(codec, job)|
    ensures AllRead(codec, INITIAL.(marks := MarksRead(job, loss.window)), job.seeds, loss.frames, loss.last,
                    Scan(codec, INITIAL, Survivors(Printed(codec, job), loss.Kept())))
  {
    assert DistinctSeeds(job.seeds);
    hide Faithful, WellformedJob, DistinctSeeds, WindowLines, Frames, Survivors, Printed, Unterminated, Scan,
      ScanStripped, MarksRead, AllRead, LastLine, Loss.Kept;
    ScanOfSurvivors(codec, job, loss.Kept());
    LogParts(codec, job, loss);
    var window, rest := Survivors(WindowLines(job), loss.window),
                        Survivors(Frames(codec, job.seeds), loss.frames) + LastLine(loss.last);
    ScanAppend(codec, INITIAL, window, rest);
    WindowOutcome(codec, job, loss.window);
    FramesOutcome(codec, INITIAL.(marks := MarksRead(job, loss.window)), job.seeds, loss.frames, loss.last);
  }

  lemma {:induction false} MarksReadFacts(job: Job, kept: seq<bool>)
    requires |kept| == |WindowLines(job)|
    ensures "NODE" in MarksRead(job, kept) <==> kept[0]
    ensures "CELL_START" in MarksRead(job, kept) <==> kept[1]
    ensures "CELL_END" in MarksRead(job, kept) <==> kept[|kept| - 1]
    ensures kept[0] && kept[1] && kept[|kept| - 1] ==> MarksRead(job, kept) == FullMarks(job)
  {
    hide Decimal;
  }

  /** The three marks and the last line survive. */
  predicate MarksKept(loss: Loss) {
    && |loss.window| >= 3
    && loss.window[0] && loss.window[1] && loss.window[|loss.window| - 1] && loss.last
  }

  lemma {:induction false} VerdictOutcome(job: Job, loss: Loss, read: map<string, Bytes>, want: set<string>)
    requires |loss.window| == |WindowLines(job)|
    ensures var st := State(MarksRead(job, loss.window), read, loss.last, None);
      && (Verdict(st, want).Ok? <==> job.start < job.end && MarksKept(loss) && read.Keys == want)
      && (Verdict(st, want).Ok? ==> Verdict(st, want) == Ok(Cell(FullMarks(job), read)))
  {
    MarksReadFacts(job, loss.window);
    PyIntOfDecimal(job.start);
    PyIntOfDecimal(job.end);
    SameKeys(want, read.Keys);
    assert |loss.window| >= 3;
    hide MarksRead, Decimal, PyInt, WindowLines;
  }

  function Judged(r: Result<State>, want: set<string>): Result<Cell> {
    match r
    case Err(e) => Err(e)
    case Ok(st) => Verdict(st, want)
  }

  lemma ParsedIsJudged(codec: Codec, lines: seq<string>, expectedSeeds: seq<string>)
    ensures Parsed(codec, lines, expectedSeeds) == Judged(Scan(codec, INITIAL, lines), Want(expectedSeeds))
  {
  }

  lemma {:induction false} JudgedOutcome(codec: Codec, job: Job, loss: Loss, r: Result<State>, want: set<string>)
    requires |loss.window| == |WindowLines(job)| && |loss.frames| == |Frames(codec, job.seeds)|
    requires AllRead(codec, INITIAL.(marks := MarksRead(job, loss.window)), job.seeds, loss.frames, loss.last, r)
    ensures var read := FramesRead(codec, job.seeds, loss.frames);
      && (Judged(r, want).Ok? <==> job.start < job.end && MarksKept(loss) && read.Some? && read.value.Keys == want)
      && (Judged(r, want).Ok? ==> Judged(r, want) == Ok(Cell(FullMarks(job), read.value)))
  {
    var read := FramesRead(codec, job.seeds, loss.frames);
    hide Frames, WindowLines, FramesRead, MarksRead, FullMarks, MarksKept;
    if read.Some? {
      assert map[] + read.value == read.value;
      VerdictOutcome(job, loss, read.value, want);
      hide Verdict;
    }
  }

  /**
   * Which damaged logs parse, and as what. Of a well-formed log with any of its lines lost, the collector accepts
   * exactly those whose window is one, whose three marks and last line survive, whose frames each lost their header or
   * kept header, end line and a body that passes every check, and whose frames read are the expected ones. It returns
   * the full marks and what was read.
   */
  lemma {:induction false} DamagedLogParsesIff(codec: Codec, job: Job, loss: Loss, expectedSeeds: seq<string>)
    requires Faithful(codec) && WellformedJob(job) && Fits(codec, job, loss)
    ensures |loss.Kept()| == |Printed(codec, job)|
    ensures var r, read := Parsed(codec, Survivors(Printed(codec, job), loss.Kept()), expectedSeeds),
                           FramesRead(codec, job.seeds, loss.frames);
      && (r.Ok? <==>
            job.start < job.end && MarksKept(loss) && read.Some? && read.value.Keys == Want(expectedSeeds))
      && (r.Ok? ==> r == Ok(Cell(FullMarks(job), read.value)))
  {
    hide Faithful, WellformedJob, WindowLines, Frames, Survivors, Printed, Unterminated, Scan, Parsed, Judged, AllRead,
      MarksRead, FramesRead, FullMarks, MarksKept, Want, Loss.Kept;
    LossFits(codec, job, loss);
    ScanOutcome(codec, job, loss);
    var lines := Survivors(Printed(codec, job), loss.Kept());
    ParsedIsJudged(codec, lines, expectedSeeds);
    JudgedOutcome(codec, job, loss, Scan(codec, INITIAL, lines), Want(expectedSeeds));
  }

  /** Every frame keeps its header and its end line, and what it keeps of its body passes every check. */
  predicate FramesKept(codec: Codec, seeds: seq<SeedRun>, kept: seq<bool>)
    requires |kept| == |Frames(codec, seeds)|
    decreases |seeds|
  {
    seeds == [] ||
    var n := |FrameLines(codec, seeds[0])|;
    FrameKept(codec, seeds[0], kept[..n]) && FramesKept(codec, seeds[1..], kept[n..])
  }

  predicate FrameKept(codec: Codec, s: SeedRun, kept: seq<bool>)
    requires |kept| == |codec.pack(s.csv)| + 2
  {
    var n := |codec.pack(s.csv)|;
    && kept[0] && kept[n + 1]
    && Decode(codec, FrameHeader(codec, s), Joined(Survivors(codec.pack(s.csv), kept[1..n + 1]))).Ok?
  }

  lemma {:induction false} FrameKeptIffRead(codec: Codec, s: SeedRun, kept: seq<bool>)
    requires |kept| == |codec.pack(s.csv)| + 2
    ensures var read := FrameRead(codec, s, kept);
      && (read.Some? ==> read.value.Keys <= {FileName(s.seed)})
      && (FrameKept(codec, s, kept) <==> read.Some? && FileName(s.seed) in read.value)
  {
    hide FileName, Joined, Decode, Survivors, FrameHeader;
  }

  lemma {:induction false} ReadNames(codec: Codec, seeds: seq<SeedRun>, kept: seq<bool>)
    requires |kept| == |Frames(codec, seeds)| && FramesRead(codec, seeds, kept).Some?
    ensures FramesRead(codec, seeds, kept).value.Keys <= FullBlobs(seeds).Keys
    decreases |seeds|
  {
    if seeds != [] {
      var n := |FrameLines(codec, seeds[0])|;
      FrameKeptIffRead(codec, seeds[0], kept[..n]);
      ReadNames(codec, seeds[1..], kept[n..]);
      hide FileName, FrameRead, FrameLines;
    }
  }

  lemma {:induction false} AllReadIffKept(codec: Codec, seeds: seq<SeedRun>, kept: seq<bool>)
    requires DistinctSeeds(seeds) && |kept| == |Frames(codec, seeds)|
    ensures (FramesRead(codec, seeds, kept).Some? && FramesRead(codec, seeds, kept).value.Keys == FullBlobs(seeds).Keys)
       <==> FramesKept(codec, seeds, kept)
    decreases |seeds|
  {
    if seeds != [] {
      var n := |FrameLines(codec, seeds[0])|;
      var rest := FramesRead(codec, seeds[1..], kept[n..]);
      TailDistinct(seeds);
      NameNotLater(seeds);
      FrameKeptIffRead(codec, seeds[0], kept[..n]);
      hide DistinctSeeds, FileName, FrameRead, FrameKept, FrameLines;
      AllReadIffKept(codec, seeds[1..], kept[n..]);
      if rest.Some? {
        ReadNames(codec, seeds[1..], kept[n..]);
        KeysOfBoth(FrameRead(codec, seeds[0], kept[..n]), rest.value, FileName(seeds[0].seed), FullBlobs(seeds[1..]),
                   seeds[0].csv);
      }
    }
  }

  /** Reading at most one more name gives all the names exactly when it is read and the others are all read. */
  lemma KeysOfBoth(first: Option<map<string, Bytes>>, rest: map<string, Bytes>, name: string, full: map<string, Bytes>,
                   csv: Bytes)
    requires name !in full && rest.Keys <= full.Keys && (first.Some? ==> first.value.Keys <= {name})
    ensures first.Some? ==>
      ((first.value + rest).Keys == full[name := csv].Keys <==> name in first.value && rest.Keys == full.Keys)
  {
    if first.Some? {
      assert full[name := csv].Keys == full.Keys + {name};
      assert (first.value + rest).Keys == first.value.Keys + rest.Keys;
      if (first.value + rest).Keys == full[name := csv].Keys {
        assert name in (first.value + rest).Keys;
        forall k ensures k in rest <==> k in full { }
      }
    }
  }

  /**
   * Expecting the job's own seeds, a damaged log parses if and only if its window is one and the NODE, CELL_START and
   * CELL_END lines, every header and end line, a good body of every frame, and ALL_DONE survive.
   */
  lemma {:induction false} LossRaisesIff(codec: Codec, job: Job, loss: Loss, expectedSeeds: seq<string>)
    requires Faithful(codec) && WellformedJob(job) && Fits(codec, job, loss)
    requires Want(expectedSeeds) == FullBlobs(job.seeds).Keys
    ensures |loss.Kept()| == |Printed(codec, job)|
    ensures Parsed(codec, Survivors(Printed(codec, job), loss.Kept()), expectedSeeds).Ok? <==>
            job.start < job.end && MarksKept(loss) && FramesKept(codec, job.seeds, loss.frames)
  {
    assert DistinctSeeds(job.seeds);
    hide Faithful, WellformedJob, DistinctSeeds, Printed, Parsed, Survivors, WindowLines, Frames, FramesRead,
      FramesKept, FullBlobs, FullMarks, Want, MarksKept, Loss.Kept;
    DamagedLogParsesIff(codec, job, loss, expectedSeeds);
    AllReadIffKept(codec, job.seeds, loss.frames);
  }
}
