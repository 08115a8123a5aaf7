/** The Job's printer, its round trip through the collector, and what losing lines can do: nothing silently. */
module LogLoss {
  import opened PyDict
  import opened LogLines
  import opened JobLog

  datatype SeedRun = SeedRun(seed: string, csv: Bytes)

  /** One Job: `progress` is whatever the load driver prints inside the window. */
  datatype Job = Job(node: string, start: nat, end: nat, progress: seq<string>, seeds: seq<SeedRun>)

  predicate IsBase64Char(c: char) {
    'A' <= c <= 'Z' || 'a' <= c <= 'z' || IsDigit(c) || c == '+' || c == '/' || c == '='
  }

  predicate IsBase64Line(l: string) {
    forall i :: 0 <= i < |l| ==> IsBase64Char(l[i])
  }

  /** Packing prints base64 lines that unpack to the file, and hashes print as 64 hex digits. */
  ghost predicate Faithful(codec: Codec) {
    && (forall data :: Unpacked(codec, Joined(codec.pack(data))) == Some(data))
    && (forall data, l :: l in codec.pack(data) ==> IsBase64Line(l))
    && (forall data :: IsHex64(codec.sha256(data)))
  }

  /** A line the collector ignores outside a frame. */
  predicate IsPlain(l: string) {
    MatchBegin(l).None? && MatchMark(l).None? && l != "ALL_DONE" && (l == "" || l[|l| - 1] != '\n')
  }

  ghost predicate DistinctSeeds(seeds: seq<SeedRun>) {
    && (forall i :: 0 <= i < |seeds| ==> IsToken(seeds[i].seed))
    && (forall i, j :: 0 <= i < j < |seeds| ==> seeds[i].seed != seeds[j].seed)
  }

  ghost predicate WellformedJob(job: Job) {
    IsToken(job.node) && DistinctSeeds(job.seeds) && forall l :: l in job.progress ==> IsPlain(l)
  }

  function HeaderLine(codec: Codec, s: SeedRun): string {
    BeginLine(FileName(s.seed), codec.sha256(s.csv), Decimal(|s.csv|))
  }

  function EndLine(name: string): string {
    "END " + name
  }

  function FrameLines(codec: Codec, s: SeedRun): seq<string> {
    [HeaderLine(codec, s)] + codec.pack(s.csv) + [EndLine(FileName(s.seed))]
  }

  function Frames(codec: Codec, seeds: seq<SeedRun>): seq<string> {
    if seeds == [] then [] else FrameLines(codec, seeds[0]) + Frames(codec, seeds[1..])
  }

  function WindowLines(job: Job): seq<string> {
    ["NODE " + job.node, "CELL_START " + Decimal(job.start)] + job.progress + ["CELL_END " + Decimal(job.end)]
  }

  function Terminated(lines: seq<string>): (r: seq<string>)
    ensures |r| == |lines|
  {
    if lines == [] then [] else [lines[0] + "\n"] + Terminated(lines[1..])
  }

  /** What `in_pod.sh` prints. */
  function Printed(codec: Codec, job: Job): seq<string> {
    Terminated(WindowLines(job) + Frames(codec, job.seeds) + ["ALL_DONE"])
  }

  function FullMarks(job: Job): map<string, string> {
    map["NODE" := job.node, "CELL_START" := Decimal(job.start), "CELL_END" := Decimal(job.end)]
  }

  function FullBlobs(seeds: seq<SeedRun>): map<string, Bytes> {
    if seeds == [] then map[] else FullBlobs(seeds[1..])[FileName(seeds[0].seed) := seeds[0].csv]
  }

  // ---------------------------------------------------------------------------------------------- lines

  lemma FileNameFacts(seed: string)
    requires IsToken(seed)
    ensures IsToken(FileName(seed))
  {
    var suffix := seed + ".csv";
    forall i | 0 <= i < |FileName(seed)| ensures !IsSpace(FileName(seed)[i]) {
      if i < 11 {
        assert FileName(seed)[i] == "driver-seed"[i];
      } else if i < 11 + |seed| {
        assert FileName(seed)[i] == seed[i - 11];
      } else {
        assert FileName(seed)[i] == ".csv"[i - 11 - |seed|];
      }
    }
  }

  lemma FileNameInjective(a: string, b: string)
    ensures FileName(a) == FileName(b) <==> a == b
  {
    if FileName(a) == FileName(b) {
      assert |a| == |b|;
      assert FileName(a)[11..11 + |a|] == a;
      assert FileName(b)[11..11 + |b|] == b;
    }
  }

  lemma MarkLines(job: Job)
    requires IsToken(job.node)
    ensures MatchBegin("NODE " + job.node).None? && MatchMark("NODE " + job.node) == Some(("NODE", job.node))
    ensures var l := "CELL_START " + Decimal(job.start);
      MatchBegin(l).None? && MatchMark(l) == Some(("CELL_START", Decimal(job.start)))
    ensures var l := "CELL_END " + Decimal(job.end);
      MatchBegin(l).None? && MatchMark(l) == Some(("CELL_END", Decimal(job.end)))
  {
    PyIntOfDecimal(job.start);
    PyIntOfDecimal(job.end);
    NotAfter("BEGIN ", "NODE " + job.node, 0);
    AfterOf("NODE ", job.node);
    var s := "CELL_START " + Decimal(job.start);
    NotAfter("BEGIN ", s, 0);
    NotAfter("NODE ", s, 0);
    AfterOf("CELL_START ", Decimal(job.start));
    var e := "CELL_END " + Decimal(job.end);
    NotAfter("BEGIN ", e, 0);
    NotAfter("NODE ", e, 0);
    NotAfter("CELL_START ", e, 5);
    AfterOf("CELL_END ", Decimal(job.end));
  }

  lemma {:induction false} HeaderLineFacts(codec: Codec, s: SeedRun)
    requires Faithful(codec) && IsToken(s.seed)
    ensures MatchBegin(HeaderLine(codec, s)) == Some(Header(FileName(s.seed), codec.sha256(s.csv), |s.csv|))
    ensures MatchEnd(HeaderLine(codec, s)).None?
  {
    FileNameFacts(s.seed);
    DecimalValue(|s.csv|);
    DecimalIsDigits(|s.csv|);
    MatchBeginOf(FileName(s.seed), codec.sha256(s.csv), Decimal(|s.csv|));
    NotAfter("END ", HeaderLine(codec, s), 0);
  }

  lemma EndLineFacts(name: string)
    requires IsToken(name)
    ensures MatchEnd(EndLine(name)) == Some(name) && IsPlain(EndLine(name))
  {
    var l := EndLine(name);
    AfterOf("END ", name);
    NotAfter("BEGIN ", l, 0);
    NotAfter("NODE ", l, 0);
    NotAfter("CELL_START ", l, 0);
    NotAfter("CELL_END ", l, 0);
    assert l[0] == 'E';
    assert l[|l| - 1] == name[|name| - 1];
  }

  lemma NoSpaceNoPrefix(prefix: string, l: string, i: nat)
    requires i < |prefix| && prefix[i] == ' ' && IsBase64Line(l)
    ensures RestAfter(prefix, l).None?
  {
    NotAfter(prefix, l, i);
  }

  /** A base64 line has neither space nor underscore, so it can be no marker, header or end line. */
  lemma BodyLineFacts(l: string)
    requires IsBase64Line(l)
    ensures MatchEnd(l).None? && IsPlain(l)
  {
    NoSpaceNoPrefix("END ", l, 3);
    NoSpaceNoPrefix("BEGIN ", l, 5);
    NoSpaceNoPrefix("NODE ", l, 4);
    NoSpaceNoPrefix("CELL_START ", l, 10);
    NoSpaceNoPrefix("CELL_END ", l, 8);
    assert "ALL_DONE"[3] == '_';
  }

  lemma AllDoneFacts()
    ensures MatchBegin("ALL_DONE").None? && MatchMark("ALL_DONE").None? && MatchEnd("ALL_DONE").None?
  {
    NotAfter("BEGIN ", "ALL_DONE", 0);
    NotAfter("NODE ", "ALL_DONE", 0);
    NotAfter("CELL_START ", "ALL_DONE", 0);
    NotAfter("CELL_END ", "ALL_DONE", 0);
    NotAfter("END ", "ALL_DONE", 0);
  }

  // ----------------------------------------------------------------------------------------- lossy scans

  /** The lines that survive when line `i` is kept exactly if `kept[i]`. */
  function Survivors(lines: seq<string>, kept: seq<bool>): (r: seq<string>)
    requires |lines| == |kept|
    ensures forall l :: l in r ==> l in lines
  {
    if lines == [] then []
    else
      var rest := Survivors(lines[1..], kept[1..]);
      if kept[0] then [lines[0]] + rest else rest
  }

  lemma {:induction false} SurvivorsAppend(a: seq<string>, b: seq<string>, kept: seq<bool>)
    requires |kept| == |a| + |b|
    ensures Survivors(a + b, kept) == Survivors(a, kept[..|a|]) + Survivors(b, kept[|a|..])
  {
    if a == [] {
      assert a + b == b;
    } else {
      SurvivorsAppend(a[1..], b, kept[1..]);
      assert (a + b)[1..] == a[1..] + b;
      assert kept[1..][..|a| - 1] == kept[..|a|][1..];
    }
  }

  lemma {:induction false} SurvivorsTerminated(lines: seq<string>, kept: seq<bool>)
    requires |lines| == |kept|
    ensures Survivors(Terminated(lines), kept) == Terminated(Survivors(lines, kept))
  {
    if lines != [] {
      SurvivorsTerminated(lines[1..], kept[1..]);
      assert Terminated(lines)[1..] == Terminated(lines[1..]);
      if kept[0] {
        var rest := Survivors(lines[1..], kept[1..]);
        assert ([lines[0]] + rest)[1..] == rest;
      }
    }
  }

  /** `Scan` on lines that have already been stripped. */
  function ScanStripped(codec: Codec, st: State, lines: seq<string>): Result<State>
    decreases |lines|
  {
    if lines == [] then Ok(st)
    else
      match st.open
      case None => ScanStripped(codec, StepOutside(st, lines[0]), lines[1..])
      case Some(f) =>
        match StepInside(codec, st, f, lines[0])
        case Err(e) => Err(e)
        case Ok(next) => ScanStripped(codec, next, lines[1..])
  }

  ghost predicate NoTrailingNewline(lines: seq<string>) {
    forall l :: l in lines ==> l == "" || l[|l| - 1] != '\n'
  }

  lemma {:induction false} ScanTerminated(codec: Codec, st: State, lines: seq<string>)
    requires NoTrailingNewline(lines)
    ensures Scan(codec, st, Terminated(lines)) == ScanStripped(codec, st, lines)
    decreases |lines|
  {
    if lines != [] {
      assert lines[0] in lines;
      assert forall l :: l in lines[1..] ==> l in lines;
      RStripOfLine(lines[0]);
      var raw := Terminated(lines);
      assert raw[1..] == Terminated(lines[1..]);
      var next := Step(codec, st, raw[0]);
      if next.Ok? {
        ScanTerminated(codec, next.value, lines[1..]);
      }
    }
  }

  lemma {:induction false} ScanAppend(codec: Codec, st: State, a: seq<string>, b: seq<string>)
    ensures ScanStripped(codec, st, a + b) ==
            match ScanStripped(codec, st, a)
            case Err(e) => Err(e)
            case Ok(mid) => ScanStripped(codec, mid, b)
    decreases |a|
  {
    if a == [] {
      assert a + b == b;
    } else {
      assert (a + b)[1..] == a[1..] + b;
      if st.open.None? {
        ScanAppend(codec, StepOutside(st, a[0]), a[1..], b);
      } else if StepInside(codec, st, st.open.value, a[0]).Ok? {
        ScanAppend(codec, StepInside(codec, st, st.open.value, a[0]).value, a[1..], b);
      }
    }
  }

  /** Outside a frame, and holding nothing the full log does not hold. */
  ghost predicate Sound(job: Job, st: State) {
    && st.open.None?
    && (forall k :: k in st.marks ==> k in FullMarks(job) && st.marks[k] == FullMarks(job)[k])
    && (forall n :: n in st.blobs ==> n in FullBlobs(job.seeds) && st.blobs[n] == FullBlobs(job.seeds)[n])
  }

  /** The only ways a lossy scan can end: an error, stuck inside a frame, or sound. */
  ghost predicate Safe(job: Job, r: Result<State>) {
    r.Err? || r.value.open.Some? || Sound(job, r.value)
  }

  /** Read outside a frame, the line opens none and marks nothing false. */
  ghost predicate Harmless(job: Job, l: string) {
    && MatchBegin(l).None?
    && (MatchMark(l).Some? ==>
          MatchMark(l).value.0 in FullMarks(job) && FullMarks(job)[MatchMark(l).value.0] == MatchMark(l).value.1)
  }

  lemma {:induction false} ScanHarmless(codec: Codec, job: Job, st: State, lines: seq<string>)
    requires Sound(job, st) && forall l :: l in lines ==> Harmless(job, l)
    ensures ScanStripped(codec, st, lines).Ok? && Sound(job, ScanStripped(codec, st, lines).value)
    decreases |lines|
  {
    if lines != [] {
      assert lines[0] in lines && forall l :: l in lines[1..] ==> l in lines;
      ScanHarmless(codec, job, StepOutside(st, lines[0]), lines[1..]);
    }
  }

  /** A frame whose end line is lost is never closed: the log fails as interleaved or as truncated. */
  lemma {:induction false} ScanUnclosed(codec: Codec, st: State, lines: seq<string>)
    requires st.open.Some? && forall l :: l in lines ==> MatchEnd(l) != Some(st.open.value.header.name)
    ensures var r := ScanStripped(codec, st, lines);
      r.Err? || r.value.open.Some?
    decreases |lines|
  {
    if lines != [] {
      assert lines[0] in lines && forall l :: l in lines[1..] ==> l in lines;
      var next := StepInside(codec, st, st.open.value, lines[0]);
      if next.Ok? { ScanUnclosed(codec, next.value, lines[1..]); }
    }
  }

  lemma {:induction false} ScanBody(codec: Codec, st: State, lines: seq<string>)
    requires st.open.Some? && forall l :: l in lines ==> IsBase64Line(l)
    ensures ScanStripped(codec, st, lines) ==
            Ok(st.(open := Some(st.open.value.(body := st.open.value.body + lines))))
    decreases |lines|
  {
    var f := st.open.value;
    if lines == [] {
      assert f.body + lines == f.body;
    } else {
      assert lines[0] in lines && forall l :: l in lines[1..] ==> l in lines;
      BodyLineFacts(lines[0]);
      ScanBody(codec, st.(open := Some(f.(body := f.body + [lines[0]]))), lines[1..]);
      assert f.body + [lines[0]] + lines[1..] == f.body + lines;
    }
  }

  /** No partial body of this file unpacks to other bytes of the same length and hash. */
  ghost predicate NoBodyCollides(codec: Codec, s: SeedRun) {
    forall kept: seq<bool>, data: Bytes ::
      (|kept| == |codec.pack(s.csv)| && Unpacked(codec, Joined(Survivors(codec.pack(s.csv), kept))) == Some(data)
       && |data| == |s.csv| && codec.sha256(data) == codec.sha256(s.csv)) ==> data == s.csv
  }

  lemma {:induction false} FullBlobsAt(seeds: seq<SeedRun>, i: nat)
    requires DistinctSeeds(seeds) && i < |seeds|
    ensures FileName(seeds[i].seed) in FullBlobs(seeds) && FullBlobs(seeds)[FileName(seeds[i].seed)] == seeds[i].csv
  {
    if i > 0 {
      assert DistinctSeeds(seeds[1..]);
      FullBlobsAt(seeds[1..], i - 1);
      FileNameInjective(seeds[0].seed, seeds[i].seed);
    }
  }

  /** The surviving lines of one frame, read outside any frame: harmless, closed correctly, failed, or left open. */
  lemma {:induction false} ScanFrame(codec: Codec, job: Job, k: nat, st: State, kept: seq<bool>)
    requires Faithful(codec) && DistinctSeeds(job.seeds) && k < |job.seeds| && NoBodyCollides(codec, job.seeds[k])
    requires Sound(job, st) && |kept| == |FrameLines(codec, job.seeds[k])|
    ensures var r := ScanStripped(codec, st, Survivors(FrameLines(codec, job.seeds[k]), kept));
      || r.Err?
      || Sound(job, r.value)
      || (r.value.open.Some? && r.value.open.value.header.name == FileName(job.seeds[k].seed))
  {
    hide *;
    var s := job.seeds[k];
    SeedIsToken(job, k);
    FrameSurvivors(codec, s, kept);
    var n := |codec.pack(s.csv)|;
    if kept[0] {
      ScanBegunFrame(codec, job, k, st, kept[1..n + 1], kept[n + 1]);
    } else {
      var rest := FrameRest(codec, s, kept[1..n + 1], kept[n + 1]);
      FrameRestHarmless(codec, job, s, kept[1..n + 1], kept[n + 1]);
      assert [] + rest == rest;
      ScanHarmless(codec, job, st, rest);
    }
  }

  lemma SeedIsToken(job: Job, k: nat)
    requires DistinctSeeds(job.seeds) && k < |job.seeds|
    ensures IsToken(job.seeds[k].seed)
  {
    hide IsToken;
  }

  /** What survives of a frame below its header. */
  function FrameRest(codec: Codec, s: SeedRun, keptBody: seq<bool>, ended: bool): seq<string>
    requires |keptBody| == |codec.pack(s.csv)|
  {
    Survivors(codec.pack(s.csv), keptBody) + if ended then [EndLine(FileName(s.seed))] else []
  }

  lemma FrameRestHarmless(codec: Codec, job: Job, s: SeedRun, keptBody: seq<bool>, ended: bool)
    requires Faithful(codec) && IsToken(s.seed) && |keptBody| == |codec.pack(s.csv)|
    ensures forall l :: l in FrameRest(codec, s, keptBody, ended) ==> Harmless(job, l)
  {
    FrameLinesHarmless(codec, job, s);
    hide Harmless, IsToken, EndLine, Faithful;
  }

  /** Without its header, nothing in a frame is read as a marker. */
  lemma {:induction false} FrameLinesHarmless(codec: Codec, job: Job, s: SeedRun)
    requires Faithful(codec) && IsToken(s.seed)
    ensures Harmless(job, EndLine(FileName(s.seed)))
    ensures forall l :: l in codec.pack(s.csv) ==> Harmless(job, l)
  {
    FileNameFacts(s.seed);
    EndLineFacts(FileName(s.seed));
    hide MatchBegin, MatchMark, IsBase64Line, EndLine;
    forall l | l in codec.pack(s.csv) ensures Harmless(job, l) { BodyLineFacts(l); }
  }

  /** A frame whose header survives: the body is collected, and the end line, if it survives, closes it. */
  lemma {:induction false} ScanBegunFrame(codec: Codec, job: Job, k: nat, st: State, keptBody: seq<bool>, ended: bool)
    requires Faithful(codec) && DistinctSeeds(job.seeds) && k < |job.seeds| && NoBodyCollides(codec, job.seeds[k])
    requires Sound(job, st) && |keptBody| == |codec.pack(job.seeds[k].csv)|
    ensures var s := job.seeds[k];
      var r := ScanStripped(codec, st, [HeaderLine(codec, s)] + FrameRest(codec, s, keptBody, ended));
      || r.Err?
      || Sound(job, r.value)
      || (r.value.open.Some? && r.value.open.value.header.name == FileName(s.seed))
  {
    var s := job.seeds[k];
    var name, mid := FileName(s.seed), Survivors(codec.pack(s.csv), keptBody);
    var tail := if ended then [EndLine(name)] else [];
    var begun := st.(open := Some(Frame(Header(name, codec.sha256(s.csv), |s.csv|), [])));
    HeaderLineFacts(codec, s);
    hide MatchBegin, MatchMark, MatchEnd, HeaderLine, EndLine, FileName, Survivors, IsBase64Line, Sound;
    ScanHead(codec, st, HeaderLine(codec, s), mid + tail);
    ScanAppend(codec, begun, mid, tail);
    SurvivorsAreBase64(codec, s, keptBody);
    ScanBody(codec, begun, mid);
    if ended {
      CloseFrame(codec, job, k, st, keptBody);
    }
  }

  lemma SurvivorsAreBase64(codec: Codec, s: SeedRun, keptBody: seq<bool>)
    requires Faithful(codec) && |keptBody| == |codec.pack(s.csv)|
    ensures forall l :: l in Survivors(codec.pack(s.csv), keptBody) ==> IsBase64Line(l)
  {
    hide IsBase64Line;
  }

  lemma ScanHead(codec: Codec, st: State, l: string, rest: seq<string>)
    requires st.open.None?
    ensures ScanStripped(codec, st, [l] + rest) == ScanStripped(codec, StepOutside(st, l), rest)
  {
    assert ([l] + rest)[1..] == rest;
  }

  lemma {:induction false} FrameSurvivors(codec: Codec, s: SeedRun, kept: seq<bool>)
    requires |kept| == |FrameLines(codec, s)|
    ensures var n := |codec.pack(s.csv)|;
      |kept| == n + 2 &&
      Survivors(FrameLines(codec, s), kept) ==
        (if kept[0] then [HeaderLine(codec, s)] else []) + FrameRest(codec, s, kept[1..n + 1], kept[n + 1])
  {
    var body, e := codec.pack(s.csv), EndLine(FileName(s.seed));
    var n := |body|;
    assert FrameLines(codec, s)[0] == HeaderLine(codec, s);
    assert FrameLines(codec, s)[1..] == body + [e];
    SurvivorsAppend(body, [e], kept[1..]);
    assert kept[1..][..n] == kept[1..n + 1];
    assert kept[1..][n..] == [kept[n + 1]];
    assert [e][1..] == [];
    assert Survivors([e], [kept[n + 1]]) == if kept[n + 1] then [e] else [];
  }

  /** Closing a frame over a partial body either fails a check or yields the file itself. */
  lemma {:induction false} CloseFrame(codec: Codec, job: Job, k: nat, st: State, keptBody: seq<bool>)
    requires Faithful(codec) && DistinctSeeds(job.seeds) && k < |job.seeds| && NoBodyCollides(codec, job.seeds[k])
    requires Sound(job, st) && |keptBody| == |codec.pack(job.seeds[k].csv)|
    ensures var s := job.seeds[k];
      var f := Frame(Header(FileName(s.seed), codec.sha256(s.csv), |s.csv|),
                     [] + Survivors(codec.pack(s.csv), keptBody));
      var r := ScanStripped(codec, st.(open := Some(f)), [EndLine(FileName(s.seed))]);
      r.Err? || Sound(job, r.value)
  {
    var s := job.seeds[k];
    var name, mid := FileName(s.seed), Survivors(codec.pack(s.csv), keptBody);
    var h := Header(name, codec.sha256(s.csv), |s.csv|);
    assert [] + mid == mid;
    SeedIsToken(job, k);
    FileNameFacts(s.seed);
    EndLineFacts(name);
    PartialBodyDecodes(codec, s, keptBody);
    SoundWithBlob(job, k, st);
    hide MatchBegin, MatchMark, MatchEnd, IsPlain, Survivors, Joined, FileName, EndLine, Faithful, DistinctSeeds,
      IsToken, NoBodyCollides, Decode, Sound;
    ScanOne(codec, st.(open := Some(Frame(h, mid))), EndLine(name));
  }

  /** A partial body that passes every check is the file. */
  lemma PartialBodyDecodes(codec: Codec, s: SeedRun, keptBody: seq<bool>)
    requires NoBodyCollides(codec, s) && |keptBody| == |codec.pack(s.csv)|
    ensures var h := Header(FileName(s.seed), codec.sha256(s.csv), |s.csv|);
      var r := Decode(codec, h, Joined(Survivors(codec.pack(s.csv), keptBody)));
      r.Ok? ==> r.value == s.csv
  {
    hide Survivors, Joined, FileName;
    var text := Joined(Survivors(codec.pack(s.csv), keptBody));
    if Unpacked(codec, text).Some? {
      var data := Unpacked(codec, text).value;
      assert |data| == |s.csv| && codec.sha256(data) == codec.sha256(s.csv) ==> data == s.csv;
    }
  }

  lemma SoundWithBlob(job: Job, k: nat, st: State)
    requires DistinctSeeds(job.seeds) && k < |job.seeds| && Sound(job, st)
    ensures Sound(job, st.(blobs := st.blobs[FileName(job.seeds[k].seed) := job.seeds[k].csv]))
  {
    FullBlobsAt(job.seeds, k);
    hide FileName, FullBlobs, FullMarks, DistinctSeeds;
  }

  lemma ScanOne(codec: Codec, st: State, l: string)
    requires st.open.Some?
    ensures ScanStripped(codec, st, [l]) == StepInside(codec, st, st.open.value, l)
  {
    assert [l][1..] == [];
  }

  lemma {:induction false} FramesHaveOtherEnds(codec: Codec, seeds: seq<SeedRun>, seed: string, l: string)
    requires Faithful(codec) && DistinctSeeds(seeds) && IsToken(seed)
    requires forall i :: 0 <= i < |seeds| ==> seeds[i].seed != seed
    requires l in Frames(codec, seeds)
    ensures MatchEnd(l) != Some(FileName(seed))
  {
    var s := seeds[0];
    if l in FrameLines(codec, s) {
      if l == HeaderLine(codec, s) {
        HeaderLineFacts(codec, s);
      } else if l == EndLine(FileName(s.seed)) {
        FileNameFacts(s.seed);
        EndLineFacts(FileName(s.seed));
        FileNameInjective(s.seed, seed);
      } else {
        BodyLineFacts(l);
      }
    } else {
      assert DistinctSeeds(seeds[1..]);
      FramesHaveOtherEnds(codec, seeds[1..], seed, l);
    }
  }

  /** From a sound state, whatever survives of the remaining frames and the final line ends safely. */
  lemma {:induction false} ScanFrames(codec: Codec, job: Job, k: nat, st: State, kept: seq<bool>)
    requires Faithful(codec) && DistinctSeeds(job.seeds) && k <= |job.seeds| && Sound(job, st)
    requires forall i :: 0 <= i < |job.seeds| ==> NoBodyCollides(codec, job.seeds[i])
    requires |kept| == |Frames(codec, job.seeds[k..]) + ["ALL_DONE"]|
    ensures Safe(job, ScanStripped(codec, st, Survivors(Frames(codec, job.seeds[k..]) + ["ALL_DONE"], kept)))
    decreases |job.seeds| - k
  {
    var rest := job.seeds[k..];
    if k == |job.seeds| {
      AllDoneFacts();
      assert Frames(codec, rest) + ["ALL_DONE"] == ["ALL_DONE"];
      ScanHarmless(codec, job, st, Survivors(["ALL_DONE"], kept));
    } else {
      var s := job.seeds[k];
      assert rest[0] == s && rest[1..] == job.seeds[k + 1..];
      var frame, later := FrameLines(codec, s), Frames(codec, job.seeds[k + 1..]) + ["ALL_DONE"];
      assert Frames(codec, rest) + ["ALL_DONE"] == frame + later;
      SurvivorsAppend(frame, later, kept);
      var a, b := Survivors(frame, kept[..|frame|]), Survivors(later, kept[|frame|..]);
      ScanAppend(codec, st, a, b);
      ScanFrame(codec, job, k, st, kept[..|frame|]);
      var mid := ScanStripped(codec, st, a);
      if mid.Ok? {
        if Sound(job, mid.value) {
          ScanFrames(codec, job, k + 1, mid.value, kept[|frame|..]);
        } else {
          LaterEndsDiffer(codec, job, k);
          ScanUnclosed(codec, mid.value, b);
        }
      }
    }
  }

  lemma LaterEndsDiffer(codec: Codec, job: Job, k: nat)
    requires Faithful(codec) && DistinctSeeds(job.seeds) && k < |job.seeds|
    ensures forall l :: l in Frames(codec, job.seeds[k + 1..]) + ["ALL_DONE"] ==>
      MatchEnd(l) != Some(FileName(job.seeds[k].seed))
  {
    AllDoneFacts();
    forall l | l in Frames(codec, job.seeds[k + 1..]) ensures MatchEnd(l) != Some(FileName(job.seeds[k].seed)) {
      FramesHaveOtherEnds(codec, job.seeds[k + 1..], job.seeds[k].seed, l);
    }
  }

  // ------------------------------------------------------------------------------------------- theorems

  lemma WindowHarmless(job: Job)
    requires WellformedJob(job)
    ensures forall l :: l in WindowLines(job) ==> Harmless(job, l)
  {
    MarkLines(job);
    hide MatchBegin, MatchMark, Decimal;
    forall l | l in WindowLines(job) ensures Harmless(job, l) {
      if l in job.progress { assert IsPlain(l); }
    }
  }

  function Unterminated(codec: Codec, job: Job): seq<string> {
    WindowLines(job) + Frames(codec, job.seeds) + ["ALL_DONE"]
  }

  lemma {:induction false} WindowHasNoNewlines(job: Job)
    requires WellformedJob(job)
    ensures NoTrailingNewline(WindowLines(job))
  {
    PyIntOfDecimal(job.start);
    PyIntOfDecimal(job.end);
    LastCharOfMark("NODE ", job.node);
    LastCharOfMark("CELL_START ", Decimal(job.start));
    LastCharOfMark("CELL_END ", Decimal(job.end));
    hide PyInt, IsToken, MatchBegin, MatchMark, DistinctSeeds, Decimal;
  }

  lemma NoNewlinesAppend(a: seq<string>, b: seq<string>)
    requires NoTrailingNewline(a) && NoTrailingNewline(b)
    ensures NoTrailingNewline(a + b)
  {
  }

  lemma {:induction false} AllFramesHaveNoNewlines(codec: Codec, job: Job)
    requires Faithful(codec) && DistinctSeeds(job.seeds)
    ensures NoTrailingNewline(Frames(codec, job.seeds)) && NoTrailingNewline(["ALL_DONE"])
  {
    hide Frames, Faithful, DistinctSeeds;
    forall l | l in Frames(codec, job.seeds) ensures l == "" || l[|l| - 1] != '\n' {
      FramesHaveNoNewlines(codec, job.seeds, l);
    }
  }

  lemma {:induction false} PrintedHasNoNewlines(codec: Codec, job: Job)
    requires Faithful(codec) && WellformedJob(job)
    ensures NoTrailingNewline(Unterminated(codec, job))
  {
    WindowHasNoNewlines(job);
    assert DistinctSeeds(job.seeds);
    AllFramesHaveNoNewlines(codec, job);
    hide Faithful, WellformedJob, DistinctSeeds, WindowLines, Frames, NoTrailingNewline;
    NoNewlinesAppend(WindowLines(job), Frames(codec, job.seeds));
    NoNewlinesAppend(WindowLines(job) + Frames(codec, job.seeds), ["ALL_DONE"]);
  }

  lemma LastCharOfMark(prefix: string, value: string)
    requires IsToken(value)
    ensures (prefix + value)[|prefix + value| - 1] != '\n'
  {
    assert (prefix + value)[|prefix + value| - 1] == value[|value| - 1];
    assert IsSpace('\n');
  }

  lemma {:induction false} FramesHaveNoNewlines(codec: Codec, seeds: seq<SeedRun>, l: string)
    requires Faithful(codec) && DistinctSeeds(seeds) && l in Frames(codec, seeds)
    ensures l == "" || l[|l| - 1] != '\n'
  {
    var s := seeds[0];
    if l in FrameLines(codec, s) {
      if l == HeaderLine(codec, s) {
        var d := Decimal(|s.csv|);
        assert l[|l| - 1] == d[|d| - 1];
      } else if l == EndLine(FileName(s.seed)) {
        FileNameFacts(s.seed);
        EndLineFacts(FileName(s.seed));
      } else {
        BodyLineFacts(l);
      }
    } else {
      assert DistinctSeeds(seeds[1..]);
      FramesHaveNoNewlines(codec, seeds[1..], l);
    }
  }

  function Only(blobs: map<string, Bytes>, names: set<string>): (r: map<string, Bytes>)
    ensures names == blobs.Keys ==> r == blobs
  {
    map n | n in blobs && n in names :: blobs[n]
  }

  lemma VerdictOfSafe(job: Job, st: State, want: set<string>)
    requires Safe(job, Ok(st)) && Verdict(st, want).Ok?
    ensures want <= FullBlobs(job.seeds).Keys
    ensures Verdict(st, want).value == Cell(FullMarks(job), Only(FullBlobs(job.seeds), want))
  {
    assert st.marks.Keys == FullMarks(job).Keys;
    assert st.marks == FullMarks(job);
    SameKeys(want, st.blobs.Keys);
    assert st.blobs == Only(FullBlobs(job.seeds), want);
  }

  /** Losing printed lines is losing lines before their line ends are added. */
  lemma {:induction false} ScanOfSurvivors(codec: Codec, job: Job, kept: seq<bool>)
    requires Faithful(codec) && WellformedJob(job) && |kept| == |Printed(codec, job)|
    ensures |kept| == |Unterminated(codec, job)|
    ensures Scan(codec, INITIAL, Survivors(Printed(codec, job), kept)) ==
            ScanStripped(codec, INITIAL, Survivors(Unterminated(codec, job), kept))
  {
    var all := Unterminated(codec, job);
    SurvivorsTerminated(all, kept);
    PrintedHasNoNewlines(codec, job);
    ScanTerminated(codec, INITIAL, Survivors(all, kept));
  }

  ghost predicate NoFileCollides(codec: Codec, job: Job) {
    forall i :: 0 <= i < |job.seeds| ==> NoBodyCollides(codec, job.seeds[i])
  }

  /**
   * Line loss is never silent: whatever lines of a well-formed log are lost and whatever seeds are expected, the
   * collector fails or returns the full marks and exactly the expected seeds' own files.
   */
  lemma LossIsNeverSilent(codec: Codec, job: Job, kept: seq<bool>, expectedSeeds: seq<string>)
    requires Faithful(codec) && WellformedJob(job)
    requires forall i :: 0 <= i < |job.seeds| ==> NoBodyCollides(codec, job.seeds[i])
    requires |kept| == |Printed(codec, job)|
    ensures var r := Parsed(codec, Survivors(Printed(codec, job), kept), expectedSeeds);
      || r.Err?
      || (&& Want(expectedSeeds) <= FullBlobs(job.seeds).Keys
          && r == Ok(Cell(FullMarks(job), Only(FullBlobs(job.seeds), Want(expectedSeeds)))))
  {
    ScanOfSurvivors(codec, job, kept);
    LossyScanIsSafe(codec, job, kept);
    var r := ScanStripped(codec, INITIAL, Survivors(Unterminated(codec, job), kept));
    if r.Ok? && Verdict(r.value, Want(expectedSeeds)).Ok? {
      VerdictOfSafe(job, r.value, Want(expectedSeeds));
    }
  }

  lemma {:induction false} LossyScanIsSafe(codec: Codec, job: Job, kept: seq<bool>)
    requires Faithful(codec) && WellformedJob(job) && |kept| == |Unterminated(codec, job)|
    requires forall i :: 0 <= i < |job.seeds| ==> NoBodyCollides(codec, job.seeds[i])
    ensures Safe(job, ScanStripped(codec, INITIAL, Survivors(Unterminated(codec, job), kept)))
  {
    var window, rest := WindowLines(job), Frames(codec, job.seeds) + ["ALL_DONE"];
    assert Unterminated(codec, job) == window + rest;
    SurvivorsAppend(window, rest, kept);
    var a, b := Survivors(window, kept[..|window|]), Survivors(rest, kept[|window|..]);
    ScanAppend(codec, INITIAL, a, b);
    WindowHarmless(job);
    ScanHarmless(codec, job, INITIAL, a);
    assert job.seeds[0..] == job.seeds;
    ScanFrames(codec, job, 0, ScanStripped(codec, INITIAL, a).value, kept[|window|..]);
  }

  lemma FullBodyDecodes(codec: Codec, s: SeedRun)
    requires Faithful(codec)
    ensures Decode(codec, Header(FileName(s.seed), codec.sha256(s.csv), |s.csv|), Joined(codec.pack(s.csv))) ==
            Ok(s.csv)
  {
    hide Joined, FileName;
    assert Unpacked(codec, Joined(codec.pack(s.csv))) == Some(s.csv);
  }

  lemma {:induction false} OpenStep(codec: Codec, st: State, s: SeedRun)
    requires Faithful(codec) && IsToken(s.seed)
    ensures StepOutside(st, HeaderLine(codec, s)) ==
            st.(open := Some(Frame(Header(FileName(s.seed), codec.sha256(s.csv), |s.csv|), [])))
  {
    HeaderLineFacts(codec, s);
    hide MatchBegin, HeaderLine, FileName, Faithful, IsToken;
  }

  lemma {:induction false} CloseStep(codec: Codec, st: State, h: Header, body: seq<string>, data: Bytes)
    requires IsToken(h.name) && Decode(codec, h, Joined(body)) == Ok(data)
    ensures StepInside(codec, st.(open := Some(Frame(h, body))), Frame(h, body), EndLine(h.name)) ==
            Ok(st.(blobs := st.blobs[h.name := data], open := None))
  {
    EndLineFacts(h.name);
    hide MatchEnd, EndLine, IsPlain, IsToken, Decode, Joined;
  }

  /** The state after reading, from outside, a frame whose body passes every check as `data`. */
  lemma {:induction false} ScanClosedFrame(codec: Codec, st: State, s: SeedRun, body: seq<string>, data: Bytes)
    requires Faithful(codec) && IsToken(s.seed) && st.open.None? && forall l :: l in body ==> IsBase64Line(l)
    requires Decode(codec, Header(FileName(s.seed), codec.sha256(s.csv), |s.csv|), Joined(body)) == Ok(data)
    ensures ScanStripped(codec, st, [HeaderLine(codec, s)] + body + [EndLine(FileName(s.seed))]) ==
            Ok(st.(blobs := st.blobs[FileName(s.seed) := data]))
  {
    var name, header := FileName(s.seed), HeaderLine(codec, s);
    var h := Header(name, codec.sha256(s.csv), |s.csv|);
    var begun := st.(open := Some(Frame(h, [])));
    FileNameFacts(s.seed);
    hide *;
    assert [header] + body + [EndLine(name)] == [header] + (body + [EndLine(name)]);
    OpenStep(codec, st, s);
    ScanHead(codec, st, header, body + [EndLine(name)]);
    ScanAppend(codec, begun, body, [EndLine(name)]);
    ScanBody(codec, begun, body);
    assert [] + body == body;
    ScanOne(codec, st.(open := Some(Frame(h, body))), EndLine(name));
    CloseStep(codec, st, h, body, data);
  }

  lemma ScanFullFrame(codec: Codec, st: State, s: SeedRun)
    requires Faithful(codec) && IsToken(s.seed) && st.open.None?
    ensures ScanStripped(codec, st, FrameLines(codec, s)) == Ok(st.(blobs := st.blobs[FileName(s.seed) := s.csv]))
  {
    FullBodyDecodes(codec, s);
    hide Joined, Decode, FileName, ScanStripped, IsBase64Line;
    ScanClosedFrame(codec, st, s, codec.pack(s.csv), s.csv);
  }

  lemma {:induction false} ScanFullFrames(codec: Codec, st: State, seeds: seq<SeedRun>)
    requires Faithful(codec) && DistinctSeeds(seeds) && st.open.None?
    ensures ScanStripped(codec, st, Frames(codec, seeds)) == Ok(st.(blobs := st.blobs + FullBlobs(seeds)))
    decreases |seeds|
  {
    hide MatchBegin, MatchMark, MatchEnd, FrameLines, FileName, Joined;
    if seeds == [] {
      assert st.blobs + map[] == st.blobs;
    } else {
      var s := seeds[0];
      var next := st.(blobs := st.blobs[FileName(s.seed) := s.csv]);
      TailDistinct(seeds);
      ScanFullFrame(codec, st, s);
      ScanAppend(codec, st, FrameLines(codec, s), Frames(codec, seeds[1..]));
      ScanFullFrames(codec, next, seeds[1..]);
      NameNotLater(seeds);
      MergeOne(st.blobs, FullBlobs(seeds[1..]), FileName(s.seed), s.csv);
    }
  }

  lemma TailDistinct(seeds: seq<SeedRun>)
    requires seeds != [] && DistinctSeeds(seeds)
    ensures DistinctSeeds(seeds[1..]) && IsToken(seeds[0].seed)
  {
    hide IsToken;
  }

  lemma MergeOne(a: map<string, Bytes>, b: map<string, Bytes>, name: string, data: Bytes)
    requires name !in b
    ensures a[name := data] + b == a + b[name := data]
  {
  }

  lemma {:induction false} NameOfSome(seeds: seq<SeedRun>, name: string) returns (i: nat)
    requires name in FullBlobs(seeds)
    ensures i < |seeds| && FileName(seeds[i].seed) == name
  {
    if name == FileName(seeds[0].seed) {
      i := 0;
    } else {
      var j := NameOfSome(seeds[1..], name);
      i := j + 1;
    }
  }

  lemma NameNotLater(seeds: seq<SeedRun>)
    requires seeds != [] && DistinctSeeds(seeds)
    ensures FileName(seeds[0].seed) !in FullBlobs(seeds[1..])
  {
    if FileName(seeds[0].seed) in FullBlobs(seeds[1..]) {
      var i := NameOfSome(seeds[1..], FileName(seeds[0].seed));
      FileNameInjective(seeds[0].seed, seeds[i + 1].seed);
    }
  }

  lemma {:induction false} ScanPlain(codec: Codec, st: State, lines: seq<string>)
    requires st.open.None? && forall l :: l in lines ==> IsPlain(l)
    ensures ScanStripped(codec, st, lines) == Ok(st)
    decreases |lines|
  {
    if lines != [] {
      assert lines[0] in lines && forall l :: l in lines[1..] ==> l in lines;
      ScanPlain(codec, st, lines[1..]);
    }
  }

  lemma ScanWindow(codec: Codec, job: Job)
    requires WellformedJob(job)
    ensures ScanStripped(codec, INITIAL, WindowLines(job)) == Ok(INITIAL.(marks := FullMarks(job)))
  {
    MarkLines(job);
    var n, s, e := "NODE " + job.node, "CELL_START " + Decimal(job.start), "CELL_END " + Decimal(job.end);
    var started := INITIAL.(marks := map["NODE" := job.node, "CELL_START" := Decimal(job.start)]);
    assert WindowLines(job) == [n] + ([s] + (job.progress + [e]));
    ScanHead(codec, INITIAL, n, [s] + (job.progress + [e]));
    ScanHead(codec, StepOutside(INITIAL, n), s, job.progress + [e]);
    assert StepOutside(StepOutside(INITIAL, n), s) == started;
    ScanAppend(codec, started, job.progress, [e]);
    ScanPlain(codec, started, job.progress);
    assert [e] + [] == [e];
    ScanHead(codec, started, e, []);
    assert StepOutside(started, e).marks == FullMarks(job);
  }

  /** The full log round-trips from the printer, exactly when its window is one and its seeds are the expected ones. */
  lemma FullLogRoundTrips(codec: Codec, job: Job, expectedSeeds: seq<string>)
    requires Faithful(codec) && WellformedJob(job)
    ensures Parsed(codec, Printed(codec, job), expectedSeeds).Ok? <==>
            job.start < job.end && Want(expectedSeeds) == FullBlobs(job.seeds).Keys
    ensures Parsed(codec, Printed(codec, job), expectedSeeds).Ok? ==>
            Parsed(codec, Printed(codec, job), expectedSeeds) == Ok(Cell(FullMarks(job), FullBlobs(job.seeds)))
  {
    ScanFullLog(codec, job);
    PyIntOfDecimal(job.start);
    PyIntOfDecimal(job.end);
    SameKeys(Want(expectedSeeds), FullBlobs(job.seeds).Keys);
    hide Scan, Printed, FullBlobs, Want, Decimal, PyInt;
  }

  lemma {:induction false} ScanFullLog(codec: Codec, job: Job)
    requires Faithful(codec) && WellformedJob(job)
    ensures Scan(codec, INITIAL, Printed(codec, job)) == Ok(State(FullMarks(job), FullBlobs(job.seeds), true, None))
  {
    PrintedHasNoNewlines(codec, job);
    ScanTerminated(codec, INITIAL, Unterminated(codec, job));
    ScanFullStripped(codec, job);
  }

  lemma {:induction false} ScanFullStripped(codec: Codec, job: Job)
    requires Faithful(codec) && WellformedJob(job)
    ensures ScanStripped(codec, INITIAL, Unterminated(codec, job)) ==
            Ok(State(FullMarks(job), FullBlobs(job.seeds), true, None))
  {
    var window, frames := WindowLines(job), Frames(codec, job.seeds);
    var marked := INITIAL.(marks := FullMarks(job));
    var filled := State(FullMarks(job), FullBlobs(job.seeds), false, None);
    ScanWindow(codec, job);
    ScanFullFrames(codec, marked, job.seeds);
    ScanAppend(codec, INITIAL, window + frames, ["ALL_DONE"]);
    ScanAppend(codec, INITIAL, window, frames);
    ScanDone(codec, filled);
    hide Frames, WindowLines, FullMarks, FullBlobs, ScanStripped;
    assert map[] + FullBlobs(job.seeds) == FullBlobs(job.seeds);
  }

  lemma ScanDone(codec: Codec, st: State)
    requires st.open.None?
    ensures ScanStripped(codec, st, ["ALL_DONE"]) == Ok(st.(allDone := true))
  {
    AllDoneFacts();
    hide MatchBegin, MatchMark;
    assert ["ALL_DONE"] + [] == ["ALL_DONE"];
    ScanHead(codec, st, "ALL_DONE", []);
  }

  lemma SameKeys(a: set<string>, b: set<string>)
    ensures a - b == {} && b - a == {} <==> a == b
  {
    if a - b == {} && b - a == {} {
      forall x ensures x in a <==> x in b {
        assert x in a && x !in b ==> x in a - b;
        assert x in b && x !in a ==> x in b - a;
      }
    }
  }

  // -------------------------------------------------------------------------------------------- exactness

  function Every(n: nat): (kept: seq<bool>)
    ensures |kept| == n && forall i :: 0 <= i < n ==> kept[i]
  {
    seq(n, _ => true)
  }

  lemma {:induction false} SurvivorsOfEvery(lines: seq<string>)
    ensures Survivors(lines, Every(|lines|)) == lines
  {
    if lines != [] {
      assert Every(|lines|)[1..] == Every(|lines| - 1);
      SurvivorsOfEvery(lines[1..]);
    }
  }

  lemma {:induction false} FramesSplit(codec: Codec, seeds: seq<SeedRun>, i: nat)
    requires i < |seeds|
    ensures Frames(codec, seeds) ==
            Frames(codec, seeds[..i]) + (FrameLines(codec, seeds[i]) + Frames(codec, seeds[i + 1..]))
    ensures FullBlobs(seeds).Keys ==
            FullBlobs(seeds[..i]).Keys + {FileName(seeds[i].seed)} + FullBlobs(seeds[i + 1..]).Keys
  {
    hide FrameLines, FileName;
    if i > 0 {
      FramesSplit(codec, seeds[1..], i - 1);
      assert seeds[1..][..i - 1] == seeds[..i][1..] && seeds[1..][i..] == seeds[i + 1..];
    } else {
      assert seeds[..0] == [];
    }
  }

  /** The log with every line kept but, in frame `i`, only the body lines in `keptBody`. */
  function Damaged(codec: Codec, job: Job, i: nat, keptBody: seq<bool>): seq<string>
    requires i < |job.seeds| && |keptBody| == |codec.pack(job.seeds[i].csv)|
  {
    var s := job.seeds[i];
    (WindowLines(job) + Frames(codec, job.seeds[..i])) +
    (([HeaderLine(codec, s)] + Survivors(codec.pack(s.csv), keptBody) + [EndLine(FileName(s.seed))]) +
     (Frames(codec, job.seeds[i + 1..]) + ["ALL_DONE"]))
  }

  lemma {:induction false} LossInTheMiddle(a: seq<string>, b: seq<string>, c: seq<string>, keptMiddle: seq<bool>)
    returns (kept: seq<bool>)
    requires |keptMiddle| == |b|
    ensures |kept| == |a + (b + c)| && Survivors(a + (b + c), kept) == a + (Survivors(b, keptMiddle) + c)
  {
    hide Survivors, Every;
    var keptRest := keptMiddle + Every(|c|);
    kept := Every(|a|) + keptRest;
    assert kept[..|a|] == Every(|a|) && kept[|a|..] == keptRest;
    assert keptRest[..|b|] == keptMiddle && keptRest[|b|..] == Every(|c|);
    SurvivorsAppend(a, b + c, kept);
    SurvivorsAppend(b, c, keptRest);
    SurvivorsOfEvery(a);
    SurvivorsOfEvery(c);
  }

  lemma {:induction false} UnterminatedSplit(codec: Codec, job: Job, i: nat)
    requires i < |job.seeds|
    ensures Unterminated(codec, job) ==
            (WindowLines(job) + Frames(codec, job.seeds[..i])) +
            (FrameLines(codec, job.seeds[i]) + (Frames(codec, job.seeds[i + 1..]) + ["ALL_DONE"]))
  {
    FramesSplit(codec, job.seeds, i);
    hide WindowLines, Frames, FrameLines, FullBlobs, FileName;
  }

  lemma {:induction false} DamagedSurvives(codec: Codec, job: Job, i: nat, keptBody: seq<bool>)
    returns (kept: seq<bool>)
    requires i < |job.seeds| && |keptBody| == |codec.pack(job.seeds[i].csv)|
    ensures |kept| == |Unterminated(codec, job)|
    ensures Survivors(Unterminated(codec, job), kept) == Damaged(codec, job, i, keptBody)
  {
    var s := job.seeds[i];
    UnterminatedSplit(codec, job, i);
    DamagedFrame(codec, s, keptBody);
    hide Unterminated, WindowLines, Frames, FrameLines, HeaderLine, EndLine, Survivors, FileName;
    kept := LossInTheMiddle(WindowLines(job) + Frames(codec, job.seeds[..i]), FrameLines(codec, s),
                            Frames(codec, job.seeds[i + 1..]) + ["ALL_DONE"], [true] + keptBody + [true]);
  }

  lemma {:induction false} DamagedFrame(codec: Codec, s: SeedRun, keptBody: seq<bool>)
    requires |keptBody| == |codec.pack(s.csv)|
    ensures |FrameLines(codec, s)| == |keptBody| + 2
    ensures Survivors(FrameLines(codec, s), [true] + keptBody + [true]) ==
            [HeaderLine(codec, s)] + Survivors(codec.pack(s.csv), keptBody) + [EndLine(FileName(s.seed))]
  {
    hide HeaderLine, EndLine, FileName, Survivors;
    var kept := [true] + keptBody + [true];
    FrameSurvivors(codec, s, kept);
    assert kept[1..|keptBody| + 1] == keptBody;
    var mid, end := Survivors(codec.pack(s.csv), keptBody), [EndLine(FileName(s.seed))];
    assert [HeaderLine(codec, s)] + (mid + end) == [HeaderLine(codec, s)] + mid + end;
  }

  lemma {:induction false} DistinctSlice(seeds: seq<SeedRun>, i: nat)
    requires DistinctSeeds(seeds) && i < |seeds|
    ensures DistinctSeeds(seeds[..i]) && IsToken(seeds[i].seed) && DistinctSeeds(seeds[i + 1..])
    ensures FileName(seeds[i].seed) !in FullBlobs(seeds[i + 1..])
  {
    hide IsToken, FileName;
    assert seeds[i..][1..] == seeds[i + 1..];
    assert DistinctSeeds(seeds[i..]);
    NameNotLater(seeds[i..]);
  }

  lemma {:induction false} ScanBeforeDamage(codec: Codec, job: Job, seeds: seq<SeedRun>, rest: seq<string>)
    requires Faithful(codec) && WellformedJob(job) && DistinctSeeds(seeds)
    ensures ScanStripped(codec, INITIAL, (WindowLines(job) + Frames(codec, seeds)) + rest) ==
            ScanStripped(codec, State(FullMarks(job), map[] + FullBlobs(seeds), false, None), rest)
  {
    ScanWindow(codec, job);
    hide *;
    ScanAppend(codec, INITIAL, WindowLines(job) + Frames(codec, seeds), rest);
    ScanAppend(codec, INITIAL, WindowLines(job), Frames(codec, seeds));
    ScanFullFrames(codec, INITIAL.(marks := FullMarks(job)), seeds);
  }

  lemma {:induction false} ScanAfterDamage(codec: Codec, st: State, seeds: seq<SeedRun>)
    requires Faithful(codec) && DistinctSeeds(seeds) && st.open.None?
    ensures ScanStripped(codec, st, Frames(codec, seeds) + ["ALL_DONE"]) ==
            Ok(st.(blobs := st.blobs + FullBlobs(seeds), allDone := true))
  {
    hide *;
    ScanAppend(codec, st, Frames(codec, seeds), ["ALL_DONE"]);
    ScanFullFrames(codec, st, seeds);
    ScanDone(codec, st.(blobs := st.blobs + FullBlobs(seeds)));
  }

  /** Reading the damaged log: every check passes, and frame `i`'s blob is what its partial body unpacks to. */
  lemma {:induction false} ScanDamaged(codec: Codec, job: Job, i: nat, keptBody: seq<bool>, data: Bytes)
    returns (st: State)
    requires Faithful(codec) && WellformedJob(job) && i < |job.seeds| && |keptBody| == |codec.pack(job.seeds[i].csv)|
    requires var s := job.seeds[i];
      Decode(codec, Header(FileName(s.seed), codec.sha256(s.csv), |s.csv|),
             Joined(Survivors(codec.pack(s.csv), keptBody))) == Ok(data)
    ensures ScanStripped(codec, INITIAL, Damaged(codec, job, i, keptBody)) == Ok(st)
    ensures st.marks == FullMarks(job) && st.open.None? && st.allDone && st.blobs.Keys == FullBlobs(job.seeds).Keys
    ensures FileName(job.seeds[i].seed) in st.blobs && st.blobs[FileName(job.seeds[i].seed)] == data
  {
    var s, pre, post := job.seeds[i], job.seeds[..i], job.seeds[i + 1..];
    var name, body := FileName(s.seed), Survivors(codec.pack(s.csv), keptBody);
    var frame, rest := [HeaderLine(codec, s)] + body + [EndLine(name)], Frames(codec, post) + ["ALL_DONE"];
    var before := State(FullMarks(job), map[] + FullBlobs(pre), false, None);
    var closed := before.(blobs := before.blobs[name := data]);
    st := closed.(blobs := closed.blobs + FullBlobs(post), allDone := true);
    assert Damaged(codec, job, i, keptBody) == (WindowLines(job) + Frames(codec, pre)) + (frame + rest);
    assert DistinctSeeds(job.seeds);
    hide *;
    FramesSplit(codec, job.seeds, i);
    DistinctSlice(job.seeds, i);
    SurvivorsAreBase64(codec, s, keptBody);
    ScanBeforeDamage(codec, job, pre, frame + rest);
    ScanAppend(codec, before, frame, rest);
    ScanClosedFrame(codec, before, s, body, data);
    ScanAfterDamage(codec, closed, post);
  }

  /** Losing the lines left out of `kept` is noticed, or does no harm. */
  ghost predicate LossShows(codec: Codec, job: Job, kept: seq<bool>, expectedSeeds: seq<string>)
    requires |kept| == |Printed(codec, job)|
  {
    var r := Parsed(codec, Survivors(Printed(codec, job), kept), expectedSeeds);
    r.Err? || r == Ok(Cell(FullMarks(job), FullBlobs(job.seeds)))
  }

  /** The collision a file is not free of. */
  lemma CollisionOf(codec: Codec, s: SeedRun) returns (keptBody: seq<bool>, data: Bytes)
    requires !NoBodyCollides(codec, s)
    ensures |keptBody| == |codec.pack(s.csv)| && data != s.csv
    ensures Decode(codec, Header(FileName(s.seed), codec.sha256(s.csv), |s.csv|),
                   Joined(Survivors(codec.pack(s.csv), keptBody))) == Ok(data)
  {
    hide Survivors, Joined, FileName;
    keptBody, data :|
      |keptBody| == |codec.pack(s.csv)| && Unpacked(codec, Joined(Survivors(codec.pack(s.csv), keptBody))) == Some(data)
      && |data| == |s.csv| && codec.sha256(data) == codec.sha256(s.csv) && data != s.csv;
  }

  lemma VerdictOfDamaged(job: Job, st: State, want: set<string>, name: string)
    requires st.marks == FullMarks(job) && st.open.None? && st.allDone && job.start < job.end
    requires want == st.blobs.Keys == FullBlobs(job.seeds).Keys
    requires name in st.blobs && st.blobs[name] != FullBlobs(job.seeds)[name]
    ensures Verdict(st, want).Ok? && Verdict(st, want) != Ok(Cell(FullMarks(job), FullBlobs(job.seeds)))
  {
    PyIntOfDecimal(job.start);
    PyIntOfDecimal(job.end);
    SameKeys(want, st.blobs.Keys);
    hide FullBlobs, Decimal, PyInt;
  }

  lemma PrintedLength(codec: Codec, job: Job)
    ensures |Printed(codec, job)| == |Unterminated(codec, job)|
  {
  }

  /** A partial body of frame `i` that collides with the file is a silent loss. */
  lemma {:induction false} CollisionIsSilent(codec: Codec, job: Job, expectedSeeds: seq<string>, i: nat)
    returns (kept: seq<bool>)
    requires Faithful(codec) && WellformedJob(job) && job.start < job.end
    requires Want(expectedSeeds) == FullBlobs(job.seeds).Keys
    requires i < |job.seeds| && !NoBodyCollides(codec, job.seeds[i])
    ensures |kept| == |Printed(codec, job)| && !LossShows(codec, job, kept, expectedSeeds)
  {
    var keptBody, data := CollisionOf(codec, job.seeds[i]);
    kept := DamagedSurvives(codec, job, i, keptBody);
    var st := ScanDamaged(codec, job, i, keptBody, data);
    PrintedLength(codec, job);
    assert DistinctSeeds(job.seeds);
    FullBlobsAt(job.seeds, i);
    hide Faithful, WellformedJob, DistinctSeeds, Scan, ScanStripped, Survivors, Printed, Unterminated, FullBlobs,
      FullMarks, Want, Verdict, FileName, NoBodyCollides, Damaged, Decode, Joined;
    ScanOfSurvivors(codec, job, kept);
    VerdictOfDamaged(job, st, Want(expectedSeeds), FileName(job.seeds[i].seed));
  }

  /** No loss of lines is ever silent exactly when no partial body of any of the job's files collides with the file. */
  lemma {:induction false} LossShowsIffCollisionFree(codec: Codec, job: Job, expectedSeeds: seq<string>)
    requires Faithful(codec) && WellformedJob(job) && job.start < job.end
    requires Want(expectedSeeds) == FullBlobs(job.seeds).Keys
    ensures (forall kept: seq<bool> :: |kept| == |Printed(codec, job)| ==> LossShows(codec, job, kept, expectedSeeds))
       <==> NoFileCollides(codec, job)
  {
    hide Faithful, WellformedJob, Printed, Parsed, Survivors, FullMarks, FullBlobs, Want, NoBodyCollides;
    if NoFileCollides(codec, job) {
      forall kept: seq<bool> | |kept| == |Printed(codec, job)| ensures LossShows(codec, job, kept, expectedSeeds) {
        LossIsNeverSilent(codec, job, kept, expectedSeeds);
      }
    } else {
      var i: nat :| i < |job.seeds| && !NoBodyCollides(codec, job.seeds[i]);
      var kept := CollisionIsSilent(codec, job, expectedSeeds, i);
    }
  }
}
