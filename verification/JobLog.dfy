/** The collector's line machine over the bench Job's log. */
module JobLog {
  import opened PyDict
  import opened LogLines

  type Byte = bv8
  type Bytes = seq<Byte>

  /** gzip, base64 and SHA-256 by their contracts: `pack` is the wrapped text of one compressed file. */
  datatype Codec = Codec(
    pack: Bytes -> seq<string>, unbase64: string -> Option<Bytes>, gunzip: Bytes -> Option<Bytes>,
    sha256: Bytes -> string)

  datatype Error =
    | Interleaved(found: string, open: string)
    | NotBase64(name: string)
    | NotGzip(name: string)
    | WrongLength(name: string, got: nat, declared: nat)
    | WrongHash(name: string, gotSha: string, declaredSha: string)
    | TruncatedInside(name: string)
    | NoMark(key: string)
    | NonInteger(marks: map<string, string>)
    | NotAWindow(start: int, end: int)
    | MissingSeeds(names: set<string>)
    | UnexpectedBlobs(names: set<string>)
    | NoAllDone

  datatype Result<+T> = Ok(value: T) | Err(error: Error)

  function Joined(body: seq<string>): string {
    if body == [] then "" else body[0] + Joined(body[1..])
  }

  function Unpacked(codec: Codec, text: string): Option<Bytes> {
    match codec.unbase64(text)
    case None => None
    case Some(raw) => codec.gunzip(raw)
  }

  /** `_decode`. */
  function Decode(codec: Codec, h: Header, text: string): Result<Bytes> {
    match codec.unbase64(text)
    case None => Err(NotBase64(h.name))
    case Some(raw) =>
      match codec.gunzip(raw)
      case None => Err(NotGzip(h.name))
      case Some(data) =>
        if |data| != h.bytes then Err(WrongLength(h.name, |data|, h.bytes))
        else if codec.sha256(data) != h.sha then Err(WrongHash(h.name, codec.sha256(data), h.sha))
        else Ok(data)
  }

  /** A blob is accepted exactly when it unpacks to bytes of the declared length and hash. */
  lemma {:induction false} DecodeOkIff(codec: Codec, h: Header, text: string, data: Bytes)
    ensures Decode(codec, h, text) == Ok(data) <==>
            Unpacked(codec, text) == Some(data) && |data| == h.bytes && codec.sha256(data) == h.sha
  {
  }

  lemma JoinedCons(line: string, rest: seq<string>)
    ensures Joined([line] + rest) == line + Joined(rest)
  {
  }

  /** The lines of a body are joined in their order, with nothing between them. */
  lemma {:induction false} JoinedAppend(a: seq<string>, b: seq<string>)
    ensures Joined(a + b) == Joined(a) + Joined(b)
  {
    hide Joined;
    if a == [] {
      assert a + b == b;
      JoinedNone();
    } else {
      JoinedAppend(a[1..], b);
      JoinedCons(a[0], a[1..]);
      JoinedCons(a[0], a[1..] + b);
      assert a == [a[0]] + a[1..] && a + b == [a[0]] + (a[1..] + b);
    }
  }

  lemma JoinedNone()
    ensures Joined([]) == ""
  {
  }

  /** The variables of the loop; `open` is `name` with its `meta` and `body`. */
  datatype Frame = Frame(header: Header, body: seq<string>)
  datatype State = State(marks: map<string, string>, blobs: map<string, Bytes>, allDone: bool, open: Option<Frame>)

  const INITIAL := State(map[], map[], false, None)

  function StepOutside(st: State, line: string): State {
    match MatchBegin(line)
    case Some(h) => st.(open := Some(Frame(h, [])))
    case None =>
      match MatchMark(line)
      case Some(kv) => st.(marks := st.marks[kv.0 := kv.1])
      case None => if line == "ALL_DONE" then st.(allDone := true) else st
  }

  function StepInside(codec: Codec, st: State, f: Frame, line: string): Result<State> {
    match MatchEnd(line)
    case None => Ok(st.(open := Some(f.(body := f.body + [line]))))
    case Some(found) =>
      if found != f.header.name then Err(Interleaved(found, f.header.name))
      else
        match Decode(codec, f.header, Joined(f.body))
        case Err(e) => Err(e)
        case Ok(data) => Ok(st.(blobs := st.blobs[found := data], open := None))
  }

  function Step(codec: Codec, st: State, raw: string): Result<State> {
    var line := RStrip(raw);
    match st.open
    case None => Ok(StepOutside(st, line))
    case Some(f) => StepInside(codec, st, f, line)
  }

  function Scan(codec: Codec, st: State, lines: seq<string>): Result<State>
    decreases |lines|
  {
    if lines == [] then Ok(st)
    else
      match Step(codec, st, lines[0])
      case Err(e) => Err(e)
      case Ok(next) => Scan(codec, next, lines[1..])
  }

  function FileName(seed: string): string {
    "driver-seed" + (seed + ".csv")
  }

  function Want(seeds: seq<string>): (names: set<string>)
    ensures forall s :: s in seeds ==> FileName(s) in names
  {
    if seeds == [] then {} else {FileName(seeds[0])} + Want(seeds[1..])
  }

  lemma {:induction false} WantIff(seeds: seq<string>, name: string)
    ensures name in Want(seeds) <==> exists i :: 0 <= i < |seeds| && name == "driver-seed" + seeds[i] + ".csv"
  {
    if seeds != [] {
      WantIff(seeds[1..], name);
      assert "driver-seed" + seeds[0] + ".csv" == FileName(seeds[0]);
      if i :| 0 <= i < |seeds| && name == "driver-seed" + seeds[i] + ".csv" {
        if i > 0 { assert seeds[1..][i - 1] == seeds[i]; }
      }
      if i :| 0 <= i < |seeds[1..]| && name == "driver-seed" + seeds[1..][i] + ".csv" {
        assert seeds[i + 1] == seeds[1..][i];
      }
    }
  }

  datatype Cell = Cell(marks: map<string, string>, blobs: map<string, Bytes>)

  /** The checks after the loop, in their order. */
  function Verdict(st: State, want: set<string>): Result<Cell> {
    if st.open.Some? then Err(TruncatedInside(st.open.value.header.name))
    else if "NODE" !in st.marks then Err(NoMark("NODE"))
    else if "CELL_START" !in st.marks then Err(NoMark("CELL_START"))
    else if "CELL_END" !in st.marks then Err(NoMark("CELL_END"))
    else
      var start, end := PyInt(st.marks["CELL_START"]), PyInt(st.marks["CELL_END"]);
      if start.None? || end.None? then Err(NonInteger(st.marks))
      else if end.value <= start.value then Err(NotAWindow(start.value, end.value))
      else if want - st.blobs.Keys != {} then Err(MissingSeeds(want - st.blobs.Keys))
      else if st.blobs.Keys - want != {} then Err(UnexpectedBlobs(st.blobs.Keys - want))
      else if !st.allDone then Err(NoAllDone)
      else Ok(Cell(st.marks, st.blobs))
  }

  function Parsed(codec: Codec, lines: seq<string>, expectedSeeds: seq<string>): Result<Cell> {
    match Scan(codec, INITIAL, lines)
    case Err(e) => Err(e)
    case Ok(st) => Verdict(st, Want(expectedSeeds))
  }

  /** `parse`. */
  method Parse(codec: Codec, lines: seq<string>, expectedSeeds: seq<string>) returns (r: Result<Cell>)
    ensures r == Parsed(codec, lines, expectedSeeds)
  {
    var marks: map<string, string> := map[];
    var blobs: map<string, Bytes> := map[];
    var allDone := false;
    var name: Option<Header> := None;
    var body: seq<string> := [];
    for i := 0 to |lines|
      invariant Scan(codec, INITIAL, lines) == Scan(codec, StateOf(marks, blobs, allDone, name, body), lines[i..])
    {
      ghost var st := StateOf(marks, blobs, allDone, name, body);
      assert lines[i..][0] == lines[i] && lines[i..][1..] == lines[i + 1..];
      var line := RStrip(lines[i]);
      if name.None? {
        var begin := MatchBegin(line);
        if begin.Some? {
          name, body := begin, [];
          continue;
        }
        var mark := MatchMark(line);
        if mark.Some? {
          marks := marks[mark.value.0 := mark.value.1];
        } else if line == "ALL_DONE" {
          allDone := true;
        }
        continue;
      }
      var end := MatchEnd(line);
      if end.Some? {
        if end.value != name.value.name { return Err(Interleaved(end.value, name.value.name)); }
        var data := DecodeBlob(codec, name.value, Joined(body));
        if data.Err? { return Err(data.error); }
        blobs := blobs[name.value.name := data.value];
        name := None;
        continue;
      }
      body := body + [line];
    }
    assert lines[|lines|..] == [];
    assert Scan(codec, INITIAL, lines) == Ok(StateOf(marks, blobs, allDone, name, body));
    if name.Some? { return Err(TruncatedInside(name.value.name)); }
    var required := ["NODE", "CELL_START", "CELL_END"];
    assert required[0] == "NODE" && required[1] == "CELL_START" && required[2] == "CELL_END";
    for k := 0 to 3
      invariant k > 0 ==> required[0] in marks
      invariant k > 1 ==> required[1] in marks
      invariant k > 2 ==> required[2] in marks
    {
      if required[k] !in marks { return Err(NoMark(required[k])); }
    }
    var start, end := PyInt(marks["CELL_START"]), PyInt(marks["CELL_END"]);
    if start.None? || end.None? { return Err(NonInteger(marks)); }
    if end.value <= start.value { return Err(NotAWindow(start.value, end.value)); }
    var want := Want(expectedSeeds);
    var missing, extra := want - blobs.Keys, blobs.Keys - want;
    if missing != {} { return Err(MissingSeeds(missing)); }
    if extra != {} { return Err(UnexpectedBlobs(extra)); }
    if !allDone { return Err(NoAllDone); }
    return Ok(Cell(marks, blobs));
  }

  /** `_decode`: its checks in their order, each with its own error. */
  method DecodeBlob(codec: Codec, h: Header, text: string) returns (r: Result<Bytes>)
    ensures r == Decode(codec, h, text)
  {
    var raw := codec.unbase64(text);
    if raw.None? { return Err(NotBase64(h.name)); }
    var data := codec.gunzip(raw.value);
    if data.None? { return Err(NotGzip(h.name)); }
    if |data.value| != h.bytes { return Err(WrongLength(h.name, |data.value|, h.bytes)); }
    var got := codec.sha256(data.value);
    if got != h.sha { return Err(WrongHash(h.name, got, h.sha)); }
    return Ok(data.value);
  }

  function StateOf(marks: map<string, string>, blobs: map<string, Bytes>, allDone: bool, name: Option<Header>,
                   body: seq<string>): State
  {
    State(marks, blobs, allDone, match name case None => None case Some(h) => Some(Frame(h, body)))
  }
}
