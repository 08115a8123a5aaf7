/** The line formats of the Job log: what the pod prints and what the collector's patterns match. */
module LogLines {
  import opened PyDict

  /** The characters `\S` excludes. */
  predicate IsSpace(c: char) {
    || '\t' <= c <= '\r' || '\U{1C}' <= c <= ' ' || c == '\U{85}' || c == '\U{A0}' || c == '\U{1680}'
    || '\U{2000}' <= c <= '\U{200A}' || c == '\U{2028}' || c == '\U{2029}' || c == '\U{202F}' || c == '\U{205F}'
    || c == '\U{3000}'
  }

  /** One by one. */
  lemma SpacesAre(c: char)
    ensures IsSpace(c) <==>
            c in "\t\n\U{B}\U{C}\r\U{1C}\U{1D}\U{1E}\U{1F} \U{85}\U{A0}\U{1680}\U{2000}\U{2001}\U{2002}\U{2003}\U{2004}"
            || c in "\U{2005}\U{2006}\U{2007}\U{2008}\U{2009}\U{200A}\U{2028}\U{2029}\U{202F}\U{205F}\U{3000}"
  {
  }

  /** A full match of `\S+`. */
  predicate IsToken(s: string) {
    s != "" && forall i :: 0 <= i < |s| ==> !IsSpace(s[i])
  }

  predicate IsDigit(c: char) {
    '0' <= c <= '9'
  }

  predicate IsHex(c: char) {
    IsDigit(c) || 'a' <= c <= 'f'
  }

  predicate IsHex64(s: string) {
    |s| == 64 && forall i :: 0 <= i < |s| ==> IsHex(s[i])
  }

  /** `\d` and `int()` take every decimal digit. Beside ASCII's, Unicode 15.0 has 67 runs of ten, from these zeros. */
  const OTHER_ZEROS: seq<int> := [
    0x0660, 0x06F0, 0x07C0, 0x0966, 0x09E6, 0x0A66, 0x0AE6, 0x0B66, 0x0BE6, 0x0C66, 0x0CE6,
    0x0D66, 0x0DE6, 0x0E50, 0x0ED0, 0x0F20, 0x1040, 0x1090, 0x17E0, 0x1810, 0x1946, 0x19D0, 0x1A80,
    0x1A90, 0x1B50, 0x1BB0, 0x1C40, 0x1C50, 0xA620, 0xA8D0, 0xA900, 0xA9D0, 0xA9F0, 0xAA50, 0xABF0,
    0xFF10, 0x104A0, 0x10D30, 0x11066, 0x110F0, 0x11136, 0x111D0, 0x112F0, 0x11450, 0x114D0, 0x11650, 0x116C0,
    0x11730, 0x118E0, 0x11950, 0x11C50, 0x11D50, 0x11DA0, 0x11F50, 0x16A60, 0x16AC0, 0x16B50, 0x1D7CE, 0x1D7D8,
    0x1D7E2, 0x1D7EC, 0x1D7F6, 0x1E140, 0x1E2F0, 0x1E4F0, 0x1E950, 0x1FBF0]

  function DigitFrom(zeros: seq<int>, c: char): Option<nat> {
    if zeros == [] then None
    else if zeros[0] <= c as int <= zeros[0] + 9 then Some(c as int - zeros[0])
    else DigitFrom(zeros[1..], c)
  }

  /** The value of a decimal digit. */
  function DigitValue(c: char): Option<nat> {
    if IsDigit(c) then Some(c as int - '0' as int)
    else if c as int < 0x0660 then None
    else DigitFrom(OTHER_ZEROS, c)
  }

  lemma AsciiDigitValue(c: char)
    requires IsDigit(c)
    ensures DigitValue(c) == Some(c as int - '0' as int)
  {
  }

  predicate IsDecimal(c: char) {
    DigitValue(c).Some?
  }

  /** The ten digits and the six lower-case letters. */
  lemma HexDigits(c: char)
    ensures IsHex(c) <==> c in "0123456789abcdef"
  {
  }

  predicate IsDigits(s: string) {
    s != "" && forall i :: 0 <= i < |s| ==> IsDecimal(s[i])
  }

  /** What follows `prefix`, if the line starts with it. */
  function RestAfter(prefix: string, line: string): (r: Option<string>)
    ensures r.Some? <==> exists rest :: line == prefix + rest
    ensures r.Some? ==> line == prefix + r.value
  {
    if |prefix| <= |line| && line[..|prefix|] == prefix then
      assert line == prefix + line[|prefix|..];
      Some(line[|prefix|..])
    else
      assert forall rest :: line == prefix + rest ==> line[..|prefix|] == prefix;
      None
  }

  lemma AfterOf(prefix: string, rest: string)
    ensures RestAfter(prefix, prefix + rest) == Some(rest)
  {
    assert (prefix + rest)[..|prefix|] == prefix;
    assert (prefix + rest)[|prefix|..] == rest;
  }

  /** A line with another character where the prefix has its `i`-th does not start with the prefix. */
  lemma NotAfter(prefix: string, line: string, i: nat)
    requires i < |prefix| && (i < |line| ==> line[i] != prefix[i])
    ensures RestAfter(prefix, line) == None
  {
  }

  /** `^END (\S+)$`. */
  function MatchEnd(line: string): Option<string> {
    match RestAfter("END ", line)
    case None => None
    case Some(name) => if IsToken(name) then Some(name) else None
  }

  /** `^(NODE|CELL_START|CELL_END) (\S+)$`. */
  function MatchMark(line: string): Option<(string, string)> {
    if RestAfter("NODE ", line).Some? && IsToken(RestAfter("NODE ", line).value) then
      Some(("NODE", RestAfter("NODE ", line).value))
    else if RestAfter("CELL_START ", line).Some? && IsToken(RestAfter("CELL_START ", line).value) then
      Some(("CELL_START", RestAfter("CELL_START ", line).value))
    else if RestAfter("CELL_END ", line).Some? && IsToken(RestAfter("CELL_END ", line).value) then
      Some(("CELL_END", RestAfter("CELL_END ", line).value))
    else None
  }

  /** The end pattern matches exactly `END` and one token. */
  lemma {:induction false} MatchEndIff(line: string, name: string)
    ensures MatchEnd(line) == Some(name) <==> line == "END " + name && IsToken(name)
  {
    AfterOf("END ", name);
    hide IsToken;
  }

  /** The mark pattern matches exactly one of its three words and one token. */
  lemma {:induction false} MatchMarkIff(line: string, key: string, value: string)
    ensures MatchMark(line) == Some((key, value)) <==>
            key in {"NODE", "CELL_START", "CELL_END"} && line == key + (" " + value) && IsToken(value)
  {
    hide IsToken;
    assert forall k: string :: k + (" " + value) == (k + " ") + value;
    if key in {"NODE", "CELL_START", "CELL_END"} && line == key + (" " + value) && IsToken(value) {
      AfterOf(key + " ", value);
      if key != "NODE" { NotAfter("NODE ", line, 0); }
      if key == "CELL_END" { NotAfter("CELL_START ", line, 5); }
    }
  }

  datatype Header = Header(name: string, sha: string, bytes: nat)

  function FirstSpace(s: string): (i: nat)
    ensures i <= |s| && (forall j :: 0 <= j < i ==> s[j] != ' ')
    ensures i < |s| ==> s[i] == ' '
  {
    if s == "" || s[0] == ' ' then 0 else 1 + FirstSpace(s[1..])
  }

  /** The number a digit string writes; underscores between digits are skipped, as `int()` does. */
  function Value(s: string): nat {
    if s == "" then 0
    else
      var c := s[|s| - 1];
      if IsDecimal(c) then Value(s[..|s| - 1]) * 10 + DigitValue(c).value else Value(s[..|s| - 1])
  }

  /** `^BEGIN (\S+) sha256=([0-9a-f]{64}) bytes=(\d+)$`. */
  function MatchBegin(line: string): Option<Header> {
    match RestAfter("BEGIN ", line)
    case None => None
    case Some(rest) =>
      var cut := FirstSpace(rest);
      match RestAfter(" sha256=", rest[cut..])
      case None => None
      case Some(tail) =>
        if |tail| < 64 then None
        else
          match RestAfter(" bytes=", tail[64..])
          case None => None
          case Some(digits) =>
            if IsToken(rest[..cut]) && IsHex64(tail[..64]) && IsDigits(digits)
            then Some(Header(rest[..cut], tail[..64], Value(digits)))
            else None
  }

  function BeginLine(name: string, sha: string, digits: string): string {
    "BEGIN " + (name + (" sha256=" + (sha + (" bytes=" + digits))))
  }

  /** The header pattern matches exactly the lines of that shape, and reads back the parts. */
  lemma {:induction false} MatchBeginIff(line: string, h: Header)
    ensures MatchBegin(line) == Some(h) <==>
      exists digits :: line == BeginLine(h.name, h.sha, digits) && IsToken(h.name) && IsHex64(h.sha)
                       && IsDigits(digits) && h.bytes == Value(digits)
  {
    if MatchBegin(line) == Some(h) {
      var rest := RestAfter("BEGIN ", line).value;
      var cut := FirstSpace(rest);
      var tail := RestAfter(" sha256=", rest[cut..]).value;
      var digits := RestAfter(" bytes=", tail[64..]).value;
      assert rest == rest[..cut] + rest[cut..];
      assert tail == tail[..64] + tail[64..];
      assert line == BeginLine(h.name, h.sha, digits);
    }
    if digits: string :| line == BeginLine(h.name, h.sha, digits) && IsToken(h.name) && IsHex64(h.sha)
                       && IsDigits(digits) && h.bytes == Value(digits) {
      MatchBeginOf(h.name, h.sha, digits);
    }
  }

  lemma {:induction false} MatchBeginOf(name: string, sha: string, digits: string)
    requires IsToken(name) && IsHex64(sha) && IsDigits(digits)
    ensures MatchBegin(BeginLine(name, sha, digits)) == Some(Header(name, sha, Value(digits)))
  {
    var tail := sha + (" bytes=" + digits);
    var rest := name + (" sha256=" + tail);
    AfterOf("BEGIN ", rest);
    AfterOf(" sha256=", tail);
    AfterOf(" bytes=", digits);
    FirstSpaceOf(name, " sha256=" + tail);
    hide RestAfter, FirstSpace, IsToken, IsHex, IsDigits, Value, DigitValue;
    assert rest[..|name|] == name && rest[|name|..] == " sha256=" + tail;
    assert tail[..64] == sha && tail[64..] == " bytes=" + digits;
  }

  lemma {:induction false} FirstSpaceOf(name: string, rest: string)
    requires IsToken(name) && rest != "" && rest[0] == ' '
    ensures FirstSpace(name + rest) == |name|
  {
    var s := name + rest;
    assert s[|name|] == ' ';
    assert IsSpace(' ');
  }

  /** `str(n)`. */
  function Decimal(n: nat): (s: string)
    ensures s != "" && forall i :: 0 <= i < |s| ==> IsDigit(s[i])
  {
    var d := [('0' as int + n % 10) as char];
    if n < 10 then d else Decimal(n / 10) + d
  }

  lemma {:induction false} DecimalIsDigits(n: nat)
    ensures IsDigits(Decimal(n))
  {
    hide DigitValue;
    var s := Decimal(n);
    forall i | 0 <= i < |s| ensures IsDecimal(s[i]) { AsciiDigitValue(s[i]); }
  }

  lemma {:induction false} DecimalValue(n: nat)
    ensures Value(Decimal(n)) == n
  {
    hide DigitValue;
    var d := ('0' as int + n % 10) as char;
    assert IsDigit(d);
    AsciiDigitValue(d);
    if n >= 10 {
      DecimalValue(n / 10);
      var s := Decimal(n);
      assert s[|s| - 1] == d && s[..|s| - 1] == Decimal(n / 10);
    } else {
      assert Decimal(n) == [d];
      assert [d][..0] == "";
    }
  }

  predicate IsIntegerBody(s: string) {
    && s != "" && IsDecimal(s[0]) && IsDecimal(s[|s| - 1])
    && (forall i :: 0 <= i < |s| ==> IsDecimal(s[i]) || s[i] == '_')
    && (forall i, j :: 0 <= i && j == i + 1 < |s| ==> !(s[i] == '_' && s[j] == '_'))
  }

  /** `int(s)` on a token; `None` is the `ValueError`. */
  function PyInt(s: string): Option<int> {
    if s != "" && (s[0] == '+' || s[0] == '-') && IsIntegerBody(s[1..]) then
      Some(if s[0] == '-' then -(Value(s[1..]) as int) else Value(s[1..]))
    else if IsIntegerBody(s) then Some(Value(s))
    else None
  }

  /** One leading sign is read. */
  lemma {:induction false} PyIntOfSigned(n: nat)
    ensures PyInt("-" + Decimal(n)) == Some(-(n as int)) && PyInt("+" + Decimal(n)) == Some(n)
  {
    DecimalValue(n);
    DecimalIsDigits(n);
    hide DigitValue, Value;
    var d := Decimal(n);
    assert ("-" + d)[1..] == d && ("+" + d)[1..] == d;
  }

  /** An underscore may only stand between digits. */
  lemma {:induction false} PyIntOfUnderscored(n: nat)
    ensures PyInt(Decimal(n) + "_").None? && PyInt("_" + Decimal(n)).None? && PyInt("").None?
  {
    var d := Decimal(n);
    assert !IsDecimal('_');
    hide DigitValue, Value;
    assert (d + "_")[|d|] == '_' && (d + "_")[0] == d[0] && ("_" + d)[0] == '_' && IsDigit(d[0]);
  }

  /** Two underscores in a row are refused. */
  lemma {:induction false} PyIntOfDoubled(tens: nat, n: nat)
    ensures PyInt(Decimal(tens) + "__" + Decimal(n)).None?
  {
    var t := Decimal(tens);
    var s := t + "__" + Decimal(n);
    assert s[|t|] == '_' && s[|t| + 1] == '_';
    assert IsDigit(t[0]) && s[0] == t[0];
    hide Decimal, Value, DigitValue;
    var i, j := |t|, |t| + 1;
    assert 0 <= i && j == i + 1 < |s| && s[i] == '_' && s[j] == '_';
  }

  /** A single underscore between digits is passed over. */
  lemma {:induction false} PyIntOfGrouped(tens: nat, n: nat)
    requires n < 10
    ensures PyInt(Decimal(tens) + "_" + Decimal(n)) == Some(tens * 10 + n)
  {
    DecimalValue(n);
    DecimalValue(tens);
    DecimalIsDigits(n);
    DecimalIsDigits(tens);
    assert !IsDecimal('_');
    hide DigitValue;
    var d, t := Decimal(n), Decimal(tens);
    assert |d| == 1 && d == [d[0]] && d[..0] == "";
    assert Value(d) == DigitValue(d[0]).value;
    var s := t + "_" + d;
    assert s[..|s| - 1] == t + "_" && s[|s| - 1] == d[0];
    assert (t + "_")[..|t|] == t;
    assert Value(t + "_") == Value(t);
    assert IsDigit(s[0]) && IsDecimal(s[0]);
    hide Value, Decimal;
    forall i, j | 0 <= i && j == i + 1 < |s| ensures !(s[i] == '_' && s[j] == '_') {
      assert i < |t| ==> IsDecimal(s[i]);
      assert j > |t| ==> IsDecimal(s[j]);
    }
  }

  lemma {:induction false} PyIntOfDecimal(n: nat)
    ensures PyInt(Decimal(n)) == Some(n) && IsToken(Decimal(n))
  {
    DecimalValue(n);
    DecimalIsDigits(n);
    hide DigitValue;
    var s := Decimal(n);
    assert IsDigit(s[0]);
  }

  /** `raw.rstrip("\n")`. */
  function RStrip(raw: string): string {
    if raw != "" && raw[|raw| - 1] == '\n' then RStrip(raw[..|raw| - 1]) else raw
  }

  /** Every trailing line end goes, and nothing else. */
  lemma {:induction false} RStripIff(raw: string, line: string)
    ensures RStrip(raw) == line <==> (line == "" || line[|line| - 1] != '\n') && exists n :: raw == line + LineEnds(n)
  {
    var m := |raw| - 1;
    if raw != "" && raw[m] == '\n' {
      RStripIff(raw[..m], line);
      assert raw == raw[..m] + "\n";
      if n: nat :| raw[..m] == line + LineEnds(n) {
        assert raw == line + LineEnds(n + 1);
      }
      if n: nat :| raw == line + LineEnds(n) && (line == "" || line[|line| - 1] != '\n') {
        assert n > 0;
        assert raw[..m] == line + LineEnds(n - 1);
      }
    } else {
      assert raw == raw + LineEnds(0);
      if n: nat :| raw == line + LineEnds(n) {
        EndsInLineEnd(line, n);
      }
    }
  }

  lemma EndsInLineEnd(line: string, n: nat)
    ensures var s := line + LineEnds(n);
      if n > 0 then s != "" && s[|s| - 1] == '\n' else s == line
  {
  }

  function LineEnds(n: nat): (s: string)
    ensures |s| == n && forall i :: 0 <= i < n ==> s[i] == '\n'
  {
    seq(n, _ => '\n')
  }

  lemma RStripOfLine(line: string)
    requires line == "" || line[|line| - 1] != '\n'
    ensures RStrip(line + "\n") == line
  {
    assert (line + "\n")[..|line|] == line;
  }
}
