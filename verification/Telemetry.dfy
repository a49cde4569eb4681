/**
 runtime-telemetry.js: polling log files for new lines and reporting each resource once.

 Text is a string of UTF-16 code units, as JavaScript sees it, while file sizes and stored
 offsets count UTF-8 bytes. Pattern matching and resource ids are parameters.
 */
module Telemetry {
  import opened Outcomes
  import opened Sequences

  newtype Unit = x: int | 0 <= x < 65536

  type Text = seq<Unit>
  type Line = Text

  const LF: Unit := 10
  const CR: Unit := 13

  // ---- Text ----

  /** UTF-8 bytes per code unit; the two halves of a surrogate pair share four. */
  function Utf8Width(u: Unit): nat {
    if u < 0x80 then 1
    else if u < 0x800 || 0xd800 <= u <= 0xdfff then 2
    else 3
  }

  function ByteSize(t: Text): (n: nat)
    ensures n >= |t|
  {
    if t == [] then 0 else Utf8Width(t[0]) + ByteSize(t[1..])
  }

  predicate IsAscii(t: Text) { forall i :: 0 <= i < |t| ==> t[i] < 0x80 }

  /** String.slice(start). */
  function Slice(t: Text, start: nat): Text { if start <= |t| then t[start..] else [] }

  /** Where the first line feed is; |t| if there is none. */
  function FirstLf(t: Text): (i: nat)
    ensures i <= |t|
    ensures i < |t| ==> t[i] == LF
    ensures forall j :: 0 <= j < i ==> t[j] != LF
  {
    if t == [] || t[0] == LF then 0 else 1 + FirstLf(t[1..])
  }

  function DropCr(t: Line): Line {
    if t != [] && t[|t| - 1] == CR then t[..|t| - 1] else t
  }

  /** split(/\r?\n/). */
  function Split(t: Text): seq<Line>
    decreases |t|
  {
    var i := FirstLf(t);
    if i == |t| then [t] else [DropCr(t[..i])] + Split(t[i + 1..])
  }

  /** The white space that String.trim removes. */
  predicate IsSpace(u: Unit) {
    9 <= u <= 13 || u in {32, 160, 0x1680, 0x2028, 0x2029, 0x202f, 0x205f, 0x3000, 0xfeff} || 0x2000 <= u <= 0x200a
  }

  predicate IsBlank(t: Line) { forall i :: 0 <= i < |t| ==> IsSpace(t[i]) }

  function NonBlank(ls: seq<Line>): seq<Line> {
    if ls == [] then [] else (if IsBlank(ls[0]) then [] else [ls[0]]) + NonBlank(ls[1..])
  }

  function Lines(t: Text): seq<Line> { NonBlank(Split(t)) }

  // ---- Reading ----

  datatype NewLines = NewLines(lines: seq<Line>, nextOffset: int, missing: bool)

  /** readNewLines: what was added since offset, or everything if the file has shrunk. */
  function ReadNewLines(file: Option<Text>, offset: int): NewLines {
    if file.None? then NewLines([], offset, true)
    else
      var size := ByteSize(file.value);
      var start := if 0 <= offset <= size then offset else 0;
      if size <= start then NewLines([], size, false)
      else NewLines(Lines(Slice(file.value, start)), size, false)
  }

  // ---- Collecting ----

  datatype Event = Event(resourceId: string, logFile: string, pattern: string, observedAt: string)

  datatype TelemetryState = TelemetryState(offsets: map<string, int>, emitted: map<string, string>)

  /** How a line is recognised and which resource it names. */
  datatype Matcher = Matcher(matchLine: Line -> Option<string>, resourceId: Line -> string)

  function Key(logFile: string, resourceId: string): string { logFile + ":" + resourceId }

  function OffsetOf(offsets: map<string, int>, logFile: string): int {
    if logFile in offsets then offsets[logFile] else 0
  }

  /** Scanning lines of one file: the new events, and the keys emitted so far. */
  function Scan(m: Matcher, logFile: string, lines: seq<Line>, emitted: map<string, string>, now: string)
    : (seq<Event>, map<string, string>)
    decreases |lines|
  {
    if lines == [] then ([], emitted)
    else
      var n := |lines| - 1;
      var (events, seen) := Scan(m, logFile, lines[..n], emitted, now);
      var pattern := m.matchLine(lines[n]);
      var id := m.resourceId(lines[n]);
      if pattern.None? || Key(logFile, id) in seen then (events, seen)
      else (events + [Event(id, logFile, pattern.value, now)], seen[Key(logFile, id) := now])
  }

  /** One file of one poll. */
  function CollectFile(m: Matcher, logFile: string, file: Option<Text>, s: TelemetryState, now: string)
    : (seq<Event>, TelemetryState)
  {
    var read := ReadNewLines(file, OffsetOf(s.offsets, logFile));
    var (events, emitted) := Scan(m, logFile, read.lines, s.emitted, now);
    (events, TelemetryState(s.offsets[logFile := read.nextOffset], emitted))
  }

  /** One poll over all files, in the order of the plan. */
  function Collect(m: Matcher, logFiles: seq<string>, disk: map<string, Text>, s: TelemetryState, now: string)
    : (seq<Event>, TelemetryState)
    decreases |logFiles|
  {
    if logFiles == [] then ([], s)
    else
      var n := |logFiles| - 1;
      var (before, s1) := Collect(m, logFiles[..n], disk, s, now);
      var (events, s2) := CollectFile(m, logFiles[n], OnDisk(disk, logFiles[n]), s1, now);
      (before + events, s2)
  }

  function OnDisk(disk: map<string, Text>, logFile: string): Option<Text> {
    if logFile in disk then Some(disk[logFile]) else None
  }

  /** One more line of a scan. */
  lemma ScanStep(m: Matcher, f: string, lines: seq<Line>, k: nat, e: map<string, string>, now: string)
    requires k < |lines|
    ensures var (events, seen) := Scan(m, f, lines[..k], e, now);
            var pattern, id := m.matchLine(lines[k]), m.resourceId(lines[k]);
            Scan(m, f, lines[..k + 1], e, now) ==
              if pattern.None? || Key(f, id) in seen then (events, seen)
              else (events + [Event(id, f, pattern.value, now)], seen[Key(f, id) := now])
  {
    assert lines[..k + 1][..k] == lines[..k];
  }

  /** One more file of a poll. */
  lemma CollectStep(m: Matcher, logFiles: seq<string>, i: nat, disk: map<string, Text>, s: TelemetryState, now: string)
    requires i < |logFiles|
    ensures var (before, s1) := Collect(m, logFiles[..i], disk, s, now);
            var (events, s2) := CollectFile(m, logFiles[i], OnDisk(disk, logFiles[i]), s1, now);
            Collect(m, logFiles[..i + 1], disk, s, now) == (before + events, s2)
  {
    assert logFiles[..i + 1][..i] == logFiles[..i];
  }

  /** collectRuntimeTelemetryEvents: loops over files and lines with local offsets and marks. */
  method CollectEvents(m: Matcher, enabled: bool, logFiles: seq<string>, disk: map<string, Text>,
                       state: TelemetryState, now: string)
    returns (events: seq<Event>, nextState: TelemetryState)
    ensures !enabled ==> events == [] && nextState == state
    ensures enabled ==> (events, nextState) == Collect(m, logFiles, disk, state, now)
  {
    var offsets, emitted := state.offsets, state.emitted;
    events := [];
    if !enabled {
      return events, state;
    }
    for i := 0 to |logFiles|
      invariant (events, TelemetryState(offsets, emitted)) == Collect(m, logFiles[..i], disk, state, now)
    {
      var logFile := logFiles[i];
      var read := ReadNewLines(OnDisk(disk, logFile), OffsetOf(offsets, logFile));
      CollectStep(m, logFiles, i, disk, state, now);
      ghost var before, seen, found: seq<Event> := events, emitted, [];
      offsets := offsets[logFile := read.nextOffset];
      for k := 0 to |read.lines|
        invariant events == before + found
        invariant (found, emitted) == Scan(m, logFile, read.lines[..k], seen, now)
      {
        var line := read.lines[k];
        ScanStep(m, logFile, read.lines, k, seen, now);
        var matchedPattern := m.matchLine(line);
        if matchedPattern.None? {
          continue;
        }
        var dedupeKey := Key(logFile, m.resourceId(line));
        if dedupeKey in emitted {
          continue;
        }
        emitted := emitted[dedupeKey := now];
        events := events + [Event(m.resourceId(line), logFile, matchedPattern.value, now)];
        found := found + [Event(m.resourceId(line), logFile, matchedPattern.value, now)];
      }
      assert read.lines[..|read.lines|] == read.lines;
    }
    assert logFiles[..|logFiles|] == logFiles;
    nextState := TelemetryState(offsets, emitted);
  }

  // ---- Byte offsets against string positions ----

  lemma {:induction false} ByteSizeConcat(a: Text, b: Text)
    ensures ByteSize(a + b) == ByteSize(a) + ByteSize(b)
  {
    if a == [] {
      assert a + b == b;
    } else {
      assert (a + b)[1..] == a[1..] + b;
      ByteSizeConcat(a[1..], b);
    }
  }

  lemma {:induction false} AsciiSize(a: Text)
    ensures ByteSize(a) == |a| <==> IsAscii(a)
  {
    if a != [] {
      AsciiSize(a[1..]);
      assert a == [a[0]] + a[1..];
    }
  }

  /** Reading from the stored byte offset gives exactly what is new if and only if what was read before is ASCII. */
  lemma SliceIsExact(past: Text, added: Text)
    ensures Slice(past + added, ByteSize(past)) == added <==> IsAscii(past) || added == []
  {
    AsciiSize(past);
    var all, n := past + added, ByteSize(past);
    if n == |past| {
      assert all[n..] == added;
    } else if n <= |all| {
      assert |all[n..]| < |added|;
    }
  }

  // ---- Splitting ----

  /** Nothing or whole lines. */
  predicate WholeLines(t: Text) { t == [] || t[|t| - 1] == LF }

  /** Lines of whole-line text and of what follows it are independent. */
  lemma {:induction false} LinesConcat(a: Text, b: Text)
    requires WholeLines(a)
    ensures Lines(a + b) == Lines(a) + Lines(b)
    decreases |a|
  {
    if a == [] {
      assert a + b == b;
      NothingInNothing();
    } else {
      var i := FirstLf(a);
      var rest := a[i + 1..];
      FirstLfConcat(a, b);
      assert (a + b)[..i] == a[..i] && (a + b)[i + 1..] == rest + b;
      LinesConcat(rest, b);
      SplitStep(a, i);
      SplitStep(a + b, i);
      Regroup(Lines(a + b), Lines(a), NonBlank([DropCr(a[..i])]), Lines(rest), Lines(b));
    }
  }

  lemma Regroup(all: seq<Line>, first: seq<Line>, p: seq<Line>, rest: seq<Line>, more: seq<Line>)
    requires all == p + (rest + more) && first == p + rest
    ensures all == first + more
  {
  }

  lemma SplitStep(t: Text, i: nat)
    requires i == FirstLf(t) < |t|
    ensures Lines(t) == NonBlank([DropCr(t[..i])]) + Lines(t[i + 1..])
  {
    SplitHead(t, i);
    LinesOfParts(t, DropCr(t[..i]), t[i + 1..]);
  }

  lemma SplitHead(t: Text, i: nat)
    requires i == FirstLf(t) < |t|
    ensures Split(t) == [DropCr(t[..i])] + Split(t[i + 1..])
  {
  }

  lemma LinesOfParts(t: Text, p: Line, rest: Text)
    requires Split(t) == [p] + Split(rest)
    ensures Lines(t) == NonBlank([p]) + Lines(rest)
  {
    NonBlankCons(p, Split(rest));
  }

  lemma NonBlankCons(p: Line, rest: seq<Line>)
    ensures NonBlank([p] + rest) == NonBlank([p]) + NonBlank(rest)
  {
    assert ([p] + rest)[1..] == rest && [p][1..] == [];
  }

  lemma FirstLfConcat(a: Text, b: Text)
    requires FirstLf(a) < |a|
    ensures FirstLf(a + b) == FirstLf(a)
  {
    var i, j := FirstLf(a), FirstLf(a + b);
    assert (a + b)[i] == LF;
    assert forall k :: 0 <= k < i ==> (a + b)[k] == a[k];
  }

  // ---- What splitting does ----

  /** Text between line feeds. */
  function Pieces(t: Text): seq<Text>
    decreases |t|
  {
    var i := FirstLf(t);
    if i == |t| then [t] else [t[..i]] + Pieces(t[i + 1..])
  }

  function Joined(pieces: seq<Text>): Text
    requires pieces != []
  {
    if |pieces| == 1 then pieces[0] else pieces[0] + [10] + Joined(pieces[1..])
  }

  /** The line is the piece without a carriage return at its end. */
  ghost predicate LineOf(piece: Text, line: Line) {
    piece == line + [13] || (piece == line && (line == [] || line[|line| - 1] != 13))
  }

  /** The pieces give the text back when line feeds are put between them, and have none themselves. */
  ghost predicate PiecesOf(t: Text, pieces: seq<Text>) {
    pieces != [] && Joined(pieces) == t && forall p :: p in pieces ==> (10 as Unit) !in p
  }

  lemma {:induction false} PiecesExactly(t: Text)
    ensures PiecesOf(t, Pieces(t))
    decreases |t|
  {
    var i := FirstLf(t);
    if i == |t| {
      assert Pieces(t) == [t];
    } else {
      PiecesExactly(t[i + 1..]);
      PiecesHead(t, i);
      OneMorePiece(t[..i], t[i + 1..], Pieces(t[i + 1..]));
      assert t == t[..i] + [10] + t[i + 1..];
    }
  }

  lemma OneMorePiece(p: Text, rest: Text, pieces: seq<Text>)
    requires PiecesOf(rest, pieces) && (10 as Unit) !in p
    ensures PiecesOf(p + [10] + rest, [p] + pieces)
  {
    assert ([p] + pieces)[1..] == pieces;
  }

  /** The lines are the pieces in order, the last as it is, the others without carriage return. */
  ghost predicate LinesOf(pieces: seq<Text>, lines: seq<Line>) {
    && |lines| == |pieces| > 0 && lines[|lines| - 1] == pieces[|lines| - 1]
    && forall i :: 0 <= i < |lines| - 1 ==> LineOf(pieces[i], lines[i])
  }

  lemma {:induction false} SplitExactly(t: Text)
    ensures LinesOf(Pieces(t), Split(t))
    decreases |t|
  {
    var i := FirstLf(t);
    if i < |t| {
      SplitExactly(t[i + 1..]);
      PiecesHead(t, i);
      SplitHead(t, i);
      DropCrExactly(t[..i]);
      OneMoreLine(t[..i], Pieces(t[i + 1..]), DropCr(t[..i]), Split(t[i + 1..]));
    }
  }

  lemma OneMoreLine(p: Text, pieces: seq<Text>, line: Line, lines: seq<Line>)
    requires LineOf(p, line) && LinesOf(pieces, lines)
    ensures LinesOf([p] + pieces, [line] + lines)
  {
  }

  lemma PiecesHead(t: Text, i: nat)
    requires i == FirstLf(t) < |t|
    ensures Pieces(t) == [t[..i]] + Pieces(t[i + 1..])
  {
  }

  lemma DropCrExactly(t: Line)
    ensures LineOf(t, DropCr(t))
  {
    if t != [] {
      assert t == t[..|t| - 1] + [t[|t| - 1]];
    }
  }

  /** Exactly the lines that show something are kept, each as often as it is there. */
  lemma {:induction false} NonBlankExactly(ls: seq<Line>, x: Line)
    ensures multiset(NonBlank(ls))[x]
         == if exists i :: 0 <= i < |x| && !IsSpace(x[i]) then multiset(ls)[x] else 0
  {
    if ls != [] {
      NonBlankExactly(ls[1..], x);
      assert ls == [ls[0]] + ls[1..];
    }
  }

  /** And in their order. */
  lemma {:induction false} NonBlankConcat(a: seq<Line>, b: seq<Line>)
    ensures NonBlank(a + b) == NonBlank(a) + NonBlank(b)
  {
    if a == [] {
      assert a + b == b;
    } else {
      assert (a + b)[1..] == a[1..] + b;
      NonBlankConcat(a[1..], b);
    }
  }

  /** White space is what ECMAScript trims: its WhiteSpace and LineTerminator code units. */
  lemma SpacesExactly(u: Unit)
    ensures IsSpace(u) <==>
              || u in {9, 11, 12, 32, 160, 5760, 65279, 8239, 8287, 12288} || u in {10, 13, 8232, 8233}
              || u in {8192, 8193, 8194, 8195, 8196, 8197, 8198, 8199, 8200, 8201, 8202}
  {
  }

  /** UTF-8 takes a byte for 7 bits, two for 11, and three for 16; a pair of surrogates takes four. */
  lemma WidthExactly(u: Unit)
    ensures var surrogate := u / 1024 == 54 || u / 1024 == 55;
            && (Utf8Width(u) == 1 <==> u / 128 == 0)
            && (Utf8Width(u) == 2 <==> surrogate || (u / 128 != 0 && u / 2048 == 0))
            && (Utf8Width(u) == 3 <==> !surrogate && u / 2048 != 0)
  {
  }

  /** A missing file is not read, and its offset is kept. */
  lemma MissingFileExactly(file: Option<Text>, offset: int)
    ensures var read := ReadNewLines(file, offset);
            && (read.missing <==> file.None?)
            && (file.None? ==> read.lines == [] && read.nextOffset == offset)
  {
  }

  // ---- What a poll reads ----

  function RestOfLine(t: Text, p: nat): Line
    requires p <= |t|
  {
    t[p..p + FirstLf(t[p..])]
  }

  predicate StartsLine(t: Text, p: nat)
    requires p < |t|
  {
    p == 0 || t[p - 1] == LF
  }

  /** Every line of t that reaches into its first k units is blank. */
  predicate OnlyBlanksSkipped(t: Text, k: nat) {
    forall p :: 0 <= p < k && p < |t| && StartsLine(t, p) ==> IsBlank(RestOfLine(t, p))
  }

  /** Then every line is blank from any of these units on. */
  lemma {:induction false} BlankToTheEnd(t: Text, k: nat, p: nat)
    requires OnlyBlanksSkipped(t, k) && p < k && p < |t|
    ensures IsBlank(RestOfLine(t, p))
  {
    if !StartsLine(t, p) {
      BlankToTheEnd(t, k, p - 1);
      assert t[p - 1..][1..] == t[p..];
      FirstLfOfTail(t[p - 1..]);
      assert forall i :: 0 <= i < |RestOfLine(t, p)| ==> RestOfLine(t, p)[i] == RestOfLine(t, p - 1)[i + 1];
    }
  }

  /** How many units some lines have together. */
  function Total(ls: seq<Line>): nat {
    if ls == [] then 0 else |ls[0]| + Total(ls[1..])
  }

  lemma {:induction false} TotalConcat(a: seq<Line>, b: seq<Line>)
    ensures Total(a + b) == Total(a) + Total(b)
  {
    if a == [] {
      assert a + b == b;
    } else {
      assert (a + b)[1..] == a[1..] + b;
      TotalConcat(a[1..], b);
    }
  }

  lemma OneLineTotal(p: Line)
    ensures NonBlank([p]) == if IsBlank(p) then [] else [p]
    ensures Total(NonBlank([p])) == if IsBlank(p) then 0 else |p|
  {
    assert [p][1..] == [];
  }

  /** Carriage returns are blank. */
  lemma DropCrKeepsVisible(p: Line)
    ensures IsBlank(DropCr(p)) <==> IsBlank(p)
  {
    if p != [] {
      assert p == p[..|p| - 1] + [p[|p| - 1]];
    }
  }

  /** A line without its first unit: still blank if it was, and shorter if not. */
  lemma ShorterLine(p: Line)
    requires p != []
    ensures IsBlank(DropCr(p)) <==> IsBlank(p)
    ensures IsBlank(p) ==> IsBlank(DropCr(p[1..]))
    ensures !IsBlank(p) ==> IsBlank(DropCr(p[1..])) || |DropCr(p[1..])| < |DropCr(p)|
    ensures !IsBlank(p) ==> DropCr(p) != []
  {
    DropCrKeepsVisible(p);
    DropCrKeepsVisible(p[1..]);
    if |p| > 1 {
      assert p[1..][|p| - 2] == p[|p| - 1];
    }
  }

  lemma DropOne(t: Text)
    requires t != []
    ensures IsBlank(t[..FirstLf(t)]) ==> Lines(t[1..]) == Lines(t)
    ensures !IsBlank(t[..FirstLf(t)]) ==> Total(Lines(t[1..])) < Total(Lines(t))
  {
    var i := FirstLf(t);
    if i == 0 {
      SplitStep(t, 0);
      OneLineTotal([]);
    } else if i < |t| {
      assert t == t[..i] + [LF] + t[i + 1..];
      DropFromFirst(t, t[1..], t[..i], t[i + 1..]);
    } else {
      FirstLfOfTail(t);
      DropFromLast(t);
    }
  }

  lemma DropFromFirst(t: Text, u: Text, p: Text, rest: Text)
    requires p != [] && LF !in p && t == p + [LF] + rest && u == p[1..] + [LF] + rest
    ensures if IsBlank(p) then Lines(u) == Lines(t) else Total(Lines(u)) < Total(Lines(t))
  {
    FirstLine(p, rest);
    FirstLine(p[1..], rest);
    DropFromLine(p, Lines(rest));
  }

  lemma FirstLine(p: Text, rest: Text)
    requires LF !in p
    ensures Lines(p + [LF] + rest) == NonBlank([DropCr(p)]) + Lines(rest)
  {
    var t := p + [LF] + rest;
    assert forall k :: 0 <= k < |p| ==> t[k] == p[k];
    assert t[|p|] == LF;
    SplitStep(t, |p|);
    assert t[..|p|] == p && t[|p| + 1..] == rest;
  }

  lemma FirstLfOfTail(t: Text)
    requires FirstLf(t) > 0
    ensures FirstLf(t[1..]) == FirstLf(t) - 1
  {
  }

  lemma DropFromLine(p: Line, rest: seq<Line>)
    requires p != []
    ensures var was, left := NonBlank([DropCr(p)]) + rest, NonBlank([DropCr(p[1..])]) + rest;
            if IsBlank(p) then left == was else Total(left) < Total(was)
  {
    ShorterLine(p);
    OneLineTotal(DropCr(p));
    OneLineTotal(DropCr(p[1..]));
    TotalConcat(NonBlank([DropCr(p)]), rest);
    TotalConcat(NonBlank([DropCr(p[1..])]), rest);
  }

  /** The same for a last line without a line feed, which keeps its carriage return. */
  lemma DropFromLast(t: Text)
    requires t != [] && FirstLf(t) == |t| && FirstLf(t[1..]) == |t| - 1
    ensures if IsBlank(t) then Lines(t[1..]) == Lines(t) else Total(Lines(t[1..])) < Total(Lines(t))
    ensures t[..FirstLf(t)] == t
  {
    OneLineTotal(t);
    OneLineTotal(t[1..]);
  }

  lemma OneMoreSkipped(t: Text, k: nat)
    requires 0 < k <= |t|
    ensures OnlyBlanksSkipped(t, k) <==> OnlyBlanksSkipped(t, k - 1) && IsBlank(RestOfLine(t, k - 1))
  {
    if OnlyBlanksSkipped(t, k) {
      BlankToTheEnd(t, k, k - 1);
    }
  }

  /** Skipping k units loses nothing if only blanks are skipped, and something if not. */
  lemma {:induction false} SkipExactly(t: Text, k: nat)
    requires k <= |t|
    ensures if OnlyBlanksSkipped(t, k) then Lines(t[k..]) == Lines(t) else Total(Lines(t[k..])) < Total(Lines(t))
  {
    if k == 0 {
      assert t[0..] == t;
    } else {
      SkipExactly(t, k - 1);
      DropOne(t[k - 1..]);
      assert t[k - 1..][1..] == t[k..];
      assert t[k - 1..][..FirstLf(t[k - 1..])] == RestOfLine(t, k - 1);
      OneMoreSkipped(t, k);
    }
  }

  /** How far behind its place a poll starts: what was read before has more bytes than units. */
  function Lag(past: Text): nat { ByteSize(past) - |past| }

  /**
   A poll reads the added lines exactly if it skips only blanks; if not it reads less. For
   ASCII text nothing is skipped.
   */
  lemma PollReadsExactly(past: Text, added: Text)
    ensures var lines := ReadNewLines(Some(past + added), ByteSize(past)).lines;
            if OnlyBlanksSkipped(added, Lag(past)) then lines == Lines(added) else Total(lines) < Total(Lines(added))
    ensures IsAscii(past) ==> Lag(past) == 0 && OnlyBlanksSkipped(added, Lag(past))
  {
    AsciiSize(past);
    ByteSizeConcat(past, added);
    NothingInNothing();
    var k := if Lag(past) <= |added| then Lag(past) else |added|;
    SkipExactly(added, k);
    assert OnlyBlanksSkipped(added, k) <==> OnlyBlanksSkipped(added, Lag(past));
    assert Slice(past + added, ByteSize(past)) == added[k..];
    if ByteSize(past + added) <= ByteSize(past) {
      assert added == [];
    }
  }

  // ---- Incremental polling agrees with one full scan ----

  function Ids(events: seq<Event>): seq<string> {
    seq(|events|, i requires 0 <= i < |events| => events[i].resourceId)
  }

  lemma IdsConcat(a: seq<Event>, b: seq<Event>)
    ensures Ids(a + b) == Ids(a) + Ids(b)
  {
  }

  /** Scanning in two goes is scanning in one; times do not influence which ids are new. */
  lemma {:induction false} ScanConcat(m: Matcher, f: string, a: seq<Line>, b: seq<Line>,
                                      e: map<string, string>, now: string, e': map<string, string>, later: string,
                                      all: string)
    requires e' == Scan(m, f, a, e, now).1
    ensures Ids(Scan(m, f, a + b, e, all).0) == Ids(Scan(m, f, a, e, now).0) + Ids(Scan(m, f, b, e', later).0)
    ensures Scan(m, f, a + b, e, all).1.Keys == Scan(m, f, b, e', later).1.Keys
    decreases |b|
  {
    if b == [] {
      assert a + b == a;
      ScanTimeless(m, f, a, e, e, now, all);
    } else {
      var n := |b| - 1;
      assert (a + b)[..|a + b| - 1] == a + b[..n];
      ScanConcat(m, f, a, b[..n], e, now, e', later, all);
      LastEvent(m, f, a + b, e, all);
      LastEvent(m, f, b, e', later);
    }
  }

  /** The last line adds one id or none, depending only on the keys seen before it. */
  lemma LastEvent(m: Matcher, f: string, ls: seq<Line>, e: map<string, string>, now: string)
    requires ls != []
    ensures var n := |ls| - 1;
            var id, marks := m.resourceId(ls[n]), Scan(m, f, ls[..n], e, now).1.Keys;
            var isNew := m.matchLine(ls[n]).Some? && Key(f, id) !in marks;
            && Ids(Scan(m, f, ls, e, now).0) == Ids(Scan(m, f, ls[..n], e, now).0) + (if isNew then [id] else [])
            && Scan(m, f, ls, e, now).1.Keys == marks + (if isNew then {Key(f, id)} else {})
  {
    var n := |ls| - 1;
    var x := Event(m.resourceId(ls[n]), f, m.matchLine(ls[n]).GetOr(""), now);
    IdsConcat(Scan(m, f, ls[..n], e, now).0, [x]);
    assert Ids([x]) == [x.resourceId];
  }

  lemma {:induction false} ScanTimeless(m: Matcher, f: string, ls: seq<Line>, e: map<string, string>,
                                        e': map<string, string>, now: string, later: string)
    requires e.Keys == e'.Keys
    ensures Ids(Scan(m, f, ls, e, now).0) == Ids(Scan(m, f, ls, e', later).0)
    ensures Scan(m, f, ls, e, now).1.Keys == Scan(m, f, ls, e', later).1.Keys
    decreases |ls|
  {
    if ls != [] {
      ScanTimeless(m, f, ls[..|ls| - 1], e, e', now, later);
      LastEvent(m, f, ls, e, now);
      LastEvent(m, f, ls, e', later);
    }
  }

  function Concat(chunks: seq<Text>): Text
    decreases |chunks|
  {
    if chunks == [] then [] else Concat(chunks[..|chunks| - 1]) + chunks[|chunks| - 1]
  }

  const EMPTY := TelemetryState(map[], map[])

  /** Poll i sees the first i chunks of one growing file; what all polls report, and the state. */
  function Polls(m: Matcher, f: string, chunks: seq<Text>, times: seq<string>): (seq<Event>, TelemetryState)
    requires |times| == |chunks|
    decreases |chunks|
  {
    if chunks == [] then ([], EMPTY)
    else
      var n := |chunks| - 1;
      var (before, s) := Polls(m, f, chunks[..n], times[..n]);
      var (events, s') := Collect(m, [f], map[f := Concat(chunks)], s, times[n]);
      (before + events, s')
  }

  lemma CollectOne(m: Matcher, f: string, disk: map<string, Text>, s: TelemetryState, now: string)
    ensures Collect(m, [f], disk, s, now) == CollectFile(m, f, OnDisk(disk, f), s, now)
  {
    assert [f][..0] == [];
    var (events, s') := CollectFile(m, f, OnDisk(disk, f), s, now);
    assert [] + events == events;
  }

  /** One poll of a file that has grown by `more` since the stored offset. */
  lemma GrowthStep(
    m: Matcher, f: string, past: Text, more: Text, s: TelemetryState, now: string, e: map<string, string>
  )
    requires OffsetOf(s.offsets, f) == ByteSize(past) && s.emitted.Keys == e.Keys
    ensures var (events, s') := Collect(m, [f], map[f := past + more], s, now);
            var (once, marks) := Scan(m, f, ReadNewLines(Some(past + more), ByteSize(past)).lines, e, now);
            && Ids(events) == Ids(once) && s'.emitted.Keys == marks.Keys
            && OffsetOf(s'.offsets, f) == ByteSize(past + more)
  {
    CollectOne(m, f, map[f := past + more], s, now);
    ScanTimeless(m, f, ReadNewLines(Some(past + more), ByteSize(past)).lines, e, s.emitted, now, now);
  }

  /** events and s are what one scan of the lines ls comes to, with the offset at the end of the text. */
  ghost predicate Agrees(
    m: Matcher, f: string, ls: seq<Line>, text: Text, events: seq<Event>, s: TelemetryState, all: string
  ) {
    var (once, marks) := Scan(m, f, ls, map[], all);
    Ids(events) == Ids(once) && s.emitted.Keys == marks.Keys && OffsetOf(s.offsets, f) == ByteSize(text)
  }

  lemma AgreesStep(m: Matcher, f: string, ls: seq<Line>, past: Text, more: Text,
                   before: seq<Event>, s: TelemetryState, now: string, all: string)
    requires Agrees(m, f, ls, past, before, s, all)
    ensures var (events, s') := Collect(m, [f], map[f := past + more], s, now);
            Agrees(m, f, ls + ReadNewLines(Some(past + more), ByteSize(past)).lines, past + more,
                   before + events, s', all)
  {
    var (events, s') := Collect(m, [f], map[f := past + more], s, now);
    var e := Scan(m, f, ls, map[], all).1;
    GrowthStep(m, f, past, more, s, now, e);
    ScanConcat(m, f, ls, ReadNewLines(Some(past + more), ByteSize(past)).lines, map[], all, e, now, all);
    IdsConcat(before, events);
  }

  /** The lines that all polls read, in order. */
  function LinesRead(chunks: seq<Text>): seq<Line>
    decreases |chunks|
  {
    if chunks == [] then []
    else
      var n := |chunks| - 1;
      var past := Concat(chunks[..n]);
      LinesRead(chunks[..n]) + ReadNewLines(Some(past + chunks[n]), ByteSize(past)).lines
  }

  ghost predicate AllWholeLines(chunks: seq<Text>) {
    forall i :: 0 <= i < |chunks| ==> WholeLines(chunks[i])
  }

  /** No poll skips anything but blank lines. */
  ghost predicate NothingLost(chunks: seq<Text>) {
    forall i :: 0 <= i < |chunks| ==> OnlyBlanksSkipped(chunks[i], Lag(Concat(chunks[..i])))
  }

  ghost predicate AllAscii(chunks: seq<Text>) {
    forall i :: 0 <= i < |chunks| ==> IsAscii(chunks[i])
  }

  lemma {:induction false} ConcatOfWholeLines(chunks: seq<Text>)
    requires AllWholeLines(chunks)
    ensures WholeLines(Concat(chunks))
    decreases |chunks|
  {
    if chunks != [] {
      ConcatOfWholeLines(chunks[..|chunks| - 1]);
    }
  }

  lemma {:induction false} ConcatOfAscii(chunks: seq<Text>)
    requires AllAscii(chunks)
    ensures IsAscii(Concat(chunks))
    decreases |chunks|
  {
    if chunks != [] {
      ConcatOfAscii(chunks[..|chunks| - 1]);
    }
  }

  lemma AsciiLosesNothing(chunks: seq<Text>)
    requires AllAscii(chunks)
    ensures NothingLost(chunks)
  {
    forall i | 0 <= i < |chunks|
      ensures OnlyBlanksSkipped(chunks[i], Lag(Concat(chunks[..i])))
    {
      ConcatOfAscii(chunks[..i]);
      PollReadsExactly(Concat(chunks[..i]), chunks[i]);
    }
  }

  lemma LostSoFar(chunks: seq<Text>)
    requires chunks != []
    ensures var n := |chunks| - 1;
            NothingLost(chunks) <==>
              NothingLost(chunks[..n]) && OnlyBlanksSkipped(chunks[n], Lag(Concat(chunks[..n])))
  {
    var n := |chunks| - 1;
    assert forall i :: 0 <= i < n ==> chunks[..n][i] == chunks[i] && chunks[..n][..i] == chunks[..i];
  }

  /** All polls together read the lines of the final log exactly if none of them skips a visible line. */
  lemma {:induction false} LinesReadExactly(chunks: seq<Text>)
    requires AllWholeLines(chunks)
    ensures if NothingLost(chunks) then LinesRead(chunks) == Lines(Concat(chunks))
            else Total(LinesRead(chunks)) < Total(Lines(Concat(chunks)))
    decreases |chunks|
  {
    if chunks == [] {
      NothingInNothing();
    } else {
      var n := |chunks| - 1;
      var past, added := Concat(chunks[..n]), chunks[n];
      LinesReadExactly(chunks[..n]);
      ConcatOfWholeLines(chunks[..n]);
      LinesConcat(past, added);
      PollReadsExactly(past, added);
      LostSoFar(chunks);
      TotalConcat(LinesRead(chunks[..n]), ReadNewLines(Some(past + added), ByteSize(past)).lines);
      TotalConcat(Lines(past), Lines(added));
    }
  }

  lemma NothingAgrees(m: Matcher, f: string, all: string)
    ensures Agrees(m, f, [], [], [], EMPTY, all)
  {
  }

  lemma PollsStep(m: Matcher, f: string, chunks: seq<Text>, times: seq<string>)
    requires |times| == |chunks| > 0
    ensures var n := |chunks| - 1;
            var (before, s) := Polls(m, f, chunks[..n], times[..n]);
            var (events, s') := Collect(m, [f], map[f := Concat(chunks[..n]) + chunks[n]], s, times[n]);
            Polls(m, f, chunks, times) == (before + events, s')
  {
  }

  /** For any growing log the polls amount to one scan of the lines that they read. */
  lemma {:induction false} PollsAreOneScan(m: Matcher, f: string, chunks: seq<Text>, times: seq<string>, all: string)
    requires |times| == |chunks|
    ensures Agrees(m, f, LinesRead(chunks), Concat(chunks),
                   Polls(m, f, chunks, times).0, Polls(m, f, chunks, times).1, all)
    decreases |chunks|
  {
    if chunks == [] {
      NothingAgrees(m, f, all);
    } else {
      var n := |chunks| - 1;
      PollsAreOneScan(m, f, chunks[..n], times[..n], all);
      PollsStep(m, f, chunks, times);
      var (before, s) := Polls(m, f, chunks[..n], times[..n]);
      AgreesStep(m, f, LinesRead(chunks[..n]), Concat(chunks[..n]), chunks[n], before, s, times[n], all);
    }
  }

  lemma NothingInNothing()
    ensures Lines([]) == []
  {
  }

  /** One poll of the final log scans all its lines. */
  lemma FullScan(m: Matcher, f: string, text: Text, now: string)
    ensures Ids(Collect(m, [f], map[f := text], EMPTY, now).0) == Ids(Scan(m, f, Lines(text), map[], now).0)
  {
    CollectOne(m, f, map[f := text], EMPTY, now);
    NothingInNothing();
    assert Slice(text, 0) == text;
    assert ByteSize(text) == 0 ==> text == [];
  }

  /**
   For a log that grows by whole lines, of which no visible one is skipped, the resources
   reported over any number of polls are, in order, those of a single poll of the final log.
   */
  lemma IncrementalIsFullScan(m: Matcher, f: string, chunks: seq<Text>, times: seq<string>, now: string)
    requires |times| == |chunks| && AllWholeLines(chunks) && NothingLost(chunks)
    ensures PollsAgree(m, f, chunks, times, now)
  {
    PollsAreOneScan(m, f, chunks, times, now);
    LinesReadExactly(chunks);
    FullScan(m, f, Concat(chunks), now);
  }

  // ---- The same resources, whatever is looked for ----

  /** The lines without repeats, each at its first place. */
  function Firsts(ls: seq<Line>): seq<Line>
    decreases |ls|
  {
    if ls == [] then []
    else
      var n := |ls| - 1;
      Firsts(ls[..n]) + if ls[n] in ls[..n] then [] else [ls[n]]
  }

  /** A line that is recognised leaves its mark. */
  lemma {:induction false} MarkedByScan(m: Matcher, f: string, ls: seq<Line>, now: string, x: Line)
    requires x in ls && m.matchLine(x).Some?
    ensures Key(f, m.resourceId(x)) in Scan(m, f, ls, map[], now).1
    decreases |ls|
  {
    var n := |ls| - 1;
    LastEvent(m, f, ls, map[], now);
    if ls[n] != x {
      assert ls == ls[..n] + [ls[n]];
      MarkedByScan(m, f, ls[..n], now, x);
    }
  }

  /** Repeated lines do not matter to a scan. */
  lemma {:induction false} ScanOfFirsts(m: Matcher, f: string, ls: seq<Line>, now: string)
    ensures Ids(Scan(m, f, Firsts(ls), map[], now).0) == Ids(Scan(m, f, ls, map[], now).0)
    ensures Scan(m, f, Firsts(ls), map[], now).1.Keys == Scan(m, f, ls, map[], now).1.Keys
    decreases |ls|
  {
    if ls != [] {
      var n := |ls| - 1;
      var before, x := ls[..n], ls[n];
      ScanOfFirsts(m, f, before, now);
      LastEvent(m, f, ls, map[], now);
      if x in before {
        if m.matchLine(x).Some? {
          MarkedByScan(m, f, before, now, x);
        }
        assert Firsts(ls) == Firsts(before);
      } else {
        assert Firsts(ls) == Firsts(before) + [x];
        assert (Firsts(before) + [x])[..|Firsts(before)|] == Firsts(before);
        LastEvent(m, f, Firsts(ls), map[], now);
      }
    }
  }

  /** Each unit as two characters. */
  function Spell(t: Line): string {
    if t == [] then "" else [((t[0] as int) / 256) as char, ((t[0] as int) % 256) as char] + Spell(t[1..])
  }

  lemma {:induction false} SpellInjective(a: Line, b: Line)
    requires Spell(a) == Spell(b)
    ensures a == b
  {
    if a != [] && b != [] {
      assert Spell(a)[0] == Spell(b)[0] && Spell(a)[1] == Spell(b)[1];
      assert Spell(a)[2..] == Spell(a[1..]) && Spell(b)[2..] == Spell(b[1..]);
      SpellInjective(a[1..], b[1..]);
      assert a == [a[0]] + a[1..] && b == [b[0]] + b[1..];
    }
  }

  function AnyLine(t: Line): Option<string> { Some("") }

  /** Recognises every line and tells all of them apart. */
  const EVERY_LINE := Matcher(AnyLine, Spell)

  function SpellAll(ls: seq<Line>): seq<string>
    decreases |ls|
  {
    if ls == [] then [] else SpellAll(ls[..|ls| - 1]) + [Spell(ls[|ls| - 1])]
  }

  lemma {:induction false} SpellAllInjective(a: seq<Line>, b: seq<Line>)
    requires SpellAll(a) == SpellAll(b)
    ensures a == b
    decreases |a|
  {
    if a != [] && b != [] {
      var i, j := |a| - 1, |b| - 1;
      var x, y := SpellAll(a), SpellAll(b);
      assert x[|x| - 1] == Spell(a[i]) && y[|y| - 1] == Spell(b[j]);
      assert x[..|x| - 1] == SpellAll(a[..i]) && y[..|y| - 1] == SpellAll(b[..j]);
      SpellInjective(a[i], b[j]);
      SpellAllInjective(a[..i], b[..j]);
      assert a == a[..i] + [a[i]] && b == b[..j] + [b[j]];
    }
  }

  /** A mark of EVERY_LINE stands for a line that was there. */
  lemma {:induction false} MarksAreLines(f: string, ls: seq<Line>, now: string, x: Line)
    ensures Key(f, Spell(x)) in Scan(EVERY_LINE, f, ls, map[], now).1 <==> x in ls
    decreases |ls|
  {
    if ls != [] {
      var n := |ls| - 1;
      MarksAreLines(f, ls[..n], now, x);
      LastEvent(EVERY_LINE, f, ls, map[], now);
      assert ls == ls[..n] + [ls[n]];
      if Key(f, Spell(x)) == Key(f, Spell(ls[n])) {
        KeyInjective(f, Spell(x), Spell(ls[n]));
        SpellInjective(x, ls[n]);
      }
    }
  }

  lemma SpellAllMore(ls: seq<Line>, x: Line)
    ensures SpellAll(ls + [x]) == SpellAll(ls) + [Spell(x)]
  {
    assert (ls + [x])[..|ls + [x]| - 1] == ls;
  }

  lemma {:induction false} EveryLineReportsFirsts(f: string, ls: seq<Line>, now: string)
    ensures Ids(Scan(EVERY_LINE, f, ls, map[], now).0) == SpellAll(Firsts(ls))
    decreases |ls|
  {
    if ls != [] {
      var n := |ls| - 1;
      var before, x := ls[..n], ls[n];
      EveryLineReportsFirsts(f, before, now);
      MarksAreLines(f, before, now, x);
      LastEvent(EVERY_LINE, f, ls, map[], now);
      SpellAllMore(Firsts(before), x);
      assert SpellAll(Firsts(before)) + [] == SpellAll(Firsts(before)) && Firsts(before) + [] == Firsts(before);
    }
  }

  ghost predicate ScansAgree(m: Matcher, f: string, a: seq<Line>, b: seq<Line>, now: string) {
    Ids(Scan(m, f, a, map[], now).0) == Ids(Scan(m, f, b, map[], now).0)
  }

  /** Two lists of lines name the same resources to every matcher exactly if they agree up to repeats. */
  lemma SameResourcesExactly(f: string, a: seq<Line>, b: seq<Line>, now: string)
    ensures (forall m: Matcher :: ScansAgree(m, f, a, b, now)) <==> Firsts(a) == Firsts(b)
  {
    if Firsts(a) == Firsts(b) {
      forall m: Matcher
        ensures ScansAgree(m, f, a, b, now)
      {
        ScanOfFirsts(m, f, a, now);
        ScanOfFirsts(m, f, b, now);
      }
    } else if ScansAgree(EVERY_LINE, f, a, b, now) {
      EveryLineReportsFirsts(f, a, now);
      EveryLineReportsFirsts(f, b, now);
      SpellAllInjective(Firsts(a), Firsts(b));
    }
  }

  /** All polls of the growing log report, in order, what a single poll of the final log does. */
  ghost predicate PollsAgree(m: Matcher, f: string, chunks: seq<Text>, times: seq<string>, now: string)
    requires |times| == |chunks|
  {
    Ids(Polls(m, f, chunks, times).0) == Ids(Collect(m, [f], map[f := Concat(chunks)], EMPTY, now).0)
  }

  lemma PollsAgreeAsScans(m: Matcher, f: string, chunks: seq<Text>, times: seq<string>, now: string)
    requires |times| == |chunks|
    ensures PollsAgree(m, f, chunks, times, now)
       <==> ScansAgree(m, f, LinesRead(chunks), Lines(Concat(chunks)), now)
  {
    PollsAreOneScan(m, f, chunks, times, now);
    FullScan(m, f, Concat(chunks), now);
  }

  /**
   Polling agrees with one poll of the final log, whatever is looked for, exactly if the lines
   read are, up to repeats, those of the final log.
   */
  lemma IncrementalIsFullScanExactly(f: string, chunks: seq<Text>, times: seq<string>, now: string)
    requires |times| == |chunks|
    ensures (forall m: Matcher :: PollsAgree(m, f, chunks, times, now))
       <==> Firsts(LinesRead(chunks)) == Firsts(Lines(Concat(chunks)))
  {
    SameResourcesExactly(f, LinesRead(chunks), Lines(Concat(chunks)), now);
    forall m: Matcher
      ensures PollsAgree(m, f, chunks, times, now)
         <==> ScansAgree(m, f, LinesRead(chunks), Lines(Concat(chunks)), now)
    {
      PollsAgreeAsScans(m, f, chunks, times, now);
    }
  }

  // ---- ASCII logs ----

  /** For every ASCII log that grows by whole lines polling agrees with one scan. */
  lemma AsciiIsFullScan(m: Matcher, f: string, chunks: seq<Text>, times: seq<string>, now: string)
    requires |times| == |chunks| && AllWholeLines(chunks) && AllAscii(chunks)
    ensures PollsAgree(m, f, chunks, times, now)
  {
    AsciiLosesNothing(chunks);
    IncrementalIsFullScan(m, f, chunks, times, now);
  }

  /** The log file of the counterexample: a two-byte character, then a one-letter line. */
  function TwoLines(x: Unit): Text { [0xe9, LF, x, LF] }

  lemma TwoLinesFacts(x: Unit)
    requires x < 0x80 && !IsSpace(x)
    ensures Lines(TwoLines(x)) == [[0xe9], [x]] && ByteSize(TwoLines(x)) == 5
    ensures ReadNewLines(Some(TwoLines(x)), 3) == NewLines([], 5, false)
  {
    assert [0xe9, LF] + [x, LF] == TwoLines(x);
    LinesConcat([0xe9, LF], [x, LF]);
    OneLine(0xe9);
    OneLine(x);
    ByteSizeConcat([0xe9, LF], [x, LF]);
    SizeOfLine(0xe9);
    SizeOfLine(x);
    assert Slice(TwoLines(x), 3) == [LF];
    LoneLf();
  }

  /**
   The ASCII condition matters: after a line with one two-byte character the next poll
   starts one unit too late, and the one-letter line that was added is never reported.
   */
  lemma NonAsciiLosesLine(m: Matcher, f: string, x: Unit, now: string)
    requires x < 0x80 && !IsSpace(x) && m.matchLine([x]).Some? && m.resourceId([x]) != m.resourceId([0xe9])
    ensures m.resourceId([x]) in Ids(Collect(m, [f], map[f := TwoLines(x)], EMPTY, now).0)
    ensures m.resourceId([x]) !in Ids(Polls(m, f, [[0xe9, LF], [x, LF]], [now, now]).0)
  {
    TwoLinesFacts(x);
    assert Slice(TwoLines(x), 0) == TwoLines(x);
    CollectOne(m, f, map[f := TwoLines(x)], EMPTY, now);
    ScanReports(m, f, Lines(TwoLines(x)), now, m.resourceId([x]));
    var s := FirstPoll(m, f, now);
    var chunks, times := [[0xe9, LF], [x, LF]], [now, now];
    assert chunks[..1] == [[0xe9, LF]] && times[..1] == [now];
    PollsStep(m, f, chunks, times);
    assert Concat(chunks[..1]) + chunks[1] == TwoLines(x);
    CollectOne(m, f, map[f := TwoLines(x)], s, now);
    FirstLineOnly(m, f, now, m.resourceId([x]));
    var first := Scan(m, f, [[0xe9]], map[], now).0;
    assert first + [] == first;
  }

  lemma FirstPoll(m: Matcher, f: string, now: string) returns (s: TelemetryState)
    ensures Concat([[0xe9, LF]]) == [0xe9, LF]
    ensures Polls(m, f, [[0xe9, LF]], [now]) == (Scan(m, f, [[0xe9]], map[], now).0, s)
    ensures OffsetOf(s.offsets, f) == 3
  {
    var past: Text := [0xe9, LF];
    assert [past][..0] == [] && [] + past == past;
    PollsStep(m, f, [past], [now]);
    CollectOne(m, f, map[f := past], EMPTY, now);
    OneLine(0xe9);
    SizeOfLine(0xe9);
    assert Slice(past, 0) == past;
    var first := Scan(m, f, [[0xe9]], map[], now).0;
    assert [] + first == first;
    s := Collect(m, [f], map[f := past], EMPTY, now).1;
  }

  lemma OneLine(u: Unit)
    requires !IsSpace(u)
    ensures Lines([u, LF]) == [[u]]
  {
    var t := [u, LF];
    assert FirstLf(t) == 1;
    SplitStep(t, 1);
    NothingInNothing();
    assert t[..1] == [u] && t[2..] == [] && DropCr([u]) == [u];
    assert [u][0] == u;
  }

  lemma LoneLf()
    ensures Lines([LF]) == []
  {
    SplitStep([LF], 0);
    NothingInNothing();
  }

  lemma SizeOfLine(u: Unit)
    ensures ByteSize([u, LF]) == Utf8Width(u) + 1
  {
    assert [u, LF][1..] == [LF] && [LF][1..] == [];
    assert ByteSize([LF]) == 1;
  }

  lemma KeyInjective(f: string, id: string, id': string)
    requires Key(f, id) == Key(f, id')
    ensures id == id'
  {
    assert Key(f, id)[|f| + 1..] == id && Key(f, id')[|f| + 1..] == id';
  }

  lemma ScanReports(m: Matcher, f: string, ls: seq<Line>, now: string, id: string)
    requires |ls| == 2 && m.matchLine(ls[1]).Some? && m.resourceId(ls[1]) == id != m.resourceId(ls[0])
    ensures id in Ids(Scan(m, f, ls, map[], now).0)
  {
    LastEvent(m, f, ls, map[], now);
    LastEvent(m, f, ls[..1], map[], now);
    assert ls[..1][..0] == [];
    if Key(f, id) == Key(f, m.resourceId(ls[0])) {
      KeyInjective(f, id, m.resourceId(ls[0]));
    }
  }

  lemma FirstLineOnly(m: Matcher, f: string, now: string, id: string)
    requires m.resourceId([0xe9]) != id
    ensures id !in Ids(Scan(m, f, [[0xe9]], map[], now).0)
  {
    LastEvent(m, f, [[0xe9]], map[], now);
  }

  // ---- Logs that are cut ----

  /**
   A poll with a stored offset reads all of a text that it has never seen exactly if the offset
   lies beyond the text, which starts it over, or only blank lines lie before it.
   */
  lemma UnseenTextReadExactly(t: Text, offset: int)
    ensures var read := ReadNewLines(Some(t), offset);
            && (read.lines == Lines(t) <==> offset < 0 || offset > ByteSize(t) || OnlyBlanksSkipped(t, offset))
            && read.nextOffset == ByteSize(t) && !read.missing
  {
    NothingInNothing();
    assert t[0..] == t;
    if 0 <= offset <= ByteSize(t) {
      var k := if offset <= |t| then offset else |t|;
      SkipExactly(t, k);
      assert OnlyBlanksSkipped(t, k) <==> OnlyBlanksSkipped(t, offset);
      assert t[|t|..] == [];
      if offset == ByteSize(t) {
        assert k == |t|;
      }
    }
  }

  /** What the disk holds at each poll; the file may be missing. */
  type History = seq<Option<Text>>

  /** The offset that is stored after some polls. */
  function OffsetAfter(polls: History): int
    decreases |polls|
  {
    if polls == [] then 0
    else ReadNewLines(polls[|polls| - 1], OffsetAfter(polls[..|polls| - 1])).nextOffset
  }

  /** The lines that all polls read, in order. */
  function Watched(polls: History): seq<Line>
    decreases |polls|
  {
    if polls == [] then []
    else
      var n := |polls| - 1;
      Watched(polls[..n]) + ReadNewLines(polls[n], OffsetAfter(polls[..n])).lines
  }

  /** The stored offset is the size of the file when it was last there. */
  ghost function LastSize(polls: History): nat
    decreases |polls|
  {
    if polls == [] then 0
    else
      var n := |polls| - 1;
      if polls[n].Some? then ByteSize(polls[n].value) else LastSize(polls[..n])
  }

  lemma {:induction false} OffsetIsLastSize(polls: History)
    ensures OffsetAfter(polls) == LastSize(polls)
    decreases |polls|
  {
    if polls != [] {
      OffsetIsLastSize(polls[..|polls| - 1]);
    }
  }

  function DiskWith(f: string, file: Option<Text>): map<string, Text> {
    if file.Some? then map[f := file.value] else map[]
  }

  /** Polls of one file, whatever happens to it in between. */
  function Watch(m: Matcher, f: string, polls: History, times: seq<string>): (seq<Event>, TelemetryState)
    requires |times| == |polls|
    decreases |polls|
  {
    if polls == [] then ([], EMPTY)
    else
      var n := |polls| - 1;
      var (before, s) := Watch(m, f, polls[..n], times[..n]);
      var (events, s') := Collect(m, [f], DiskWith(f, polls[n]), s, times[n]);
      (before + events, s')
  }

  /** What is reported is what one scan of the lines read would report, with the offset as above. */
  lemma {:induction false} WatchIsOneScan(m: Matcher, f: string, polls: History, times: seq<string>, all: string)
    requires |times| == |polls|
    ensures var (events, s) := Watch(m, f, polls, times);
            var (once, marks) := Scan(m, f, Watched(polls), map[], all);
            Ids(events) == Ids(once) && s.emitted.Keys == marks.Keys && OffsetOf(s.offsets, f) == OffsetAfter(polls)
    decreases |polls|
  {
    if polls != [] {
      var n := |polls| - 1;
      var (before, s) := Watch(m, f, polls[..n], times[..n]);
      var lines := ReadNewLines(polls[n], OffsetAfter(polls[..n])).lines;
      var e := Scan(m, f, Watched(polls[..n]), map[], all).1;
      WatchIsOneScan(m, f, polls[..n], times[..n], all);
      CollectOne(m, f, DiskWith(f, polls[n]), s, times[n]);
      ScanTimeless(m, f, lines, e, s.emitted, times[n], times[n]);
      ScanConcat(m, f, Watched(polls[..n]), lines, map[], all, e, times[n], all);
      IdsConcat(before, Scan(m, f, lines, s.emitted, times[n]).0);
    }
  }

  /** A log that grows by the chunks, from nothing. */
  function Growing(chunks: seq<Text>): (polls: History)
    ensures |polls| == |chunks|
    decreases |chunks|
  {
    if chunks == [] then [] else Growing(chunks[..|chunks| - 1]) + [Some(Concat(chunks))]
  }

  lemma OneMorePoll(polls: History, file: Text)
    ensures Watched(polls + [Some(file)]) == Watched(polls) + ReadNewLines(Some(file), LastSize(polls)).lines
    ensures LastSize(polls + [Some(file)]) == ByteSize(file)
  {
    assert (polls + [Some(file)])[..|polls + [Some(file)]| - 1] == polls;
    OffsetIsLastSize(polls);
  }

  lemma GrowsByLines(polls: History, past: Text, added: Text)
    requires LastSize(polls) == ByteSize(past) && WholeLines(past) && OnlyBlanksSkipped(added, Lag(past))
    ensures Watched(polls + [Some(past + added)]) == Watched(polls) + Lines(added)
    ensures Lines(past + added) == Lines(past) + Lines(added)
  {
    OneMorePoll(polls, past + added);
    PollReadsExactly(past, added);
    LinesConcat(past, added);
  }

  lemma GrowingMore(before: History, chunks: seq<Text>)
    requires chunks != []
    ensures before + Growing(chunks) == before + Growing(chunks[..|chunks| - 1]) + [Some(Concat(chunks))]
  {
    Regrouped(before, Growing(chunks[..|chunks| - 1]), [Some(Concat(chunks))]);
  }

  lemma Regrouped(a: History, b: History, c: History)
    ensures a + (b + c) == a + b + c
  {
  }

  lemma SizeAfterGrowing(before: History, chunks: seq<Text>)
    requires chunks != []
    ensures LastSize(before + Growing(chunks)) == ByteSize(Concat(chunks))
  {
    GrowingMore(before, chunks);
    OneMorePoll(before + Growing(chunks[..|chunks| - 1]), Concat(chunks));
  }

  lemma EarlierChunks(chunks: seq<Text>)
    requires chunks != [] && AllWholeLines(chunks) && NothingLost(chunks)
    ensures var n := |chunks| - 1;
            && AllWholeLines(chunks[..n]) && NothingLost(chunks[..n]) && WholeLines(Concat(chunks[..n]))
            && OnlyBlanksSkipped(chunks[n], Lag(Concat(chunks[..n])))
  {
    LostSoFar(chunks);
    ConcatOfWholeLines(chunks[..|chunks| - 1]);
  }

  lemma CutLogGrows(before: History, chunks: seq<Text>)
    requires |chunks| > 1 && AllWholeLines(chunks) && NothingLost(chunks)
    requires var n := |chunks| - 1;
             Watched(before + Growing(chunks[..n])) == Watched(before) + Lines(Concat(chunks[..n]))
    ensures Watched(before + Growing(chunks)) == Watched(before) + Lines(Concat(chunks))
  {
    var n := |chunks| - 1;
    var past, added := Concat(chunks[..n]), chunks[n];
    EarlierChunks(chunks);
    SizeAfterGrowing(before, chunks[..n]);
    GrowingMore(before, chunks);
    LinesAfterGrowing(before, before + Growing(chunks[..n]), past, added);
  }

  lemma LinesAfterGrowing(before: History, polls: History, past: Text, added: Text)
    requires LastSize(polls) == ByteSize(past) && WholeLines(past) && OnlyBlanksSkipped(added, Lag(past))
    requires Watched(polls) == Watched(before) + Lines(past)
    ensures Watched(polls + [Some(past + added)]) == Watched(before) + Lines(past + added)
  {
    GrowsByLines(polls, past, added);
  }

  /**
   A log that is cut to less than was read of it, and then grows by whole lines, is read again
   from its start: what was read before is followed by exactly the lines of the new text.
   */
  lemma {:induction false} CutLogIsReadAgain(before: History, chunks: seq<Text>)
    requires chunks != [] && AllWholeLines(chunks) && NothingLost(chunks)
    requires ByteSize(chunks[0]) < LastSize(before)
    ensures Watched(before + Growing(chunks)) == Watched(before) + Lines(Concat(chunks))
    decreases |chunks|
  {
    if |chunks| == 1 {
      GrowingMore(before, chunks);
      OneMorePoll(before + Growing(chunks[..0]), Concat(chunks));
      FirstAfterCut(before, chunks);
    } else {
      EarlierChunks(chunks);
      CutLogIsReadAgain(before, chunks[..|chunks| - 1]);
      CutLogGrows(before, chunks);
    }
  }

  lemma FirstAfterCut(before: History, chunks: seq<Text>)
    requires |chunks| == 1 && ByteSize(chunks[0]) < LastSize(before)
    ensures before + Growing(chunks[..0]) == before && Concat(chunks) == chunks[0]
    ensures ReadNewLines(Some(chunks[0]), LastSize(before)).lines == Lines(chunks[0])
  {
    assert chunks[..0] == [] && before + [] == before && [] + chunks[0] == chunks[0];
    UnseenTextReadExactly(chunks[0], LastSize(before));
  }

  // ---- Each resource of a file is reported at most once ----

  function Keys(events: seq<Event>): seq<string> {
    seq(|events|, i requires 0 <= i < |events| => Key(events[i].logFile, events[i].resourceId))
  }

  /** events are new with respect to e, all different, and all recorded in e'. */
  ghost predicate Fresh(events: seq<Event>, e: map<string, string>, e': map<string, string>) {
    && Distinct(Keys(events)) && e.Keys <= e'.Keys
    && forall k :: k in Keys(events) ==> k !in e && k in e'
  }

  lemma FreshConcat(
    a: seq<Event>, b: seq<Event>, e: map<string, string>, e': map<string, string>, e'': map<string, string>
  )
    requires Fresh(a, e, e') && Fresh(b, e', e'')
    ensures Fresh(a + b, e, e'')
  {
    assert Keys(a + b) == Keys(a) + Keys(b);
    forall i, j | 0 <= i < j < |a + b|
      ensures Keys(a + b)[i] != Keys(a + b)[j]
    {
      if i < |a| <= j {
        assert Keys(a + b)[i] in Keys(a) && Keys(a + b)[j] in Keys(b);
      }
    }
  }

  lemma {:induction false} ScanIsFresh(m: Matcher, f: string, ls: seq<Line>, e: map<string, string>, now: string)
    ensures Fresh(Scan(m, f, ls, e, now).0, e, Scan(m, f, ls, e, now).1)
    decreases |ls|
  {
    if ls != [] {
      var n := |ls| - 1;
      ScanIsFresh(m, f, ls[..n], e, now);
      var (events, seen) := Scan(m, f, ls[..n], e, now);
      var (events', seen') := Scan(m, f, ls, e, now);
      if events' != events {
        assert Fresh([events'[|events|]], seen, seen');
        FreshConcat(events, [events'[|events|]], e, seen, seen');
      }
    }
  }

  lemma {:induction false} CollectIsFresh(
    m: Matcher, fs: seq<string>, disk: map<string, Text>, s: TelemetryState, now: string
  )
    ensures Fresh(Collect(m, fs, disk, s, now).0, s.emitted, Collect(m, fs, disk, s, now).1.emitted)
    decreases |fs|
  {
    if fs != [] {
      var n := |fs| - 1;
      CollectIsFresh(m, fs[..n], disk, s, now);
      var (before, s1) := Collect(m, fs[..n], disk, s, now);
      var read := ReadNewLines(OnDisk(disk, fs[n]), OffsetOf(s1.offsets, fs[n]));
      ScanIsFresh(m, fs[n], read.lines, s1.emitted, now);
      var (events, s2) := CollectFile(m, fs[n], OnDisk(disk, fs[n]), s1, now);
      FreshConcat(before, events, s.emitted, s1.emitted, s2.emitted);
    }
  }

  // ---- Every resource that is read is reported ----

  /** Resource ids have one colon, after their kind: btih:… or torrent:…. */
  ghost predicate OneColon(id: string) {
    exists c :: 0 <= c < |id| && id[c] == ':' && forall d :: 0 <= d < |id| && id[d] == ':' ==> d == c
  }

  /** So no two pairs of file and resource share a mark, even if there are colons in file names. */
  lemma KeysApart(f: string, id: string, g: string, id': string)
    requires Key(f, id) == Key(g, id') && OneColon(id) && OneColon(id')
    ensures f == g && id == id'
  {
    if |id| < |id'| {
      ShorterId(f, id, g, id');
    } else if |id'| < |id| {
      ShorterId(g, id', f, id);
    }
    var k := Key(f, id);
    assert |f| == |g| && f == k[..|f|] && g == k[..|g|] && id == k[|f| + 1..] && id' == k[|g| + 1..];
  }

  lemma ShorterId(f: string, id: string, g: string, id': string)
    requires Key(f, id) == Key(g, id') && |id| < |id'| && OneColon(id)
    ensures !OneColon(id')
  {
    var k, n := Key(f, id), |id'| - |id|;
    var c :| 0 <= c < |id| && id[c] == ':';
    assert k[|f|] == ':' && k[|f|] == id'[n - 1];
    assert k[|f| + 1 + c] == id[c] && k[|f| + 1 + c] == id'[n + c];
  }

  /** An event of file f about a line that was read from it. */
  ghost predicate Describes(m: Matcher, x: Event, f: string, lines: seq<Line>, now: string) {
    exists line :: line in lines && m.matchLine(line) == Some(x.pattern)
                   && x == Event(m.resourceId(line), f, x.pattern, now)
  }

  lemma {:induction false} ScanDescribes(m: Matcher, f: string, ls: seq<Line>, e: map<string, string>, now: string)
    ensures forall x :: x in Scan(m, f, ls, e, now).0 ==> Describes(m, x, f, ls, now)
    decreases |ls|
  {
    if ls != [] {
      var n := |ls| - 1;
      assert ls == ls[..n] + [ls[n]];
      ScanDescribes(m, f, ls[..n], e, now);
      forall x | x in Scan(m, f, ls, e, now).0
        ensures Describes(m, x, f, ls, now)
      {
        if x in Scan(m, f, ls[..n], e, now).0 {
          var line :| line in ls[..n] && m.matchLine(line) == Some(x.pattern)
                      && x == Event(m.resourceId(line), f, x.pattern, now);
          assert line in ls;
        } else {
          assert ls[n] in ls && x == Event(m.resourceId(ls[n]), f, x.pattern, now);
        }
      }
    }
  }

  /** Marks are the old ones and those of the events, no more and no less. */
  lemma {:induction false} ScanMarks(m: Matcher, f: string, ls: seq<Line>, e: map<string, string>, now: string)
    ensures var (events, seen) := Scan(m, f, ls, e, now);
            && seen.Keys == e.Keys + KeysOf(events)
            && forall line :: line in ls && m.matchLine(line).Some? ==> Key(f, m.resourceId(line)) in seen
    decreases |ls|
  {
    if ls != [] {
      var n := |ls| - 1;
      assert ls == ls[..n] + [ls[n]];
      ScanMarks(m, f, ls[..n], e, now);
      var (events, seen) := Scan(m, f, ls[..n], e, now);
      var (events', seen') := Scan(m, f, ls, e, now);
      if events' != events {
        KeysOfMore(events, events'[|events|]);
      }
    } else {
      assert KeysOf([]) == {};
    }
  }

  ghost function KeysOf(events: seq<Event>): set<string> {
    set x | x in events :: Key(x.logFile, x.resourceId)
  }

  lemma KeysOfMore(events: seq<Event>, x: Event)
    ensures KeysOf(events + [x]) == KeysOf(events) + {Key(x.logFile, x.resourceId)}
  {
  }

  lemma KeysOfConcat(a: seq<Event>, b: seq<Event>)
    ensures KeysOf(a + b) == KeysOf(a) + KeysOf(b)
  {
  }

  /** The lines that a poll reads from file f, if it is the i-th of the plan. */
  function LinesOfFile(m: Matcher, fs: seq<string>, disk: map<string, Text>, s: TelemetryState, now: string, i: nat)
    : seq<Line>
    requires i < |fs|
  {
    var s1 := Collect(m, fs[..i], disk, s, now).1;
    ReadNewLines(OnDisk(disk, fs[i]), OffsetOf(s1.offsets, fs[i])).lines
  }

  lemma SameLinesOfFile(m: Matcher, fs: seq<string>, disk: map<string, Text>, s: TelemetryState, now: string, i: nat)
    requires i < |fs| - 1
    ensures LinesOfFile(m, fs[..|fs| - 1], disk, s, now, i) == LinesOfFile(m, fs, disk, s, now, i)
  {
    assert fs[..|fs| - 1][..i] == fs[..i];
  }

  /** The marks after a poll are those before it and those of its events. */
  lemma {:induction false} CollectKeys(
    m: Matcher, fs: seq<string>, disk: map<string, Text>, s: TelemetryState, now: string
  )
    ensures Collect(m, fs, disk, s, now).1.emitted.Keys == s.emitted.Keys + KeysOf(Collect(m, fs, disk, s, now).0)
    decreases |fs|
  {
    if fs == [] {
      assert KeysOf([]) == {};
    } else {
      var n := |fs| - 1;
      var (before, s1) := Collect(m, fs[..n], disk, s, now);
      var lines := LinesOfFile(m, fs, disk, s, now, n);
      CollectKeys(m, fs[..n], disk, s, now);
      ScanMarks(m, fs[n], lines, s1.emitted, now);
      KeysOfConcat(before, Scan(m, fs[n], lines, s1.emitted, now).0);
    }
  }

  lemma LastFileMarks(m: Matcher, fs: seq<string>, disk: map<string, Text>, s: TelemetryState, now: string)
    requires fs != []
    ensures var n := |fs| - 1;
            var marks := Collect(m, fs, disk, s, now).1.emitted;
            && (forall k :: k in Collect(m, fs[..n], disk, s, now).1.emitted ==> k in marks)
            && forall line :: line in LinesOfFile(m, fs, disk, s, now, n) && m.matchLine(line).Some? ==>
                 Key(fs[n], m.resourceId(line)) in marks
  {
    var n := |fs| - 1;
    var s1 := Collect(m, fs[..n], disk, s, now).1;
    ScanMarks(m, fs[n], LinesOfFile(m, fs, disk, s, now, n), s1.emitted, now);
  }

  /** Every recognised line that a poll reads is marked after it. */
  lemma {:induction false} CollectMarks(
    m: Matcher, fs: seq<string>, disk: map<string, Text>, s: TelemetryState, now: string, i: nat, line: Line
  )
    requires i < |fs| && line in LinesOfFile(m, fs, disk, s, now, i) && m.matchLine(line).Some?
    ensures Key(fs[i], m.resourceId(line)) in Collect(m, fs, disk, s, now).1.emitted
    decreases |fs|
  {
    LastFileMarks(m, fs, disk, s, now);
    if i < |fs| - 1 {
      SameLinesOfFile(m, fs, disk, s, now, i);
      CollectMarks(m, fs[..|fs| - 1], disk, s, now, i, line);
    }
  }

  /** Every event of a poll describes a line that it has read, of the file that it names. */
  lemma {:induction false} CollectDescribes(
    m: Matcher, fs: seq<string>, disk: map<string, Text>, s: TelemetryState, now: string, x: Event
  ) returns (i: nat)
    requires x in Collect(m, fs, disk, s, now).0
    ensures i < |fs| && FromFile(m, x, fs, disk, s, now, i)
    decreases |fs|
  {
    var n := |fs| - 1;
    var (before, s1) := Collect(m, fs[..n], disk, s, now);
    if x in before {
      i := CollectDescribes(m, fs[..n], disk, s, now, x);
      SameLinesOfFile(m, fs, disk, s, now, i);
    } else {
      i := n;
      ScanDescribes(m, fs[n], LinesOfFile(m, fs, disk, s, now, n), s1.emitted, now);
    }
  }

  /** One poll: events describe lines that were read, and every recognised line that was read is marked. */
  lemma CollectReports(m: Matcher, fs: seq<string>, disk: map<string, Text>, s: TelemetryState, now: string)
    ensures var (events, s') := Collect(m, fs, disk, s, now);
            && s'.emitted.Keys == s.emitted.Keys + KeysOf(events)
            && (forall x :: x in events ==> exists i :: 0 <= i < |fs| && FromFile(m, x, fs, disk, s, now, i))
            && (forall i, line ::
                  0 <= i < |fs| && line in LinesOfFile(m, fs, disk, s, now, i) && m.matchLine(line).Some? ==>
                    Key(fs[i], m.resourceId(line)) in s'.emitted)
  {
    CollectKeys(m, fs, disk, s, now);
    forall x | x in Collect(m, fs, disk, s, now).0
      ensures exists i :: 0 <= i < |fs| && FromFile(m, x, fs, disk, s, now, i)
    {
      var i := CollectDescribes(m, fs, disk, s, now, x);
    }
    forall i, line | 0 <= i < |fs| && line in LinesOfFile(m, fs, disk, s, now, i) && m.matchLine(line).Some?
      ensures Key(fs[i], m.resourceId(line)) in Collect(m, fs, disk, s, now).1.emitted
    {
      CollectMarks(m, fs, disk, s, now, i, line);
    }
  }

  ghost predicate FromFile(
    m: Matcher, x: Event, fs: seq<string>, disk: map<string, Text>, s: TelemetryState, now: string, i: int
  ) {
    0 <= i < |fs| && Describes(m, x, fs[i], LinesOfFile(m, fs, disk, s, now, i), now)
  }

  /** A poll of some plan at some time, over whatever the disk holds then. */
  datatype Poll = Poll(m: Matcher, logFiles: seq<string>, disk: map<string, Text>, now: string)

  function Run(s: TelemetryState, polls: seq<Poll>): (seq<Event>, TelemetryState)
    decreases |polls|
  {
    if polls == [] then ([], s)
    else
      var n := |polls| - 1;
      var (before, s1) := Run(s, polls[..n]);
      var p := polls[n];
      var (events, s2) := Collect(p.m, p.logFiles, p.disk, s1, p.now);
      (before + events, s2)
  }

  lemma {:induction false} RunIsFresh(s: TelemetryState, polls: seq<Poll>)
    ensures Fresh(Run(s, polls).0, s.emitted, Run(s, polls).1.emitted)
    decreases |polls|
  {
    if polls != [] {
      var n := |polls| - 1;
      RunIsFresh(s, polls[..n]);
      var (before, s1) := Run(s, polls[..n]);
      var p := polls[n];
      CollectIsFresh(p.m, p.logFiles, p.disk, s1, p.now);
      var (events, s2) := Collect(p.m, p.logFiles, p.disk, s1, p.now);
      FreshConcat(before, events, s.emitted, s1.emitted, s2.emitted);
    }
  }

  /** Poll k reads a recognised line of file f that names the resource id. */
  ghost predicate ReadsResource(s: TelemetryState, polls: seq<Poll>, k: nat, f: string, id: string)
    requires k < |polls|
  {
    var p, s1 := polls[k], Run(s, polls[..k]).1;
    exists i, line :: 0 <= i < |p.logFiles| && p.logFiles[i] == f
                      && line in LinesOfFile(p.m, p.logFiles, p.disk, s1, p.now, i)
                      && p.m.matchLine(line).Some? && p.m.resourceId(line) == id
  }

  ghost predicate Reported(events: seq<Event>, f: string, id: string) {
    exists x :: x in events && x.logFile == f && x.resourceId == id
  }

  /** Resource ids look as they do in the source. */
  ghost predicate ProperIds(polls: seq<Poll>) {
    forall k, line :: 0 <= k < |polls| ==> OneColon(polls[k].m.resourceId(line))
  }

  lemma {:induction false} RunReports(polls: seq<Poll>)
    requires ProperIds(polls)
    ensures var (events, s) := Run(EMPTY, polls);
            && s.emitted.Keys == KeysOf(events)
            && (forall x :: x in events ==> OneColon(x.resourceId))
    decreases |polls|
  {
    if polls == [] {
      assert KeysOf([]) == {};
    } else {
      var n := |polls| - 1;
      var p := polls[n];
      var (before, s1) := Run(EMPTY, polls[..n]);
      RunReports(polls[..n]);
      CollectReports(p.m, p.logFiles, p.disk, s1, p.now);
      KeysOfConcat(before, Collect(p.m, p.logFiles, p.disk, s1, p.now).0);
    }
  }

  lemma KeyOfReported(events: seq<Event>, f: string, id: string)
    requires OneColon(id) && forall x :: x in events ==> OneColon(x.resourceId)
    ensures Key(f, id) in KeysOf(events) <==> Reported(events, f, id)
  {
    if Key(f, id) in KeysOf(events) {
      var x :| x in events && Key(x.logFile, x.resourceId) == Key(f, id);
      KeysApart(x.logFile, x.resourceId, f, id);
    }
  }

  /**
   From an empty state, the resources reported over any run are exactly those that some poll
   has read a recognised line of, file by file.
   */
  lemma {:induction false} ReportedExactly(polls: seq<Poll>, f: string, id: string)
    requires ProperIds(polls) && OneColon(id)
    ensures Reported(Run(EMPTY, polls).0, f, id)
       <==> exists k :: 0 <= k < |polls| && ReadsResource(EMPTY, polls, k, f, id)
    decreases |polls|
  {
    if polls != [] {
      var n := |polls| - 1;
      var p := polls[n];
      var (before, s1) := Run(EMPTY, polls[..n]);
      var (events, s2) := Collect(p.m, p.logFiles, p.disk, s1, p.now);
      ReportedExactly(polls[..n], f, id);
      ReadsEarlier(polls, f, id);
      RunReports(polls[..n]);
      RunReports(polls);
      KeyOfReported(before, f, id);
      KeyOfReported(before + events, f, id);
      PollReports(p, s1, f, id);
      assert ReadsResource(EMPTY, polls, n, f, id) <==> PollReads(p, s1, f, id);
      assert Reported(before + events, f, id) <==> Reported(before, f, id) || Reported(events, f, id);
    }
  }

  ghost predicate PollReads(p: Poll, s: TelemetryState, f: string, id: string) {
    exists i, line :: 0 <= i < |p.logFiles| && p.logFiles[i] == f
                      && line in LinesOfFile(p.m, p.logFiles, p.disk, s, p.now, i)
                      && p.m.matchLine(line).Some? && p.m.resourceId(line) == id
  }

  lemma PollReports(p: Poll, s: TelemetryState, f: string, id: string)
    ensures var (events, s') := Collect(p.m, p.logFiles, p.disk, s, p.now);
            && (Reported(events, f, id) ==> PollReads(p, s, f, id))
            && (PollReads(p, s, f, id) ==> Key(f, id) in s'.emitted)
  {
    CollectReports(p.m, p.logFiles, p.disk, s, p.now);
    var events := Collect(p.m, p.logFiles, p.disk, s, p.now).0;
    if Reported(events, f, id) {
      var x :| x in events && x.logFile == f && x.resourceId == id;
      var i :| 0 <= i < |p.logFiles| && FromFile(p.m, x, p.logFiles, p.disk, s, p.now, i);
    }
  }

  lemma ReadsEarlier(polls: seq<Poll>, f: string, id: string)
    requires polls != []
    ensures var n := |polls| - 1;
            forall k :: 0 <= k < n ==>
              (ReadsResource(EMPTY, polls[..n], k, f, id) <==> ReadsResource(EMPTY, polls, k, f, id))
  {
    var n := |polls| - 1;
    forall k | 0 <= k < n
      ensures ReadsResource(EMPTY, polls[..n], k, f, id) <==> ReadsResource(EMPTY, polls, k, f, id)
    {
      assert polls[..n][..k] == polls[..k];
    }
  }

  /** Whatever happens to the files between polls, no resource of a file is reported twice. */
  lemma ReportedAtMostOnce(s: TelemetryState, polls: seq<Poll>, i: nat, j: nat)
    requires i < j < |Run(s, polls).0|
    ensures var events := Run(s, polls).0;
            events[i].logFile != events[j].logFile || events[i].resourceId != events[j].resourceId
  {
    RunIsFresh(s, polls);
    var events := Run(s, polls).0;
    assert Keys(events)[i] != Keys(events)[j];
  }
}
