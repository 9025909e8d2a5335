/**
 Reading server-sent events from the bus: the client's loop over the lines of the response body, and
 the text the server writes. The blank after "data:" is kept, and the id is forgotten at every event
 boundary.
 */
module SseClient {
  import opened Wrappers
  import opened Text

  /** One event as the client assembles it, before its data is parsed as JSON. */
  datatype Frame = Frame(id: string, event: string, data: string)

  datatype BusEvent<T> = BusEvent(id: string, sseType: string, payload: T)

  datatype State = State(id: string, event: string, data: string)

  const RESET := State("", "", "")

  // ----- lines of a body

  function LineEnd(text: string): (n: nat)
    ensures n <= |text| && (forall i :: 0 <= i < n ==> text[i] != '\n') && (n < |text| ==> text[n] == '\n')
  {
    if text == "" || text[0] == '\n' then 0 else 1 + LineEnd(text[1..])
  }

  function DropCR(line: string): string {
    if line != "" && line[|line| - 1] == '\r' then line[..|line| - 1] else line
  }

  /** The lines bufio.ScanLines yields; a last line without its newline counts. */
  function ScanLines(text: string): seq<string>
    decreases |text|
  {
    if text == "" then []
    else
      var n := LineEnd(text);
      [DropCR(text[..n])] + (if n < |text| then ScanLines(text[n + 1..]) else [])
  }

  function Unlines(lines: seq<string>): string {
    if lines == [] then "" else lines[0] + "\n" + Unlines(lines[1..])
  }

  predicate PlainLine(line: string) {
    '\n' !in line && DropCR(line) == line
  }

  lemma Assoc<T>(a: seq<T>, b: seq<T>, c: seq<T>)
    ensures (a + b) + c == a + (b + c)
  {
  }

  lemma LineEndIs(text: string, n: nat)
    requires n < |text| && text[n] == '\n' && forall i :: 0 <= i < n ==> text[i] != '\n'
    ensures LineEnd(text) == n
  {
  }

  lemma ScanFirstLine(line: string, rest: string)
    requires '\n' !in line
    ensures ScanLines(line + "\n" + rest) == [DropCR(line)] + ScanLines(rest)
  {
    var text := line + "\n" + rest;
    LineEndIs(text, |line|);
    hide LineEnd, DropCR;
    assert text[..|line|] == line && text[|line| + 1..] == rest;
  }

  lemma {:induction false} ScanUnlines(lines: seq<string>)
    requires forall i :: 0 <= i < |lines| ==> PlainLine(lines[i])
    ensures ScanLines(Unlines(lines)) == lines
  {
    if lines != [] {
      ScanUnlines(lines[1..]);
      assert PlainLine(lines[0]);
      ScanFirstLine(lines[0], Unlines(lines[1..]));
      hide ScanLines, DropCR;
    }
  }

  predicate EndsLine(text: string) {
    text == "" || text[|text| - 1] == '\n'
  }

  lemma {:induction false} ScanConcat(a: string, b: string)
    requires EndsLine(a)
    ensures ScanLines(a + b) == ScanLines(a) + ScanLines(b)
    decreases |a|
  {
    if a == "" {
      assert a + b == b;
    } else {
      hide ScanLines, DropCR;
      var line, rest := CutLine(a);
      ScanFirstLine(line, rest);
      ScanConcat(rest, b);
      Assoc(line + "\n", rest, b);
      ScanFirstLine(line, rest + b);
      Assoc([DropCR(line)], ScanLines(rest), ScanLines(b));
    }
  }

  lemma CutLine(a: string) returns (line: string, rest: string)
    requires a != "" && EndsLine(a)
    ensures '\n' !in line && a == line + "\n" + rest && EndsLine(rest)
  {
    var n := LineEnd(a);
    line, rest := a[..n], a[n + 1..];
  }

  // ----- the line loop

  function Step(st: State, line: string): State {
    if line == "" then RESET
    else if "id:" <= line then st.(id := TrimSpace(line[3..]))
    else if "event:" <= line then st.(event := TrimSpace(line[6..]))
    else if "data:" <= line then st.(data := if st.data != "" then st.data + "\n" + line[5..] else line[5..])
    else st
  }

  function Emitted(st: State, line: string): seq<Frame> {
    if line == "" && st.data != "" then [Frame(st.id, st.event, st.data)] else []
  }

  function After(lines: seq<string>, st: State): State {
    if lines == [] then st else Step(After(lines[..|lines| - 1], st), lines[|lines| - 1])
  }

  function Frames(lines: seq<string>, st: State): seq<Frame> {
    if lines == [] then []
    else
      var n := |lines| - 1;
      Frames(lines[..n], st) + Emitted(After(lines[..n], st), lines[n])
  }

  function Parse(text: string): seq<Frame> {
    Frames(ScanLines(text), RESET)
  }

  /** Frames whose data is not valid JSON are dropped without a trace. */
  function Decoded<T>(frames: seq<Frame>, decode: string -> Option<T>): seq<BusEvent<T>> {
    if frames == [] then []
    else
      var f := frames[|frames| - 1];
      var payload := decode(f.data);
      Decoded(frames[..|frames| - 1], decode) + (if payload.Some? then [BusEvent(f.id, f.event, payload.value)] else [])
  }

  lemma FramesSnoc(lines: seq<string>, line: string, st: State)
    ensures After(lines + [line], st) == Step(After(lines, st), line)
    ensures Frames(lines + [line], st) == Frames(lines, st) + Emitted(After(lines, st), line)
  {
    hide Step, Emitted;
    assert (lines + [line])[..|lines|] == lines;
  }

  lemma DecodedSnoc<T>(frames: seq<Frame>, f: Frame, decode: string -> Option<T>)
    ensures var payload := decode(f.data);
      Decoded(frames + [f], decode) ==
        Decoded(frames, decode) + if payload.Some? then [BusEvent(f.id, f.event, payload.value)] else []
  {
    assert (frames + [f])[..|frames|] == frames;
  }

  lemma {:induction false} FramesPrefix(lines: seq<string>, n: nat, st: State)
    requires n <= |lines|
    ensures Frames(lines[..n], st) <= Frames(lines, st)
  {
    hide Emitted, After;
    if n == |lines| {
      assert lines[..n] == lines;
    } else {
      assert lines[..|lines| - 1][..n] == lines[..n];
      FramesPrefix(lines[..|lines| - 1], n, st);
    }
  }

  lemma {:induction false} DecodedPrefix<T>(frames: seq<Frame>, n: nat, decode: string -> Option<T>)
    requires n <= |frames|
    ensures Decoded(frames[..n], decode) <= Decoded(frames, decode)
  {
    if n == |frames| {
      assert frames[..n] == frames;
    } else {
      assert frames[..|frames| - 1][..n] == frames[..n];
      DecodedPrefix(frames[..|frames| - 1], n, decode);
    }
  }

  /** What gets through when the context is done before the event after the first `doneAfter` is sent. */
  method ConnectBusSSE<T>(body: string, decode: string -> Option<T>, doneAfter: Option<nat>)
      returns (events: seq<BusEvent<T>>)
    ensures var all := Decoded(Parse(body), decode);
      events <= all && |events| == if doneAfter.Some? && doneAfter.value < |all| then doneAfter.value else |all|
  {
    hide ScanLines, TrimSpace, Decoded, After, Frames;
    var lines := ScanLines(body);
    var currentID, currentEvent, currentData := "", "", "";
    events := [];
    ghost var frames: seq<Frame> := [];
    NothingRead(decode);
    for i := 0 to |lines|
      invariant After(lines[..i], RESET) == State(currentID, currentEvent, currentData)
      invariant frames == Frames(lines[..i], RESET) && events == Decoded(frames, decode)
      invariant doneAfter.Some? ==> |events| <= doneAfter.value
    {
      var line := lines[i];
      assert lines[..i + 1] == lines[..i] + [line];
      FramesSnoc(lines[..i], line, RESET);
      if line == "" {
        if currentData != "" {
          ghost var frame := Frame(currentID, currentEvent, currentData);
          DecodedSnoc(frames, frame, decode);
          frames := frames + [frame];
          var parsed := decode(currentData);
          if parsed.Some? {
            if doneAfter == Some(|events|) {
              DecodedSoFar(lines, i + 1, decode);
              return;
            }
            events := events + [BusEvent(currentID, currentEvent, parsed.value)];
          }
        }
        currentID, currentEvent, currentData := "", "", "";
      } else if "id:" <= line {
        currentID := TrimSpace(line[3..]);
      } else if "event:" <= line {
        currentEvent := TrimSpace(line[6..]);
      } else if "data:" <= line {
        var data := line[5..];
        currentData := if currentData != "" then currentData + "\n" + data else data;
      }
    }
    assert lines[..|lines|] == lines;
  }

  lemma DecodedSoFar<T>(lines: seq<string>, n: nat, decode: string -> Option<T>)
    requires n <= |lines|
    ensures Decoded(Frames(lines[..n], RESET), decode) <= Decoded(Frames(lines, RESET), decode)
  {
    hide Decoded, Frames;
    FramesPrefix(lines, n, RESET);
    var few, all := Frames(lines[..n], RESET), Frames(lines, RESET);
    assert few == all[..|few|];
    DecodedPrefix(all, |few|, decode);
  }

  lemma NothingRead<T>(decode: string -> Option<T>)
    ensures After([], RESET) == RESET && Frames([], RESET) == [] && Decoded([], decode) == []
  {
  }

  // ----- streams in pieces

  lemma {:induction false} AfterConcat(a: seq<string>, b: seq<string>, st: State)
    ensures After(a + b, st) == After(b, After(a, st))
  {
    hide Step;
    if b == [] {
      assert a + b == a;
    } else {
      var front := b[..|b| - 1];
      AfterConcat(a, front, st);
      assert (a + b)[..|a + b| - 1] == a + front;
    }
  }

  lemma {:induction false} FramesConcat(a: seq<string>, b: seq<string>, st: State)
    ensures Frames(a + b, st) == Frames(a, st) + Frames(b, After(a, st))
  {
    hide Step, Emitted, After;
    if b == [] {
      assert a + b == a;
    } else {
      var front, line := b[..|b| - 1], b[|b| - 1];
      FramesConcat(a, front, st);
      AfterConcat(a, front, st);
      assert (a + b)[..|a + b| - 1] == a + front;
      Assoc(Frames(a, st), Frames(front, After(a, st)), Emitted(After(a + front, st), line));
    }
  }

  /** A body that ends in a blank line, or is empty. */
  predicate Complete(body: string) {
    EndsLine(body) && var lines := ScanLines(body); (lines == [] || lines[|lines| - 1] == "")
  }

  /** Reading complete streams one after the other is reading them together. */
  lemma StreamsConcatenate(a: string, b: string)
    requires Complete(a)
    ensures Parse(a + b) == Parse(a) + Parse(b)
    ensures Complete(b) ==> Complete(a + b)
  {
    ScanConcat(a, b);
    FramesConcat(ScanLines(a), ScanLines(b), RESET);
    AfterConcat(ScanLines(a), ScanLines(b), RESET);
    CompleteResets(a);
    hide ScanLines, Frames, After;
  }

  lemma CompleteResets(body: string)
    requires Complete(body)
    ensures After(ScanLines(body), RESET) == RESET
  {
    hide ScanLines, TrimSpace;
  }

  /** A line may end in a line feed or in a carriage return and a line feed. */
  lemma LineEndsAlike(before: string, line: string, after: string)
    requires EndsLine(before) && '\n' !in line && (line == "" || line[|line| - 1] != '\r')
    ensures Parse(before + (line + "\r" + "\n" + after)) == Parse(before + (line + "\n" + after))
  {
    ScanConcat(before, line + "\r" + "\n" + after);
    ScanConcat(before, line + "\n" + after);
    ScanFirstLine(line + "\r", after);
    ScanFirstLine(line, after);
    ReturnDropped(line);
    hide ScanLines, EndsLine, Frames, DropCR;
  }

  lemma ReturnDropped(line: string)
    requires line == "" || line[|line| - 1] != '\r'
    ensures DropCR(line + "\r") == line && DropCR(line) == line
  {
    assert (line + "\r")[..|line|] == line;
  }

  /** Comments, lines of unknown fields and fields without a colon. */
  predicate Ignored(line: string) {
    line != "" && !("id:" <= line) && !("event:" <= line) && !("data:" <= line)
  }

  /** Such a line may stand between any two lines, also in the middle of an event. */
  lemma IgnoredLinesAnywhere(before: string, line: string, after: string)
    requires EndsLine(before) && '\n' !in line && Ignored(DropCR(line))
    ensures Parse(before + (line + "\n" + after)) == Parse(before + after)
  {
    ScanConcat(before, line + "\n" + after);
    ScanConcat(before, after);
    ScanFirstLine(line, after);
    DropIgnored(ScanLines(before), DropCR(line), ScanLines(after));
    hide ScanLines, DropCR, EndsLine, Frames, Ignored;
  }

  lemma DropIgnored(a: seq<string>, line: string, b: seq<string>)
    requires Ignored(line)
    ensures Frames(a + ([line] + b), RESET) == Frames(a + b, RESET)
  {
    FramesConcat(a, [line] + b, RESET);
    FramesConcat([line], b, After(a, RESET));
    FramesConcat(a, b, RESET);
    StepIgnores(After(a, RESET), line);
    hide Frames, After, Ignored;
    assert [] + Frames(b, After(a, RESET)) == Frames(b, After(a, RESET));
  }

  lemma StepIgnores(st: State, line: string)
    requires Ignored(line)
    ensures After([line], st) == st && Frames([line], st) == []
  {
    hide TrimSpace;
    assert [line][..0] == [];
  }

  lemma {:induction false} NoBlankNoFrame(lines: seq<string>, st: State)
    requires "" !in lines
    ensures Frames(lines, st) == []
  {
    if lines != [] {
      NoBlankNoFrame(lines[..|lines| - 1], st);
    }
  }

  /** What follows the last blank line is lost when the connection ends. */
  lemma TailEmitsNothing(body: string, tail: string)
    requires Complete(body) && "" !in ScanLines(tail)
    ensures Parse(body + tail) == Parse(body)
  {
    StreamsConcatenate(body, tail);
    NoBlankNoFrame(ScanLines(tail), RESET);
  }

  // ----- what one event's lines mean

  /** The trimmed value of the last line carrying the field. */
  function LastValue(lines: seq<string>, field: string): string {
    if lines == [] then ""
    else if field <= lines[|lines| - 1] then TrimSpace(lines[|lines| - 1][|field|..])
    else LastValue(lines[..|lines| - 1], field)
  }

  function DataOf(lines: seq<string>): seq<string> {
    if lines == [] then []
    else
      var line := lines[|lines| - 1];
      DataOf(lines[..|lines| - 1]) + (if "data:" <= line then [line[5..]] else [])
  }

  function SkipEmpty(ds: seq<string>): seq<string> {
    if ds != [] && ds[0] == "" then SkipEmpty(ds[1..]) else ds
  }

  function Joined(ds: seq<string>): string {
    if ds == [] then ""
    else if |ds| == 1 then ds[0]
    else Joined(ds[..|ds| - 1]) + "\n" + ds[|ds| - 1]
  }

  /** Data lines that are empty count only after the first non-empty one. */
  function Meaning(block: seq<string>): State {
    State(LastValue(block, "id:"), LastValue(block, "event:"), Joined(SkipEmpty(DataOf(block))))
  }

  lemma {:induction false} SkipEmptySnoc(ds: seq<string>, d: string)
    ensures SkipEmpty(ds + [d]) == if SkipEmpty(ds) == [] then SkipEmpty([d]) else SkipEmpty(ds) + [d]
  {
    if ds == [] {
      assert ds + [d] == [d];
    } else {
      assert (ds + [d])[1..] == ds[1..] + [d];
      if ds[0] == "" {
        SkipEmptySnoc(ds[1..], d);
      }
    }
  }

  lemma {:induction false} JoinedNonEmpty(ds: seq<string>)
    ensures (Joined(SkipEmpty(ds)) == "") <==> SkipEmpty(ds) == []
  {
    if ds != [] && ds[0] == "" {
      JoinedNonEmpty(ds[1..]);
    } else if ds != [] {
      FirstKept(ds);
    }
  }

  lemma {:induction false} FirstKept(ds: seq<string>)
    requires ds != [] && ds[0] != ""
    ensures Joined(ds) != ""
  {
    if |ds| > 1 {
      FirstKept(ds[..|ds| - 1]);
    }
  }

  lemma {:induction false} BlockMeans(block: seq<string>)
    requires "" !in block
    ensures After(block, RESET) == Meaning(block)
  {
    if block == [] {
    } else {
      hide After, Meaning, Step;
      var front, line := block[..|block| - 1], block[|block| - 1];
      assert block == front + [line] && line in block;
      BlockMeans(front);
      FramesSnoc(front, line, RESET);
      MeaningSnoc(front, line);
    }
  }

  /** One more line before the blank one. */
  lemma MeaningSnoc(front: seq<string>, line: string)
    requires line != ""
    ensures Meaning(front + [line]) == Step(Meaning(front), line)
  {
    hide SkipEmpty, Joined, TrimSpace, DataOf, LastValue;
    DataGrows(front, line);
    FieldsDiffer(line);
    LastValueSnoc(front, line, "id:");
    LastValueSnoc(front, line, "event:");
  }

  lemma LastValueSnoc(front: seq<string>, line: string, field: string)
    ensures LastValue(front + [line], field) ==
            if field <= line then TrimSpace(line[|field|..]) else LastValue(front, field)
  {
    hide TrimSpace;
    assert (front + [line])[..|front|] == front;
  }

  lemma DataGrows(front: seq<string>, line: string)
    ensures var before, now := Joined(SkipEmpty(DataOf(front))), Joined(SkipEmpty(DataOf(front + [line])));
      now == if !("data:" <= line) then before else if before != "" then before + "\n" + line[5..] else line[5..]
  {
    DataOfSnoc(front, line);
    if "data:" <= line {
      JoinedGrows(DataOf(front), line[5..]);
    }
    hide DataOf, Joined, SkipEmpty;
  }

  lemma DataOfSnoc(front: seq<string>, line: string)
    ensures DataOf(front + [line]) == if "data:" <= line then DataOf(front) + [line[5..]] else DataOf(front)
  {
    assert (front + [line])[..|front|] == front;
    assert DataOf(front) + [] == DataOf(front);
  }

  lemma JoinedGrows(ds: seq<string>, d: string)
    ensures var before, now := Joined(SkipEmpty(ds)), Joined(SkipEmpty(ds + [d]));
      now == if before != "" then before + "\n" + d else d
  {
    SkipEmptySnoc(ds, d);
    JoinedNonEmpty(ds);
    if SkipEmpty(ds) != [] {
      JoinedSnoc(SkipEmpty(ds), d);
    } else {
      assert [d][1..] == [];
    }
  }

  /** A line carries one field at most. */
  lemma FieldsDiffer(line: string)
    ensures !("id:" <= line && "event:" <= line) && !("id:" <= line && "data:" <= line)
    ensures !("event:" <= line && "data:" <= line)
  {
    assert "id:" <= line ==> line[0] == "id:"[0];
    assert "event:" <= line ==> line[0] == "event:"[0];
    assert "data:" <= line ==> line[0] == "data:"[0];
  }

  lemma JoinedSnoc(ds: seq<string>, d: string)
    requires ds != []
    ensures Joined(ds + [d]) == Joined(ds) + "\n" + d
  {
    assert (ds + [d])[..|ds|] == ds;
  }

  /** The lines up to a blank one make one event, or none when they carry no data; the next lines start afresh. */
  lemma FirstBlock(block: seq<string>, rest: seq<string>)
    requires "" !in block
    ensures var m := Meaning(block);
      Frames(block + ([""] + rest), RESET) ==
        (if m.data == "" then [] else [Frame(m.id, m.event, m.data)]) + Frames(rest, RESET)
  {
    BlockMeans(block);
    NoBlankNoFrame(block, RESET);
    FramesConcat(block, [""] + rest, RESET);
    FramesConcat([""], rest, Meaning(block));
    BlankLine(Meaning(block));
    hide Meaning, Frames, After;
  }

  lemma BlankLine(st: State)
    ensures After([""], st) == RESET
    ensures Frames([""], st) == if st.data == "" then [] else [Frame(st.id, st.event, st.data)]
  {
    hide TrimSpace;
    assert [""][..0] == [];
  }

  // ----- what the server writes

  /** Data is given by its lines; the bus endpoint writes one line of JSON. */
  datatype Item = Event(id: string, name: string, data: seq<string>) | Keepalive

  predicate Sendable(item: Item) {
    item.Event? ==>
      && PlainLine(item.id) && TrimSpace(item.id) == item.id
      && PlainLine(item.name) && TrimSpace(item.name) == item.name
      && item.data != [] && item.data[0] != "" && forall d <- item.data :: PlainLine(d)
  }

  function DataLines(ds: seq<string>): seq<string> {
    seq(|ds|, i requires 0 <= i < |ds| => "data:" + ds[i])
  }

  function ItemBlock(item: Item): seq<string> {
    match item
    case Event(id, name, data) => ["id:" + id, "event:" + name] + DataLines(data)
    case Keepalive => [":keepalive"]
  }

  function Written(items: seq<Item>): string {
    if items == [] then "" else Unlines(ItemBlock(items[0]) + [""]) + Written(items[1..])
  }

  function Sent(items: seq<Item>): seq<Frame> {
    if items == [] then []
    else (if items[0].Event? then [Frame(items[0].id, items[0].name, Joined(items[0].data))] else []) + Sent(items[1..])
  }

  lemma {:induction false} LastValueSkips(a: seq<string>, b: seq<string>, field: string)
    requires forall i :: 0 <= i < |b| ==> !(field <= b[i])
    ensures LastValue(a + b, field) == LastValue(a, field)
  {
    hide TrimSpace;
    if b == [] {
      assert a + b == a;
    } else {
      var n := |b| - 1;
      LastValueSkips(a, b[..n], field);
      assert (a + b)[..|a + b| - 1] == a + b[..n];
      assert !(field <= b[n]);
    }
  }

  lemma {:induction false} DataOfDataLines(a: seq<string>, ds: seq<string>)
    ensures DataOf(a + DataLines(ds)) == DataOf(a) + ds
  {
    if ds == [] {
      assert a + DataLines(ds) == a;
    } else {
      var n := |ds| - 1;
      DataOfDataLines(a, ds[..n]);
      DataLineOnly(ds[n]);
      assert (a + DataLines(ds))[..|a| + n] == a + DataLines(ds[..n]);
    }
  }

  lemma DataLineOnly(d: string)
    ensures var line := "data:" + d; "data:" <= line && line[5..] == d && !("id:" <= line) && !("event:" <= line)
  {
    FieldsDiffer("data:" + d);
  }

  lemma ItemMeans(item: Item)
    requires Sendable(item)
    ensures Meaning(ItemBlock(item)) ==
            if item.Event? then State(item.id, item.name, Joined(item.data)) else RESET
  {
    if item.Event? {
      var head, data := ["id:" + item.id, "event:" + item.name], DataLines(item.data);
      forall i | 0 <= i < |data| ensures !("id:" <= data[i]) && !("event:" <= data[i]) {
        DataLineOnly(item.data[i]);
      }
      LastValueSkips(head, data, "id:");
      LastValueSkips(head, data, "event:");
      DataOfDataLines(head, item.data);
      HeadMeans(item.id, item.name);
      hide LastValue, DataOf, TrimSpace, Joined, DataLines, PlainLine;
      assert SkipEmpty([] + item.data) == item.data;
    } else {
      KeepaliveMeans();
    }
  }

  lemma HeadMeans(id: string, name: string)
    ensures var head := ["id:" + id, "event:" + name];
      LastValue(head, "id:") == TrimSpace(id) && LastValue(head, "event:") == TrimSpace(name) && DataOf(head) == []
  {
    hide TrimSpace;
    var a: string, b: string := "id:" + id, "event:" + name;
    assert "id:" <= a && "event:" <= b;
    FieldsDiffer(a);
    FieldsDiffer(b);
    assert a[3..] == id && b[6..] == name;
    assert [a, b][..1] == [a];
    assert [a, b] == [a] + [b] && [a] == [] + [a];
    DataOfSnoc([a], b);
    DataOfSnoc([], a);
  }

  lemma KeepaliveMeans()
    ensures Meaning([":keepalive"]) == RESET
  {
    hide TrimSpace;
    var line: string := ":keepalive";
    assert line[0] == ':';
    assert !("id:" <= line) && !("event:" <= line) && !("data:" <= line);
    assert [line][..0] == [];
  }

  lemma ItemLines(item: Item)
    requires Sendable(item)
    ensures "" !in ItemBlock(item)
    ensures forall i :: 0 <= i < |ItemBlock(item)| ==> PlainLine(ItemBlock(item)[i])
  {
    if item.Event? {
      EventLines(item.id, item.name, item.data);
      hide PlainLine;
    } else {
      KeepaliveLine();
    }
  }

  lemma KeepaliveLine()
    ensures PlainLine(":keepalive")
  {
    var line: string := ":keepalive";
    assert line[|line| - 1] == 'e';
  }

  lemma EventLines(id: string, name: string, data: seq<string>)
    requires PlainLine(id) && PlainLine(name) && forall d <- data :: PlainLine(d)
    ensures PlainLine("id:" + id) && PlainLine("event:" + name)
    ensures forall i :: 0 <= i < |data| ==> PlainLine(DataLines(data)[i]) && DataLines(data)[i] != ""
  {
    PlainTail("id:", id);
    PlainTail("event:", name);
    forall i | 0 <= i < |data|
      ensures PlainLine("data:" + data[i])
    {
      assert data[i] in data;
      PlainTail("data:", data[i]);
    }
    hide PlainLine;
  }

  lemma PlainTail(field: string, value: string)
    requires PlainLine(value) && '\n' !in field && field != "" && field[|field| - 1] != '\r'
    ensures PlainLine(field + value)
  {
  }

  /** The client receives exactly the events the server sent, in order, whatever keepalives come between. */
  lemma {:induction false} ServerEventsArrive(items: seq<Item>)
    requires forall i :: 0 <= i < |items| ==> Sendable(items[i])
    ensures Parse(Written(items)) == Sent(items)
  {
    if items != [] {
      var item, rest := items[0], items[1..];
      ServerEventsArrive(rest);
      FirstItemArrives(item, Written(rest));
      hide Parse, ItemBlock, Unlines, Sendable;
    }
  }

  lemma FirstItemArrives(item: Item, rest: string)
    requires Sendable(item)
    ensures Parse(Unlines(ItemBlock(item) + [""]) + rest) ==
            (if item.Event? then [Frame(item.id, item.name, Joined(item.data))] else []) + Parse(rest)
  {
    var block := ItemBlock(item) + [""];
    ItemMeans(item);
    ItemLines(item);
    ScanUnlines(block);
    EndsLineUnlines(block);
    ScanConcat(Unlines(block), rest);
    FirstBlock(ItemBlock(item), ScanLines(rest));
    if item.Event? {
      FirstKept(item.data);
    }
    Assoc(ItemBlock(item), [""], ScanLines(rest));
    hide Frames, ScanLines, ItemBlock, Unlines, Meaning, Joined, PlainLine, EndsLine;
  }

  lemma {:induction false} EndsLineUnlines(lines: seq<string>)
    ensures EndsLine(Unlines(lines))
  {
    if lines != [] {
      EndsLineUnlines(lines[1..]);
    }
  }
}
