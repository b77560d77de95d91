/**
 The incremental event-stream parser of internal/adapter/upstream/sse_reader.go. What becomes of an event's data
 (processEvent) is left open: an event is its type and its data text.
 */
module SseReader {
  import opened Wrappers
  import Trimming

  datatype Event = Event(eventType: string, data: string)

  // ----- Lines -----

  /** unicode.IsSpace. */
  predicate IsSpace(c: char) {
    c in {'\t', '\n', '\U{B}', '\U{C}', '\r', ' ', '\U{85}', '\U{A0}', '\U{1680}', '\U{2028}', '\U{2029}', '\U{202F}', '\U{205F}', '\U{3000}'}
    || '\U{2000}' <= c <= '\U{200A}'
  }

  /** strings.TrimSpace. */
  function Trim(s: string): string {
    Trimming.Trim(IsSpace, s)
  }

  predicate Blank(line: string) {
    Trim(line) == ""
  }

  predicate AllSpace(s: string) {
    Trimming.AllIn(IsSpace, s)
  }

  predicate NoNewline(s: string) {
    forall i :: 0 <= i < |s| ==> s[i] != '\n'
  }

  /** strings.Split(s, "\n"). */
  function Split(s: string): (lines: seq<string>)
    ensures lines != []
  {
    if s == "" then [""]
    else
      var r := Split(s[1..]);
      if s[0] == '\n' then [""] + r else [[s[0]] + r[0]] + r[1..]
  }

  /** The lines with a newline between them. */
  function JoinLines(lines: seq<string>): string {
    if lines == [] then "" else if |lines| == 1 then lines[0] else lines[0] + "\n" + JoinLines(lines[1..])
  }

  // ----- Scanning for an event -----

  datatype Pending = Pending(eventType: string, data: seq<string>)

  /** What a line that is not blank adds to the event being read. */
  function AddLine(st: Pending, line: string): Pending {
    var t := Trim(line);
    if "event:" <= t then st.(eventType := Trim(t[6..]))
    else if "data:" <= t then st.(data := st.data + [Trim(t[5..])])
    else st
  }

  /** The first blank line after some data ends the event; the lines after it are left over. */
  function Scan(lines: seq<string>, st: Pending): Option<(Pending, seq<string>)> {
    if lines == [] then None
    else if Blank(lines[0]) then (if st.data != [] then Some((st, lines[1..])) else Scan(lines[1..], st))
    else Scan(lines[1..], AddLine(st, lines[0]))
  }

  const Nothing := Pending("", [])

  function ToEvent(st: Pending): Event {
    Event(st.eventType, JoinLines(st.data))
  }

  /** The event found in a text, and the text left over. */
  function Parsed(text: string): (Option<Event>, string) {
    match Scan(Split(text), Nothing)
    case None => (None, text)
    case Some((st, rest)) => (Some(ToEvent(st)), JoinLines(rest))
  }

  class SSEReader {
    var buffer: string

    constructor ()
      ensures buffer == ""
    {
      buffer := "";
    }

    method ParseEvent(data: string) returns (r: Option<Event>)
      modifies this
      ensures (r, buffer) == Parsed(old(buffer) + data)
    {
      buffer := buffer + data;
      var lines := Split(buffer);
      var eventType := "";
      var eventData: seq<string> := [];
      var i := 0;
      while i < |lines|
        invariant 0 <= i <= |lines|
        invariant buffer == old(buffer) + data
        invariant Scan(lines[i..], Pending(eventType, eventData)) == Scan(lines, Nothing)
      {
        assert lines[i..][0] == lines[i] && lines[i..][1..] == lines[i + 1..];
        var line := Trim(lines[i]);
        if line == "" {
          if |eventData| > 0 {
            assert Scan(lines, Nothing) == Some((Pending(eventType, eventData), lines[i + 1..]));
            var dataStr := JoinLines(eventData);
            buffer := Unprocessed(lines, i);
            return Some(Event(eventType, dataStr));
          }
        } else if "event:" <= line {
          eventType := Trim(line[6..]);
        } else if "data:" <= line {
          eventData := eventData + [Trim(line[5..])];
        }
        i := i + 1;
      }
      return None;
    }
  }

  /** The lines after the i-th, written back with newlines between them. */
  method Unprocessed(lines: seq<string>, i: nat) returns (buffer: string)
    requires i < |lines|
    ensures buffer == JoinLines(lines[i + 1..])
  {
    buffer := "";
    var j := i + 1;
    while j < |lines|
      invariant i + 1 <= j <= |lines|
      invariant buffer + JoinLines(lines[j..]) == JoinLines(lines[i + 1..])
    {
      assert lines[j..][0] == lines[j] && lines[j..][1..] == lines[j + 1..];
      buffer := buffer + lines[j];
      if j < |lines| - 1 {
        buffer := buffer + "\n";
      }
      j := j + 1;
    }
    assert lines[j..] == [] && buffer + "" == buffer;
  }

  // ----- Text as lines -----

  /** Each line followed by a newline. */
  function Text(lines: seq<string>): string {
    if lines == [] then "" else lines[0] + "\n" + Text(lines[1..])
  }

  lemma {:induction false} SplitJoined(s: string)
    ensures JoinLines(Split(s)) == s
  {
    if s == "" {
    } else {
      var r := Split(s[1..]);
      SplitJoined(s[1..]);
      assert s == [s[0]] + s[1..];
      if s[0] == '\n' {
        assert ([""] + r)[1..] == r;
      } else {
        assert ([[s[0]] + r[0]] + r[1..])[1..] == r[1..];
        assert |r| > 1 ==> [s[0]] + r[0] + "\n" + JoinLines(r[1..]) == [s[0]] + (r[0] + "\n" + JoinLines(r[1..]));
      }
    }
  }

  lemma {:induction false} SplitLine(p: string)
    requires NoNewline(p)
    ensures Split(p) == [p]
  {
    if p == "" {
    } else {
      SplitLine(p[1..]);
      assert p == [p[0]] + p[1..];
    }
  }

  lemma {:induction false} SplitFirst(l: string, t: string)
    requires NoNewline(l)
    ensures Split(l + "\n" + t) == [l] + Split(t)
  {
    var s := l + "\n" + t;
    if l == "" {
      assert s[0] == '\n' && s[1..] == t;
    } else {
      assert s[1..] == l[1..] + "\n" + t;
      SplitFirst(l[1..], t);
      assert l == [l[0]] + l[1..];
      assert ([l[1..]] + Split(t))[1..] == Split(t);
    }
  }

  ghost predicate Lines(ls: seq<string>) {
    forall i :: 0 <= i < |ls| ==> NoNewline(ls[i])
  }

  /** Complete lines and a pending one split into just these. */
  lemma {:induction false} SplitText(ls: seq<string>, p: string)
    requires Lines(ls) && NoNewline(p)
    ensures Split(Text(ls) + p) == ls + [p] && JoinLines(ls + [p]) == Text(ls) + p
  {
    if ls == [] {
      SplitLine(p);
      assert Text(ls) + p == p && ls + [p] == [p];
    } else {
      SplitText(ls[1..], p);
      assert Text(ls) + p == ls[0] + "\n" + (Text(ls[1..]) + p);
      SplitFirst(ls[0], Text(ls[1..]) + p);
      assert ls + [p] == [ls[0]] + (ls[1..] + [p]);
      assert (ls + [p])[1..] == ls[1..] + [p];
    }
  }

  // ----- Blank lines -----

  lemma BlankIffAllSpace(s: string)
    ensures Blank(s) <==> AllSpace(s)
  {
    if AllSpace(s) {
      Trimming.TrimIsBetween(IsSpace, s, "", "");
      assert s + "" + "" == s;
    } else {
      var a, b := Trimming.TrimCutsEnds(IsSpace, s);
    }
  }

  // ----- Frames -----

  /**
   Lines that are not blank, one of them a data line at least, and the blank line that ends them. In front of them may
   stand lines that mean nothing, such as the comments that keep a connection alive and the blank lines after them.
   */
  datatype Frame = Frame(front: seq<string>, lines: seq<string>, end: string)

  function AddLines(st: Pending, ls: seq<string>): Pending
    decreases |ls|
  {
    if ls == [] then st else AddLines(AddLine(st, ls[0]), ls[1..])
  }

  /** Some line carries data. */
  predicate HasData(ls: seq<string>) {
    AddLines(Nothing, ls).data != []
  }

  ghost predicate NoBlank(ls: seq<string>) {
    forall i :: 0 <= i < |ls| ==> !Blank(ls[i])
  }

  /** The line is blank or carries no data. */
  predicate Idle(line: string) {
    !("data:" <= Trim(line))
  }

  ghost predicate AllIdle(ls: seq<string>) {
    forall i :: 0 <= i < |ls| ==> Idle(ls[i])
  }

  /** The line is blank or carries neither data nor an event type. */
  predicate Meaningless(line: string) {
    Idle(line) && !("event:" <= Trim(line))
  }

  ghost predicate AllMeaningless(ls: seq<string>) {
    forall i :: 0 <= i < |ls| ==> Meaningless(ls[i])
  }

  ghost predicate FrameOk(f: Frame) {
    Lines(f.front) && AllMeaningless(f.front) && Lines(f.lines) && NoBlank(f.lines) && HasData(f.lines) && NoNewline(f.end) && Blank(f.end)
  }

  function EventOf(f: Frame): Event {
    ToEvent(AddLines(Nothing, f.lines))
  }

  function FrameLines(fs: seq<Frame>): seq<string> {
    if fs == [] then [] else fs[0].front + fs[0].lines + [fs[0].end] + FrameLines(fs[1..])
  }

  function EventsOf(fs: seq<Frame>): seq<Event> {
    if fs == [] then [] else [EventOf(fs[0])] + EventsOf(fs[1..])
  }

  ghost predicate FramesOk(fs: seq<Frame>) {
    forall i :: 0 <= i < |fs| ==> FrameOk(fs[i])
  }

  // ----- What lines mean -----

  /** The code points of Unicode's white space. */
  predicate WhiteSpace(n: int) {
    || 9 <= n <= 13 || n in {0x20, 0x85, 0xA0, 0x1680, 0x2028, 0x2029, 0x202F, 0x205F, 0x3000} || 0x2000 <= n <= 0x200A
  }

  predicate Padding(s: string) {
    forall i :: 0 <= i < |s| ==> WhiteSpace(s[i] as int)
  }

  predicate Bare(s: string) {
    s != "" ==> !WhiteSpace(s[0] as int) && !WhiteSpace(s[|s| - 1] as int)
  }

  predicate Padded(line: string, a: string, name: string, b: string, x: string, c: string) {
    line == a + name + b + x + c && Padding(a) && Padding(b) && Padding(c) && Bare(x)
  }

  /** A field's name and value with any white space around each. */
  ghost predicate IsField(line: string, name: string, x: string) {
    exists a, b, c :: Padded(line, a, name, b, x, c)
  }

  datatype Field = Data(x: string) | Type(x: string) | NoField

  ghost predicate Means(line: string, field: Field) {
    match field
    case Data(x) => IsField(line, "data:", x)
    case Type(x) => IsField(line, "event:", x)
    case NoField => forall x :: !IsField(line, "data:", x) && !IsField(line, "event:", x)
  }

  lemma SpaceIsWhite(c: char)
    ensures IsSpace(c) <==> WhiteSpace(c as int)
  {
  }

  lemma SpacesAreWhite(s: string)
    ensures AllSpace(s) <==> Padding(s)
    ensures Trimming.Trimmed(IsSpace, s) <==> Bare(s)
  {
    forall i | 0 <= i < |s| ensures IsSpace(s[i]) <==> WhiteSpace(s[i] as int) {
      SpaceIsWhite(s[i]);
    }
  }

  /** White space around a text is trimmed off, and nothing else. */
  lemma TrimIs(a: string, x: string, c: string)
    requires Padding(a) && Padding(c) && Bare(x)
    ensures Trim(a + x + c) == x
  {
    SpacesAreWhite(a);
    SpacesAreWhite(c);
    SpacesAreWhite(x);
    Trimming.TrimIsBetween(IsSpace, a, x, c);
  }

  lemma TrimCuts(s: string) returns (a: string, c: string)
    ensures s == a + Trim(s) + c && Padding(a) && Padding(c) && Bare(Trim(s))
  {
    a, c := Trimming.TrimCutsEnds(IsSpace, s);
    SpacesAreWhite(a);
    SpacesAreWhite(c);
    SpacesAreWhite(Trim(s));
  }

  /** A field stands in the trimmed line behind its name. */
  lemma FieldInLine(line: string, name: string, x: string)
    requires name != "" && Bare(name) && IsField(line, name, x)
    ensures name <= Trim(line) && Trim(Trim(line)[|name|..]) == x
  {
    var a, b, c :| Padded(line, a, name, b, x, c);
    if x == "" {
      assert line == a + name + (b + c);
      TrimIs(a, name, b + c);
      TrimIs("", "", "");
      assert Trim(line)[|name|..] == "" + "" + "";
    } else {
      FieldWithText(line, a, name, b, x, c);
    }
  }

  lemma FieldWithText(line: string, a: string, name: string, b: string, x: string, c: string)
    requires name != "" && Bare(name) && x != "" && Padded(line, a, name, b, x, c)
    ensures name <= Trim(line) && Trim(Trim(line)[|name|..]) == x
  {
    var t := name + b + x;
    assert line == a + t + c && t[0] == name[0] && t[|t| - 1] == x[|x| - 1];
    TrimIs(a, t, c);
    TrimIs(b, x, "");
    assert t[|name|..] == b + x + "";
  }

  lemma NamesAreBare()
    ensures Bare("data:") && Bare("event:")
  {
    assert "data:"[0] == 'd' && "data:"[4] == ':' && "event:"[0] == 'e' && "event:"[5] == ':';
  }

  /** The text behind a name in the trimmed line is a field of that name. */
  lemma LineHasField(line: string, name: string)
    requires name <= Trim(line)
    ensures IsField(line, name, Trim(Trim(line)[|name|..]))
  {
    var t := Trim(line);
    var a, d := TrimCuts(line);
    var b, c := TrimCuts(t[|name|..]);
    var x := Trim(t[|name|..]);
    assert t == name + t[|name|..];
    assert line == a + name + b + x + (c + d);
    assert Padded(line, a, name, b, x, c + d);
  }

  /** What a line adds, whatever white space stands around its parts. */
  lemma LineAdds(st: Pending, line: string, field: Field)
    requires Means(line, field)
    ensures AddLine(st, line) == match field
                                 case Data(x) => Pending(st.eventType, st.data + [x])
                                 case Type(x) => Pending(x, st.data)
                                 case NoField => st
  {
    NamesAreBare();
    match field
    case Data(x) =>
      FieldInLine(line, "data:", x);
      assert Trim(line)[0] == 'd' != "event:"[0];
    case Type(x) => FieldInLine(line, "event:", x);
    case NoField =>
      if "data:" <= Trim(line) {
        LineHasField(line, "data:");
      }
      if "event:" <= Trim(line) {
        LineHasField(line, "event:");
      }
  }

  /** Every line means something. */
  lemma EveryLineMeans(line: string) returns (field: Field)
    ensures Means(line, field)
  {
    if x :| IsField(line, "data:", x) {
      field := Data(x);
    } else if x :| IsField(line, "event:", x) {
      field := Type(x);
    } else {
      field := NoField;
    }
  }

  /** The texts of the data fields, in order. */
  function DataTexts(fields: seq<Field>): seq<string> {
    if fields == [] then [] else (if fields[0].Data? then [fields[0].x] else []) + DataTexts(fields[1..])
  }

  /** The last event type, or the one there was before. */
  function LastType(before: string, fields: seq<Field>): string
    decreases |fields|
  {
    if fields == [] then before else LastType(if fields[0].Type? then fields[0].x else before, fields[1..])
  }

  ghost predicate AllMean(ls: seq<string>, fields: seq<Field>) {
    |fields| == |ls| && forall i :: 0 <= i < |ls| ==> Means(ls[i], fields[i])
  }

  lemma {:induction false} LinesAdd(st: Pending, ls: seq<string>, fields: seq<Field>)
    requires AllMean(ls, fields)
    ensures AddLines(st, ls) == Pending(LastType(st.eventType, fields), st.data + DataTexts(fields))
    decreases |ls|
  {
    if ls == [] {
      assert st.data + [] == st.data;
    } else {
      LineAdds(st, ls[0], fields[0]);
      LinesAdd(AddLine(st, ls[0]), ls[1..], fields[1..]);
      Rejoin(st.data, if fields[0].Data? then [fields[0].x] else [], DataTexts(fields[1..]));
    }
  }

  lemma Rejoin<T>(a: seq<T>, b: seq<T>, c: seq<T>)
    ensures a + b + c == a + (b + c) && a + [] == a
  {
  }

  /** The event of a frame has the last type its lines name and the texts of their data, a newline between each two. */
  lemma EventOfFields(f: Frame, fields: seq<Field>)
    requires AllMean(f.lines, fields)
    ensures EventOf(f) == Event(LastType("", fields), JoinLines(DataTexts(fields)))
  {
    LinesAdd(Nothing, f.lines, fields);
    assert [] + DataTexts(fields) == DataTexts(fields);
  }

  /** The same lines with a carriage return at the end of each. */
  function WithReturns(ls: seq<string>): seq<string> {
    if ls == [] then [] else [ls[0] + "\r"] + WithReturns(ls[1..])
  }

  lemma ReturnIsTrimmed(l: string)
    ensures Trim(l + "\r") == Trim(l)
    ensures NoNewline(l) ==> NoNewline(l + "\r")
  {
    var a, c := TrimCuts(l);
    TrimIs(a, Trim(l), c + "\r");
    assert l + "\r" == a + Trim(l) + (c + "\r");
  }

  lemma {:induction false} ReturnsAddNothing(st: Pending, ls: seq<string>)
    ensures |WithReturns(ls)| == |ls| && AddLines(st, WithReturns(ls)) == AddLines(st, ls)
    ensures forall i :: 0 <= i < |ls| ==> Trim(WithReturns(ls)[i]) == Trim(ls[i]) && (NoNewline(ls[i]) ==> NoNewline(WithReturns(ls)[i]))
    decreases |ls|
  {
    if ls == [] {
    } else {
      ReturnIsTrimmed(ls[0]);
      ReturnsAddNothing(AddLine(st, ls[0]), ls[1..]);
      assert WithReturns(ls)[1..] == WithReturns(ls[1..]);
    }
  }

  /** A frame whose lines end in carriage returns is a frame of the same event. */
  lemma ReturnsDoNotMatter(f: Frame)
    requires FrameOk(f)
    ensures var g := Frame(WithReturns(f.front), WithReturns(f.lines), f.end + "\r"); FrameOk(g) && EventOf(g) == EventOf(f)
  {
    ReturnIsTrimmed(f.end);
    ReturnsAddNothing(Nothing, f.front);
    ReturnsAddNothing(Nothing, f.lines);
  }

  // ----- What lines add -----

  lemma {:induction false} AddLinesConcat(st: Pending, a: seq<string>, b: seq<string>)
    ensures AddLines(st, a + b) == AddLines(AddLines(st, a), b)
    decreases |a|
  {
    if a == [] {
      assert a + b == b;
    } else {
      assert (a + b)[1..] == a[1..] + b;
      AddLinesConcat(AddLine(st, a[0]), a[1..], b);
    }
  }

  /** Data comes after the data there was, whatever the event type. */
  lemma {:induction false} DataAdds(st: Pending, ls: seq<string>)
    ensures AddLines(st, ls).data == st.data + AddLines(Nothing, ls).data
    decreases |ls|
  {
    if ls == [] {
      assert st.data + [] == st.data;
    } else {
      var one, two := AddLine(st, ls[0]), AddLine(Nothing, ls[0]);
      DataAdds(one, ls[1..]);
      DataAdds(two, ls[1..]);
      assert one.data == st.data + two.data;
    }
  }

  lemma AddsDataIffNotIdle(st: Pending, line: string)
    ensures AddLine(st, line).data == if Idle(line) then st.data else st.data + [Trim(Trim(line)[5..])]
  {
    var t := Trim(line);
    assert "event:" <= t ==> t[0] == "event:"[0];
    assert "data:" <= t ==> t[0] == "data:"[0];
  }

  lemma {:induction false} NoDataIffIdle(ls: seq<string>)
    ensures !HasData(ls) <==> AllIdle(ls)
  {
    if ls == [] {
    } else {
      AddsDataIffNotIdle(Nothing, ls[0]);
      DataAdds(AddLine(Nothing, ls[0]), ls[1..]);
      NoDataIffIdle(ls[1..]);
      assert AllIdle(ls) <==> Idle(ls[0]) && AllIdle(ls[1..]) by {
        assert forall i :: 0 < i < |ls| ==> ls[i] == ls[1..][i - 1];
      }
    }
  }

  // ----- Scanning frames -----

  lemma {:induction false} ScanIdle(bs: seq<string>, rest: seq<string>, st: Pending)
    requires AllIdle(bs) && st.data == []
    ensures Scan(bs + rest, st) == Scan(rest, AddLines(st, bs)) && AddLines(st, bs).data == []
    decreases |bs|
  {
    if bs == [] {
      assert bs + rest == rest;
    } else {
      assert (bs + rest)[1..] == bs[1..] + rest;
      ScanIdle(bs[1..], rest, AddLine(st, bs[0]));
    }
  }

  lemma {:induction false} ScanLines(ls: seq<string>, rest: seq<string>, st: Pending)
    requires NoBlank(ls)
    ensures Scan(ls + rest, st) == Scan(rest, AddLines(st, ls))
    decreases |ls|
  {
    if ls == [] {
      assert ls + rest == rest;
    } else {
      assert (ls + rest)[1..] == ls[1..] + rest;
      ScanLines(ls[1..], rest, AddLine(st, ls[0]));
    }
  }

  /**
   Lines without a blank one among them, and a pending line: an event comes out exactly if there is data and the
   pending line is blank.
   */
  lemma ScanPending(bs: seq<string>, ls: seq<string>, p: string)
    requires AllIdle(bs) && NoBlank(ls)
    ensures Scan(bs + ls + [p], Nothing) ==
            if HasData(ls) && Blank(p) then Some((AddLines(AddLines(Nothing, bs), ls), [])) else None
  {
    assert bs + ls + [p] == bs + (ls + [p]);
    ScanIdle(bs, ls + [p], Nothing);
    var carry := AddLines(Nothing, bs);
    ScanLines(ls, [p], carry);
    DataAdds(carry, ls);
    assert [p][1..] == [];
    assert [] + AddLines(Nothing, ls).data == AddLines(Nothing, ls).data;
  }

  /** A whole frame and its blank line: its event comes out, and everything after is left over. */
  lemma ScanFrame(bs: seq<string>, f: Frame, e: string, rest: seq<string>)
    requires AllIdle(bs) && FrameOk(f) && Blank(e)
    ensures Scan(bs + f.lines + [e] + rest, Nothing) == Some((AddLines(AddLines(Nothing, bs), f.lines), rest))
  {
    assert bs + f.lines + [e] + rest == bs + (f.lines + ([e] + rest));
    ScanIdle(bs, f.lines + ([e] + rest), Nothing);
    var carry := AddLines(Nothing, bs);
    ScanLines(f.lines, [e] + rest, carry);
    DataAdds(carry, f.lines);
    assert ([e] + rest)[1..] == rest;
  }

  lemma ParsedPending(b: string, bs: seq<string>, ls: seq<string>, p: string)
    requires AllIdle(bs) && NoBlank(ls) && Split(b) == bs + ls + [p]
    ensures Parsed(b) == if HasData(ls) && Blank(p) then (Some(ToEvent(AddLines(AddLines(Nothing, bs), ls))), "") else (None, b)
  {
    ScanPending(bs, ls, p);
  }

  lemma ParsedFrame(b: string, bs: seq<string>, f: Frame, e: string, rest: seq<string>)
    requires AllIdle(bs) && FrameOk(f) && Blank(e) && Split(b) == bs + f.lines + [e] + rest
    ensures Parsed(b) == (Some(ToEvent(AddLines(AddLines(Nothing, bs), f.lines))), JoinLines(rest))
  {
    ScanFrame(bs, f, e, rest);
  }

  // ----- Places in a text -----

  /** The line in which the text of some lines breaks off after c characters, and how much of it there is. */
  function LineAt(ls: seq<string>, c: nat): (i: nat)
    ensures i <= |ls|
  {
    if ls == [] || c <= |ls[0]| then 0 else 1 + LineAt(ls[1..], c - |ls[0]| - 1)
  }

  function PartAt(ls: seq<string>, c: nat): string {
    if ls == [] then "" else if c <= |ls[0]| then ls[0][..c] else PartAt(ls[1..], c - |ls[0]| - 1)
  }

  lemma {:induction false} TextOfConcat(a: seq<string>, b: seq<string>)
    ensures Text(a + b) == Text(a) + Text(b)
  {
    if a == [] {
      assert a + b == b;
    } else {
      assert (a + b)[1..] == a[1..] + b;
      TextOfConcat(a[1..], b);
    }
  }

  /** The length of the text of some lines. */
  function TextLength(ls: seq<string>): nat {
    if ls == [] then 0 else |ls[0]| + 1 + TextLength(ls[1..])
  }

  lemma {:induction false} TextHasLength(ls: seq<string>)
    ensures |Text(ls)| == TextLength(ls)
  {
    if ls == [] {
    } else {
      TextHasLength(ls[1..]);
    }
  }

  lemma LengthOfConcat(a: seq<string>, b: seq<string>)
    ensures TextLength(a + b) == TextLength(a) + TextLength(b)
  {
    TextOfConcat(a, b);
    TextHasLength(a);
    TextHasLength(b);
    TextHasLength(a + b);
  }

  /** The line in which a text breaks off is the one that begins before and ends after. */
  lemma {:induction false} LineAtBounds(ls: seq<string>, c: nat)
    requires c < TextLength(ls)
    ensures var i := LineAt(ls, c);
            && i < |ls| && TextLength(ls[..i]) <= c <= TextLength(ls[..i]) + |ls[i]|
            && PartAt(ls, c) == ls[i][..c - TextLength(ls[..i])]
    decreases |ls|
  {
    if c <= |ls[0]| {
      assert ls[..0] == [];
    } else {
      LineAtBounds(ls[1..], c - |ls[0]| - 1);
      var i := LineAt(ls, c);
      assert ls[..i][1..] == ls[1..][..i - 1];
    }
  }

  /** A part of a text that breaks off in a certain line, after c characters. */
  lemma SeenIn(head: seq<string>, l: string, c: nat, more: seq<string>, b: string, r: string)
    requires Lines(head) && NoNewline(l) && b + r == Text(head + ([l] + more)) && c <= |l| && |b| == |Text(head)| + c
    ensures Split(b) == head + [l[..c]] && r == Text([l[c..]] + more)
  {
    var p, rest := l[..c], l[c..] + ("\n" + Text(more));
    TextOfConcat(head, [l] + more);
    TextOfLine(l, more);
    TextOfLine(l[c..], more);
    CutInTwo(l, c, "\n" + Text(more));
    BeginsWith(Text(head), p, rest, b, r);
    SplitText(head, p);
  }

  lemma CutInTwo(l: string, c: nat, t: string)
    requires c <= |l|
    ensures l + t == l[..c] + (l[c..] + t)
  {
    assert l == l[..c] + l[c..];
  }

  lemma TextOfLine(l: string, more: seq<string>)
    ensures Text([l] + more) == l + ("\n" + Text(more))
  {
    assert ([l] + more)[1..] == more;
    assert l + "\n" + Text(more) == l + ("\n" + Text(more));
  }

  lemma BeginsWith(a: string, p: string, rest: string, b: string, r: string)
    requires b + r == a + (p + rest) && |b| == |a| + |p|
    ensures b == a + p && r == rest
  {
    assert a + (p + rest) == (a + p) + rest;
    assert b == (b + r)[..|b|] && r == (b + r)[|b|..];
    assert a + p == ((a + p) + rest)[..|b|] && rest == ((a + p) + rest)[|b|..];
  }

  lemma LineInFront(l: string, x: string, t: string)
    ensures l + "\n" + x + t == l + "\n" + (x + t)
  {
  }

  lemma HeadInFront(head: seq<string>, rest: seq<string>)
    requires head != []
    ensures head + rest == [head[0]] + (head[1..] + rest)
  {
  }

  lemma {:induction false} SplitAfterText(head: seq<string>, t: string)
    requires Lines(head)
    ensures Split(Text(head) + t) == head + Split(t)
  {
    if head == [] {
      assert Text(head) + t == t && head + Split(t) == Split(t);
    } else {
      SplitAfterText(head[1..], t);
      LineInFront(head[0], Text(head[1..]), t);
      SplitFirst(head[0], Text(head[1..]) + t);
      HeadInFront(head, Split(t));
    }
  }

  /** A part of a text that goes on after certain lines. */
  lemma SeenPast(head: seq<string>, more: seq<string>, b: string, r: string) returns (rest: seq<string>)
    requires Lines(head) && b + r == Text(head + more) && |Text(head)| <= |b|
    ensures rest != [] && Split(b) == head + rest && JoinLines(rest) + r == Text(more)
  {
    TextOfConcat(head, more);
    var b' := b[|Text(head)|..];
    assert b == Text(head) + b' by {
      assert b[..|Text(head)|] == (b + r)[..|Text(head)|] == (Text(head) + Text(more))[..|Text(head)|] == Text(head);
    }
    BeginCancels(Text(head), b', Text(more), r);
    SplitAfterText(head, b');
    rest := Split(b');
    SplitJoined(b');
  }

  lemma BeginCancels(a: string, b: string, c: string, r: string)
    requires a + b + r == a + c
    ensures b + r == c
  {
    assert (a + b + r)[|a|..] == b + r && (a + c)[|a|..] == c;
  }

  /** A part of a text that breaks off among certain lines, c characters into them. */
  lemma SeenAmong(idle: seq<string>, ls: seq<string>, more: seq<string>, c: nat, b: string, r: string) returns (i: nat, p: string)
    requires Lines(idle) && Lines(ls) && b + r == Text(idle + ls + more)
    requires |b| == TextLength(idle) + c && c < TextLength(ls)
    ensures i == LineAt(ls, c) && i < |ls| && p == PartAt(ls, c) && p <= ls[i]
    ensures Split(b) == idle + ls[..i] + [p] && r == Text([ls[i][|p|..]] + (ls[i + 1..] + more))
  {
    LineAtBounds(ls, c);
    i, p := LineAt(ls, c), PartAt(ls, c);
    LengthOfConcat(idle, ls[..i]);
    TextHasLength(idle + ls[..i]);
    Surround(idle, ls, more, i);
    SeenIn(idle + ls[..i], ls[i], |p|, ls[i + 1..] + more, b, r);
  }

  lemma Surround(idle: seq<string>, ls: seq<string>, more: seq<string>, i: nat)
    requires i < |ls|
    ensures idle + ls + more == idle + ls[..i] + ([ls[i]] + (ls[i + 1..] + more))
  {
    assert ls == ls[..i] + ([ls[i]] + ls[i + 1..]);
  }

  // ----- One call on lines -----

  lemma BeginningOfBlank(p: string, l: string)
    requires Blank(l) && p <= l
    ensures Blank(p) && Blank(l[|p|..])
  {
    BlankIffAllSpace(l);
    BlankIffAllSpace(p);
    BlankIffAllSpace(l[|p|..]);
  }

  /** The text breaks off among lines without data, or right behind them. */
  lemma CallInIdle(idle: seq<string>, more: seq<string>, b: string, r: string)
    requires Lines(idle) && AllIdle(idle) && b + r == Text(idle + more) && |b| <= TextLength(idle)
    ensures Parsed(b) == (None, b)
  {
    var taken, p := SeenInIdle(idle, more, b, r);
    assert taken + [] == taken;
    ParsedPending(b, taken, [], p);
  }

  lemma SeenInIdle(idle: seq<string>, more: seq<string>, b: string, r: string) returns (taken: seq<string>, p: string)
    requires Lines(idle) && b + r == Text(idle + more) && |b| <= TextLength(idle)
    ensures taken <= idle && Split(b) == taken + [p]
  {
    if |b| < TextLength(idle) {
      var none: seq<string> := [];
      assert none + idle + more == idle + more;
      var i;
      i, p := SeenAmong(none, idle, more, |b|, b, r);
      taken := idle[..i];
      assert none + taken == taken;
    } else {
      TextHasLength(idle);
      TextOfConcat(idle, more);
      assert b == (b + r)[..|b|] == Text(idle) + "";
      SplitText(idle, "");
      taken, p := idle, "";
    }
  }

  /** The text breaks off among lines that are not blank, c characters into them. */
  lemma CallInLines(idle: seq<string>, ls: seq<string>, more: seq<string>, c: nat, b: string, r: string)
    requires Lines(idle) && AllIdle(idle) && Lines(ls) && NoBlank(ls) && b + r == Text(idle + ls + more)
    requires |b| == TextLength(idle) + c && c < TextLength(ls)
    ensures HasData(ls[..LineAt(ls, c)]) && Blank(PartAt(ls, c)) ==>
              Parsed(b) == (Some(ToEvent(AddLines(AddLines(Nothing, idle), ls[..LineAt(ls, c)]))), "")
    ensures !(HasData(ls[..LineAt(ls, c)]) && Blank(PartAt(ls, c))) ==> Parsed(b) == (None, b)
  {
    var i, p := SeenAmong(idle, ls, more, c, b, r);
    ParsedPending(b, idle, ls[..i], p);
  }

  /** It breaks off in the blank line of the frame, k characters into it. */
  lemma CallInEnd(idle: seq<string>, f: Frame, k: nat, more: seq<string>, b: string, r: string)
    requires Lines(idle) && AllIdle(idle) && FrameOk(f) && b + r == Text(idle + f.lines + ([f.end] + more))
    requires k <= |f.end| && |b| == TextLength(idle) + TextLength(f.lines) + k
    ensures Parsed(b) == (Some(ToEvent(AddLines(AddLines(Nothing, idle), f.lines))), "")
    ensures r == Text([f.end[k..]] + more)
  {
    LengthOfConcat(idle, f.lines);
    TextHasLength(idle + f.lines);
    SeenIn(idle + f.lines, f.end, k, more, b, r);
    BeginningOfBlank(f.end[..k], f.end);
    assert idle + f.lines + [f.end[..k]] + [] == idle + f.lines + [f.end[..k]];
    ParsedFrame(b, idle, f, f.end[..k], []);
  }

  /** It goes on after the blank line of the frame. */
  lemma CallPastEnd(idle: seq<string>, f: Frame, more: seq<string>, b: string, r: string)
    requires Lines(idle) && AllIdle(idle) && FrameOk(f) && b + r == Text(idle + f.lines + [f.end] + more)
    requires |b| > TextLength(idle) + TextLength(f.lines) + |f.end|
    ensures Parsed(b).0 == Some(ToEvent(AddLines(AddLines(Nothing, idle), f.lines)))
    ensures Parsed(b).1 + r == Text(more)
  {
    LengthOfConcat(idle, f.lines);
    LengthOfConcat(idle + f.lines, [f.end]);
    TextHasLength(idle + f.lines + [f.end]);
    assert [f.end][1..] == [];
    var rest := SeenPast(idle + f.lines + [f.end], more, b, r);
    ParsedFrame(b, idle, f, f.end, rest);
  }

  // ----- Where a stream is cut -----

  function Length(fs: seq<Frame>): nat
    decreases |fs|, 1
  {
    if fs == [] then 0 else TextLength(fs[0].front) + LengthFromLines(fs)
  }

  /** The length without what stands in front of the first frame's lines. */
  function LengthFromLines(fs: seq<Frame>): nat
    requires fs != []
    decreases |fs|, 0
  {
    TextLength(fs[0].lines) + |fs[0].end| + 1 + Length(fs[1..])
  }

  lemma {:induction false} LengthOfFrames(fs: seq<Frame>)
    ensures TextLength(FrameLines(fs)) == Length(fs)
  {
    if fs == [] {
    } else {
      LengthOfFrames(fs[1..]);
      LengthOfConcat(fs[0].front + fs[0].lines + [fs[0].end], FrameLines(fs[1..]));
      LengthOfConcat(fs[0].front + fs[0].lines, [fs[0].end]);
      LengthOfConcat(fs[0].front, fs[0].lines);
      assert [fs[0].end][1..] == [];
    }
  }

  /** With so many characters still to come, the first frame has been received up to its blank line. */
  predicate Done(fs: seq<Frame>, toCome: nat) {
    fs != [] && toCome <= |fs[0].end| + 1 + Length(fs[1..])
  }

  /** The characters of the first frame's lines received by then. */
  function CutAt(fs: seq<Frame>, toCome: nat): nat
    requires fs != []
  {
    if toCome <= LengthFromLines(fs) then LengthFromLines(fs) - toCome else 0
  }

  /** The lines of the first frame received in full, when it is not received up to its blank line. */
  function Received(fs: seq<Frame>, toCome: nat): (i: nat)
    requires fs != []
    ensures i <= |fs[0].lines|
  {
    LineAt(fs[0].lines, CutAt(fs, toCome))
  }

  /** The cut falls inside the first frame, after some data, in a line that is blank so far. */
  predicate CutsShort(fs: seq<Frame>, toCome: nat) {
    && fs != [] && !Done(fs, toCome) && HasData(fs[0].lines[..Received(fs, toCome)])
    && Blank(PartAt(fs[0].lines, CutAt(fs, toCome)))
  }

  // ----- One call on a stream -----

  /** What is still to come out: some lines without data, left over from the frame before, and then frames. */
  datatype Stream = Stream(idle: seq<string>, frames: seq<Frame>)

  ghost predicate StreamOk(st: Stream) {
    Lines(st.idle) && AllIdle(st.idle) && FramesOk(st.frames)
  }

  function LinesOf(st: Stream): seq<string> {
    st.idle + FrameLines(st.frames)
  }

  /** The event type left over with those lines. */
  function CarriedType(st: Stream): string {
    AddLines(Nothing, st.idle).eventType
  }

  /** The lines before those of the first frame. */
  function Before(st: Stream): seq<string> {
    if st.frames == [] then st.idle else st.idle + st.frames[0].front
  }

  lemma {:induction false} NothingAdded(st: Pending, ls: seq<string>)
    requires AllMeaningless(ls)
    ensures AddLines(st, ls) == st && AllIdle(ls)
  {
    if ls == [] {
    } else {
      assert Meaningless(ls[0]) && AddLine(st, ls[0]) == st;
      NothingAdded(st, ls[1..]);
      assert AllIdle(ls) by {
        assert forall i :: 0 < i < |ls| ==> ls[i] == ls[1..][i - 1];
      }
    }
  }

  lemma BeforeFirst(st: Stream)
    requires StreamOk(st)
    ensures Lines(Before(st)) && AllIdle(Before(st)) && AddLines(Nothing, Before(st)) == Pending(CarriedType(st), [])
    ensures st.frames != [] ==> TextLength(Before(st)) == TextLength(st.idle) + TextLength(st.frames[0].front)
  {
    NoDataIffIdle(st.idle);
    if st.frames != [] {
      assert FrameOk(st.frames[0]);
      AddLinesConcat(Nothing, st.idle, st.frames[0].front);
      NothingAdded(AddLines(Nothing, st.idle), st.frames[0].front);
      LengthOfConcat(st.idle, st.frames[0].front);
    }
  }

  /** How much has been seen of a stream. */
  lemma SeenLength(st: Stream, b: string, r: string)
    requires StreamOk(st) && b + r == Text(LinesOf(st))
    ensures |b| + |r| == TextLength(Before(st)) + if st.frames == [] then 0 else LengthFromLines(st.frames)
  {
    BeforeFirst(st);
    LengthOfConcat(st.idle, FrameLines(st.frames));
    LengthOfFrames(st.frames);
    TextHasLength(LinesOf(st));
    assert |b + r| == |b| + |r|;
  }

  /** The first frame of a stream and what is around it. */
  lemma FirstFrame(st: Stream)
    requires st.frames != []
    ensures var f, more := st.frames[0], FrameLines(st.frames[1..]);
            && LinesOf(st) == Before(st) + f.lines + ([f.end] + more)
            && LinesOf(st) == Before(st) + f.lines + [f.end] + more
            && LinesOf(st) == Before(st) + (f.lines + ([f.end] + more))
  {
  }

  /** The lines still to come from the k-th character of the i-th line of the first frame on. */
  function LeftOver(fs: seq<Frame>, i: nat, k: nat): seq<string>
    requires fs != [] && i < |fs[0].lines| && k <= |fs[0].lines[i]|
  {
    [fs[0].lines[i][k..]] + (fs[0].lines[i + 1..] + ([fs[0].end] + FrameLines(fs[1..])))
  }

  /** A call that has neither received the first frame up to its blank line nor finds it cut short returns nothing. */
  lemma CallBeforeEnd(st: Stream, b: string, r: string)
    requires StreamOk(st) && b + r == Text(LinesOf(st)) && !Done(st.frames, |r|) && !CutsShort(st.frames, |r|)
    ensures Parsed(b) == (None, b)
  {
    SeenLength(st, b, r);
    BeforeFirst(st);
    if st.frames == [] {
      CallInIdle(st.idle, [], b, r);
    } else if |r| >= LengthFromLines(st.frames) {
      FirstFrame(st);
      CallInIdle(Before(st), st.frames[0].lines + ([st.frames[0].end] + FrameLines(st.frames[1..])), b, r);
    } else {
      CallInFirst(st, CutAt(st.frames, |r|), b, r);
    }
  }

  lemma CallInFirst(st: Stream, c: nat, b: string, r: string)
    requires StreamOk(st) && b + r == Text(LinesOf(st)) && st.frames != []
    requires |b| == TextLength(Before(st)) + c && c < TextLength(st.frames[0].lines)
    ensures var ls := st.frames[0].lines;
            && (HasData(ls[..LineAt(ls, c)]) && Blank(PartAt(ls, c)) ==>
                  Parsed(b) == (Some(ToEvent(AddLines(Pending(CarriedType(st), []), ls[..LineAt(ls, c)]))), ""))
            && (!(HasData(ls[..LineAt(ls, c)]) && Blank(PartAt(ls, c))) ==> Parsed(b) == (None, b))
  {
    FirstFrame(st);
    BeforeFirst(st);
    assert FrameOk(st.frames[0]);
    CallInLines(Before(st), st.frames[0].lines, [st.frames[0].end] + FrameLines(st.frames[1..]), c, b, r);
  }

  /** A cut that shortens the first frame falls inside its lines. */
  lemma CutIsInside(fs: seq<Frame>, toCome: nat)
    requires CutsShort(fs, toCome)
    ensures CutAt(fs, toCome) == LengthFromLines(fs) - toCome && CutAt(fs, toCome) < TextLength(fs[0].lines)
    ensures Received(fs, toCome) < |fs[0].lines|
  {
    assert fs[0].lines[..0] == [];
    LineAtBounds(fs[0].lines, CutAt(fs, toCome));
  }

  /** A call that finds the first frame cut short returns an event of the lines so far. */
  lemma CallCutShort(st: Stream, b: string, r: string)
    requires StreamOk(st) && b + r == Text(LinesOf(st)) && CutsShort(st.frames, |r|)
    ensures Parsed(b) ==
            (Some(ToEvent(AddLines(Pending(CarriedType(st), []), st.frames[0].lines[..Received(st.frames, |r|)]))), "")
  {
    SeenLength(st, b, r);
    CutIsInside(st.frames, |r|);
    CallInFirst(st, CutAt(st.frames, |r|), b, r);
  }

  lemma LeftInFirst(st: Stream, c: nat, b: string, r: string) returns (k: nat)
    requires Lines(Before(st)) && st.frames != [] && Lines(st.frames[0].lines) && b + r == Text(LinesOf(st))
    requires |b| == TextLength(Before(st)) + c && c < TextLength(st.frames[0].lines)
    ensures var ls := st.frames[0].lines;
            && LineAt(ls, c) < |ls| && k <= |ls[LineAt(ls, c)]| && ls[LineAt(ls, c)][..k] == PartAt(ls, c)
            && r == Text(LeftOver(st.frames, LineAt(ls, c), k))
  {
    FirstFrame(st);
    var i, p := SeenAmong(Before(st), st.frames[0].lines, [st.frames[0].end] + FrameLines(st.frames[1..]), c, b, r);
    k := |p|;
  }

  /** The other lines are still to come, but for a blank beginning of the next. */
  lemma LeftAfterCut(st: Stream, b: string, r: string) returns (k: nat)
    requires StreamOk(st) && b + r == Text(LinesOf(st)) && CutsShort(st.frames, |r|)
    ensures Received(st.frames, |r|) < |st.frames[0].lines| && k <= |st.frames[0].lines[Received(st.frames, |r|)]|
    ensures Blank(st.frames[0].lines[Received(st.frames, |r|)][..k])
    ensures r == Text(LeftOver(st.frames, Received(st.frames, |r|), k))
  {
    SeenLength(st, b, r);
    CutIsInside(st.frames, |r|);
    BeforeFirst(st);
    assert FrameOk(st.frames[0]);
    k := LeftInFirst(st, CutAt(st.frames, |r|), b, r);
  }

  lemma BlankIsIdle(l: string)
    requires Blank(l)
    ensures Idle(l) && AddLine(Nothing, l) == Nothing
  {
  }

  /** What is left of a line after a blank beginning is trimmed to the same. */
  lemma TrimAfterBlank(l: string, k: nat)
    requires k <= |l| && Blank(l[..k])
    ensures Trim(l[k..]) == Trim(l)
  {
    BlankIffAllSpace(l[..k]);
    var a, b := Trimming.TrimCutsEnds(IsSpace, l[k..]);
    Trimming.TrimIsBetween(IsSpace, l[..k] + a, Trim(l[k..]), b);
    assert l == l[..k] + a + Trim(l[k..]) + b;
  }

  /** The rest of a blank line in front of frames. */
  lemma RestOfEnd(f: Frame, k: nat, fs: seq<Frame>) returns (st: Stream)
    requires FrameOk(f) && FramesOk(fs) && k <= |f.end|
    ensures StreamOk(st) && st.frames == fs && CarriedType(st) == "" && LinesOf(st) == [f.end[k..]] + FrameLines(fs)
  {
    var rest := f.end[k..];
    assert f.end[..k] <= f.end;
    BeginningOfBlank(f.end[..k], f.end);
    BlankIsIdle(rest);
    st := Stream([rest], fs);
    assert [rest][1..] == [];
    assert AddLines(Nothing, [rest]) == AddLines(Nothing, []);
  }

  /**
   A call that has received the first frame up to its blank line returns the frame's event, with the event type left
   over before it if the frame has none, and leaves a buffer from which the rest of the stream goes on.
   */
  lemma CallAtEnd(st: Stream, b: string, r: string) returns (st': Stream)
    requires StreamOk(st) && b + r == Text(LinesOf(st)) && Done(st.frames, |r|)
    ensures Parsed(b).0 == Some(ToEvent(AddLines(Pending(CarriedType(st), []), st.frames[0].lines)))
    ensures StreamOk(st') && Parsed(b).1 + r == Text(LinesOf(st'))
    ensures st'.frames == st.frames[1..] && CarriedType(st') == ""
  {
    SeenLength(st, b, r);
    FirstFrame(st);
    assert FrameOk(st.frames[0]);
    BeforeFirst(st);
    if |b| <= TextLength(Before(st)) + TextLength(st.frames[0].lines) + |st.frames[0].end| {
      var k := |b| - TextLength(Before(st)) - TextLength(st.frames[0].lines);
      CallInEnd(Before(st), st.frames[0], k, FrameLines(st.frames[1..]), b, r);
      st' := RestOfEnd(st.frames[0], k, st.frames[1..]);
      assert "" + r == r;
    } else {
      CallPastEnd(Before(st), st.frames[0], FrameLines(st.frames[1..]), b, r);
      st' := Stream([], st.frames[1..]);
      assert [] + FrameLines(st.frames[1..]) == FrameLines(st.frames[1..]);
    }
  }

  /** After a frame was cut short with no data to come, its other lines are left over in front of the next frames. */
  lemma IdleRest(fs: seq<Frame>, i: nat, k: nat) returns (st: Stream)
    requires fs != [] && FramesOk(fs) && i < |fs[0].lines| && k <= |fs[0].lines[i]| && Blank(fs[0].lines[i][..k])
    requires AllIdle(fs[0].lines[i..])
    ensures StreamOk(st) && st.frames == fs[1..] && LinesOf(st) == LeftOver(fs, i, k)
    ensures CarriedType(st) == AddLines(Nothing, fs[0].lines[i..]).eventType
  {
    var f := fs[0];
    assert FrameOk(f);
    var idle := IdleLeft(f.lines, f.end, i, k);
    st := Stream(idle, fs[1..]);
    RegroupLeft([f.lines[i][k..]], f.lines[i + 1..], [f.end], FrameLines(fs[1..]));
  }

  lemma RegroupLeft<T>(a: seq<T>, b: seq<T>, c: seq<T>, d: seq<T>)
    ensures a + b + c + d == a + (b + (c + d))
  {
  }

  lemma IdleLeft(ls: seq<string>, end: string, i: nat, k: nat) returns (idle: seq<string>)
    requires i < |ls| && k <= |ls[i]| && Blank(ls[i][..k]) && AllIdle(ls[i..]) && Lines(ls) && Blank(end) && NoNewline(end)
    ensures idle == [ls[i][k..]] + ls[i + 1..] + [end] && AllIdle(idle) && Lines(idle)
    ensures AddLines(Nothing, idle) == AddLines(Nothing, ls[i..])
  {
    var l, rest, others := ls[i], ls[i][k..], ls[i + 1..];
    idle := [rest] + others + [end];
    assert [l] + others == ls[i..];
    TrimAfterBlank(l, k);
    SameCarry(rest, l, others, end);
    IdleLines(rest, l, others, end);
  }

  lemma IdleLines(rest: string, l: string, others: seq<string>, end: string)
    requires Trim(rest) == Trim(l) && Blank(end) && AllIdle([l] + others) && Lines(others) && NoNewline(rest) && NoNewline(end)
    ensures AllIdle([rest] + others + [end]) && Lines([rest] + others + [end])
  {
    BlankIsIdle(end);
    assert ([l] + others)[0] == l && forall j :: 0 <= j < |others| ==> others[j] == ([l] + others)[j + 1];
  }

  lemma SameCarry(rest: string, l: string, others: seq<string>, end: string)
    requires Trim(rest) == Trim(l) && Blank(end)
    ensures AddLines(Nothing, [rest] + others + [end]) == AddLines(Nothing, [l] + others)
  {
    AddLinesConcat(Nothing, [rest] + others, [end]);
    assert ([rest] + others)[1..] == others == ([l] + others)[1..];
    var carry := AddLines(Nothing, [rest] + others);
    assert [end][1..] == [] && AddLines(carry, [end]) == AddLines(AddLine(carry, end), []);
  }

  // ----- What a call consumes -----

  lemma {:induction false} ScanLeavesSuffix(lines: seq<string>, st: Pending)
    requires Scan(lines, st).Some?
    ensures var rest := Scan(lines, st).value.1; |rest| < |lines| && rest == lines[|lines| - |rest|..]
  {
    if Blank(lines[0]) {
      if st.data == [] {
        ScanLeavesSuffix(lines[1..], st);
      }
    } else {
      ScanLeavesSuffix(lines[1..], AddLine(st, lines[0]));
    }
  }

  lemma {:induction false} JoinOfSuffix(lines: seq<string>, i: nat)
    requires i <= |lines|
    ensures var all, tail := JoinLines(lines), JoinLines(lines[i..]); |tail| <= |all| && all[|all| - |tail|..] == tail
  {
    if i == 0 {
      assert lines[0..] == lines;
    } else if |lines| > 1 {
      assert lines[i..] == lines[1..][i - 1..];
      JoinOfSuffix(lines[1..], i - 1);
    } else {
      assert lines[i..] == [];
    }
  }

  /** What a call leaves in the buffer is the end of what it saw: nothing is lost, repeated or changed. */
  lemma EachCallLeavesASuffix(text: string)
    ensures var left := Parsed(text).1; |left| <= |text| && text == text[..|text| - |left|] + left
    ensures Parsed(text).0.None? ==> Parsed(text).1 == text
  {
    var lines := Split(text);
    SplitJoined(text);
    if Scan(lines, Nothing).Some? {
      ScanLeavesSuffix(lines, Nothing);
      var rest := Scan(lines, Nothing).value.1;
      JoinOfSuffix(lines, |lines| - |rest|);
    }
  }

  // ----- Runs of calls -----

  function Returned(r: Option<Event>): seq<Event> {
    if r.Some? then [r.value] else []
  }

  /** The events a sequence of calls returns, and the buffer it leaves. */
  function Calls(buffer: string, chunks: seq<string>): (seq<Event>, string)
    decreases |chunks|
  {
    if chunks == [] then ([], buffer)
    else
      var (r, left) := Parsed(buffer + chunks[0]);
      (Returned(r) + Calls(left, chunks[1..]).0, Calls(left, chunks[1..]).1)
  }

  function Concat(chunks: seq<string>): string {
    if chunks == [] then "" else chunks[0] + Concat(chunks[1..])
  }

  /** The number of characters still to come after the first of some chunks, with so many behind the last. */
  function ToCome(chunks: seq<string>, later: nat): nat
    requires chunks != []
  {
    |Concat(chunks[1..])| + later
  }

  /** A call returns an event: it has received the first frame up to its blank line, or finds it cut short. */
  predicate GivesEvent(fs: seq<Frame>, toCome: nat) {
    Done(fs, toCome) || CutsShort(fs, toCome)
  }

  /** That event, if some event type was left over before the frame, and the type it leaves over itself. */
  function EventAt(eventType: string, fs: seq<Frame>, toCome: nat): Event
    requires GivesEvent(fs, toCome)
  {
    ToEvent(AddLines(Pending(eventType, []), if Done(fs, toCome) then fs[0].lines else fs[0].lines[..Received(fs, toCome)]))
  }

  function TypeLeft(fs: seq<Frame>, toCome: nat): string
    requires GivesEvent(fs, toCome)
  {
    if Done(fs, toCome) then "" else AddLines(Nothing, fs[0].lines[Received(fs, toCome)..]).eventType
  }

  /** Every call that returns an event returns what the next frame stands for. */
  predicate Faithful(eventType: string, fs: seq<Frame>, chunks: seq<string>, later: nat)
    decreases |chunks|
  {
    chunks == [] ||
    var toCome := ToCome(chunks, later);
    if GivesEvent(fs, toCome) then
      EventAt(eventType, fs, toCome) == EventOf(fs[0]) && Faithful(TypeLeft(fs, toCome), fs[1..], chunks[1..], later)
    else Faithful(eventType, fs, chunks[1..], later)
  }

  lemma {:induction false} JoinGrows(a: seq<string>, b: seq<string>)
    requires a != [] && b != []
    ensures |JoinLines(a + b)| > |JoinLines(a)|
  {
    if |a| == 1 {
      assert (a + b)[0] == a[0] && (a + b)[1..] == b;
    } else {
      assert (a + b)[0] == a[0] && (a + b)[1..] == a[1..] + b;
      JoinGrows(a[1..], b);
    }
  }

  /** An event of the first lines of a frame has the data of the frame only if the other lines have none. */
  lemma SameDataRestIdle(eventType: string, ls: seq<string>, i: nat)
    requires i <= |ls| && HasData(ls[..i])
    requires ToEvent(AddLines(Pending(eventType, []), ls[..i])).data == ToEvent(AddLines(Nothing, ls)).data
    ensures AllIdle(ls[i..])
  {
    var first, rest := ls[..i], ls[i..];
    assert first + rest == ls;
    DataAdds(Pending(eventType, []), first);
    AddLinesConcat(Nothing, first, rest);
    DataAdds(AddLines(Nothing, first), rest);
    var a, b := AddLines(Nothing, first).data, AddLines(Nothing, rest).data;
    assert [] + a == a;
    if b != [] {
      JoinGrows(a, b);
    }
    NoDataIffIdle(rest);
  }

  /** The event type after some lines, if one was left over before them. */
  function TypeAfter(eventType: string, ls: seq<string>): string {
    AddLines(Pending(eventType, []), ls).eventType
  }

  /** The first lines of a frame make its event exactly if the others have no data and the event type is right already. */
  lemma SameEventIff(eventType: string, ls: seq<string>, i: nat)
    requires i <= |ls| && HasData(ls[..i])
    ensures ToEvent(AddLines(Pending(eventType, []), ls[..i])) == ToEvent(AddLines(Nothing, ls)) <==>
            AllIdle(ls[i..]) && TypeAfter(eventType, ls[..i]) == TypeAfter("", ls)
  {
    var first, rest := ls[..i], ls[i..];
    if AllIdle(rest) {
      assert first + rest == ls;
      NoDataIffIdle(rest);
      DataAdds(Pending(eventType, []), first);
      AddLinesConcat(Nothing, first, rest);
      DataAdds(AddLines(Nothing, first), rest);
      var a := AddLines(Nothing, first).data;
      assert [] + a == a && a + [] == a;
    } else if ToEvent(AddLines(Pending(eventType, []), first)) == ToEvent(AddLines(Nothing, ls)) {
      SameDataRestIdle(eventType, ls, i);
    }
  }

  /** When a call returns what the next frame stands for, said of the frame's lines. */
  lemma EventIsRightIff(eventType: string, fs: seq<Frame>, toCome: nat)
    requires GivesEvent(fs, toCome) && FrameOk(fs[0])
    ensures var ls := fs[0].lines;
            var i := if Done(fs, toCome) then |ls| else Received(fs, toCome);
            EventAt(eventType, fs, toCome) == EventOf(fs[0]) <==>
            AllIdle(ls[i..]) && TypeAfter(eventType, ls[..i]) == TypeAfter("", ls)
  {
    var ls := fs[0].lines;
    assert ls[..|ls|] == ls;
    SameEventIff(eventType, ls, if Done(fs, toCome) then |ls| else Received(fs, toCome));
  }

  lemma ConsPrefix<T>(x: T, xs: seq<T>, y: T, ys: seq<T>)
    ensures [x] + xs <= [y] + ys <==> x == y && xs <= ys
  {
    if [x] + xs <= [y] + ys {
      assert ([x] + xs)[0] == ([y] + ys)[0];
      assert forall i :: 0 <= i < |xs| ==> xs[i] == ([x] + xs)[i + 1] && ys[i] == ([y] + ys)[i + 1];
    }
  }

  /** One call: what it returns, and what is to come after it unless it spoils the frame. */
  lemma OneCall(st: Stream, b: string, r: string) returns (st': Stream)
    requires StreamOk(st) && b + r == Text(LinesOf(st))
    ensures GivesEvent(st.frames, |r|) ==> Parsed(b).0 == Some(EventAt(CarriedType(st), st.frames, |r|))
    ensures GivesEvent(st.frames, |r|) && EventAt(CarriedType(st), st.frames, |r|) == EventOf(st.frames[0]) ==>
              && StreamOk(st') && Parsed(b).1 + r == Text(LinesOf(st'))
              && st'.frames == st.frames[1..] && CarriedType(st') == TypeLeft(st.frames, |r|)
    ensures !GivesEvent(st.frames, |r|) ==> Parsed(b) == (None, b) && st' == st
  {
    st' := st;
    if Done(st.frames, |r|) {
      st' := CallAtEnd(st, b, r);
    } else if CutsShort(st.frames, |r|) {
      st' := OneCutCall(st, b, r);
    } else {
      CallBeforeEnd(st, b, r);
    }
  }

  lemma OneCutCall(st: Stream, b: string, r: string) returns (st': Stream)
    requires StreamOk(st) && b + r == Text(LinesOf(st)) && CutsShort(st.frames, |r|)
    ensures Parsed(b).0 == Some(EventAt(CarriedType(st), st.frames, |r|))
    ensures EventAt(CarriedType(st), st.frames, |r|) == EventOf(st.frames[0]) ==>
              && StreamOk(st') && Parsed(b).1 + r == Text(LinesOf(st'))
              && st'.frames == st.frames[1..] && CarriedType(st') == TypeLeft(st.frames, |r|)
  {
    st' := st;
    CallCutShort(st, b, r);
    var k := LeftAfterCut(st, b, r);
    assert "" + r == r;
    if EventAt(CarriedType(st), st.frames, |r|) == EventOf(st.frames[0]) {
      SameDataRestIdle(CarriedType(st), st.frames[0].lines, Received(st.frames, |r|));
      st' := IdleRest(st.frames, Received(st.frames, |r|), k);
    }
  }

  lemma Regroup<T>(a: seq<T>, b: seq<T>, c: seq<T>, d: seq<T>)
    ensures a + (b + c) + d == a + b + (c + d)
    ensures (a + b) + c == a + (b + c)
  {
  }

  /** The first of several calls, with what the others go on from. */
  lemma FirstCall(st: Stream, buffer: string, chunks: seq<string>, r: string)
    returns (st': Stream, got: seq<Event>, left: string)
    requires StreamOk(st) && buffer + Concat(chunks) + r == Text(LinesOf(st)) && chunks != []
    ensures Calls(buffer, chunks) == (got + Calls(left, chunks[1..]).0, Calls(left, chunks[1..]).1)
    ensures GivesEvent(st.frames, ToCome(chunks, |r|)) ==> got == [EventAt(CarriedType(st), st.frames, ToCome(chunks, |r|))]
    ensures GivesEvent(st.frames, ToCome(chunks, |r|)) && got == [EventOf(st.frames[0])] ==>
              && StreamOk(st') && left + Concat(chunks[1..]) + r == Text(LinesOf(st'))
              && st'.frames == st.frames[1..] && CarriedType(st') == TypeLeft(st.frames, ToCome(chunks, |r|))
    ensures !GivesEvent(st.frames, ToCome(chunks, |r|)) ==>
              got == [] && st' == st && left + Concat(chunks[1..]) + r == Text(LinesOf(st))
  {
    var b, r' := buffer + chunks[0], Concat(chunks[1..]) + r;
    Regroup(buffer, chunks[0], Concat(chunks[1..]), r);
    Regroup(b, Concat(chunks[1..]), r, []);
    assert |r'| == ToCome(chunks, |r|);
    st' := OneCall(st, b, r');
    got, left := Returned(Parsed(b).0), Parsed(b).1;
    Regroup(left, Concat(chunks[1..]), r, []);
  }

  /**
   However a stream of frames is cut into chunks: the calls return the events of the first frames in order exactly if
   the cuts are faithful.
   */
  lemma {:induction false} RunIff(st: Stream, buffer: string, chunks: seq<string>, r: string)
    requires StreamOk(st) && buffer + Concat(chunks) + r == Text(LinesOf(st))
    ensures Calls(buffer, chunks).0 <= EventsOf(st.frames) <==> Faithful(CarriedType(st), st.frames, chunks, |r|)
    decreases |chunks|
  {
    if chunks == [] {
    } else {
      var st', got, left := FirstCall(st, buffer, chunks, r);
      var toCome, others := ToCome(chunks, |r|), Calls(left, chunks[1..]).0;
      if GivesEvent(st.frames, toCome) {
        ConsPrefix(got[0], others, EventOf(st.frames[0]), EventsOf(st.frames[1..]));
        if got[0] == EventOf(st.frames[0]) {
          RunIff(st', left, chunks[1..], r);
        }
      } else {
        assert [] + others == others;
        RunIff(st, left, chunks[1..], r);
      }
    }
  }

  /** The frames whose events are still to come after the chunks. */
  function FramesLeft(fs: seq<Frame>, chunks: seq<string>, later: nat): seq<Frame>
    decreases |chunks|
  {
    if chunks == [] then fs
    else FramesLeft(if GivesEvent(fs, ToCome(chunks, later)) then fs[1..] else fs, chunks[1..], later)
  }

  /** After faithful cuts the buffer holds what is needed to go on with those frames. */
  lemma {:induction false} RunGoesOn(st: Stream, buffer: string, chunks: seq<string>, r: string) returns (st': Stream)
    requires StreamOk(st) && buffer + Concat(chunks) + r == Text(LinesOf(st))
    requires Faithful(CarriedType(st), st.frames, chunks, |r|)
    ensures StreamOk(st') && Calls(buffer, chunks).1 + r == Text(LinesOf(st'))
    ensures EventsOf(st.frames) == Calls(buffer, chunks).0 + EventsOf(st'.frames)
    ensures st'.frames == FramesLeft(st.frames, chunks, |r|)
    decreases |chunks|
  {
    st' := st;
    if chunks == [] {
      assert buffer + "" + r == buffer + r;
      assert [] + EventsOf(st.frames) == EventsOf(st.frames);
    } else {
      var st1, got, left := FaithfulCall(st, buffer, chunks, r);
      st' := RunGoesOn(st1, left, chunks[1..], r);
      Regroup(got, Calls(left, chunks[1..]).0, EventsOf(st'.frames), []);
    }
  }

  /** The first call, when the cuts are faithful. */
  lemma FaithfulCall(st: Stream, buffer: string, chunks: seq<string>, r: string)
    returns (st': Stream, got: seq<Event>, left: string)
    requires StreamOk(st) && buffer + Concat(chunks) + r == Text(LinesOf(st)) && chunks != []
    requires Faithful(CarriedType(st), st.frames, chunks, |r|)
    ensures Calls(buffer, chunks) == (got + Calls(left, chunks[1..]).0, Calls(left, chunks[1..]).1)
    ensures StreamOk(st') && left + Concat(chunks[1..]) + r == Text(LinesOf(st'))
    ensures EventsOf(st.frames) == got + EventsOf(st'.frames) && Faithful(CarriedType(st'), st'.frames, chunks[1..], |r|)
    ensures st'.frames == if GivesEvent(st.frames, ToCome(chunks, |r|)) then st.frames[1..] else st.frames
  {
    st', got, left := FirstCall(st, buffer, chunks, r);
  }

  // ----- Draining -----

  function Empties(k: nat): seq<string> {
    if k == 0 then [] else [""] + Empties(k - 1)
  }

  lemma AllReceived(fs: seq<Frame>)
    ensures Done(fs, 0) <==> fs != []
    ensures !CutsShort(fs, 0)
  {
  }

  lemma {:induction false} ConcatOfEmpties(k: nat)
    ensures Concat(Empties(k)) == ""
  {
    if k == 0 {
    } else {
      assert Empties(k)[0] == "" && Empties(k)[1..] == Empties(k - 1);
      ConcatOfEmpties(k - 1);
    }
  }

  lemma {:induction false} ConcatOfParts(a: seq<string>, b: seq<string>)
    ensures Concat(a + b) == Concat(a) + Concat(b)
    decreases |a|
  {
    if a == [] {
      assert a + b == b && "" + Concat(b) == Concat(b);
    } else {
      assert (a + b)[0] == a[0] && (a + b)[1..] == a[1..] + b;
      ConcatOfParts(a[1..], b);
      Regroup(a[0], Concat(a[1..]), Concat(b), []);
    }
  }

  lemma ConcatWithEmpties(chunks: seq<string>, k: nat)
    ensures Concat(chunks + Empties(k)) == Concat(chunks)
  {
    ConcatOfParts(chunks, Empties(k));
    ConcatOfEmpties(k);
    assert Concat(chunks) + "" == Concat(chunks);
  }

  lemma NothingToCome(k: nat)
    requires k > 0
    ensures Empties(k)[1..] == Empties(k - 1) && ToCome(Empties(k), 0) == 0
  {
    assert Empties(k)[1..] == Empties(k - 1);
    ConcatOfEmpties(k - 1);
  }

  /** Each empty chunk lets one more frame out. */
  lemma FrameLessAfterEmpty(fs: seq<Frame>, k: nat)
    requires k > 0
    ensures FramesLeft(fs, Empties(k), 0) == FramesLeft(if fs == [] then fs else fs[1..], Empties(k - 1), 0)
  {
    NothingToCome(k);
    AllReceived(fs);
  }

  lemma {:induction false} NoneLeftAfterEmpties(fs: seq<Frame>, k: nat)
    requires k >= |fs|
    ensures FramesLeft(fs, Empties(k), 0) == []
  {
    if k == 0 {
    } else {
      FrameLessAfterEmpty(fs, k);
      NoneLeftAfterEmpties(if fs == [] then fs else fs[1..], k - 1);
    }
  }

  lemma {:induction false} NoneLeftWhenDrained(fs: seq<Frame>, chunks: seq<string>, k: nat)
    requires k >= |fs|
    ensures FramesLeft(fs, chunks + Empties(k), 0) == []
    decreases |chunks|
  {
    var all := chunks + Empties(k);
    if chunks == [] {
      assert all == Empties(k);
      NoneLeftAfterEmpties(fs, k);
    } else {
      assert all[1..] == chunks[1..] + Empties(k);
      NoneLeftWhenDrained(if GivesEvent(fs, ToCome(all, 0)) then fs[1..] else fs, chunks[1..], k);
    }
  }

  /**
   A stream of frames fed in any chunks, and then drained, comes out as exactly its events, in order, if and only if
   the cuts are faithful.
   */
  lemma EveryFrameComesOutOnceIff(frames: seq<Frame>, chunks: seq<string>)
    requires FramesOk(frames) && Concat(chunks) == Text(FrameLines(frames))
    ensures var all := chunks + Empties(|frames|);
            Calls("", all).0 == EventsOf(frames) <==> Faithful("", frames, all, 0)
  {
    var st, all := Stream([], frames), chunks + Empties(|frames|);
    assert LinesOf(st) == FrameLines(frames);
    ConcatWithEmpties(chunks, |frames|);
    assert "" + Concat(all) + "" == Concat(all);
    RunIff(st, "", all, "");
    if Faithful("", frames, all, 0) {
      var st' := RunGoesOn(st, "", all, "");
      NoneLeftWhenDrained(frames, chunks, |frames|);
      assert Calls("", all).0 + [] == Calls("", all).0;
    }
  }

  lemma {:induction false} OneEventEach(fs: seq<Frame>)
    ensures |EventsOf(fs)| == |fs|
  {
    if fs == [] {
    } else {
      OneEventEach(fs[1..]);
    }
  }

  /**
   The calls made while a stream comes in, one for each chunk and none after the last, return exactly its events, in
   order, if and only if the cuts are faithful and leave no frame for later.
   */
  lemma EveryEventComesOutIff(frames: seq<Frame>, chunks: seq<string>)
    requires FramesOk(frames) && Concat(chunks) == Text(FrameLines(frames))
    ensures Calls("", chunks).0 == EventsOf(frames) <==> Faithful("", frames, chunks, 0) && FramesLeft(frames, chunks, 0) == []
  {
    var st := Stream([], frames);
    assert LinesOf(st) == FrameLines(frames);
    assert "" + Concat(chunks) + "" == Concat(chunks);
    RunIff(st, "", chunks, "");
    if Faithful("", frames, chunks, 0) {
      var st' := RunGoesOn(st, "", chunks, "");
      OneEventEach(st'.frames);
      assert |EventsOf(frames)| == |Calls("", chunks).0| + |st'.frames|;
      assert Calls("", chunks).0 + [] == Calls("", chunks).0;
    }
  }

  lemma {:induction false} OneEventACall(buffer: string, chunks: seq<string>)
    ensures |Calls(buffer, chunks).0| <= |chunks|
    decreases |chunks|
  {
    if chunks == [] {
    } else {
      OneEventACall(Parsed(buffer + chunks[0]).1, chunks[1..]);
    }
  }

  /** A call returns one event at most: a stream of more frames than chunks never comes out whole, however it is cut. */
  lemma FramesNeedChunks(frames: seq<Frame>, chunks: seq<string>)
    requires |chunks| < |frames|
    ensures Calls("", chunks).0 != EventsOf(frames)
  {
    OneEventACall("", chunks);
    OneEventEach(frames);
  }

  // ----- Cuts that spare the frames -----

  /** No call finds the frame it is at cut short. */
  predicate Spares(fs: seq<Frame>, chunks: seq<string>, later: nat)
    decreases |chunks|
  {
    chunks == [] ||
    var toCome := ToCome(chunks, later);
    !CutsShort(fs, toCome) && Spares(if Done(fs, toCome) then fs[1..] else fs, chunks[1..], later)
  }

  lemma {:induction false} SparingIsFaithful(fs: seq<Frame>, chunks: seq<string>, later: nat)
    requires Spares(fs, chunks, later)
    ensures Faithful("", fs, chunks, later)
    decreases |chunks|
  {
    if chunks == [] {
    } else {
      var toCome := ToCome(chunks, later);
      SparingIsFaithful(if Done(fs, toCome) then fs[1..] else fs, chunks[1..], later);
    }
  }

  predicate EndsInData(f: Frame) {
    f.lines != [] && !Idle(f.lines[|f.lines| - 1])
  }

  lemma FirstLinesLoseData(ls: seq<string>, i: nat)
    requires i < |ls| && HasData(ls[..i]) && !Idle(ls[|ls| - 1])
    ensures ToEvent(AddLines(Pending("", []), ls[..i])) != ToEvent(AddLines(Nothing, ls))
  {
    assert ls[i..][|ls| - 1 - i] == ls[|ls| - 1];
    if ToEvent(AddLines(Pending("", []), ls[..i])) == ToEvent(AddLines(Nothing, ls)) {
      SameDataRestIdle("", ls, i);
    }
  }

  /** A frame cut short before its last data line has no event equal to that of the frame. */
  lemma CutLosesData(fs: seq<Frame>, toCome: nat)
    requires CutsShort(fs, toCome) && EndsInData(fs[0])
    ensures EventAt("", fs, toCome) != EventOf(fs[0])
  {
    CutIsInside(fs, toCome);
    FirstLinesLoseData(fs[0].lines, Received(fs, toCome));
  }

  lemma {:induction false} FaithfulIsSparing(fs: seq<Frame>, chunks: seq<string>, later: nat)
    requires Faithful("", fs, chunks, later) && forall i :: 0 <= i < |fs| ==> EndsInData(fs[i])
    ensures Spares(fs, chunks, later)
    decreases |chunks|
  {
    if chunks == [] {
    } else {
      var toCome := ToCome(chunks, later);
      if CutsShort(fs, toCome) {
        CutLosesData(fs, toCome);
      }
      FaithfulIsSparing(if Done(fs, toCome) then fs[1..] else fs, chunks[1..], later);
    }
  }

  /** Draining cuts nothing short. */
  lemma {:induction false} DrainSpares(fs: seq<Frame>, k: nat)
    ensures Spares(fs, Empties(k), 0)
  {
    if k == 0 {
    } else {
      NothingToCome(k);
      AllReceived(fs);
      DrainSpares(if Done(fs, 0) then fs[1..] else fs, k - 1);
    }
  }

  /** Once everything is received, calls without new data return the remaining events one by one. */
  lemma Drain(st: Stream, buffer: string, k: nat)
    requires StreamOk(st) && buffer == Text(LinesOf(st)) && k >= |st.frames| && CarriedType(st) == ""
    ensures Calls(buffer, Empties(k)).0 == EventsOf(st.frames)
  {
    DrainSpares(st.frames, k);
    SparingIsFaithful(st.frames, Empties(k), 0);
    ConcatWithEmpties([], k);
    assert [] + Empties(k) == Empties(k) && buffer + Concat(Empties(k)) + "" == buffer;
    var st' := RunGoesOn(st, buffer, Empties(k), "");
    NoneLeftAfterEmpties(st.frames, k);
    assert Calls(buffer, Empties(k)).0 + [] == Calls(buffer, Empties(k)).0;
  }

  lemma {:induction false} SparesWhenDrained(fs: seq<Frame>, chunks: seq<string>, k: nat)
    ensures Spares(fs, chunks + Empties(k), 0) <==> Spares(fs, chunks, 0)
    decreases |chunks|
  {
    var all := chunks + Empties(k);
    if chunks == [] {
      assert all == Empties(k);
      DrainSpares(fs, k);
    } else {
      assert all[1..] == chunks[1..] + Empties(k);
      ConcatWithEmpties(chunks[1..], k);
      var toCome := ToCome(chunks, 0);
      assert ToCome(all, 0) == toCome;
      SparesWhenDrained(if Done(fs, toCome) then fs[1..] else fs, chunks[1..], k);
    }
  }

  /** Cuts that spare the frames let every frame out, and of frames that end in a data line no others do. */
  lemma EveryFrameComesOutOnce(frames: seq<Frame>, chunks: seq<string>)
    requires FramesOk(frames) && Concat(chunks) == Text(FrameLines(frames))
    ensures Spares(frames, chunks, 0) ==> Calls("", chunks + Empties(|frames|)).0 == EventsOf(frames)
    ensures (forall i :: 0 <= i < |frames| ==> EndsInData(frames[i])) && Calls("", chunks + Empties(|frames|)).0 == EventsOf(frames) ==>
              Spares(frames, chunks, 0)
  {
    var all := chunks + Empties(|frames|);
    EveryFrameComesOutOnceIff(frames, chunks);
    SparesWhenDrained(frames, chunks, |frames|);
    if Spares(frames, all, 0) {
      SparingIsFaithful(frames, all, 0);
    }
    if (forall i :: 0 <= i < |frames| ==> EndsInData(frames[i])) && Faithful("", frames, all, 0) {
      FaithfulIsSparing(frames, all, 0);
    }
  }

  /** The same for the calls made while a stream comes in: they must come to the last frame, too. */
  lemma EveryEventComesOut(frames: seq<Frame>, chunks: seq<string>)
    requires FramesOk(frames) && Concat(chunks) == Text(FrameLines(frames))
    ensures Spares(frames, chunks, 0) && FramesLeft(frames, chunks, 0) == [] ==> Calls("", chunks).0 == EventsOf(frames)
    ensures (forall i :: 0 <= i < |frames| ==> EndsInData(frames[i])) && Calls("", chunks).0 == EventsOf(frames) ==>
              Spares(frames, chunks, 0) && FramesLeft(frames, chunks, 0) == []
  {
    EveryEventComesOutIff(frames, chunks);
    if Spares(frames, chunks, 0) {
      SparingIsFaithful(frames, chunks, 0);
    }
    if (forall i :: 0 <= i < |frames| ==> EndsInData(frames[i])) && Faithful("", frames, chunks, 0) {
      FaithfulIsSparing(frames, chunks, 0);
    }
  }

  /**
   The cut falls into no frame after some data in a line blank so far: the pending line is not blank, or ends a frame.
   */
  predicate GoodCut(fs: seq<Frame>, toCome: nat) {
    !CutsShort(fs, toCome) && (Done(fs, toCome) ==> GoodCut(fs[1..], toCome))
  }

  predicate GoodCuts(fs: seq<Frame>, chunks: seq<string>, later: nat)
    decreases |chunks|
  {
    chunks == [] || (GoodCut(fs, ToCome(chunks, later)) && GoodCuts(fs, chunks[1..], later))
  }

  lemma {:induction false} GoodForOthers(fs: seq<Frame>, chunks: seq<string>, later: nat)
    requires fs != [] && GoodCuts(fs, chunks, later) && (chunks != [] ==> Done(fs, ToCome(chunks, later)))
    ensures GoodCuts(fs[1..], chunks, later)
    decreases |chunks|
  {
    if |chunks| <= 1 {
    } else {
      assert Concat(chunks[1..]) == chunks[1..][0] + Concat(chunks[1..][1..]);
      GoodForOthers(fs, chunks[1..], later);
    }
  }

  /** Whatever call a cut is met by, good cuts spare the frames. */
  lemma {:induction false} GoodCutsSpare(fs: seq<Frame>, chunks: seq<string>, later: nat)
    requires GoodCuts(fs, chunks, later)
    ensures Spares(fs, chunks, later)
    decreases |chunks|
  {
    if chunks == [] {
    } else if Done(fs, ToCome(chunks, later)) {
      if |chunks| > 1 {
        assert Concat(chunks[1..]) == chunks[1..][0] + Concat(chunks[1..][1..]);
      }
      GoodForOthers(fs, chunks[1..], later);
      GoodCutsSpare(fs[1..], chunks[1..], later);
    } else {
      GoodCutsSpare(fs, chunks[1..], later);
    }
  }

  lemma {:induction false} LineAtStart(ls: seq<string>, i: nat)
    requires i < |ls|
    ensures LineAt(ls, TextLength(ls[..i])) == i && PartAt(ls, TextLength(ls[..i])) == ""
  {
    if i == 0 {
      assert ls[..0] == [];
    } else {
      assert ls[..i][0] == ls[0] && ls[..i][1..] == ls[1..][..i - 1];
      LineAtStart(ls[1..], i - 1);
    }
  }

  /** Any frame of several data lines comes out wrong when it is cut right after some data, before its last line. */
  lemma EarlyEvent(f: Frame, i: nat)
    requires FrameOk(f) && EndsInData(f) && i < |f.lines| && HasData(f.lines[..i])
    ensures Calls("", [Text(f.front + f.lines[..i]), Text(f.lines[i..] + [f.end])] + Empties(1)).0 != EventsOf([f])
  {
    var a, b := Text(f.front + f.lines[..i]), Text(f.lines[i..] + [f.end]);
    TextInTwoParts(f, i);
    CutAfterLines(f, i);
    TwoChunks(a, b);
    EveryFrameComesOutOnce([f], [a, b]);
  }

  lemma TextInTwoParts(f: Frame, i: nat)
    requires i < |f.lines|
    ensures Text(FrameLines([f])) == Text(f.front + f.lines[..i]) + Text(f.lines[i..] + [f.end])
  {
    assert [f][1..] == [] && FrameLines([f]) == f.front + f.lines + [f.end];
    TextOfConcat(f.front + f.lines[..i], f.lines[i..] + [f.end]);
    assert f.front + f.lines[..i] + (f.lines[i..] + [f.end]) == f.front + f.lines + [f.end];
  }

  lemma LengthInTwoParts(f: Frame, i: nat)
    requires i < |f.lines|
    ensures LengthFromLines([f]) == TextLength(f.lines[..i]) + |Text(f.lines[i..] + [f.end])|
    ensures |Text(f.lines[i..] + [f.end])| > |f.end| + 1
  {
    assert [f][1..] == [] && [f.end][1..] == [] && f.lines[..i] + f.lines[i..] == f.lines;
    LengthOfConcat(f.lines[..i], f.lines[i..]);
    LengthOfConcat(f.lines[i..], [f.end]);
    TextHasLength(f.lines[i..] + [f.end]);
  }

  lemma CutAfterLines(f: Frame, i: nat)
    requires i < |f.lines| && HasData(f.lines[..i])
    ensures CutsShort([f], |Text(f.lines[i..] + [f.end])|)
  {
    LengthInTwoParts(f, i);
    LineAtStart(f.lines, i);
    assert [f][1..] == [];
  }

  lemma TwoChunks(a: string, b: string)
    ensures Concat([a, b]) == a + b && ToCome([a, b], 0) == |b|
  {
    assert [a, b][1..] == [b] && [b][1..] == [];
    assert Concat([b]) == b + "" == b;
  }
}
