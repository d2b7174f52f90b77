/** From the text of a body to what the extractors read: whole JSON, and the `data:` lines of an event stream. */
module Framing {
  import opened Options
  import opened Text
  import opened Json
  import opened Turns
  import opened Streams

  /** The payload of one line of a stream, if it has one. */
  function LineEvent(line: string): (r: Maybe<Value>) {
    var l := Trim(line);
    if |l| < 5 || l[..5] != "data:" then Nothing
    else
      var payload := Trim(l[5..]);
      if payload == "" || payload == "[DONE]" then Nothing else ParseJson(payload)
  }

  function Events(lines: seq<string>): (r: seq<Value>) {
    if lines == [] then [] else Listed(LineEvent(lines[0])) + Events(lines[1..])
  }

  /** A request body is parsed as it is; a reply is trimmed first, and cut into lines when it is no JSON. */
  function RequestBody(raw: string): (r: Body) {
    Body(ParseJson(raw), [])
  }

  function ReplyBody(raw: string): (r: Body) {
    var trimmed := Trim(raw);
    if trimmed == "" then Blank else Body(ParseJson(trimmed), Events(Split(trimmed, '\n')))
  }

  /** The loop over the lines of a reply. */
  method ReadReply(raw: string) returns (body: Body)
    ensures body == ReplyBody(raw)
  {
    hide LineEvent, TrimStart, TrimEnd, Trim, Split, Events, ParseJson;
    var trimmed := Trim(raw);
    if trimmed == "" { return Blank; }
    var lines := Split(trimmed, '\n');
    var events: seq<Value> := [];
    assert lines[0..] == lines;
    for i := 0 to |lines|
      invariant events + Events(lines[i..]) == Events(lines)
    {
      EventsAt(lines, i);
      var event := LineEvent(lines[i]);
      if event.Just? { events := events + [event.value]; }
    }
    EventsEnd(lines);
    return Body(ParseJson(trimmed), events);
  }

  lemma EventsAt(lines: seq<string>, i: nat)
    requires i < |lines|
    ensures Events(lines[i..]) == Listed(LineEvent(lines[i])) + Events(lines[i + 1..])
  {
    hide LineEvent;
    assert lines[i..][1..] == lines[i + 1..];
  }

  lemma EventsEnd(lines: seq<string>)
    ensures Events(lines[|lines|..]) == []
  {
  }

  // ---- trimming the whole text loses no line ----

  lemma {:induction false} EventsJoin(a: seq<string>, b: seq<string>)
    ensures Events(a + b) == Events(a) + Events(b)
  {
    hide LineEvent;
    if a == [] {
      assert a + b == b;
    } else {
      assert (a + b)[1..] == a[1..] + b;
      EventsJoin(a[1..], b);
    }
  }

  lemma SameLine(before: string, line: string, after: string)
    requires AllSpace(before) && AllSpace(after)
    ensures LineEvent(before + line + after) == LineEvent(line)
  {
    hide TrimStart, TrimEnd;
    TrimAround(before, line, after);
  }

  lemma BlankLine()
    ensures Events([""]) == []
  {
    hide TrimStart, TrimEnd;
    TrimEmptyIff("");
    assert [""][1..] == [];
  }

  lemma {:induction false} SpaceBefore(ws: string, s: string)
    requires AllSpace(ws)
    ensures Events(Split(ws + s, '\n')) == Events(Split(s, '\n'))
  {
    hide LineEvent;
    if ws == "" {
      assert ws + s == s;
    } else {
      var c, t := ws[0], ws[1..] + s;
      SpaceBefore(ws[1..], s);
      assert ws + s == [c] + t && ([c] + t)[1..] == t;
      var rest := Split(t, '\n');
      if c == '\n' {
        assert Split(ws + s, '\n') == [""] + rest;
        EventsJoin([""], rest);
        BlankLine();
      } else {
        assert Split(ws + s, '\n') == [[c] + rest[0]] + rest[1..];
        SameLine([c], rest[0], "");
        assert [c] + rest[0] + "" == [c] + rest[0];
        assert ([[c] + rest[0]] + rest[1..])[1..] == rest[1..];
      }
    }
  }

  /** One more character at the front or at the end of a text that is cut into lines. */
  function PutFirst(d: char, parts: seq<string>): (r: seq<string>)
    requires parts != []
    ensures r != []
  {
    if d == '\n' then [""] + parts else [[d] + parts[0]] + parts[1..]
  }

  function PutLast(parts: seq<string>, c: char): (r: seq<string>)
    requires parts != []
    ensures r != []
  {
    var n := |parts| - 1;
    if c == '\n' then parts + [""] else parts[..n] + [parts[n] + [c]]
  }

  lemma PutBoth(d: char, parts: seq<string>, c: char)
    requires parts != []
    ensures PutFirst(d, PutLast(parts, c)) == PutLast(PutFirst(d, parts), c)
  {
    var a, b := PutFirst(d, PutLast(parts, c)), PutLast(PutFirst(d, parts), c);
    assert |a| == |b|;
    forall i | 0 <= i < |a|
      ensures a[i] == b[i]
    {
      if |parts| == 1 && i == 0 { assert [d] + (parts[0] + [c]) == [d] + parts[0] + [c]; }
    }
  }

  lemma {:induction false} SplitSnoc(s: string, c: char)
    ensures Split(s + [c], '\n') == PutLast(Split(s, '\n'), c)
  {
    hide PutLast;
    if s == "" {
      SplitChar(c);
    } else {
      assert (s + [c])[1..] == s[1..] + [c];
      SplitSnoc(s[1..], c);
      PutBoth(s[0], Split(s[1..], '\n'), c);
      assert Split(s + [c], '\n') == PutFirst(s[0], Split(s[1..] + [c], '\n'));
      assert Split(s, '\n') == PutFirst(s[0], Split(s[1..], '\n'));
    }
  }

  lemma SplitChar(c: char)
    ensures Split("" + [c], '\n') == PutLast(Split("", '\n'), c)
  {
    assert "" + [c] == [c] == [c] + "" && [c][1..] == "";
    assert Split("", '\n') == [""];
    assert [""][..0] == [] && [""][1..] == [];
  }

  lemma {:induction false} SpaceAfter(s: string, ws: string)
    requires AllSpace(ws)
    ensures Events(Split(s + ws, '\n')) == Events(Split(s, '\n'))
    decreases |ws|
  {
    hide LineEvent, Split;
    if ws == "" {
      assert s + ws == s;
    } else {
      var n := |ws| - 1;
      var c, t := ws[n], s + ws[..n];
      SpaceAfter(s, ws[..n]);
      assert s + ws == t + [c];
      SplitSnoc(t, c);
      var parts := Split(t, '\n');
      if c == '\n' {
        EventsJoin(parts, [""]);
        BlankLine();
      } else {
        var last := parts[|parts| - 1];
        EventsJoin(parts[..|parts| - 1], [last + [c]]);
        EventsJoin(parts[..|parts| - 1], [last]);
        assert parts == parts[..|parts| - 1] + [last];
        SameLine("", last, [c]);
        assert "" + last + [c] == last + [c];
        OneLine(last);
        OneLine(last + [c]);
      }
    }
  }

  lemma OneLine(line: string)
    ensures Events([line]) == Listed(LineEvent(line))
  {
    hide LineEvent;
    assert [line][1..] == [];
  }

  lemma TrimKeepsEvents(raw: string)
    ensures Events(Split(Trim(raw), '\n')) == Events(Split(raw, '\n'))
  {
    hide Split, Events, TrimStart, TrimEnd;
    var before, after := TrimDecompose(raw);
    assert raw == before + (Trim(raw) + after);
    SpaceBefore(before, Trim(raw) + after);
    SpaceAfter(Trim(raw), after);
  }

  // ---- streams as they are laid out ----

  /** A line of a stream: a payload after `data:`, or anything else: event names, comments, blank lines. */
  datatype Line = Data(blank: string, payload: string, after: string) | Other(text: string) {
    predicate Valid() {
      match this
      case Data(blank, payload, after) =>
        && AllSpace(blank) && AllSpace(after) && '\n' !in blank && '\n' !in after && '\n' !in payload
        && Trimmed(payload) && payload != "" && payload != "[DONE]"
      case Other(text) =>
        '\n' !in text && (|Trim(text)| < 5 || Trim(text)[..5] != "data:" || Trim(Trim(text)[5..]) in {"", "[DONE]"})
    }

    function Text(): (r: string) {
      match this
      case Data(blank, payload, after) => "data:" + blank + payload + after
      case Other(text) => text
    }
  }

  function Texts(lines: seq<Line>): (texts: seq<string>)
    ensures |texts| == |lines|
  {
    if lines == [] then [] else [lines[0].Text()] + Texts(lines[1..])
  }

  /** The payloads that are JSON, in order. */
  function Payloads(lines: seq<Line>): (r: seq<Value>) {
    if lines == [] then []
    else (if lines[0].Data? then Listed(ParseJson(lines[0].payload)) else []) + Payloads(lines[1..])
  }

  lemma DataLineRead(l: Line)
    requires l.Valid()
    ensures Listed(LineEvent(l.Text())) == if l.Data? then Listed(ParseJson(l.payload)) else []
  {
    hide TrimStart, TrimEnd, ParseJson;
    if l.Data? {
      var core := "data:" + l.blank + l.payload;
      CoreIsTrimmed(l);
      assert l.Text() == "" + core + l.after;
      TrimBetween("", core, l.after);
      assert core[5..] == l.blank + l.payload + "";
      TrimBetween(l.blank, l.payload, "");
      assert core[..5] == "data:";
    }
  }

  lemma CoreIsTrimmed(l: Line)
    requires l.Data? && l.Valid()
    ensures Trimmed("data:" + l.blank + l.payload)
  {
    var core := "data:" + l.blank + l.payload;
    assert core[|core| - 1] == l.payload[|l.payload| - 1];
    assert core[0] == 'd';
  }

  lemma {:induction false} LinesRead(lines: seq<Line>)
    requires forall l <- lines :: l.Valid()
    ensures Events(Texts(lines)) == Payloads(lines) && forall t <- Texts(lines) :: '\n' !in t
  {
    hide LineEvent, ParseJson, TrimStart, TrimEnd;
    if lines != [] {
      assert lines[0] in lines && forall l <- lines[1..] :: l in lines;
      LinesRead(lines[1..]);
      DataLineRead(lines[0]);
      NoBreakInside(lines[0]);
      assert Texts(lines)[1..] == Texts(lines[1..]);
    }
  }

  lemma NoBreakInside(l: Line)
    requires l.Valid()
    ensures '\n' !in l.Text()
  {
    hide TrimStart, TrimEnd;
  }

  /** However a stream is laid out, its events are its payloads in order: event names, comments, blank lines,
      carriage returns, blanks after the colon and the closing `[DONE]` add nothing. */
  lemma StreamIsRead(lines: seq<Line>)
    requires lines != [] && forall l <- lines :: l.Valid()
    ensures var body := ReplyBody(Join(Texts(lines), "\n"));
            if body.Blank? then Payloads(lines) == [] else body.events == Payloads(lines)
  {
    hide Events, Split, Join, TrimStart, TrimEnd, Payloads;
    var raw := Join(Texts(lines), "\n");
    LinesRead(lines);
    SplitJoin(Texts(lines), '\n');
    TrimKeepsEvents(raw);
    if Trim(raw) == "" {
      SplitWhole("", '\n');
      BlankLine();
    }
  }

  /** A text that starts like an event stream is no JSON. */
  lemma StreamIsNoJson(text: string)
    requires text != "" && text[0] in {'d', 'e', 'i', 'r', ':'}
    ensures ParseJson(text) == Nothing
  {
    assert SkipWs(text) == text && !IsDigit(text[0]);
  }

  /** From text to turn: a stream that carries the content of a reply gives the turn of the reply's own text, exactly
      when no empty block interrupts it. */
  lemma StreamedTextAgrees(lines: seq<Line>, parts: seq<Value>, whole: string, reply: Value)
    requires lines != [] && forall l <- lines :: l.Valid()
    requires var stream := Trim(Join(Texts(lines), "\n")); stream != "" && stream[0] in {'d', 'e', 'i', 'r', ':'}
    requires Trim(whole) != "" && ParseJson(Trim(whole)) == Just(reply)
    requires reply.Obj? && FirstChoice(reply).Nothing? && Get(reply, "content") == List(parts)
    requires Carries(Payloads(lines), parts)
    ensures ResponseTurn(ReplyBody(Join(Texts(lines), "\n"))) == ResponseTurn(ReplyBody(whole))
       <==> !exists e :: 0 <= e < |parts| && Interrupts(Payloads(lines), parts, e)
  {
    hide ResponseTurn, Carries, ParseJson, TrimStart, TrimEnd, Events, Payloads, FirstChoice, Interrupts;
    StreamIsRead(lines);
    StreamIsNoJson(Trim(Join(Texts(lines), "\n")));
    StreamedContentAgrees(reply, parts, Payloads(lines), Events(Split(Trim(whole), '\n')));
  }
}
