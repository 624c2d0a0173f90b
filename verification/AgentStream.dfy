/** The incremental reader of the agent's typed event stream. */
module AgentStream {
  import opened Outcomes

  datatype Event<+D> = Event(name: string, data: D)

  /** Blocks cut off at blank lines, and the text after the last of them. */
  datatype Pieces = Pieces(blocks: seq<string>, rest: string)

  /** The event name and the data lines seen so far in one block; no name is the empty name. */
  datatype Fields = Fields(name: string, data: seq<string>)

  // ----- text operations -----

  /** One pass, left to right, turning each CR LF into LF. */
  function Normalize(s: string): (r: string)
    ensures |r| <= |s|
  {
    if s == "" then ""
    else if |s| >= 2 && s[0] == '\r' && s[1] == '\n' then "\n" + Normalize(s[2..])
    else [s[0]] + Normalize(s[1..])
  }

  predicate BlankAt(s: string, i: int)
  {
    0 <= i && i + 1 < |s| && s[i] == '\n' && s[i + 1] == '\n'
  }

  /** The place of the first LF LF, or -1. */
  function FirstBlank(s: string): (i: int)
    ensures i == -1 || BlankAt(s, i)
    ensures forall k :: BlankAt(s, k) ==> 0 <= i <= k
  {
    if |s| < 2 then -1
    else if BlankAt(s, 0) then 0
    else
      var later := FirstBlank(s[1..]);
      assert forall k :: BlankAt(s, k) ==> BlankAt(s[1..], k - 1);
      if later < 0 then -1 else assert BlankAt(s, later + 1); later + 1
  }

  function FirstLf(s: string): (i: int)
    ensures -1 <= i < |s|
    ensures i >= 0 ==> s[i] == '\n'
    ensures forall k :: 0 <= k < (if i < 0 then |s| else i) ==> s[k] != '\n'
  {
    if s == "" then -1
    else if s[0] == '\n' then 0
    else
      var later := FirstLf(s[1..]);
      if later < 0 then -1 else later + 1
  }

  function Lines(s: string): seq<string>
    decreases |s|
  {
    var i := FirstLf(s);
    if i < 0 then [s] else [s[..i]] + Lines(s[i + 1..])
  }

  /** The characters trim removes: white space and line terminators of ECMAScript. */
  predicate IsSpace(c: char)
  {
    || '\U{0009}' <= c <= '\U{000D}' || c == ' ' || c == '\U{00A0}' || c == '\U{1680}'
    || '\U{2000}' <= c <= '\U{200A}' || c == '\U{2028}' || c == '\U{2029}' || c == '\U{202F}'
    || c == '\U{205F}' || c == '\U{3000}' || c == '\U{FEFF}'
  }

  function TrimEnd(s: string): string
  {
    if s == "" || !IsSpace(s[|s| - 1]) then s else TrimEnd(s[..|s| - 1])
  }

  function TrimStart(s: string): string
  {
    if s == "" || !IsSpace(s[0]) then s else TrimStart(s[1..])
  }

  function Trim(s: string): string
  {
    TrimStart(TrimEnd(s))
  }

  lemma {:induction false} TrimEndIs(s: string)
    ensures TrimEnd(s) <= s && (TrimEnd(s) == "" || !IsSpace(TrimEnd(s)[|TrimEnd(s)| - 1]))
    ensures forall i | |TrimEnd(s)| <= i < |s| :: IsSpace(s[i])
    decreases |s|
  {
    if s != "" && IsSpace(s[|s| - 1]) {
      TrimEndIs(s[..|s| - 1]);
    }
  }

  predicate AllSpace(s: string)
  {
    forall i | 0 <= i < |s| :: IsSpace(s[i])
  }

  lemma {:induction false} TrimStartIs(s: string) returns (head: string)
    ensures s == head + TrimStart(s) && AllSpace(head) && (TrimStart(s) == "" || !IsSpace(TrimStart(s)[0]))
    decreases |s|
  {
    if s == "" || !IsSpace(s[0]) {
      head := "";
    } else {
      var rest := TrimStartIs(s[1..]);
      head := [s[0]] + rest;
      SpaceCons(s[0], rest);
    }
  }

  lemma SpaceCons(c: char, s: string)
    requires IsSpace(c) && AllSpace(s)
    ensures AllSpace([c] + s)
  {
  }

  /** Trimming takes the white space at both ends and nothing else. */
  lemma TrimIs(s: string) returns (head: string, tail: string)
    ensures s == head + Trim(s) + tail && AllSpace(head) && AllSpace(tail)
    ensures Trim(s) == "" || (!IsSpace(Trim(s)[0]) && !IsSpace(Trim(s)[|Trim(s)| - 1]))
  {
    TrimEndIs(s);
    var e := TrimEnd(s);
    tail := s[|e|..];
    head := TrimStartIs(e);
    assert s == e + tail;
    LastStays(e, head, Trim(s));
  }

  lemma LastStays(e: string, head: string, t: string)
    requires e == head + t && (e == "" || !IsSpace(e[|e| - 1]))
    ensures t == "" || !IsSpace(t[|t| - 1])
  {
  }

  /** The white space and line ends of ECMAScript. */
  lemma SpacesAre(c: char)
    ensures IsSpace(c) <==> c in {'\U{0009}', '\U{000A}', '\U{000B}', '\U{000C}', '\U{000D}', '\U{0020}', '\U{00A0}', '\U{1680}',
                                  '\U{2000}', '\U{2001}', '\U{2002}', '\U{2003}', '\U{2004}', '\U{2005}', '\U{2006}', '\U{2007}', '\U{2008}',
                                  '\U{2009}', '\U{200A}', '\U{2028}', '\U{2029}', '\U{202F}', '\U{205F}', '\U{3000}', '\U{FEFF}'}
  {
  }

  function JoinLines(lines: seq<string>): string
  {
    if lines == [] then ""
    else if |lines| == 1 then lines[0]
    else JoinLines(lines[..|lines| - 1]) + "\n" + lines[|lines| - 1]
  }

  // ----- one block -----

  /** A text is its lines, each without a line end, with line ends between them. */
  lemma {:induction false} LinesJoin(s: string)
    ensures Lines(s) != [] && JoinLines(Lines(s)) == s && forall line | line in Lines(s) :: '\n' !in line
    decreases |s|
  {
    var i := FirstLf(s);
    if i >= 0 {
      var rest := Lines(s[i + 1..]);
      LinesJoin(s[i + 1..]);
      JoinFront(s[..i], rest);
      assert s == s[..i] + "\n" + s[i + 1..];
    }
  }

  lemma {:induction false} JoinFront(line: string, lines: seq<string>)
    requires lines != []
    ensures JoinLines([line] + lines) == line + "\n" + JoinLines(lines)
    decreases |lines|
  {
    var all := [line] + lines;
    assert all[..|all| - 1] == [line] + lines[..|lines| - 1];
    if |lines| == 1 {
      assert all[..1] == [line];
    } else {
      JoinFront(line, lines[..|lines| - 1]);
    }
  }

  function ReadLine(f: Fields, rawLine: string): Fields
  {
    var line := TrimEnd(rawLine);
    if "event:" <= line then f.(name := Trim(line[6..]))
    else if "data:" <= line then f.(data := f.data + [Trim(line[5..])])
    else f
  }

  function FieldsOf(lines: seq<string>): Fields
  {
    if lines == [] then Fields("", [])
    else ReadLine(FieldsOf(lines[..|lines| - 1]), lines[|lines| - 1])
  }

  function BlockEvent<D>(json: string -> Option<D>, block: string): Option<Event<D>>
  {
    var f := FieldsOf(Lines(Normalize(block)));
    if f.name == "" || f.data == [] then None
    else
      match json(JoinLines(f.data))
      case None => None
      case Some(d) => Some(Event(f.name, d))
  }

  lemma FieldsOn(lines: seq<string>, i: nat)
    requires i < |lines|
    ensures FieldsOf(lines[..i + 1]) == ReadLine(FieldsOf(lines[..i]), lines[i])
  {
    assert lines[..i + 1][..i] == lines[..i];
  }

  method ParseBlock<D>(json: string -> Option<D>, block: string) returns (event: Option<Event<D>>)
    ensures event == BlockEvent(json, block)
  {
    var lines := Lines(Normalize(block));
    var eventName: string := "";
    var dataLines: seq<string> := [];
    for i := 0 to |lines|
      invariant Fields(eventName, dataLines) == FieldsOf(lines[..i])
    {
      FieldsOn(lines, i);
      var line := TrimEnd(lines[i]);
      if "event:" <= line {
        eventName := Trim(line[6..]);
      } else if "data:" <= line {
        dataLines := dataLines + [Trim(line[5..])];
      }
    }
    assert lines[..|lines|] == lines;
    if eventName == "" || dataLines == [] {
      return None;
    }
    var parsed := json(JoinLines(dataLines));
    match parsed
    case None => event := None;
    case Some(d) => event := Some(Event(eventName, d));
  }

  // ----- a buffer -----

  function Split(s: string): Pieces
    decreases |s|
  {
    var i := FirstBlank(s);
    if i < 0 then Pieces([], s)
    else
      var later := Split(s[i + 2..]);
      Pieces([s[..i]] + later.blocks, later.rest)
  }

  function Given<T>(o: Option<T>): seq<T>
  {
    if o.Some? then [o.value] else []
  }

  function Events<D>(json: string -> Option<D>, blocks: seq<string>): seq<Event<D>>
  {
    if blocks == [] then []
    else
      Events(json, blocks[..|blocks| - 1]) + Given(BlockEvent(json, blocks[|blocks| - 1]))
  }

  /** What the last, unterminated block still yields when the stream closes. */
  function Flushed<D>(json: string -> Option<D>, rest: string): seq<Event<D>>
  {
    if Trim(rest) == "" then [] else Given(BlockEvent(json, rest))
  }

  ghost predicate CutSoFar<D>(json: string -> Option<D>, whole: Pieces, buffer: string, events: seq<Event<D>>)
  {
    && |Split(buffer).blocks| <= |whole.blocks|
    && Split(buffer).rest == whole.rest
    && var n := |whole.blocks| - |Split(buffer).blocks|;
      whole.blocks[n..] == Split(buffer).blocks && events == Events(json, whole.blocks[..n])
  }

  lemma CutNext<D>(json: string -> Option<D>, whole: Pieces, buffer: string, events: seq<Event<D>>)
    requires FirstBlank(buffer) >= 0 && CutSoFar(json, whole, buffer, events)
    ensures var i := FirstBlank(buffer);
      CutSoFar(json, whole, buffer[i + 2..], events + Given(BlockEvent(json, buffer[..i])))
  {
    var i := FirstBlank(buffer);
    SplitStep(buffer);
    var n := |whole.blocks| - |Split(buffer).blocks|;
    assert whole.blocks[n] == whole.blocks[n..][0] == buffer[..i];
    assert whole.blocks[n + 1..] == whole.blocks[n..][1..];
    assert whole.blocks[..n + 1][..n] == whole.blocks[..n];
  }

  lemma CutStart<D>(json: string -> Option<D>, buffer: string)
    ensures CutSoFar(json, Split(buffer), buffer, [])
  {
    var bs := Split(buffer).blocks;
    assert bs[..0] == [] && bs[0..] == bs;
  }

  lemma CutDone<D>(json: string -> Option<D>, whole: Pieces, buffer: string, events: seq<Event<D>>)
    requires FirstBlank(buffer) < 0 && CutSoFar(json, whole, buffer, events)
    ensures whole.rest == buffer && events == Events(json, whole.blocks)
  {
    assert whole.blocks[..|whole.blocks|] == whole.blocks;
  }

  lemma Flushes<D>(json: string -> Option<D>, events: seq<Event<D>>, rest: string)
    ensures Trim(rest) == "" ==> events + Flushed(json, rest) == events
    ensures Trim(rest) != "" ==> events + Flushed(json, rest) == events + Given(BlockEvent(json, rest))
  {
  }

  method Emit<D>(json: string -> Option<D>, block: string, sofar: seq<Event<D>>) returns (events: seq<Event<D>>)
    ensures events == sofar + Given(BlockEvent(json, block))
  {
    events := sofar;
    var event := ParseBlock(json, block);
    if event.Some? {
      events := events + [event.value];
    }
  }

  method ParseBuffer<D>(json: string -> Option<D>, text: string, flush: bool)
    returns (events: seq<Event<D>>, rest: string)
    ensures var p := Split(Normalize(text));
      && events == Events(json, p.blocks) + (if flush then Flushed(json, p.rest) else [])
      && rest == if flush && Trim(p.rest) != "" then "" else p.rest
  {
    var buffer := Normalize(text);
    ghost var whole := Split(buffer);
    events := [];
    CutStart(json, buffer);
    var boundary := FirstBlank(buffer);
    while boundary >= 0
      invariant boundary == FirstBlank(buffer)
      invariant CutSoFar(json, whole, buffer, events)
      decreases |buffer|
    {
      CutNext(json, whole, buffer, events);
      var block := buffer[..boundary];
      buffer := buffer[boundary + 2..];
      events := Emit(json, block, events);
      boundary := FirstBlank(buffer);
    }
    CutDone(json, whole, buffer, events);
    Flushes(json, events, buffer);
    if flush && Trim(buffer) != "" {
      events := Emit(json, buffer, events);
      return events, "";
    }
    return events, buffer;
  }

  // ----- the read loop -----

  function Feed(buffer: string, chunk: string): Pieces
  {
    Split(Normalize(buffer + chunk))
  }

  /** All blocks cut while reading the chunks, and the buffer left at the end. */
  function ReadChunks(chunks: seq<string>): Pieces
  {
    if chunks == [] then Pieces([], "")
    else
      var before := ReadChunks(chunks[..|chunks| - 1]);
      var now := Feed(before.rest, chunks[|chunks| - 1]);
      Pieces(before.blocks + now.blocks, now.rest)
  }

  function Concat(chunks: seq<string>): string
  {
    if chunks == [] then "" else Concat(chunks[..|chunks| - 1]) + chunks[|chunks| - 1]
  }

  /** Reading the whole text at once. */
  function Whole(text: string): Pieces
  {
    Split(Normalize(text))
  }

  function EventsOf<D>(json: string -> Option<D>, p: Pieces): seq<Event<D>>
  {
    Events(json, p.blocks) + Flushed(json, p.rest)
  }

  lemma {:induction false} EventsConcat<D>(json: string -> Option<D>, a: seq<string>, b: seq<string>)
    ensures Events(json, a + b) == Events(json, a) + Events(json, b)
  {
    if b == [] {
      assert a + b == a;
    } else {
      var front := b[..|b| - 1];
      assert (a + b)[..|a + b| - 1] == a + front;
      EventsConcat(json, a, front);
    }
  }

  lemma ReadNext<D>(json: string -> Option<D>, chunks: seq<string>, i: nat)
    requires i < |chunks|
    ensures var p, now := ReadChunks(chunks[..i]), Feed(ReadChunks(chunks[..i]).rest, chunks[i]);
      var next := ReadChunks(chunks[..i + 1]);
      next.rest == now.rest && Events(json, next.blocks) == Events(json, p.blocks) + Events(json, now.blocks)
  {
    assert chunks[..i + 1][..i] == chunks[..i];
    var p := ReadChunks(chunks[..i]);
    EventsConcat(json, p.blocks, Feed(p.rest, chunks[i]).blocks);
  }

  /** After i chunks: the buffer and the events so far. */
  ghost predicate ReadSoFar<D>(json: string -> Option<D>, chunks: seq<string>, i: nat, buffer: string, events: seq<Event<D>>)
    requires i <= |chunks|
  {
    ReadChunks(chunks[..i]).rest == buffer && events == Events(json, ReadChunks(chunks[..i]).blocks)
  }

  lemma ReadOn<D>(json: string -> Option<D>, chunks: seq<string>, i: nat, buffer: string, events: seq<Event<D>>)
    requires i < |chunks| && ReadSoFar(json, chunks, i, buffer, events)
    ensures var now := Feed(buffer, chunks[i]);
      ReadSoFar(json, chunks, i + 1, now.rest, events + Events(json, now.blocks))
  {
    ReadNext(json, chunks, i);
  }

  /** The decoded chunks arrive one by one; the decoder's own flush is the last of them. */
  method StreamChat<D>(json: string -> Option<D>, chunks: seq<string>, last: string) returns (events: seq<Event<D>>)
    ensures events == EventsOf(json, ReadChunks(chunks + [last]))
  {
    ghost var all := chunks + [last];
    var buffer: string := "";
    events := [];
    for i := 0 to |chunks|
      invariant ReadSoFar(json, all, i, buffer, events)
    {
      ReadOn(json, all, i, buffer, events);
      var more, rest := ParseBuffer(json, buffer + chunks[i], false);
      events := events + more;
      buffer := rest;
    }
    ReadOn(json, all, |chunks|, buffer, events);
    ghost var now := Feed(buffer, last);
    ghost var sofar := events;
    var more, _ := ParseBuffer(json, buffer + last, true);
    events := events + more;
    ReadAll(json, all, now, sofar);
  }

  lemma ReadAll<D>(json: string -> Option<D>, chunks: seq<string>, now: Pieces, sofar: seq<Event<D>>)
    requires ReadSoFar(json, chunks, |chunks|, now.rest, sofar + Events(json, now.blocks))
    ensures sofar + (Events(json, now.blocks) + Flushed(json, now.rest)) == EventsOf(json, ReadChunks(chunks))
  {
    assert chunks[..|chunks|] == chunks;
  }

  // ----- what splitting means -----

  /** The blocks with the blank line that ended each. */
  function Ended(blocks: seq<string>): string
  {
    if blocks == [] then "" else blocks[0] + "\n\n" + Ended(blocks[1..])
  }

  lemma EndedCons(b: string, blocks: seq<string>)
    ensures Ended([b] + blocks) == b + "\n\n" + Ended(blocks)
  {
    assert ([b] + blocks)[1..] == blocks;
  }

  lemma CutAtBlank(s: string)
    requires FirstBlank(s) >= 0
    ensures s[..FirstBlank(s)] + "\n\n" == s[..FirstBlank(s) + 2]
  {
  }

  lemma SplitStep(s: string)
    requires FirstBlank(s) >= 0
    ensures var i := FirstBlank(s);
      var p, q := Split(s), Split(s[i + 2..]);
      p.blocks == [s[..i]] + q.blocks && p.blocks[1..] == q.blocks
      && p.rest == q.rest && Ended(p.blocks) == s[..i + 2] + Ended(q.blocks)
  {
    CutAtBlank(s);
    EndedCons(s[..FirstBlank(s)], Split(s[FirstBlank(s) + 2..]).blocks);
  }

  lemma PrefixGivenBack(s: string, n: nat, ended: string, rest: string)
    requires n <= |s| && ended + rest == s[n..]
    ensures (s[..n] + ended) + rest == s
  {
    Associates(s[..n], ended, rest);
    assert s[..n] + s[n..] == s;
  }

  lemma {:induction false} SplitGivesBack(s: string)
    ensures Ended(Split(s).blocks) + Split(s).rest == s
    decreases |s|
  {
    var i := FirstBlank(s);
    if i >= 0 {
      var q := Split(s[i + 2..]);
      SplitGivesBack(s[i + 2..]);
      SplitStep(s);
      PrefixGivenBack(s, i + 2, Ended(q.blocks), q.rest);
    }
  }

  lemma {:induction false} SplitAfterEnded(s: string, more: string)
    ensures Split(Ended(Split(s).blocks) + more) == Pieces(Split(s).blocks + Split(more).blocks, Split(more).rest)
    decreases |s|
  {
    var i := FirstBlank(s);
    if i < 0 {
      assert Ended([]) + more == more;
      assert [] + Split(more).blocks == Split(more).blocks;
    } else {
      SplitAfterEnded(s[i + 2..], more);
      SplitStep(s);
      SplitAfterHead(s, i, more);
    }
  }

  lemma SplitHead(s: string, i: nat, tail: string)
    requires i == FirstBlank(s)
    ensures Split(s[..i + 2] + tail) == Pieces([s[..i]] + Split(tail).blocks, Split(tail).rest)
  {
    var text := s[..i + 2] + tail;
    FirstBlankOfHead(s, i, tail);
    assert text[..i] == s[..i] && text[i + 2..] == tail;
    SplitStep(text);
  }

  lemma Associates<T>(a: seq<T>, b: seq<T>, c: seq<T>)
    ensures (a + b) + c == a + (b + c)
  {
  }

  lemma SplitAfterHead(s: string, i: nat, more: string)
    requires i == FirstBlank(s)
    requires var q := Split(s[i + 2..]);
      && Split(Ended(q.blocks) + more) == Pieces(q.blocks + Split(more).blocks, Split(more).rest)
      && Split(s).blocks == [s[..i]] + q.blocks
      && Ended(Split(s).blocks) == s[..i + 2] + Ended(q.blocks)
    ensures Split(Ended(Split(s).blocks) + more) == Pieces(Split(s).blocks + Split(more).blocks, Split(more).rest)
  {
    var q := Split(s[i + 2..]);
    var tail := Ended(q.blocks) + more;
    SplitHead(s, i, tail);
    Associates(s[..i + 2], Ended(q.blocks), more);
    Associates([s[..i]], q.blocks, Split(more).blocks);
  }

  lemma FirstBlankOfHead(s: string, i: nat, more: string)
    requires FirstBlank(s) == i
    ensures FirstBlank(s[..i + 2] + more) == i
  {
    var text := s[..i + 2] + more;
    assert BlankAt(text, i);
    forall k | BlankAt(text, k) ensures k >= i {
      if k < i { assert BlankAt(s, k); }
    }
  }

  /** Blocks without a blank line, also at the seam, and a rest without one: only Split cuts so. */
  ghost predicate CleanCut(blocks: seq<string>, rest: string)
  {
    && (forall k :: 0 <= k < |blocks| ==> FirstBlank(blocks[k] + "\n\n") == |blocks[k]|)
    && FirstBlank(rest) == -1
  }

  lemma {:induction false} SplitIsCleanCut(s: string)
    ensures CleanCut(Split(s).blocks, Split(s).rest)
    decreases |s|
  {
    var i := FirstBlank(s);
    if i >= 0 {
      SplitIsCleanCut(s[i + 2..]);
      var p := Split(s);
      assert p.blocks[1..] == Split(s[i + 2..]).blocks;
      FirstBlankOfHead(s, i, "");
      assert s[..i + 2] + "" == s[..i] + "\n\n";
      forall k | 0 <= k < |p.blocks|
        ensures FirstBlank(p.blocks[k] + "\n\n") == |p.blocks[k]|
      {
        if k > 0 { assert p.blocks[k] == Split(s[i + 2..]).blocks[k - 1]; }
      }
    }
  }

  lemma {:induction false} CleanCutIsSplit(blocks: seq<string>, rest: string)
    requires CleanCut(blocks, rest)
    ensures Split(Ended(blocks) + rest) == Pieces(blocks, rest)
  {
    if blocks == [] {
      assert Ended(blocks) + rest == rest;
    } else {
      var s := blocks[0] + "\n\n";
      var i := |blocks[0]|;
      var more := Ended(blocks[1..]) + rest;
      assert Ended(blocks) + rest == s + more;
      assert s[..i + 2] == s;
      FirstBlankOfHead(s, i, more);
      assert (s + more)[..i] == blocks[0];
      assert (s + more)[i + 2..] == more;
      CleanCutIsSplit(blocks[1..], rest);
      assert [blocks[0]] + blocks[1..] == blocks;
    }
  }

  // ----- what normalising means -----

  /** A text that can be cut here without cutting a CR LF in two. */
  predicate CutsNoCrLf(a: string, b: string)
  {
    a == "" || a[|a| - 1] != '\r' || b == "" || b[0] != '\n'
  }

  lemma {:induction false} NormalizeConcat(a: string, b: string)
    requires CutsNoCrLf(a, b)
    ensures Normalize(a + b) == Normalize(a) + Normalize(b)
    decreases |a|
  {
    if a == "" {
      assert a + b == b;
    } else if |a| >= 2 && a[0] == '\r' && a[1] == '\n' {
      assert (a + b)[2..] == a[2..] + b;
      NormalizeConcat(a[2..], b);
    } else {
      assert (a + b)[1..] == a[1..] + b;
      NormalizeConcat(a[1..], b);
    }
  }

  /** A CR directly before a CR LF. */
  ghost predicate CrBeforeCrLf(s: string, i: int)
  {
    0 <= i && i + 2 < |s| && s[i] == '\r' && s[i + 1] == '\r' && s[i + 2] == '\n'
  }

  ghost predicate HasCrBeforeCrLf(s: string)
  {
    exists i :: CrBeforeCrLf(s, i)
  }

  lemma HasInTail(s: string, n: nat)
    requires n <= |s| && HasCrBeforeCrLf(s[n..])
    ensures HasCrBeforeCrLf(s)
  {
    var i :| CrBeforeCrLf(s[n..], i);
    assert CrBeforeCrLf(s, i + n);
  }

  lemma HasInHead(a: string, b: string)
    requires HasCrBeforeCrLf(a)
    ensures HasCrBeforeCrLf(a + b)
  {
    var i :| CrBeforeCrLf(a, i);
    assert CrBeforeCrLf(a + b, i);
  }

  lemma NoneInTail(s: string, n: nat)
    requires n <= |s| && !HasCrBeforeCrLf(s)
    ensures !HasCrBeforeCrLf(s[n..])
  {
    if HasCrBeforeCrLf(s[n..]) { HasInTail(s, n); }
  }

  lemma NoneInHead(a: string, b: string)
    requires !HasCrBeforeCrLf(a + b)
    ensures !HasCrBeforeCrLf(a)
  {
    if HasCrBeforeCrLf(a) { HasInHead(a, b); }
  }

  lemma NormalizePair(rest: string)
    ensures Normalize("\r\n" + rest) == "\n" + Normalize(rest)
  {
    var s := "\r\n" + rest;
    assert s[0] == '\r' && s[1] == '\n' && s[2..] == rest;
  }

  lemma NormalizeChar(c: char, rest: string)
    requires c != '\r' || rest == "" || rest[0] != '\n'
    ensures Normalize([c] + rest) == [c] + Normalize(rest)
  {
    var s := [c] + rest;
    assert s[0] == c && s[1..] == rest;
  }

  /** Normalising a prefix early does no harm when no CR stands before a CR LF. */
  lemma {:induction false} NormalizeEarly(a: string, b: string)
    requires !HasCrBeforeCrLf(a + b)
    ensures Normalize(Normalize(a) + b) == Normalize(a + b)
    decreases |a|
  {
    if a == "" {
      assert Normalize(a) + b == a + b;
    } else if |a| >= 2 && a[0] == '\r' && a[1] == '\n' {
      NormalizeEarlyPair(a, b);
    } else {
      NormalizeEarlyChar(a, b);
    }
  }

  lemma {:induction false} NormalizeEarlyPair(a: string, b: string)
    requires |a| >= 2 && a[0] == '\r' && a[1] == '\n'
    requires !HasCrBeforeCrLf(a + b)
    ensures Normalize(Normalize(a) + b) == Normalize(a + b)
    decreases |a|, 0
  {
    var t := a[2..];
    assert (a + b)[2..] == t + b;
    NoneInTail(a + b, 2);
    NormalizeEarly(t, b);
    assert a + b == "\r\n" + (t + b);
    NormalizePair(t + b);
    assert Normalize(a) + b == ['\n'] + (Normalize(t) + b);
    NormalizeChar('\n', Normalize(t) + b);
  }

  lemma {:induction false} NormalizeEarlyChar(a: string, b: string)
    requires a != "" && !(|a| >= 2 && a[0] == '\r' && a[1] == '\n')
    requires !HasCrBeforeCrLf(a + b)
    ensures Normalize(Normalize(a) + b) == Normalize(a + b)
    decreases |a|, 0
  {
    var c, t := a[0], a[1..];
    assert (a + b)[1..] == t + b;
    assert a + b == [c] + (t + b);
    NoneInTail(a + b, 1);
    NormalizeEarly(t, b);
    assert Normalize(a) + b == [c] + (Normalize(t) + b);
    if c == '\r' && t != "" {
      assert !CrBeforeCrLf(a + b, 0);
      NormalizeHead(t);
    }
    if c != '\r' || t + b == "" || (t + b)[0] != '\n' {
      NormalizeChar(c, t + b);
      NormalizeChar(c, Normalize(t) + b);
    } else {
      assert t == "";
    }
  }

  lemma NormalizeHead(s: string)
    requires s != ""
    requires s[0] != '\n' && !(|s| >= 2 && s[0] == '\r' && s[1] == '\n')
    ensures Normalize(s) != "" && Normalize(s)[0] == s[0]
  {
  }

  // ----- chunk invariance -----

  /** One more chunk: the blocks cut so far and the buffer stand for the whole prefix read. */
  lemma FeedKeepsWhole(prefix: string, chunk: string)
    requires !HasCrBeforeCrLf(prefix + chunk)
    ensures var p := Whole(prefix);
      var now := Feed(p.rest, chunk);
      Whole(prefix + chunk) == Pieces(p.blocks + now.blocks, now.rest)
  {
    var x := Normalize(prefix);
    var p := Split(x);
    NoneInHead(prefix, chunk);
    NormalizedIsNormal(prefix);
    SplitGivesBack(x);
    NormalizeEarly(prefix, chunk);
    Associates(Ended(p.blocks), p.rest, chunk);
    EndedIsNormal(p, chunk);
    SplitAfterEnded(x, Normalize(p.rest + chunk));
  }

  lemma NormalizedIsNormal(s: string)
    requires !HasCrBeforeCrLf(s)
    ensures Normalize(Normalize(s)) == Normalize(s)
  {
    assert s + "" == s && Normalize(s) + "" == Normalize(s);
    NormalizeEarly(s, "");
  }

  /** Normalising goes on after the last blank line as if the text began there. */
  lemma EndedIsNormal(p: Pieces, chunk: string)
    requires Normalize(Ended(p.blocks) + p.rest) == Ended(p.blocks) + p.rest
    ensures Normalize(Ended(p.blocks) + (p.rest + chunk)) == Ended(p.blocks) + Normalize(p.rest + chunk)
  {
    var head := Ended(p.blocks);
    EndedEndsLine(p.blocks);
    NormalizeConcat(head, p.rest);
    SameParts(Normalize(head), Normalize(p.rest), head, p.rest);
    NormalizeConcat(head, p.rest + chunk);
  }

  lemma SameParts(a: string, b: string, x: string, y: string)
    requires a + b == x + y && |a| <= |x| && |b| <= |y|
    ensures a == x && b == y
  {
    assert |a| + |b| == |x| + |y|;
    assert (a + b)[..|a|] == a && (x + y)[..|a|] == x;
    assert (a + b)[|a|..] == b && (x + y)[|a|..] == y;
  }

  lemma {:induction false} EndedEndsLine(blocks: seq<string>)
    ensures blocks != [] ==> BlankAt(Ended(blocks), |Ended(blocks)| - 2)
  {
    if |blocks| > 1 {
      EndedEndsLine(blocks[1..]);
    } else if |blocks| == 1 {
      assert blocks[1..] == [];
    }
  }

  lemma {:induction false} ChunksReadAsWhole(chunks: seq<string>)
    requires !HasCrBeforeCrLf(Concat(chunks))
    ensures ReadChunks(chunks) == Whole(Concat(chunks))
  {
    if chunks != [] {
      var front := chunks[..|chunks| - 1];
      NoneInHead(Concat(front), chunks[|chunks| - 1]);
      ChunksReadAsWhole(front);
      FeedKeepsWhole(Concat(front), chunks[|chunks| - 1]);
    }
  }

  // ----- and exactly when -----

  ghost predicate ChunkInvariant(text: string)
  {
    forall chunks: seq<string> :: Concat(chunks) == text ==> ReadChunks(chunks) == Whole(text)
  }

  /** Length of everything cut and left: each block lost its blank line. */
  function Weight(p: Pieces): nat
  {
    |Ended(p.blocks)| + |p.rest|
  }

  lemma {:induction false} EndedConcat(a: seq<string>, b: seq<string>)
    ensures Ended(a + b) == Ended(a) + Ended(b)
  {
    if a == [] {
      assert a + b == b;
    } else {
      assert (a + b)[1..] == a[1..] + b;
      EndedConcat(a[1..], b);
    }
  }

  /** Cutting right after a CR CR LF leaves a CR LF in the buffer, which the next read halves. */
  lemma CutAfterCrCrLfDiffers(a: string, b: string)
    ensures ReadChunks([a + "\r\r\n", b]) != Whole(a + "\r\r\n" + b)
  {
    var first := a + "\r\r\n";
    var chunks := [first, b];
    assert chunks[..1] == [first] && [first][..0] == [];
    assert "" + first == first;
    var p := Whole(first);
    assert ReadChunks([first]) == p by {
      assert ReadChunks([]) == Pieces([], "");
      assert [] + p.blocks == p.blocks;
    }
    var x := Normalize(first);
    assert x == Normalize(a) + "\r\n" by { NormalizedTail(a); }
    SplitGivesBack(x);
    EndedEndsLine(p.blocks);
    var r := p.rest;
    assert |r| >= 2 && r[|r| - 2] == '\r' && r[|r| - 1] == '\n' by { TailStays(x, p); }
    var now := Feed(r, b);
    SplitGivesBack(Normalize(r + b));
    NormalizeConcat(r, b);
    Shrinks(r);
    EndedConcat(p.blocks, now.blocks);
    assert Weight(ReadChunks(chunks)) < |x| + |Normalize(b)|;
    NormalizeConcat(first, b);
    SplitGivesBack(Normalize(first + b));
    assert Weight(Whole(first + b)) == |x| + |Normalize(b)|;
  }

  lemma NormalizedTail(a: string)
    ensures Normalize(a + "\r\r\n") == Normalize(a) + "\r\n"
  {
    assert a + "\r\r\n" == a + ("\r" + "\r\n");
    assert CutsNoCrLf(a, "\r\r\n");
    NormalizeConcat(a, "\r\r\n");
    var t := "\r\r\n";
    assert t[1..] == "\r\n";
    assert t[1..][2..] == "";
    assert Normalize(t[1..]) == "\n";
  }

  lemma TailStays(x: string, p: Pieces)
    requires |x| >= 2 && x[|x| - 2] == '\r' && x[|x| - 1] == '\n'
    requires Ended(p.blocks) + p.rest == x
    ensures |p.rest| >= 2 && p.rest[|p.rest| - 2] == '\r' && p.rest[|p.rest| - 1] == '\n'
  {
    EndedEndsLine(p.blocks);
    var h := |Ended(p.blocks)|;
    assert forall k :: 0 <= k < h ==> x[k] == Ended(p.blocks)[k];
    if p.blocks != [] {
      assert x[h - 1] == '\n' && x[h - 2] == '\n';
    }
    assert forall k :: h <= k < |x| ==> x[k] == p.rest[k - h];
  }

  lemma Shrinks(r: string)
    requires |r| >= 2 && r[|r| - 2] == '\r' && r[|r| - 1] == '\n'
    ensures |Normalize(r)| < |r|
  {
    var r0 := r[..|r| - 2];
    assert r == r0 + "\r\n";
    NormalizeConcat(r0, "\r\n");
    var t := "\r\n";
    assert t[2..] == "";
    assert Normalize(t) == "\n";
  }

  lemma ConcatTwo(x: string, y: string)
    ensures Concat([x, y]) == x + y
  {
    var one, two := [x], [x, y];
    assert one[..|one| - 1] == [] && two[..|two| - 1] == one;
    assert Concat(one) == "" + x;
    assert Concat(two) == Concat(one) + y;
  }

  lemma CutThereDiffers(text: string, i: int)
    requires CrBeforeCrLf(text, i)
    ensures !ChunkInvariant(text)
  {
    var a, b := text[..i], text[i + 3..];
    assert text[i..i + 3] == "\r\r\n";
    assert text == a + "\r\r\n" + b;
    CutAfterCrCrLfDiffers(a, b);
    ConcatTwo(a + "\r\r\n", b);
  }

  /** Every way of cutting the text reads the same, if and only if no CR stands directly before a CR LF. */
  lemma ChunkInvariantIffNoCrBeforeCrLf(text: string)
    ensures ChunkInvariant(text) <==> !HasCrBeforeCrLf(text)
  {
    if HasCrBeforeCrLf(text) {
      var i :| CrBeforeCrLf(text, i);
      CutThereDiffers(text, i);
    } else {
      forall chunks: seq<string> | Concat(chunks) == text
        ensures ReadChunks(chunks) == Whole(text)
      {
        ChunksReadAsWhole(chunks);
      }
    }
  }

  /** The events and their order do not depend on where the network cut the text. */
  lemma EventsAreChunkInvariant<D>(json: string -> Option<D>, chunks: seq<string>, others: seq<string>)
    requires Concat(chunks) == Concat(others)
    requires !HasCrBeforeCrLf(Concat(chunks))
    ensures EventsOf(json, ReadChunks(chunks)) == EventsOf(json, ReadChunks(others))
  {
    ChunksReadAsWhole(chunks);
    ChunksReadAsWhole(others);
  }

  // ----- from the server's frames to the client's events -----

  /** A value the server sends on one line: not empty, no line end inside, no white space around. */
  ghost predicate OneLine(s: string)
  {
    && s != "" && !IsSpace(s[0]) && !IsSpace(s[|s| - 1])
    && (forall i :: 0 <= i < |s| ==> s[i] != '\r' && s[i] != '\n')
  }

  /** What the server puts on the wire: an event, or a comment line to keep the connection open. */
  datatype Frame = Frame(name: string, payload: string) | Comment(text: string)

  ghost predicate Sendable(f: Frame)
  {
    match f
    case Frame(name, payload) => OneLine(name) && OneLine(payload)
    case Comment(text) => OneLine(text)
  }

  function CommentLine(f: Frame): string
    requires f.Comment?
  {
    ": " + f.text
  }

  function NameLine(f: Frame): string
    requires f.Frame?
  {
    "event: " + f.name
  }

  function DataLine(f: Frame): string
    requires f.Frame?
  {
    "data: " + f.payload
  }

  /** The frames as they go over the wire, each line ended by eol. */
  function Wire(frames: seq<Frame>, eol: string): string
  {
    if frames == [] then ""
    else
      var more := eol + Wire(frames[1..], eol);
      match frames[0]
      case Frame(_, _) => NameLine(frames[0]) + eol + (DataLine(frames[0]) + eol + more)
      case Comment(_) => CommentLine(frames[0]) + eol + more
  }

  function DecodedFrame<D>(json: string -> Option<D>, f: Frame): Option<Event<D>>
  {
    match f
    case Comment(_) => None
    case Frame(name, payload) =>
      match json(payload)
      case None => None
      case Some(d) => Some(Event(name, d))
  }

  function Decoded<D>(json: string -> Option<D>, frames: seq<Frame>): seq<Event<D>>
  {
    if frames == [] then []
    else
      var f := frames[|frames| - 1];
      Decoded(json, frames[..|frames| - 1]) +
      Given(DecodedFrame(json, f))
  }

  ghost predicate NoCr(s: string)
  {
    forall i :: 0 <= i < |s| ==> s[i] != '\r'
  }

  ghost predicate LineEnd(eol: string)
  {
    eol == "\n" || eol == "\r\n"
  }

  ghost predicate CrsEndLines(s: string)
  {
    forall i :: 0 <= i < |s| && s[i] == '\r' ==> i + 1 < |s| && s[i + 1] == '\n'
  }

  lemma CrsEndLinesConcat(line: string, eol: string, more: string)
    requires NoCr(line) && LineEnd(eol) && CrsEndLines(more)
    ensures CrsEndLines(line + eol + more)
  {
    var t := line + eol + more;
    assert forall k :: 0 <= k < |line| ==> t[k] == line[k];
    assert forall k :: |line| <= k < |line + eol| ==> t[k] == eol[k - |line|];
    assert forall k :: |line + eol| <= k < |t| ==> t[k] == more[k - |line + eol|];
  }

  lemma {:induction false} WireEndsLines(frames: seq<Frame>, eol: string)
    requires LineEnd(eol) && forall f :: f in frames ==> Sendable(f)
    ensures CrsEndLines(Wire(frames, eol))
  {
    if frames != [] {
      var f := frames[0];
      var more := Wire(frames[1..], eol);
      WireEndsLines(frames[1..], eol);
      CrsEndLinesConcat("", eol, more);
      assert "" + eol + more == eol + more;
      assert Sendable(f);
      if f.Comment? {
        CrsEndLinesConcat(CommentLine(f), eol, eol + more);
      } else {
        CrsEndLinesConcat(DataLine(f), eol, eol + more);
        CrsEndLinesConcat(NameLine(f), eol, DataLine(f) + eol + (eol + more));
      }
    }
  }

  lemma {:induction false} NormalizePlain(s: string)
    requires NoCr(s)
    ensures Normalize(s) == s
  {
    if s != "" {
      NormalizePlain(s[1..]);
    }
  }

  lemma NormalizeLine(line: string, eol: string, more: string)
    requires NoCr(line) && LineEnd(eol)
    ensures Normalize(line + eol + more) == line + "\n" + Normalize(more)
  {
    NormalizePlain(line);
    NormalizeConcat(line, eol);
    if eol == "\r\n" {
      assert eol == eol + "";
      NormalizePair("");
    } else {
      NormalizePlain(eol);
    }
    NormalizeConcat(line + eol, more);
  }

  lemma NormalizesComment(f: Frame, eol: string, more: string)
    requires LineEnd(eol) && Sendable(f) && f.Comment?
    ensures Normalize(CommentLine(f) + eol + more) == CommentLine(f) + "\n" + Normalize(more)
  {
    NormalizeLine(CommentLine(f), eol, more);
  }

  lemma NormalizesFrame(f: Frame, eol: string, more: string)
    requires LineEnd(eol) && Sendable(f) && f.Frame?
    ensures Normalize(NameLine(f) + eol + (DataLine(f) + eol + more))
      == NameLine(f) + "\n" + (DataLine(f) + "\n" + Normalize(more))
  {
    NormalizeLine(DataLine(f), eol, more);
    NormalizeLine(NameLine(f), eol, DataLine(f) + eol + more);
  }

  lemma {:induction false} WireNormalizes(frames: seq<Frame>, eol: string)
    requires LineEnd(eol) && forall f :: f in frames ==> Sendable(f)
    ensures Normalize(Wire(frames, eol)) == Wire(frames, "\n")
  {
    if frames != [] {
      var f := frames[0];
      assert Sendable(f);
      var more := Wire(frames[1..], eol);
      WireNormalizes(frames[1..], eol);
      NormalizeLine("", eol, more);
      assert "" + eol + more == eol + more;
      assert Normalize(eol + more) == "\n" + Normalize(more);
      if f.Comment? {
        NormalizesComment(f, eol, eol + more);
      } else {
        NormalizesFrame(f, eol, eol + more);
      }
    }
  }

  function BlockOf(f: Frame): string
  {
    match f
    case Frame(_, _) => NameLine(f) + "\n" + DataLine(f)
    case Comment(_) => CommentLine(f)
  }

  function BlocksOf(frames: seq<Frame>): (r: seq<string>)
    ensures |r| == |frames|
    ensures forall k :: 0 <= k < |r| ==> r[k] == BlockOf(frames[k])
  {
    seq(|frames|, k requires 0 <= k < |frames| => BlockOf(frames[k]))
  }

  lemma WireOfOne(f: Frame, more: string)
    ensures BlockOf(f) + "\n\n" + more ==
      match f {
        case Frame(_, _) => NameLine(f) + "\n" + (DataLine(f) + "\n" + ("\n" + more))
        case Comment(_) => CommentLine(f) + "\n" + ("\n" + more)
      }
  {
  }

  lemma {:induction false} WireIsEnded(frames: seq<Frame>)
    ensures Wire(frames, "\n") == Ended(BlocksOf(frames))
  {
    if frames != [] {
      WireIsEnded(frames[1..]);
      assert BlocksOf(frames) == [BlockOf(frames[0])] + BlocksOf(frames[1..]);
      EndedCons(BlockOf(frames[0]), BlocksOf(frames[1..]));
      WireOfOne(frames[0], Wire(frames[1..], "\n"));
    }
  }

  lemma BlockHasNoBlank(f: Frame)
    requires Sendable(f)
    ensures FirstBlank(BlockOf(f) + "\n\n") == |BlockOf(f)|
  {
    var b := BlockOf(f);
    var s := b + "\n\n";
    if f.Comment? {
      assert forall k :: 0 <= k < |b| ==> s[k] == b[k] && s[k] != '\n';
    } else {
      var n := |NameLine(f)|;
      assert forall k :: 0 <= k < n ==> s[k] == NameLine(f)[k] && s[k] != '\n';
      assert forall k :: n < k < |b| ==> s[k] == DataLine(f)[k - n - 1] && s[k] != '\n';
    }
    assert BlankAt(s, |b|);
    assert forall k :: BlankAt(s, k) ==> k >= |b|;
  }

  lemma WireSplits(frames: seq<Frame>, eol: string)
    requires LineEnd(eol) && forall f :: f in frames ==> Sendable(f)
    ensures Whole(Wire(frames, eol)) == Pieces(BlocksOf(frames), "")
  {
    WireNormalizes(frames, eol);
    WireIsEnded(frames);
    var bs := BlocksOf(frames);
    forall k | 0 <= k < |bs| ensures FirstBlank(bs[k] + "\n\n") == |bs[k]| {
      assert frames[k] in frames;
      BlockHasNoBlank(frames[k]);
    }
    CleanCutIsSplit(bs, "");
    assert Ended(bs) + "" == Ended(bs);
  }

  lemma TrimsAfterColon(s: string)
    requires OneLine(s)
    ensures TrimEnd(s) == s && Trim(" " + s) == s
  {
    var t := " " + s;
    assert t[|t| - 1] == s[|s| - 1];
    assert TrimEnd(t) == t;
    assert t[0] == ' ' && t[1..] == s;
    assert TrimStart(s) == s;
    assert TrimStart(t) == TrimStart(t[1..]);
  }

  lemma LinesOfBlock(a: string, b: string)
    requires forall i :: 0 <= i < |a| ==> a[i] != '\n'
    requires forall i :: 0 <= i < |b| ==> b[i] != '\n'
    ensures Lines(a + "\n" + b) == [a, b]
  {
    var s := a + "\n" + b;
    assert s[|a|] == '\n';
    assert forall i :: 0 <= i < |a| ==> s[i] == a[i];
    assert FirstLf(s) == |a|;
    assert s[..|a|] == a && s[|a| + 1..] == b;
    assert Lines(b) == [b];
  }

  lemma ReadsNameLine(f: Frame, before: Fields)
    requires f.Frame? && OneLine(f.name)
    ensures ReadLine(before, NameLine(f)) == before.(name := f.name)
  {
    TrimsAfterColon(f.name);
    var line := NameLine(f);
    assert line[|line| - 1] == f.name[|f.name| - 1];
    assert line[..6] == "event:";
    assert line[6..] == " " + f.name;
  }

  lemma ReadsDataLine(f: Frame, before: Fields)
    requires f.Frame? && OneLine(f.payload)
    ensures ReadLine(before, DataLine(f)) == before.(data := before.data + [f.payload])
  {
    TrimsAfterColon(f.payload);
    var line := DataLine(f);
    assert line[|line| - 1] == f.payload[|f.payload| - 1];
    assert line[0] == 'd';
    assert line[..5] == "data:";
    assert line[5..] == " " + f.payload;
  }

  lemma TwoFields(a: string, b: string)
    ensures FieldsOf([a, b]) == ReadLine(ReadLine(Fields("", []), a), b)
  {
    var one, two := [a], [a, b];
    assert one[..|one| - 1] == [] && two[..|two| - 1] == one;
    assert FieldsOf(one) == ReadLine(Fields("", []), one[|one| - 1]);
    assert FieldsOf(two) == ReadLine(FieldsOf(one), two[|two| - 1]);
  }

  lemma FrameFields(f: Frame)
    requires f.Frame? && Sendable(f)
    ensures FieldsOf(Lines(Normalize(BlockOf(f)))) == Fields(f.name, [f.payload])
  {
    NormalizePlain(BlockOf(f));
    LinesOfBlock(NameLine(f), DataLine(f));
    TwoFields(NameLine(f), DataLine(f));
    ReadsNameLine(f, Fields("", []));
    ReadsDataLine(f, Fields(f.name, []));
  }

  lemma CommentFields(f: Frame)
    requires f.Comment? && Sendable(f)
    ensures FieldsOf(Lines(Normalize(BlockOf(f)))) == Fields("", [])
  {
    var line := CommentLine(f);
    NormalizePlain(line);
    assert Lines(line) == [line];
    assert line[0] == ':' && line[|line| - 1] == f.text[|f.text| - 1];
    assert TrimEnd(line) == line;
    var lines := [line];
    assert lines[..|lines| - 1] == [];
    assert FieldsOf([line]) == ReadLine(Fields("", []), line);
  }

  lemma BlockDecodes<D>(json: string -> Option<D>, f: Frame)
    requires Sendable(f)
    ensures BlockEvent(json, BlockOf(f)) == DecodedFrame(json, f)
  {
    if f.Comment? {
      CommentFields(f);
    } else {
      FrameFields(f);
      assert JoinLines([f.payload]) == f.payload;
    }
  }

  lemma {:induction false} BlocksDecode<D>(json: string -> Option<D>, frames: seq<Frame>)
    requires forall f :: f in frames ==> Sendable(f)
    ensures Events(json, BlocksOf(frames)) == Decoded(json, frames)
  {
    if frames != [] {
      var front, f := frames[..|frames| - 1], frames[|frames| - 1];
      BlocksDecode(json, front);
      assert BlocksOf(frames)[..|frames| - 1] == BlocksOf(front);
      assert Sendable(f);
      BlockDecodes(json, f);
    }
  }

  /** Whatever the line end and wherever the network cuts, the client gets exactly the events sent, in order. */
  lemma FramesArrive<D>(json: string -> Option<D>, frames: seq<Frame>, eol: string, chunks: seq<string>)
    requires LineEnd(eol) && forall f :: f in frames ==> Sendable(f)
    requires Concat(chunks) == Wire(frames, eol)
    ensures EventsOf(json, ReadChunks(chunks)) == Decoded(json, frames)
  {
    WireEndsLines(frames, eol);
    forall i ensures !CrBeforeCrLf(Concat(chunks), i) {
    }
    ChunksReadAsWhole(chunks);
    WireSplits(frames, eol);
    BlocksDecode(json, frames);
    assert Flushed(json, "") == [];
  }

  /** The frames, and one more the connection was closed on before its blank line. */
  function CutShort(frames: seq<Frame>, f: Frame): string
  {
    Wire(frames, "\n") + BlockOf(f)
  }

  lemma NothingToTrim(s: string)
    requires s != "" && !IsSpace(s[0]) && !IsSpace(s[|s| - 1])
    ensures Trim(s) == s
  {
  }

  lemma BlockEnds(f: Frame)
    requires Sendable(f)
    ensures var b := BlockOf(f); NoCr(b) && b != "" && !IsSpace(b[0]) && !IsSpace(b[|b| - 1])
  {
    var b := BlockOf(f);
    if f.Comment? {
      assert b[0] == ':' && b[|b| - 1] == f.text[|f.text| - 1];
    } else {
      assert b[0] == 'e' && b[|b| - 1] == f.payload[|f.payload| - 1];
    }
  }

  lemma BlockIsNotBlank(f: Frame)
    requires Sendable(f)
    ensures Trim(BlockOf(f)) != "" && FirstBlank(BlockOf(f)) == -1 && Normalize(BlockOf(f)) == BlockOf(f)
  {
    var b := BlockOf(f);
    BlockEnds(f);
    NothingToTrim(b);
    NormalizePlain(b);
    BlockHasNoBlank(f);
    NoBlankInHead(b);
  }

  lemma NoBlankInHead(b: string)
    requires FirstBlank(b + "\n\n") == |b|
    ensures FirstBlank(b) == -1
  {
    assert forall k :: BlankAt(b, k) ==> BlankAt(b + "\n\n", k);
  }

  /** An event whose closing blank line never came is still delivered when the stream ends. */
  lemma LastFrameArrives<D>(json: string -> Option<D>, frames: seq<Frame>, f: Frame, chunks: seq<string>)
    requires Sendable(f) && forall g :: g in frames ==> Sendable(g)
    requires Concat(chunks) == CutShort(frames, f)
    ensures EventsOf(json, ReadChunks(chunks)) == Decoded(json, frames + [f])
  {
    NoneCutShort(frames, f);
    ChunksReadAsWhole(chunks);
    CutShortSplits(frames, f);
    BlockIsNotBlank(f);
    BlocksDecode(json, frames);
    BlockDecodes(json, f);
    assert (frames + [f])[..|frames|] == frames;
  }

  lemma NoneCutShort(frames: seq<Frame>, f: Frame)
    requires Sendable(f) && forall g :: g in frames ==> Sendable(g)
    ensures !HasCrBeforeCrLf(CutShort(frames, f))
  {
    var head, b := Wire(frames, "\n"), BlockOf(f);
    WireEndsLines(frames, "\n");
    BlockEnds(f);
    forall i ensures !CrBeforeCrLf(head + b, i) {
    }
  }

  lemma CutShortSplits(frames: seq<Frame>, f: Frame)
    requires Sendable(f) && forall g :: g in frames ==> Sendable(g)
    ensures Whole(CutShort(frames, f)) == Pieces(BlocksOf(frames), BlockOf(f))
  {
    var head, b := Wire(frames, "\n"), BlockOf(f);
    BlockIsNotBlank(f);
    WireNormalizes(frames, "\n");
    WireIsEnded(frames);
    EndedEndsLine(BlocksOf(frames));
    NormalizeConcat(head, b);
    WireSplits(frames, "\n");
    SplitAfterEnded(head, b);
    assert BlocksOf(frames) + [] == BlocksOf(frames);
  }
}
