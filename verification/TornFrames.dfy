/** Frames with a line of nothing but CRs inside: when the network's cuts can change their events. */
module TornFrames {
  import opened Outcomes
  import opened AgentStream
  import opened AgentStreamEvents

  function Crs(k: nat): string
  {
    if k == 0 then "" else "\r" + Crs(k - 1)
  }

  /** A frame up to a line of k CRs between its name and its data. */
  function Torn(f: Frame, k: nat): string
    requires f.Frame?
  {
    NameLine(f) + "\n" + (Crs(k) + "\n")
  }

  /** Such a frame, whole. */
  function CrFrame(f: Frame, k: nat): string
    requires f.Frame?
  {
    Torn(f, k) + (DataLine(f) + "\n\n")
  }

  /** So many reads of nothing. */
  function Empties(n: nat): seq<string>
  {
    if n == 0 then [] else Empties(n - 1) + [""]
  }

  /** The line reaches the reader at once, then nothing for a while, then the rest. */
  function TornChunks(f: Frame, k: nat): seq<string>
    requires f.Frame? && k >= 2
  {
    [Torn(f, k)] + Empties(k - 2) + [DataLine(f) + "\n\n"]
  }

  /** Read whole, a frame with a line of two or more CRs is an event; cut after that line, with a read for
      each CR, it falls apart and none is read. */
  lemma TornFrameIsLost<D>(json: string -> Option<D>, f: Frame, k: nat)
    requires f.Frame? && Sendable(f) && json(f.payload).Some? && k >= 2
    ensures Concat(TornChunks(f, k)) == CrFrame(f, k)
    ensures EventsOf(json, ReadChunks([CrFrame(f, k)])) == [Event(f.name, json(f.payload).value)]
    ensures EventsOf(json, ReadChunks(TornChunks(f, k))) == []
  {
    TornTogether(f, k);
    TornWhole(json, f, k);
    TornCut(json, f, k);
  }

  /** The events of such a frame do not depend on the cut exactly when the line has fewer than two CRs: among
      these frames the condition on calm texts is the exact one. */
  lemma FrameIsSafeIffCalm<D>(json: string -> Option<D>, f: Frame, k: nat)
    requires f.Frame? && Sendable(f) && json(f.payload).Some?
    ensures (forall chunks: seq<string> | Concat(chunks) == CrFrame(f, k) ::
               EventsOf(json, ReadChunks(chunks)) == EventsOf(json, ReadChunks([CrFrame(f, k)])))
       <==> k < 2
    ensures Calm(CrFrame(f, k)) <==> k < 2
  {
    var s := CrFrame(f, k);
    ConcatOne(s);
    if k < 2 {
      CrFrameIsCalm(f, k);
      forall chunks: seq<string> | Concat(chunks) == s
        ensures EventsOf(json, ReadChunks(chunks)) == EventsOf(json, ReadChunks([s]))
      {
        CalmEventsAreChunkInvariant(json, chunks, [s]);
      }
    } else {
      TornFrameIsLost(json, f, k);
      if Calm(s) {
        CalmEventsAreChunkInvariant(json, TornChunks(f, k), [s]);
        assert false;
      }
    }
  }

  lemma ConcatOne(x: string)
    ensures Concat([x]) == x
  {
    assert [x][..0] == [];
    assert "" + x == x;
  }

  lemma {:induction false} ConcatEmpties(x: string, n: nat)
    ensures Concat([x] + Empties(n)) == x
    decreases n
  {
    if n == 0 {
      ConcatOne(x);
      assert [x] + [] == [x];
    } else {
      var chunks := [x] + Empties(n);
      assert chunks[..|chunks| - 1] == [x] + Empties(n - 1) && chunks[|chunks| - 1] == "";
      ConcatEmpties(x, n - 1);
      assert x + "" == x;
    }
  }

  lemma TornTogether(f: Frame, k: nat)
    requires f.Frame? && k >= 2
    ensures Concat(TornChunks(f, k)) == CrFrame(f, k)
  {
    var chunks := TornChunks(f, k);
    assert chunks[..|chunks| - 1] == [Torn(f, k)] + Empties(k - 2);
    ConcatEmpties(Torn(f, k), k - 2);
  }

  /** Text without CRs does not bring any to the line after it. */
  lemma {:induction false} CalmPasses(x: string, y: string, crs: int)
    requires NoCr(x) && -1 <= crs <= 0 && NoCrLine(y, 0, 2) && NoCrLine(y, -1, 2)
    ensures NoCrLine(x + y, crs, 2)
    decreases |x|
  {
    if x == "" {
      assert x + y == y;
    } else {
      assert NoCr(x[1..]);
      CalmPasses(x[1..], y, NextCount(x[0], crs));
      NoCrLineStep(x[0], x[1..] + y, crs, 2);
      assert x + y == [x[0]] + (x[1..] + y);
    }
  }

  /** From a line of at most one CR on. */
  lemma CalmLine(k: nat, tail: string)
    requires k < 2 && NoCrLine(tail, 0, 2)
    ensures NoCrLine(Crs(k) + "\n" + tail, 0, 2)
  {
    NoCrLineStep('\n', tail, k, 2);
    assert "\n" + tail == ['\n'] + tail;
    if k == 1 {
      NoCrLineStep('\r', "\n" + tail, 0, 2);
      assert Crs(1) == "\r" + Crs(0) == ['\r'];
      assert Crs(1) + "\n" + tail == ['\r'] + ("\n" + tail);
    } else {
      assert Crs(0) + "\n" + tail == "\n" + tail;
    }
  }

  lemma CalmTail(f: Frame)
    requires f.Frame? && Sendable(f)
    ensures NoCrLine(DataLine(f) + "\n\n", 0, 2)
  {
    FrameHasNoCr(f);
    var tail := DataLine(f) + "\n\n";
    CalmPasses(tail, "", 0);
    assert tail + "" == tail;
  }

  lemma CalmBehind(x: string, line: string)
    requires NoCr(x) && NoCrLine(line, 0, 2)
    ensures Calm(x + ("\n" + line))
  {
    assert "\n" + line == ['\n'] + line;
    NoCrLineStep('\n', line, 0, 2);
    NoCrLineStep('\n', line, -1, 2);
    CalmPasses(x, "\n" + line, 0);
  }

  lemma CrFrameIs(f: Frame, k: nat)
    requires f.Frame?
    ensures CrFrame(f, k) == NameLine(f) + ("\n" + (Crs(k) + "\n" + (DataLine(f) + "\n\n")))
  {
  }

  lemma CrFrameIsCalm(f: Frame, k: nat)
    requires f.Frame? && Sendable(f) && k < 2
    ensures Calm(CrFrame(f, k))
  {
    FrameHasNoCr(f);
    CalmTail(f);
    CalmLine(k, DataLine(f) + "\n\n");
    CalmBehind(NameLine(f), Crs(k) + "\n" + (DataLine(f) + "\n\n"));
    CrFrameIs(f, k);
  }

  lemma {:induction false} CrsAre(k: nat)
    ensures |Crs(k)| == k && forall i :: 0 <= i < k ==> Crs(k)[i] == '\r'
  {
    if k > 0 {
      CrsAre(k - 1);
    }
  }

  /** Each read takes one CR off the line. */
  lemma {:induction false} CrsNormalized(k: nat)
    requires k >= 1
    ensures Normalize(Crs(k) + "\n") == Crs(k - 1) + "\n"
    decreases k
  {
    CrsAre(k);
    CrsAre(k - 1);
    var s := Crs(k) + "\n";
    assert s[1..] == Crs(k - 1) + "\n";
    if k == 1 {
      assert s == "\r\n";
      NormalizePair("");
      assert "\r\n" + "" == s;
    } else {
      assert s[0] == '\r' && s[1] == '\r';
      CrsNormalized(k - 1);
      assert Normalize(s) == [s[0]] + Normalize(s[1..]);
    }
  }

  lemma FrameHasNoCr(f: Frame)
    requires f.Frame? && Sendable(f)
    ensures NoCr(NameLine(f)) && NoCr(DataLine(f)) && NoCr(NameLine(f) + "\n") && NoCr(DataLine(f) + "\n\n")
  {
  }

  lemma TornNormalized(f: Frame, k: nat)
    requires f.Frame? && Sendable(f) && k >= 1
    ensures Normalize(Torn(f, k)) == Torn(f, k - 1)
    ensures Normalize(DataLine(f) + "\n\n") == DataLine(f) + "\n\n"
  {
    FrameHasNoCr(f);
    NormalizePlain(NameLine(f) + "\n");
    CrsNormalized(k);
    NormalizeConcat(NameLine(f) + "\n", Crs(k) + "\n");
    NormalizePlain(DataLine(f) + "\n\n");
  }

  lemma ReadOne(x: string)
    ensures ReadChunks([x]) == Whole(x)
  {
    assert [x][..0] == [];
    assert "" + x == x;
    assert [] + Whole(x).blocks == Whole(x).blocks;
    assert ReadChunks([]) == Pieces([], "");
  }

  // ----- read whole -----

  /** The one block of the frame read whole. */
  function TornBlock(f: Frame, k: nat): string
    requires f.Frame? && k >= 1
  {
    Torn(f, k) + DataLine(f)
  }

  lemma TornBlockHasNoBlank(f: Frame, k: nat)
    requires f.Frame? && Sendable(f) && k >= 1
    ensures FirstBlank(TornBlock(f, k) + "\n\n") == |TornBlock(f, k)|
  {
    var b := TornBlock(f, k);
    var s := b + "\n\n";
    var n := |NameLine(f)|;
    CrsAre(k);
    assert forall i :: 0 <= i < n ==> s[i] == NameLine(f)[i] && s[i] != '\n';
    assert forall i :: n + 1 <= i < n + 1 + k ==> s[i] == Crs(k)[i - n - 1] && s[i] == '\r';
    assert forall i :: n + k + 2 <= i < |b| ==> s[i] == DataLine(f)[i - n - k - 2] && s[i] != '\n';
    assert BlankAt(s, |b|);
    assert forall i :: BlankAt(s, i) ==> i >= |b|;
  }

  lemma TornWhole<D>(json: string -> Option<D>, f: Frame, k: nat)
    requires f.Frame? && Sendable(f) && json(f.payload).Some? && k >= 2
    ensures EventsOf(json, ReadChunks([CrFrame(f, k)])) == [Event(f.name, json(f.payload).value)]
  {
    ReadOne(CrFrame(f, k));
    TornSplits(f, k);
    TornEvent(json, f, k - 1);
    OneEvent(json, TornBlock(f, k - 1));
    assert Flushed(json, "") == [];
  }

  lemma TornSplits(f: Frame, k: nat)
    requires f.Frame? && Sendable(f) && k >= 2
    ensures Whole(CrFrame(f, k)) == Pieces([TornBlock(f, k - 1)], "")
  {
    var b := TornBlock(f, k - 1);
    TornNormalized(f, k);
    NormalizeConcat(Torn(f, k), DataLine(f) + "\n\n");
    TornBlockHasNoBlank(f, k - 1);
    CleanCutIsSplit([b], "");
    EndedCons(b, []);
    assert [b] + [] == [b];
    assert Ended([b]) + "" == b + "\n\n";
    assert Torn(f, k - 1) + (DataLine(f) + "\n\n") == b + "\n\n";
  }

  lemma OneEvent<D>(json: string -> Option<D>, b: string)
    ensures Events(json, [b]) == Given(BlockEvent(json, b))
  {
    assert [b][..0] == [];
    assert Events(json, []) == [];
  }

  /** However many CRs are left on the line, the block means the same. */
  lemma TornEvent<D>(json: string -> Option<D>, f: Frame, k: nat)
    requires f.Frame? && Sendable(f) && json(f.payload).Some? && k >= 1
    ensures BlockEvent(json, TornBlock(f, k)) == Some(Event(f.name, json(f.payload).value))
  {
    TornSameLines(f, k);
    SameLinesSameEvent(json, TornBlock(f, k), TornBlock(f, 1));
    OneCrEvent(json, f);
  }

  lemma TornSameLines(f: Frame, k: nat)
    requires f.Frame? && k >= 1
    ensures SameLines(TornBlock(f, k), TornBlock(f, 1))
  {
    StripTorn(f, k);
    StripTorn(f, 1);
  }

  lemma StripTorn(f: Frame, k: nat)
    requires f.Frame? && k >= 1
    ensures Strip(TornBlock(f, k) + "\n") == Strip(NameLine(f) + "\n") + ("\n" + Strip(DataLine(f) + "\n"))
  {
    var line, tail := Crs(k) + "\n", DataLine(f) + "\n";
    StripCrs(k);
    StripLines(line, tail);
    StripLines(NameLine(f) + "\n", line + tail);
    assert TornBlock(f, k) + "\n" == (NameLine(f) + "\n") + (line + tail);
  }

  lemma {:induction false} StripCrs(k: nat)
    ensures Strip(Crs(k) + "\n") == "\n"
  {
    if k > 0 {
      StripCrs(k - 1);
      StripStep('\r', Crs(k - 1) + "\n");
      assert Crs(k) + "\n" == ['\r'] + (Crs(k - 1) + "\n");
    } else {
      StripStep('\n', "");
      assert Crs(0) + "\n" == ['\n'] + "";
    }
  }

  lemma OneCrEvent<D>(json: string -> Option<D>, f: Frame)
    requires f.Frame? && Sendable(f) && json(f.payload).Some?
    ensures BlockEvent(json, TornBlock(f, 1)) == Some(Event(f.name, json(f.payload).value))
  {
    var a, d := NameLine(f), DataLine(f);
    TornBlockLines(f);
    ThreeFields(a, "", d);
    ReadsNameLine(f, Fields("", []));
    ReadsDataLine(f, Fields(f.name, []));
    assert ReadLine(Fields(f.name, []), "") == Fields(f.name, []);
    assert JoinLines([f.payload]) == f.payload;
  }

  lemma CrLineNormalized(a: string, d: string)
    requires NoCr(a) && NoCr(d)
    ensures Normalize(a + "\n" + ("\r" + "\n" + d)) == a + "\n" + ("\n" + d)
  {
    NormalizePlain(a + "\n");
    NormalizePlain(d);
    NormalizePair(d);
    assert "\r" + "\n" + d == "\r\n" + d;
    NormalizeConcat(a + "\n", "\r\n" + d);
  }

  lemma ThreeLines(a: string, d: string)
    requires (forall k :: 0 <= k < |a| ==> a[k] != '\n') && forall k :: 0 <= k < |d| ==> d[k] != '\n'
    ensures Lines(a + "\n" + ("\n" + d)) == [a, "", d]
  {
    LinesOfTwo(a, "\n" + d);
    LinesOfTwo("", d);
    assert "" + "\n" + d == "\n" + d;
    OneLineOnly(d);
    assert [a] + ([""] + [d]) == [a, "", d];
  }

  lemma TornBlockLines(f: Frame)
    requires f.Frame? && Sendable(f)
    ensures Lines(Normalize(TornBlock(f, 1))) == [NameLine(f), "", DataLine(f)]
  {
    FrameHasNoCr(f);
    CrLineNormalized(NameLine(f), DataLine(f));
    CrsAre(1);
    assert Crs(1) == "\r";
    assert TornBlock(f, 1) == NameLine(f) + "\n" + ("\r" + "\n" + DataLine(f));
    ThreeLines(NameLine(f), DataLine(f));
  }

  lemma ThreeFields(a: string, b: string, c: string)
    ensures FieldsOf([a, b, c]) == ReadLine(ReadLine(ReadLine(Fields("", []), a), b), c)
  {
    var two, three := [a, b], [a, b, c];
    TwoFields(a, b);
    assert three[..|three| - 1] == two;
    assert FieldsOf(three) == ReadLine(FieldsOf(two), three[|three| - 1]);
  }

  // ----- cut after the line -----

  lemma TornFed(f: Frame, k: nat)
    requires f.Frame? && Sendable(f) && k >= 2
    ensures Feed(Torn(f, k), "") == Pieces([], Torn(f, k - 1)) && Feed("", Torn(f, k)) == Pieces([], Torn(f, k - 1))
  {
    NoBlankInTorn(f, k - 1);
    TornNormalized(f, k);
    assert Torn(f, k) + "" == Torn(f, k) == "" + Torn(f, k);
  }

  /** Each read of nothing takes one more CR off the line; as long as one is left, no block ends there. */
  lemma {:induction false} TornWaits(f: Frame, k: nat, n: nat)
    requires f.Frame? && Sendable(f) && n + 2 <= k
    ensures ReadChunks([Torn(f, k)] + Empties(n)) == Pieces([], Torn(f, k - 1 - n))
    decreases n
  {
    TornFed(f, k - n);
    if n == 0 {
      ReadFirst(Torn(f, k));
    } else {
      TornWaits(f, k, n - 1);
      ReadNothing(Torn(f, k), n);
    }
  }

  lemma ReadFirst(x: string)
    ensures ReadChunks([x] + Empties(0)) == Feed("", x)
  {
    ReadOne(x);
    assert [x] + Empties(0) == [x];
    assert "" + x == x;
  }

  lemma ReadNothing(x: string, n: nat)
    requires n >= 1
    ensures var before := ReadChunks([x] + Empties(n - 1));
            var now := Feed(before.rest, "");
            ReadChunks([x] + Empties(n)) == Pieces(before.blocks + now.blocks, now.rest)
  {
    ReadNext([x] + Empties(n - 1), "");
    assert [x] + Empties(n) == [x] + Empties(n - 1) + [""];
  }

  lemma ReadNext(chunks: seq<string>, chunk: string)
    ensures var before := ReadChunks(chunks);
            var now := Feed(before.rest, chunk);
            ReadChunks(chunks + [chunk]) == Pieces(before.blocks + now.blocks, now.rest)
  {
    assert (chunks + [chunk])[..|chunks|] == chunks;
  }

  /** With the last CR gone, the rest ends two blocks. */
  lemma TornApart(f: Frame)
    requires f.Frame? && Sendable(f)
    ensures Feed(Torn(f, 1), DataLine(f) + "\n\n") == Pieces([NameLine(f), DataLine(f)], "")
  {
    var a, d := NameLine(f), DataLine(f);
    TornNormalized(f, 1);
    NormalizeConcat(Torn(f, 1), d + "\n\n");
    assert Torn(f, 0) == a + "\n" + ("" + "\n");
    assert Torn(f, 0) + (d + "\n\n") == a + "\n\n" + (d + "\n\n");
    HalvesSplit(f);
  }

  lemma TornReadsApart(f: Frame, k: nat)
    requires f.Frame? && Sendable(f) && k >= 2
    ensures ReadChunks(TornChunks(f, k)) == Pieces([NameLine(f), DataLine(f)], "")
  {
    TornWaits(f, k, k - 2);
    ReadNext([Torn(f, k)] + Empties(k - 2), DataLine(f) + "\n\n");
    TornApart(f);
  }

  lemma TornCut<D>(json: string -> Option<D>, f: Frame, k: nat)
    requires f.Frame? && Sendable(f) && k >= 2
    ensures EventsOf(json, ReadChunks(TornChunks(f, k))) == []
  {
    TornReadsApart(f, k);
    NoHalfEvents(json, f);
    assert Flushed(json, "") == [];
  }

  lemma NoBlankInTorn(f: Frame, k: nat)
    requires f.Frame? && Sendable(f) && k >= 1
    ensures FirstBlank(Torn(f, k)) == -1
  {
    var s := Torn(f, k);
    var n := |NameLine(f)|;
    CrsAre(k);
    assert forall i :: 0 <= i < n ==> s[i] == NameLine(f)[i] && s[i] != '\n';
    assert forall i :: n + 1 <= i < n + 1 + k ==> s[i] == Crs(k)[i - n - 1] && s[i] == '\r';
    assert forall i :: !BlankAt(s, i);
  }

  lemma HalvesSplit(f: Frame)
    requires f.Frame? && Sendable(f)
    ensures Split(NameLine(f) + "\n\n" + (DataLine(f) + "\n\n")) == Pieces([NameLine(f), DataLine(f)], "")
  {
    var a, d := NameLine(f), DataLine(f);
    LineThenBlank(a);
    LineThenBlank(d);
    CleanCutIsSplit([a, d], "");
    EndedCons(d, []);
    EndedCons(a, [d]);
    assert [d] + [] == [d] && [a] + [d] == [a, d];
    assert Ended([a, d]) + "" == a + "\n\n" + (d + "\n\n");
  }

  lemma LineThenBlank(l: string)
    requires forall k :: 0 <= k < |l| ==> l[k] != '\n'
    ensures FirstBlank(l + "\n\n") == |l|
  {
    var s := l + "\n\n";
    assert forall k :: 0 <= k < |l| ==> s[k] == l[k];
    assert BlankAt(s, |l|);
  }

  lemma NoHalfEvents<D>(json: string -> Option<D>, f: Frame)
    requires f.Frame? && Sendable(f)
    ensures Events(json, [NameLine(f), DataLine(f)]) == []
  {
    var a, d := NameLine(f), DataLine(f);
    FrameHasNoCr(f);
    NormalizePlain(a);
    NormalizePlain(d);
    OneLineOnly(a);
    OneLineOnly(d);
    assert [a][..0] == [] && [d][..0] == [] && [a, d][..1] == [a];
    OneField(a);
    OneField(d);
    ReadsNameLine(f, Fields("", []));
    ReadsDataLine(f, Fields("", []));
    assert BlockEvent(json, a) == None;
    assert BlockEvent(json, d) == None;
    assert Events(json, [a]) == Events(json, []) + Given(BlockEvent(json, a));
    assert Events(json, [a, d]) == Events(json, [a]) + Given(BlockEvent(json, d));
  }

  lemma OneField(a: string)
    ensures FieldsOf([a]) == ReadLine(Fields("", []), a)
  {
    assert [a][..0] == [];
    assert FieldsOf([]) == Fields("", []);
  }
}
