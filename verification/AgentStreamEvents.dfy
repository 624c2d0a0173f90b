/** When the events, not just the blocks, are the same wherever the network cuts the stream. */
module AgentStreamEvents {
  import opened Outcomes
  import opened AgentStream

  // ----- lines of carriage returns -----

  /**
   * No line, from here on, is made of `most` or more CRs and nothing else. `crs` counts the CRs the current line
   * consists of so far; it is -1 once the line holds anything else.
   */
  predicate NoCrLine(s: string, crs: int, most: nat)
  {
    if s == "" then true
    else if s[0] == '\n' then crs < most && NoCrLine(s[1..], 0, most)
    else if s[0] == '\r' && crs >= 0 then NoCrLine(s[1..], crs + 1, most)
    else NoCrLine(s[1..], -1, most)
  }

  /** No line consists of two or more CRs before its LF. */
  predicate Calm(s: string)
  {
    NoCrLine(s, 0, 2)
  }

  /** No line consists of CRs before its LF. */
  predicate Plain(s: string)
  {
    NoCrLine(s, 0, 1)
  }

  function NextCount(c: char, crs: int): int
  {
    if c == '\n' then 0 else if c == '\r' && crs >= 0 then crs + 1 else -1
  }

  lemma NoCrLineStep(c: char, s: string, crs: int, most: nat)
    ensures NoCrLine([c] + s, crs, most) <==> (c == '\n' ==> crs < most) && NoCrLine(s, NextCount(c, crs), most)
  {
    assert ([c] + s)[1..] == s;
  }

  lemma NormalizeTakesPair(a: string, b: string)
    requires |a| >= 2 && a[0] == '\r' && a[1] == '\n'
    ensures Normalize(a) + b == ['\n'] + (Normalize(a[2..]) + b)
  {
  }

  lemma NormalizeTakesChar(a: string, b: string)
    requires a != "" && !(|a| >= 2 && a[0] == '\r' && a[1] == '\n')
    ensures Normalize(a) + b == [a[0]] + (Normalize(a[1..]) + b) && a + b == [a[0]] + (a[1..] + b)
  {
    assert a == [a[0]] + a[1..];
    Associates([a[0]], a[1..], b);
    Associates([a[0]], Normalize(a[1..]), b);
  }

  /** Normalising the front keeps the text calm: it only shortens lines of CRs. */
  lemma {:induction false} NormalizeKeepsCalm(a: string, b: string, crs: int)
    requires NoCrLine(a + b, crs, 2)
    ensures NoCrLine(Normalize(a) + b, crs, 2)
    decreases |a|
  {
    if a == "" {
      assert Normalize(a) + b == a + b;
    } else if |a| >= 2 && a[0] == '\r' && a[1] == '\n' {
      CalmAfterPair(a, b, crs);
      NormalizeKeepsCalm(a[2..], b, 0);
      NormalizeTakesPair(a, b);
      NoCrLineStep('\n', Normalize(a[2..]) + b, crs, 2);
    } else {
      NormalizeTakesChar(a, b);
      NoCrLineStep(a[0], a[1..] + b, crs, 2);
      NormalizeKeepsCalm(a[1..], b, NextCount(a[0], crs));
      NoCrLineStep(a[0], Normalize(a[1..]) + b, crs, 2);
    }
  }

  lemma CalmAfterPair(a: string, b: string, crs: int)
    requires |a| >= 2 && a[0] == '\r' && a[1] == '\n' && NoCrLine(a + b, crs, 2)
    ensures NoCrLine(a[2..] + b, 0, 2) && crs < 2
  {
    var t := a[2..] + b;
    assert a + b == ['\r'] + (['\n'] + t);
    NoCrLineStep('\r', ['\n'] + t, crs, 2);
    NoCrLineStep('\n', t, NextCount('\r', crs), 2);
  }

  /** A calm text, normalised, has no line of CRs left. */
  lemma {:induction false} NormalizedIsPlain(s: string, crs: int)
    requires NoCrLine(s, crs, 2) && (crs > 0 ==> s == "" || s[0] != '\n')
    ensures NoCrLine(Normalize(s), crs, 1)
    decreases |s|
  {
    if s == "" {
    } else if |s| >= 2 && s[0] == '\r' && s[1] == '\n' {
      var t := s[2..];
      assert s == ['\r'] + (['\n'] + t);
      NoCrLineStep('\r', ['\n'] + t, crs, 2);
      NoCrLineStep('\n', t, NextCount('\r', crs), 2);
      NormalizedIsPlain(t, 0);
      assert Normalize(s) == ['\n'] + Normalize(t);
      NoCrLineStep('\n', Normalize(t), crs, 1);
    } else {
      var c, t := s[0], s[1..];
      assert s == [c] + t;
      NoCrLineStep(c, t, crs, 2);
      NormalizedIsPlain(t, NextCount(c, crs));
      assert Normalize(s) == [c] + Normalize(t);
      NoCrLineStep(c, Normalize(t), crs, 1);
    }
  }

  lemma {:induction false} NoCrLineOfHead(a: string, b: string, crs: int, most: nat)
    requires NoCrLine(a + b, crs, most)
    ensures NoCrLine(a, crs, most)
    decreases |a|
  {
    if a != "" {
      assert a == [a[0]] + a[1..];
      assert a + b == [a[0]] + (a[1..] + b);
      NoCrLineStep(a[0], a[1..] + b, crs, most);
      NoCrLineStep(a[0], a[1..], crs, most);
      NoCrLineOfHead(a[1..], b, NextCount(a[0], crs), most);
    }
  }

  /** What follows a line end is judged from the start of a line. */
  lemma {:induction false} NoCrLineAfter(a: string, b: string, crs: int, most: nat)
    requires NoCrLine(a + b, crs, most) && a != "" && a[|a| - 1] == '\n'
    ensures NoCrLine(b, 0, most)
    decreases |a|
  {
    assert a + b == [a[0]] + (a[1..] + b);
    NoCrLineStep(a[0], a[1..] + b, crs, most);
    if |a| > 1 {
      NoCrLineAfter(a[1..], b, NextCount(a[0], crs), most);
    } else {
      assert a[1..] + b == b;
    }
  }

  // ----- texts up to the CRs that end lines -----

  function DropCr(s: string): string
  {
    if s != "" && s[0] == '\n' then s else "\r" + s
  }

  /** The text without any CR that stands, with others or alone, before an LF. */
  function Strip(s: string): string
  {
    if s == "" then ""
    else if s[0] == '\r' then DropCr(Strip(s[1..]))
    else [s[0]] + Strip(s[1..])
  }

  lemma StripStep(c: char, s: string)
    ensures Strip([c] + s) == if c == '\r' then DropCr(Strip(s)) else [c] + Strip(s)
  {
    assert ([c] + s)[1..] == s;
  }

  /** Stripping the front first changes nothing. */
  lemma {:induction false} StripFront(a: string, b: string)
    ensures Strip(Strip(a) + b) == Strip(a + b)
    decreases |a|
  {
    if a == "" {
      assert Strip(a) + b == a + b;
    } else {
      var c, t := a[0], a[1..];
      assert a == [c] + t;
      assert a + b == [c] + (t + b);
      StripStep(c, t);
      StripStep(c, t + b);
      StripFront(t, b);
      if c != '\r' {
        assert Strip(a) + b == [c] + (Strip(t) + b);
        StripStep(c, Strip(t) + b);
      } else {
        StripFrontCr(t, b);
      }
    }
  }

  lemma StripFrontCr(t: string, b: string)
    requires Strip(Strip(t) + b) == Strip(t + b)
    ensures Strip(DropCr(Strip(t)) + b) == DropCr(Strip(t + b))
  {
    var q := Strip(t);
    if q != "" && q[0] == '\n' {
      assert q + b == ['\n'] + (q[1..] + b);
      StripStep('\n', q[1..] + b);
    } else {
      assert DropCr(q) + b == ['\r'] + (q + b);
      StripStep('\r', q + b);
    }
  }

  lemma StripTwice(s: string)
    ensures Strip(Strip(s)) == Strip(s)
  {
    StripFront(s, "");
    assert Strip(s) + "" == Strip(s) && s + "" == s;
  }

  lemma {:induction false} StripNormalized(s: string)
    ensures Strip(Normalize(s)) == Strip(s)
    decreases |s|
  {
    if s == "" {
    } else if |s| >= 2 && s[0] == '\r' && s[1] == '\n' {
      var t := s[2..];
      StripNormalized(t);
      assert s == ['\r'] + (['\n'] + t);
      StripStep('\r', ['\n'] + t);
      StripStep('\n', t);
      StripStep('\n', Normalize(t));
    } else {
      var c, t := s[0], s[1..];
      StripNormalized(t);
      assert s == [c] + t;
      assert Normalize(s) == [c] + Normalize(t);
      StripStep(c, t);
      StripStep(c, Normalize(t));
    }
  }

  /** A text that ends a line strips on its own. */
  lemma {:induction false} StripLines(a: string, b: string)
    requires a == "" || a[|a| - 1] == '\n'
    ensures Strip(a + b) == Strip(a) + Strip(b)
    ensures a != "" ==> Strip(a) != "" && Strip(a)[|Strip(a)| - 1] == '\n'
    decreases |a|
  {
    if a == "" {
      assert a + b == b;
    } else {
      var c, t := a[0], a[1..];
      assert a == [c] + t;
      assert a + b == [c] + (t + b);
      StripStep(c, t);
      StripStep(c, t + b);
      StripLines(t, b);
      if c == '\r' {
        assert t != "";
        assert Strip(t + b)[0] == Strip(t)[0];
      }
    }
  }

  // ----- blank lines -----

  /** In a text without lines of CRs, a stripped line is empty only where it was. */
  lemma {:induction false} StripHead(s: string, crs: int)
    requires NoCrLine(s, crs, 1) && crs >= 0 && Strip(s) != "" && Strip(s)[0] == '\n'
    ensures crs == 0 && s[0] == '\n'
    decreases |s|
  {
    if s[0] == '\r' {
      StripHead(s[1..], crs + 1);
    }
  }

  lemma NoLfAhead(t: string)
    requires NoCrLine(t, 0, 1) && (t == "" || t[0] != '\n')
    ensures Strip(t) == "" || Strip(t)[0] != '\n'
  {
    if Strip(t) != "" && Strip(t)[0] == '\n' {
      StripHead(t, 0);
    }
  }

  lemma {:induction false} StripAddsNoBlank(s: string, crs: int)
    requires NoCrLine(s, crs, 1) && FirstBlank(s) == -1
    ensures FirstBlank(Strip(s)) == -1
    decreases |s|
  {
    if s != "" {
      var c, t := s[0], s[1..];
      assert s == [c] + t;
      NoCrLineStep(c, t, crs, 1);
      assert forall k :: BlankAt(t, k) ==> BlankAt(s, k + 1);
      StripAddsNoBlank(t, NextCount(c, crs));
      StripStep(c, t);
      if c == '\n' {
        assert !BlankAt(s, 0);
        NoLfAhead(t);
      }
      NoBlankCons(c, Strip(t));
    }
  }

  lemma NoBlankCons(c: char, q: string)
    requires FirstBlank(q) == -1 && (c == '\n' ==> q == "" || q[0] != '\n')
    ensures FirstBlank([c] + q) == -1
    ensures c == '\r' ==> FirstBlank(DropCr(q)) == -1
  {
    var r := [c] + q;
    assert forall k :: BlankAt(r, k) ==> k == 0 || BlankAt(q, k - 1);
    assert c == '\r' ==> "\r" + q == r;
  }

  // ----- blocks that hold the same lines -----

  /** The same lines but for CRs before their ends. */
  predicate SameLines(b: string, c: string)
  {
    Strip(b + "\n") == Strip(c + "\n")
  }

  predicate SameBlocks(bs: seq<string>, cs: seq<string>)
  {
    |bs| == |cs| && forall k :: 0 <= k < |bs| ==> SameLines(bs[k], cs[k])
  }

  /** A plain text and its stripped form split alike. */
  lemma {:induction false} SplitStripped(y: string)
    requires Plain(y)
    ensures SameBlocks(Split(y).blocks, Split(Strip(y)).blocks) && Split(Strip(y)).rest == Strip(Split(y).rest)
    decreases |y|
  {
    var i := FirstBlank(y);
    if i < 0 {
      StripAddsNoBlank(y, 0);
    } else {
      var head, tail := y[..i + 1], y[i + 2..];
      SplitAtBlank(y);
      SplitStripped(tail);
      SplitStep(y);
      var p, q := Split(y), Split(tail);
      var z := Strip(y);
      SplitStep(z);
      var j := FirstBlank(z);
      assert Split(z).blocks == [z[..j]] + Split(Strip(tail)).blocks;
      forall k | 0 <= k < |p.blocks|
        ensures SameLines(p.blocks[k], Split(z).blocks[k])
      {
        if k > 0 {
          assert p.blocks[k] == q.blocks[k - 1];
        }
      }
    }
  }

  /** The line before the first blank one, with its end, and what follows, stripped apart. */
  lemma StripAtBlank(y: string, b: string, tail: string)
    requires y == b + "\n" + "\n" + tail
    ensures Strip(y) == Strip(b + "\n") + "\n" + Strip(tail)
  {
    var line := b + "\n";
    assert y == line + ("\n" + tail);
    StripLines(line, "\n" + tail);
    assert "\n" + tail == ['\n'] + tail;
    StripStep('\n', tail);
    assert Strip(line) + ("\n" + Strip(tail)) == Strip(line) + "\n" + Strip(tail);
  }

  lemma PlainParts(y: string, b: string, tail: string)
    requires Plain(y) && y == b + "\n" + "\n" + tail
    ensures Plain(b + "\n") && Plain(tail)
  {
    var line := b + "\n";
    assert y == line + ("\n" + tail);
    NoCrLineOfHead(line, "\n" + tail, 0, 1);
    NoCrLineAfter(line + "\n", tail, 0, 1);
  }

  lemma LineHasNoBlank(y: string)
    requires FirstBlank(y) >= 0
    ensures FirstBlank(y[..FirstBlank(y)] + "\n") == -1
  {
    var line := y[..FirstBlank(y)] + "\n";
    assert line == y[..FirstBlank(y) + 1];
    assert forall k :: BlankAt(line, k) ==> BlankAt(y, k);
  }

  /** The first blank line of a plain text is the first of its stripped form. */
  lemma SplitAtBlank(y: string)
    requires Plain(y) && FirstBlank(y) >= 0
    ensures var i := FirstBlank(y);
      var z, j := Strip(y), FirstBlank(Strip(y));
      && Plain(y[i + 2..]) && j >= 0 && z[j + 2..] == Strip(y[i + 2..]) && SameLines(y[..i], z[..j])
  {
    var i := FirstBlank(y);
    var b, tail := y[..i], y[i + 2..];
    assert y == b + "\n" + "\n" + tail;
    PlainParts(y, b, tail);
    LineHasNoBlank(y);
    StripAddsNoBlank(b + "\n", 0);
    StripAtBlank(y, b, tail);
    StripLines(b + "\n", "");
    var z, l := Strip(y), Strip(b + "\n");
    BlankThere(z, l, Strip(tail));
    assert z[..|l| - 1] + "\n" == l;
    assert z[|l| + 1..] == Strip(tail);
    StripTwice(b + "\n");
  }

  lemma BlankThere(z: string, l: string, tail: string)
    requires z == l + "\n" + tail && l != "" && l[|l| - 1] == '\n' && FirstBlank(l) == -1
    ensures FirstBlank(z) == |l| - 1
  {
    assert BlankAt(z, |l| - 1);
    assert forall k :: k < |l| - 1 && BlankAt(z, k) ==> BlankAt(l, k);
  }

  // ----- events read from the same lines -----

  /** What one line comes to, however it ended. */
  function Trimmed(lines: seq<string>): seq<string>
  {
    if lines == [] then [] else [TrimEnd(lines[0])] + Trimmed(lines[1..])
  }

  lemma {:induction false} TrimmedAt(lines: seq<string>)
    ensures |Trimmed(lines)| == |lines|
    ensures forall k :: 0 <= k < |lines| ==> Trimmed(lines)[k] == TrimEnd(lines[k])
  {
    if lines != [] {
      TrimmedAt(lines[1..]);
    }
  }

  lemma {:induction false} SameTrimmedSameFields(a: seq<string>, b: seq<string>)
    requires Trimmed(a) == Trimmed(b)
    ensures FieldsOf(a) == FieldsOf(b)
    decreases |a|
  {
    TrimmedAt(a);
    TrimmedAt(b);
    if a != [] {
      var f, g := a[..|a| - 1], b[..|b| - 1];
      TrimmedAt(f);
      TrimmedAt(g);
      assert Trimmed(f) == Trimmed(g);
      SameTrimmedSameFields(f, g);
      assert TrimEnd(a[|a| - 1]) == TrimEnd(b[|b| - 1]);
    }
  }

  /** A line without LF, stripped before one: it loses nothing that trimming keeps. */
  lemma {:induction false} StripLine(l: string) returns (m: string)
    requires forall k :: 0 <= k < |l| ==> l[k] != '\n'
    ensures Strip(l + "\n") == m + "\n" && TrimEnd(m) == TrimEnd(l) && forall k :: 0 <= k < |m| ==> m[k] != '\n'
    decreases |l|
  {
    if l == "" {
      m := "";
      assert l + "\n" == ['\n'] + "";
      StripStep('\n', "");
    } else {
      var c, t := l[0], l[1..];
      var n := StripLine(t);
      assert l + "\n" == [c] + (t + "\n");
      StripStep(c, t + "\n");
      if c == '\r' && n == "" {
        m := "";
        TrimOfCr(t);
        assert l == ['\r'] + t;
      } else {
        m := [c] + n;
        assert l == [c] + t;
        TrimEndCons(c, t, n);
      }
    }
  }

  lemma {:induction false} TrimOfCr(t: string)
    requires TrimEnd(t) == TrimEnd("")
    ensures TrimEnd(['\r'] + t) == ""
    decreases |t|
  {
    var s := ['\r'] + t;
    if t == "" {
      assert s[..|s| - 1] == "";
    } else {
      assert s[..|s| - 1] == ['\r'] + t[..|t| - 1];
      TrimOfCr(t[..|t| - 1]);
    }
  }

  lemma {:induction false} TrimEndOfCons(c: char, t: string)
    ensures TrimEnd([c] + t) == if TrimEnd(t) == "" then TrimEnd([c]) else [c] + TrimEnd(t)
    decreases |t|
  {
    var s := [c] + t;
    if t == "" {
      assert s == [c];
    } else if IsSpace(t[|t| - 1]) {
      assert s[..|s| - 1] == [c] + t[..|t| - 1];
      TrimEndOfCons(c, t[..|t| - 1]);
    }
  }

  lemma TrimEndCons(c: char, t: string, n: string)
    requires TrimEnd(n) == TrimEnd(t)
    ensures TrimEnd([c] + n) == TrimEnd([c] + t)
  {
    TrimEndOfCons(c, t);
    TrimEndOfCons(c, n);
  }

  /** The trimmed lines of a text are those of its stripped form. */
  lemma {:induction false} StrippedLines(s: string, s': string)
    requires Strip(s + "\n") == s' + "\n"
    ensures Trimmed(Lines(s)) == Trimmed(Lines(s'))
    decreases |s|
  {
    var i := FirstLf(s);
    if i < 0 {
      var m := StripLine(s);
      SameBeforeLf(s', m);
      OneLineOnly(s');
      OneLineOnly(s);
    } else {
      var l, t := s[..i], s[i + 1..];
      assert s == l + "\n" + t;
      var m, t' := StripFirstLine(l, t, s');
      StrippedLines(t, t');
      LinesOfTwo(l, t);
      LinesOfTwo(m, t');
    }
  }

  lemma SameBeforeLf(a: string, b: string)
    requires a + "\n" == b + "\n"
    ensures a == b
  {
    assert |a + "\n"| == |a| + 1 && |b + "\n"| == |b| + 1;
    assert (a + "\n")[..|a|] == a && (b + "\n")[..|b|] == b;
  }

  lemma StripFirstLine(l: string, t: string, s': string) returns (m: string, t': string)
    requires (forall k :: 0 <= k < |l| ==> l[k] != '\n') && Strip(l + "\n" + t + "\n") == s' + "\n"
    ensures s' == m + "\n" + t' && TrimEnd(m) == TrimEnd(l) && (forall k :: 0 <= k < |m| ==> m[k] != '\n')
    ensures Strip(t + "\n") == t' + "\n"
  {
    m := StripLine(l);
    assert l + "\n" + t + "\n" == (l + "\n") + (t + "\n");
    StripLines(l + "\n", t + "\n");
    StripLines(t + "\n", "");
    var rest := Strip(t + "\n");
    t' := rest[..|rest| - 1];
    assert rest == t' + "\n";
    assert m + "\n" + (t' + "\n") == (m + "\n" + t') + "\n";
    SameBeforeLf(s', m + "\n" + t');
  }

  lemma OneLineOnly(s: string)
    requires forall k :: 0 <= k < |s| ==> s[k] != '\n'
    ensures Lines(s) == [s] && Trimmed(Lines(s)) == [TrimEnd(s)]
  {
    assert [s][1..] == [];
  }

  lemma LinesOfTwo(a: string, b: string)
    requires forall k :: 0 <= k < |a| ==> a[k] != '\n'
    ensures Lines(a + "\n" + b) == [a] + Lines(b)
    ensures Trimmed(Lines(a + "\n" + b)) == [TrimEnd(a)] + Trimmed(Lines(b))
  {
    var s := a + "\n" + b;
    assert s[|a|] == '\n';
    assert forall k :: 0 <= k < |a| ==> s[k] == a[k];
    assert FirstLf(s) == |a|;
    assert s[..|a|] == a && s[|a| + 1..] == b;
    assert ([a] + Lines(b))[1..] == Lines(b);
  }

  /** Blocks with the same lines give the same event. */
  lemma SameLinesSameEvent<D>(json: string -> Option<D>, b: string, c: string)
    requires SameLines(b, c)
    ensures BlockEvent(json, b) == BlockEvent(json, c)
  {
    var end := Strip(b + "\n");
    StripLines(b + "\n", "");
    assert (b + "\n") + "" == b + "\n";
    var x := end[..|end| - 1];
    assert end == x + "\n";
    NormalizedStrips(b);
    NormalizedStrips(c);
    StrippedLines(Normalize(b), x);
    StrippedLines(Normalize(c), x);
    SameTrimmedSameFields(Lines(Normalize(b)), Lines(Normalize(c)));
  }

  lemma NormalizedStrips(b: string)
    ensures Strip(Normalize(b) + "\n") == Strip(b + "\n")
  {
    StripFront(Normalize(b), "\n");
    StripFront(b, "\n");
    StripNormalized(b);
  }

  lemma {:induction false} SameBlocksSameEvents<D>(json: string -> Option<D>, bs: seq<string>, cs: seq<string>)
    requires SameBlocks(bs, cs)
    ensures Events(json, bs) == Events(json, cs)
    decreases |bs|
  {
    if bs != [] {
      SameBlocksSameEvents(json, bs[..|bs| - 1], cs[..|cs| - 1]);
      SameLinesSameEvent(json, bs[|bs| - 1], cs[|cs| - 1]);
    }
  }

  lemma {:induction false} StripBlank(s: string)
    ensures (forall k :: 0 <= k < |s| ==> IsSpace(s[k])) <==> (forall k :: 0 <= k < |Strip(s)| ==> IsSpace(Strip(s)[k]))
  {
    if s != "" {
      var q := Strip(s[1..]);
      StripBlank(s[1..]);
      assert s == [s[0]] + s[1..];
      AllSpaceCons(s[0], s[1..]);
      AllSpaceCons(s[0], q);
      StripStep(s[0], s[1..]);
      if s[0] == '\r' {
        assert "\r" + q == ['\r'] + q;
      }
    }
  }

  lemma AllSpaceCons(c: char, s: string)
    ensures (forall k :: 0 <= k < |[c] + s| ==> IsSpace(([c] + s)[k])) <==> IsSpace(c) && forall k :: 0 <= k < |s| ==> IsSpace(s[k])
  {
    var t := [c] + s;
    assert t[0] == c;
    assert forall k :: 0 <= k < |s| ==> t[k + 1] == s[k];
    assert forall k :: 1 <= k < |t| ==> t[k] == s[k - 1];
  }

  lemma {:induction false} TrimEmptyIff(s: string)
    ensures Trim(s) == "" <==> forall k :: 0 <= k < |s| ==> IsSpace(s[k])
    decreases |s|
  {
    if s != "" {
      if IsSpace(s[|s| - 1]) {
        TrimEmptyIff(s[..|s| - 1]);
      } else {
        TrimStartKeepsEnd(s);
      }
    }
  }

  lemma {:induction false} TrimStartKeepsEnd(s: string)
    requires s != "" && !IsSpace(s[|s| - 1])
    ensures TrimStart(s) != ""
    decreases |s|
  {
    if IsSpace(s[0]) {
      TrimStartKeepsEnd(s[1..]);
    }
  }

  lemma SameRestSameFlush<D>(json: string -> Option<D>, r: string, q: string)
    requires Strip(r) == Strip(q)
    ensures Flushed(json, r) == Flushed(json, q)
  {
    StripBlank(r);
    StripBlank(q);
    TrimEmptyIff(r);
    TrimEmptyIff(q);
    StripFront(r, "\n");
    StripFront(q, "\n");
    SameLinesSameEvent(json, r, q);
  }

  // ----- the read loop -----

  /** What was cut and what is left stand, up to CRs before line ends, for the whole text read. */
  ghost predicate ReadsAs(p: Pieces, text: string)
  {
    SameBlocks(p.blocks, Split(Strip(text)).blocks) && Strip(p.rest) == Split(Strip(text)).rest
  }

  lemma FeedReadsAs(p: Pieces, text: string, chunk: string, later: string)
    requires ReadsAs(p, text) && Calm(p.rest + (chunk + later))
    ensures var now := Feed(p.rest, chunk);
      ReadsAs(Pieces(p.blocks + now.blocks, now.rest), text + chunk) && Calm(now.rest + later)
  {
    var y := Normalize(p.rest + chunk);
    Associates(p.rest, chunk, later);
    NormalizeKeepsCalm(p.rest + chunk, later, 0);
    NoCrLineOfHead(p.rest + chunk, later, 0, 2);
    NormalizedIsPlain(p.rest + chunk, 0);
    SplitStripped(y);
    StripNormalized(p.rest + chunk);
    StrippedGrows(p, text, chunk);
    RestIsCalm(y, later);
    var now := Split(y);
    var all := Split(Strip(text)).blocks + Split(Strip(y)).blocks;
    forall k | 0 <= k < |p.blocks + now.blocks|
      ensures SameLines((p.blocks + now.blocks)[k], all[k])
    {
    }
  }

  lemma StrippedGrows(p: Pieces, text: string, chunk: string)
    requires Strip(p.rest) == Split(Strip(text)).rest
    ensures var s := Split(Strip(text));
      var z := Strip(p.rest + chunk);
      Split(Strip(text + chunk)) == Pieces(s.blocks + Split(z).blocks, Split(z).rest)
  {
    var x := Strip(text);
    var s := Split(x);
    var head := Ended(s.blocks);
    SplitGivesBack(x);
    EndedEndsLine(s.blocks);
    StripFront(text, chunk);
    Associates(head, s.rest, chunk);
    StripLines(head, s.rest + chunk);
    StripFront(p.rest, chunk);
    StripTwice(text);
    StripLines(head, s.rest);
    StrippedHead(head, s.rest);
    SplitAfterEnded(x, Strip(p.rest + chunk));
  }

  lemma StrippedHead(head: string, rest: string)
    requires Strip(head) + Strip(rest) == head + rest
    ensures Strip(head) == head
  {
    StripShrinks(head);
    StripShrinks(rest);
    SameParts(Strip(head), Strip(rest), head, rest);
  }

  lemma {:induction false} StripShrinks(s: string)
    ensures |Strip(s)| <= |s|
  {
    if s != "" {
      StripShrinks(s[1..]);
    }
  }

  lemma RestIsCalm(y: string, later: string)
    requires Calm(y + later)
    ensures Calm(Split(y).rest + later)
  {
    var p := Split(y);
    SplitGivesBack(y);
    EndedEndsLine(p.blocks);
    Associates(Ended(p.blocks), p.rest, later);
    if p.blocks != [] {
      NoCrLineAfter(Ended(p.blocks), p.rest + later, 0, 2);
    } else {
      assert Ended(p.blocks) + p.rest == p.rest;
    }
  }

  lemma {:induction false} ChunksReadAs(chunks: seq<string>, later: string)
    requires Calm(Concat(chunks) + later)
    ensures ReadsAs(ReadChunks(chunks), Concat(chunks)) && Calm(ReadChunks(chunks).rest + later)
    decreases |chunks|
  {
    if chunks == [] {
      assert "" + later == later;
    } else {
      var front, last := chunks[..|chunks| - 1], chunks[|chunks| - 1];
      Associates(Concat(front), last, later);
      ChunksReadAs(front, last + later);
      FeedReadsAs(ReadChunks(front), Concat(front), last, later);
    }
  }

  /** If no line consists of two or more CRs before its LF, the events and their order are the same
      for every way of cutting the text. */
  lemma CalmEventsAreChunkInvariant<D>(json: string -> Option<D>, chunks: seq<string>, others: seq<string>)
    requires Concat(chunks) == Concat(others) && Calm(Concat(chunks))
    ensures EventsOf(json, ReadChunks(chunks)) == EventsOf(json, ReadChunks(others))
  {
    assert Concat(chunks) + "" == Concat(chunks);
    ChunksReadAs(chunks, "");
    ChunksReadAs(others, "");
    var p, q := ReadChunks(chunks), ReadChunks(others);
    var s := Split(Strip(Concat(chunks)));
    SameBlocksSameEvents(json, p.blocks, s.blocks);
    SameBlocksSameEvents(json, q.blocks, s.blocks);
    SameRestSameFlush(json, p.rest, q.rest);
  }
}
