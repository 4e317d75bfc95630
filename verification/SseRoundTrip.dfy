/** What a server sends as frames, a client of ts-shared/legalese-agent/src/ai-client.ts reads as these frames. */
module SseRoundTrip {
  import opened Wrappers
  import opened Sequences
  import opened SseText
  import opened SseFrames
  import opened AiClients
  import opened Decimals

  /** A frame as it is sent, and the blank line that arrives behind it. */
  datatype Sent = Sent(id: nat, event: string, data: string, ending: string)

  /** No carriage returns, no line breaks in the event, no spaces that parsing drops. */
  predicate Plain(s: Sent) {
    && '\r' !in s.event && '\n' !in s.event && Trim(s.event) == s.event
    && '\r' !in s.data && (forall l | l in Split(s.data) :: StartsSolid(l)) && IsEnding(s.ending)
  }

  predicate AllPlain(sent: seq<Sent>) {
    forall i | 0 <= i < |sent| :: Plain(sent[i])
  }

  function FrameOfSent(s: Sent): Frame {
    Frame(Some(s.event), s.data, Some(s.id))
  }

  function BlockOf(s: Sent): Block {
    Block(FrameText(s.id, s.event, s.data), s.ending)
  }

  function Frames(sent: seq<Sent>): seq<Frame> {
    if sent == [] then [] else [FrameOfSent(sent[0])] + Frames(sent[1..])
  }

  function Blocks(sent: seq<Sent>): seq<Block> {
    if sent == [] then [] else [BlockOf(sent[0])] + Blocks(sent[1..])
  }

  // ----- A frame's text holds no blank line -----

  /** Neither a carriage return, nor an empty line at the start, at the end or in between. */
  predicate NoBlankLine(t: string) {
    && t != "" && t[0] != '\n' && t[|t| - 1] != '\n' && '\r' !in t
    && forall i | 0 <= i < |t| - 1 :: t[i] == '\n' ==> t[i + 1] != '\n'
  }

  predicate SolidLine(l: string) {
    l != "" && '\n' !in l && '\r' !in l
  }

  lemma {:induction false} JoinHasNoBlankLine(lines: seq<string>)
    requires lines != [] && forall i | 0 <= i < |lines| :: SolidLine(lines[i])
    ensures NoBlankLine(Join(lines))
  {
    if |lines| > 1 {
      JoinHasNoBlankLine(lines[1..]);
      JoinedHasNoBlankLine(lines[0], Join(lines[1..]));
    } else {
      assert SolidLine(lines[0]);
    }
  }

  lemma JoinedHasNoBlankLine(l: string, rest: string)
    requires SolidLine(l) && NoBlankLine(rest)
    ensures NoBlankLine(l + "\n" + rest)
  {
    var t := l + "\n" + rest;
    forall i | 0 <= i < |t| - 1 && t[i] == '\n' ensures t[i + 1] != '\n' {
      assert i >= |l|;
      assert i > |l| ==> t[i] == rest[i - |l| - 1] && t[i + 1] == rest[i - |l|];
    }
  }

  /** The blank lines a proxy may make of a plain one. */
  predicate IsEnding(ending: string) {
    ending in ["\n\n", "\r\n\n", "\n\r\n", "\r\n\r\n"]
  }

  lemma NoBoundaryInside(t: string, ending: string, k: nat)
    requires NoBlankLine(t) && k < |t|
    ensures BoundaryAt(t + ending, k) == 0
  {
    var all := t + ending;
    assert all[k] == t[k] && t[k] in t;
    if t[k] == '\n' {
      assert k + 1 < |t| && all[k + 1] == t[k + 1] && t[k + 1] in t;
    }
  }

  /** A text without a blank line ends at whichever blank line follows. */
  lemma NoBlankLineIsClean(t: string, ending: string)
    requires NoBlankLine(t) && IsEnding(ending)
    ensures Clean(Block(t, ending))
  {
    var all := t + ending;
    forall k | 0 <= k < |t| ensures BoundaryAt(all, k) == 0 {
      NoBoundaryInside(t, ending, k);
    }
    assert all[|t|..|t| + |ending|] == ending;
    BoundaryIsExact(all, |t|, |ending|);
    FoundAt(all, |t|);
    assert all[..|t|] == t && all[|t| + |ending|..] == "";
  }

  lemma {:induction false} LinesOfData(t: string)
    requires '\r' !in t
    ensures forall l | l in Split(t) :: '\r' !in l
  {
    if t != "" {
      LinesOfData(t[1..]);
    }
  }

  lemma {:induction false} DataLinesAreSolid(lines: seq<string>)
    requires forall l | l in lines :: '\n' !in l && '\r' !in l
    ensures |DataLines(lines)| == |lines|
    ensures forall i | 0 <= i < |lines| :: SolidLine(DataLines(lines)[i])
  {
    if lines != [] {
      var k := |lines| - 1;
      DataLinesAreSolid(lines[..k]);
      assert lines[k] in lines;
      assert SolidLine("data: " + lines[k]);
    }
  }

  lemma DecimalIsSolid(n: nat)
    ensures SolidLine("id: " + Decimal(n))
  {
    assert forall c | c in Decimal(n) :: IsDigit(c);
    assert '\n' !in Decimal(n) && '\r' !in Decimal(n);
  }

  lemma SentIsClean(s: Sent)
    requires Plain(s)
    ensures Clean(BlockOf(s))
  {
    hide Clean, Decimal, Split;
    var lines := Split(s.data);
    var head := ["id: " + Decimal(s.id), "event: " + s.event];
    LinesOfData(s.data);
    DataLinesAreSolid(lines);
    DecimalIsSolid(s.id);
    assert SolidLine("event: " + s.event);
    JoinHasNoBlankLine(head + DataLines(lines));
    NoBlankLineIsClean(FrameText(s.id, s.event, s.data), s.ending);
  }

  // ----- The whole stream -----

  lemma SentIsParsed(s: Sent)
    requires Plain(s)
    ensures ParsedOne(BlockOf(s).raw) == [FrameOfSent(s)]
  {
    FrameRoundTrip(s.id, s.event, s.data);
  }

  lemma {:induction false} SentIsCarried(sent: seq<Sent>)
    requires AllPlain(sent)
    ensures AllClean(Blocks(sent)) && Parsed(Raws(Blocks(sent))) == Frames(sent)
  {
    hide Clean, Plain, FrameOf, FrameText;
    if sent != [] {
      var first, rest := sent[0], sent[1..];
      SentIsCarried(rest);
      SentIsClean(first);
      SentIsParsed(first);
      assert Blocks(sent)[1..] == Blocks(rest);
      FlatMapAppend(ParsedOne, [BlockOf(first).raw], Raws(Blocks(rest)));
      FlatMapSnoc(ParsedOne, [], BlockOf(first).raw);
      assert [] + [BlockOf(first).raw] == [BlockOf(first).raw];
    }
  }

  /** A stream that was sent plainly is read as it was sent; any beginning of it gives a beginning of its frames. */
  lemma StreamRoundTrip(sent: seq<Sent>, received: string)
    requires AllPlain(sent) && received <= Text(Blocks(sent))
    ensures StreamFrames(Text(Blocks(sent)), true) == Frames(sent)
    ensures Serves(Frames(sent), received, Dropped)
    ensures StreamFrames(received, false) <= Frames(sent)
  {
    hide StreamFrames, Clean, Raws, AllClean;
    SentIsCarried(sent);
    var whole := Text(Blocks(sent));
    assert Carries(Blocks(sent), Frames(sent), whole, Closed);
    ConnectionYieldsPrefix(Frames(sent), whole, Closed);
    assert Carries(Blocks(sent), Frames(sent), received, Dropped);
    ConnectionYieldsPrefix(Frames(sent), received, Dropped);
  }
}
