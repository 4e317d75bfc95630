/**
 One server-sent-event frame: its fields, the line loop of `parseFrame`, and the text that carries a frame.
 */
module SseFrames {
  import opened Wrappers
  import opened Decimals
  import opened Sequences

  datatype Frame = Frame(event: Option<string>, data: string, id: Option<int>)

  // ----- Strings -----

  /** The characters `trim` removes. */
  predicate IsSpace(c: char) {
    || '\t' <= c <= '\r'
    || c == ' ' || c == '\U{00a0}' || c == '\U{1680}' || c == '\U{2028}' || c == '\U{2029}'
    || c == '\U{202f}' || c == '\U{205f}' || c == '\U{3000}' || c == '\U{feff}'
    || '\U{2000}' <= c <= '\U{200a}'
  }

  /** The white space and line terminators of sections 12.2 and 12.3 of ECMA-262. */
  lemma SpacesAreThese(c: char)
    ensures IsSpace(c) <==>
            c in "\t\n\U{0b}\U{0c}\r \U{a0}\U{1680}\U{2000}\U{2001}\U{2002}\U{2003}\U{2004}\U{2005}\U{2006}" +
                 "\U{2007}\U{2008}\U{2009}\U{200a}\U{2028}\U{2029}\U{202f}\U{205f}\U{3000}\U{feff}"
  {
  }

  function TrimStart(s: string): (r: string)
    ensures r != "" ==> !IsSpace(r[0])
    ensures s == "" || !IsSpace(s[0]) ==> r == s
    ensures forall c | c in r :: c in s
  {
    if s != "" && IsSpace(s[0]) then TrimStart(s[1..]) else s
  }

  function TrimEnd(s: string): (r: string)
    ensures r != "" ==> !IsSpace(r[|r| - 1])
    ensures s == "" || !IsSpace(s[|s| - 1]) ==> r == s
  {
    if s != "" && IsSpace(s[|s| - 1]) then TrimEnd(s[..|s| - 1]) else s
  }

  function Trim(s: string): string {
    TrimEnd(TrimStart(s))
  }

  predicate Blank(s: string) {
    forall c | c in s :: IsSpace(c)
  }

  lemma {:induction false} TrimStartCuts(s: string) returns (before: string)
    ensures s == before + TrimStart(s) && Blank(before)
  {
    before := "";
    if s != "" && IsSpace(s[0]) {
      before := TrimStartCuts(s[1..]);
      before := [s[0]] + before;
      assert s == [s[0]] + s[1..];
    }
  }

  lemma {:induction false} TrimEndCuts(s: string) returns (after: string)
    ensures s == TrimEnd(s) + after && Blank(after)
  {
    after := "";
    if s != "" && IsSpace(s[|s| - 1]) {
      after := TrimEndCuts(s[..|s| - 1]);
      after := after + [s[|s| - 1]];
      assert s == s[..|s| - 1] + [s[|s| - 1]];
    }
  }

  /** What `trim` cuts off at both ends is blank, and what it leaves is as long as it can be. */
  lemma TrimCuts(s: string) returns (before: string, after: string)
    ensures s == before + Trim(s) + after && Blank(before) && Blank(after)
    ensures Trim(s) != "" ==> !IsSpace(Trim(s)[0]) && !IsSpace(Trim(s)[|Trim(s)| - 1])
  {
    before := TrimStartCuts(s);
    after := TrimEndCuts(TrimStart(s));
    assert TrimStart(s) == Trim(s) + after;
  }

  /** `split('\n')` */
  function Split(t: string): (lines: seq<string>)
    ensures lines != []
    ensures forall l | l in lines :: '\n' !in l
  {
    if t == "" then [""]
    else
      var rest := Split(t[1..]);
      if t[0] == '\n' then [""] + rest else [[t[0]] + rest[0]] + rest[1..]
  }

  /** `join('\n')` */
  function Join(lines: seq<string>): string {
    if lines == [] then "" else if |lines| == 1 then lines[0] else lines[0] + "\n" + Join(lines[1..])
  }

  lemma {:induction false} JoinOfSplit(t: string)
    ensures Join(Split(t)) == t
  {
    if t != "" {
      JoinOfSplit(t[1..]);
      var rest, lines := Split(t[1..]), Split(t);
      assert lines[1..] == if t[0] == '\n' then rest else rest[1..];
      assert t == [t[0]] + t[1..];
    }
  }

  lemma {:induction false} SplitLine(l: string)
    requires '\n' !in l
    ensures Split(l) == [l]
  {
    if l != "" {
      SplitLine(l[1..]);
      assert l == [l[0]] + l[1..];
    }
  }

  lemma {:induction false} SplitFirstLine(l: string, t: string)
    requires '\n' !in l
    ensures Split(l + "\n" + t) == [l] + Split(t)
  {
    var all := l + "\n" + t;
    if l == "" {
      assert all[1..] == t;
    } else {
      SplitFirstLine(l[1..], t);
      assert all[1..] == l[1..] + "\n" + t;
      assert l == [l[0]] + l[1..];
    }
  }

  lemma {:induction false} SplitOfJoin(lines: seq<string>)
    requires lines != [] && forall l | l in lines :: '\n' !in l
    ensures Split(Join(lines)) == lines
  {
    if |lines| == 1 {
      SplitLine(lines[0]);
    } else {
      SplitOfJoin(lines[1..]);
      SplitFirstLine(lines[0], Join(lines[1..]));
    }
  }

  // ----- Number.parseInt(s, 10) -----

  function LeadingNumber(s: string): (r: string)
    ensures r <= s && forall c | c in r :: IsDigit(c)
  {
    if s != "" && IsDigit(s[0]) then [s[0]] + LeadingNumber(s[1..]) else ""
  }

  function NumberOf(digits: string): nat
    requires forall c | c in digits :: IsDigit(c)
  {
    if digits == "" then 0
    else
      var last := digits[|digits| - 1];
      assert last in digits;
      assert IsDigit(last);
      10 * NumberOf(digits[..|digits| - 1]) + (last as int - '0' as int)
  }

  function ParseInt(s: string): Option<int> {
    var t := TrimStart(s);
    var negative := t != "" && t[0] == '-';
    var unsigned := if t != "" && t[0] in {'+', '-'} then t[1..] else t;
    var digits := LeadingNumber(unsigned);
    var n: int := NumberOf(digits);
    if digits == "" then None else Some(if negative then -n else n)
  }

  lemma {:induction false} NumberOfDecimal(n: nat)
    ensures NumberOf(Decimal(n)) == n
  {
    var s := Decimal(n);
    if n >= 10 {
      NumberOfDecimal(n / 10);
      assert s[..|s| - 1] == Decimal(n / 10);
      assert s[|s| - 1] == Digit(n % 10);
    } else {
      assert s[..|s| - 1] == "";
    }
  }

  lemma {:induction false} AllDigitsLead(s: string)
    requires forall c | c in s :: IsDigit(c)
    ensures LeadingNumber(s) == s
  {
    if s != "" {
      AllDigitsLead(s[1..]);
    }
  }

  lemma DigitsStartSolid(s: string)
    requires s != "" && forall c | c in s :: IsDigit(c)
    ensures TrimStart(s) == s && TrimEnd(s) == s && s[0] != '-' && s[0] != '+'
  {
    assert IsDigit(s[0]) && IsDigit(s[|s| - 1]);
  }

  lemma DigitsAreKept(s: string)
    requires s != "" && forall c | c in s :: IsDigit(c)
    ensures Trim(s) == s && ParseInt(s) == Some(NumberOf(s))
  {
    DigitsStartSolid(s);
    AllDigitsLead(s);
  }

  lemma ParseDecimal(n: nat)
    ensures Trim(Decimal(n)) == Decimal(n) && ParseInt(Decimal(n)) == Some(n)
  {
    DigitsAreKept(Decimal(n));
    NumberOfDecimal(n);
  }

  lemma {:induction false} LeadsWithDigits(d: string, rest: string)
    requires (forall c | c in d :: IsDigit(c)) && StartsOutsideNumber(rest)
    ensures LeadingNumber(d + rest) == d
  {
    if d == "" {
      assert d + rest == rest;
    } else {
      assert (d + rest)[1..] == d[1..] + rest && (d + rest)[0] == d[0];
      LeadsWithDigits(d[1..], rest);
      assert d == [d[0]] + d[1..];
    }
  }

  lemma {:induction false} TrimStartSkips(before: string, s: string)
    requires Blank(before) && (s == "" || !IsSpace(s[0]))
    ensures TrimStart(before + s) == s
  {
    if before == "" {
      assert before + s == s;
    } else {
      assert (before + s)[1..] == before[1..] + s && (before + s)[0] == before[0] && before[0] in before;
      TrimStartSkips(before[1..], s);
    }
  }

  /** What is read: spaces, a sign or none, the digits of a number, and whatever follows them. */
  lemma ParseIntReads(before: string, sign: string, n: nat, rest: string)
    requires Blank(before) && sign in {"", "+", "-"} && StartsOutsideNumber(rest)
    ensures var number: int := n;
            ParseInt(before + (sign + (Decimal(n) + rest))) == Some(if sign == "-" then -number else number)
  {
    var number := Decimal(n) + rest;
    var t := sign + number;
    assert IsDigit(number[0]);
    assert sign == "" ==> t == number;
    assert sign != "" ==> t[0] == sign[0] && t[1..] == number;
    TrimStartSkips(before, t);
    LeadsWithDigits(Decimal(n), rest);
    NumberOfDecimal(n);
  }

  /** Nothing is read without a digit in front. */
  lemma ParseIntRefuses(before: string, sign: string, rest: string)
    requires Blank(before) && sign in {"", "+", "-"} && StartsOutsideNumber(rest)
    requires rest == "" || (!IsSpace(rest[0]) && rest[0] != '+' && rest[0] != '-')
    ensures ParseInt(before + (sign + rest)) == None
  {
    var t := sign + rest;
    assert sign == "" ==> t == rest;
    assert sign != "" ==> t[0] == sign[0] && t[1..] == rest;
    TrimStartSkips(before, t);
  }

  // ----- parseFrame -----

  datatype Fields = Fields(event: Option<string>, id: Option<int>, data: seq<string>)

  /** What one line says. */
  datatype Line = Event(value: string) | Data(value: string) | Id(value: string) | Other

  function ReadLine(line: string): Line {
    if "event:" <= line then Event(line[6..])
    else if "data:" <= line then Data(line[5..])
    else if "id:" <= line then Id(line[3..])
    else Other
  }

  /** What one line changes. */
  function Absorb(f: Fields, line: Line): Fields {
    match line
    case Event(value) => f.(event := Some(Trim(value)))
    case Data(value) => f.(data := f.data + [TrimStart(value)])
    case Id(value) =>
      var n := ParseInt(Trim(value));
      if n.Some? then f.(id := n) else f
    case Other => f
  }

  function FieldsOf(lines: seq<string>): Fields {
    if lines == [] then Fields(None, None, [])
    else Absorb(FieldsOf(lines[..|lines| - 1]), ReadLine(lines[|lines| - 1]))
  }

  lemma FieldsWithLine(lines: seq<string>, line: string)
    ensures FieldsOf(lines + [line]) == Absorb(FieldsOf(lines), ReadLine(line))
  {
    assert (lines + [line])[..|lines|] == lines;
  }

  /** The frame of a raw text, nothing when it has no `data:` line. */
  function FrameOf(raw: string): Option<Frame> {
    var f := FieldsOf(Split(raw));
    if f.data == [] then None else Some(Frame(f.event, Join(f.data), f.id))
  }

  method ParseFrame(raw: string) returns (frame: Option<Frame>)
    ensures frame == FrameOf(raw)
  {
    var lines := Split(raw);
    var event: Option<string> := None;
    var id: Option<int> := None;
    var dataLines: seq<string> := [];
    for i := 0 to |lines|
      invariant Fields(event, id, dataLines) == FieldsOf(lines[..i])
    {
      var line := lines[i];
      assert lines[..i + 1] == lines[..i] + [line];
      FieldsWithLine(lines[..i], line);
      if "event:" <= line {
        event := Some(Trim(line[6..]));
      } else if "data:" <= line {
        dataLines := dataLines + [TrimStart(line[5..])];
      } else if "id:" <= line {
        var n := ParseInt(Trim(line[3..]));
        if n.Some? {
          id := n;
        }
      }
    }
    assert lines[..|lines|] == lines;
    if dataLines == [] {
      return None;
    }
    return Some(Frame(event, Join(dataLines), id));
  }

  lemma {:induction false} BlankLines(t: string)
    requires Blank(t)
    ensures forall l | l in Split(t) :: Blank(l)
  {
    if t != "" {
      BlankLines(t[1..]);
      var rest := Split(t[1..]);
      assert IsSpace(t[0]) && Blank(rest[0]) && Blank([t[0]] + rest[0]);
      forall l | l in Split(t) ensures Blank(l) {
        assert l in rest || l == "" || l == [t[0]] + rest[0];
      }
    }
  }

  lemma {:induction false} NoFieldsIn(lines: seq<string>)
    requires forall l | l in lines :: Blank(l)
    ensures FieldsOf(lines) == Fields(None, None, [])
  {
    if lines != [] {
      var last := lines[|lines| - 1];
      NoFieldsIn(lines[..|lines| - 1]);
      assert last in lines && (last != "" ==> last[0] in last);
    }
  }

  // ----- The text that carries a frame -----

  function DataLines(lines: seq<string>): seq<string> {
    if lines == [] then [] else DataLines(lines[..|lines| - 1]) + ["data: " + lines[|lines| - 1]]
  }

  function Trimmed(lines: seq<string>): seq<string> {
    if lines == [] then [] else Trimmed(lines[..|lines| - 1]) + [TrimStart(lines[|lines| - 1])]
  }

  /** `id: 7`, `event: thinking_delta`, and a `data: ` line for each line of the data. */
  function FrameText(id: nat, event: string, data: string): string {
    Join(["id: " + Decimal(id), "event: " + event] + DataLines(Split(data)))
  }

  lemma ReadWritten(value: string)
    ensures ReadLine("id: " + value) == Id(" " + value)
    ensures ReadLine("event: " + value) == Event(" " + value)
    ensures ReadLine("data: " + value) == Data(" " + value)
  {
    var i, e, d := "id: " + value, "event: " + value, "data: " + value;
    assert i[0] == 'i' && e[0] == 'e' && d[0] == 'd';
    assert i[3..] == " " + value && e[6..] == " " + value && d[5..] == " " + value;
  }

  lemma TrimAfterSpace(s: string)
    ensures Trim(" " + s) == Trim(s) && TrimStart(" " + s) == TrimStart(s)
  {
    assert (" " + s)[1..] == s;
  }

  lemma {:induction false} FieldsOfFrame(head: seq<string>, lines: seq<string>)
    ensures FieldsOf(head + DataLines(lines)) ==
            FieldsOf(head).(data := FieldsOf(head).data + Trimmed(lines))
  {
    if lines == [] {
      assert head + [] == head;
    } else {
      var k := |lines| - 1;
      FieldsOfFrame(head, lines[..k]);
      Associates(head, DataLines(lines[..k]), ["data: " + lines[k]]);
      FieldsWithLine(head + DataLines(lines[..k]), "data: " + lines[k]);
      ReadWritten(lines[k]);
      TrimAfterSpace(lines[k]);
      Associates(FieldsOf(head).data, Trimmed(lines[..k]), [TrimStart(lines[k])]);
    }
  }

  lemma FieldsOfHead(id: nat, event: string)
    ensures FieldsOf(["id: " + Decimal(id), "event: " + event]) == Fields(Some(Trim(event)), Some(id), [])
  {
    var first, second := "id: " + Decimal(id), "event: " + event;
    assert [] + [first] == [first] && [first] + [second] == [first, second];
    FieldsWithLine([], first);
    FieldsWithLine([first], second);
    ReadWritten(Decimal(id));
    ReadWritten(event);
    TrimAfterSpace(Decimal(id));
    TrimAfterSpace(event);
    ParseDecimal(id);
  }

  predicate OneLine(l: string) {
    '\n' !in l
  }

  lemma {:induction false} StaysOneLine(lines: seq<string>)
    requires forall l | l in lines :: OneLine(l)
    ensures |DataLines(lines)| == |lines| == |Trimmed(lines)|
    ensures forall l | l in DataLines(lines) :: OneLine(l)
    ensures forall l | l in Trimmed(lines) :: OneLine(l)
  {
    if lines != [] {
      var k := |lines| - 1;
      StaysOneLine(lines[..k]);
      assert OneLine(lines[k]);
      assert OneLine("data: " + lines[k]);
      assert OneLine(TrimStart(lines[k]));
    }
  }

  /** What is read back from a frame's text: spaces around the event and before each line of data are lost. */
  lemma FrameIsReadBack(id: nat, event: string, data: string)
    requires '\n' !in event
    ensures FrameOf(FrameText(id, event, data)) ==
            Some(Frame(Some(Trim(event)), Join(Trimmed(Split(data))), Some(id)))
  {
    var head := ["id: " + Decimal(id), "event: " + event];
    var lines := Split(data);
    assert forall l | l in lines :: OneLine(l);
    StaysOneLine(lines);
    assert OneLine(head[0]) && OneLine(head[1]);
    assert forall l | l in head + DataLines(lines) :: OneLine(l);
    SplitOfJoin(head + DataLines(lines));
    FieldsOfHead(id, event);
    FieldsOfFrame(head, lines);
    assert [] + Trimmed(lines) == Trimmed(lines);
  }

  predicate StartsSolid(l: string) {
    TrimStart(l) == l
  }

  lemma {:induction false} TrimmedIsSame(lines: seq<string>)
    ensures |Trimmed(lines)| == |lines|
    ensures Trimmed(lines) == lines <==> forall l | l in lines :: StartsSolid(l)
  {
    if lines != [] {
      var k := |lines| - 1;
      TrimmedIsSame(lines[..k]);
      assert lines == lines[..k] + [lines[k]];
      assert Trimmed(lines)[..k] == Trimmed(lines[..k]) && Trimmed(lines)[k] == TrimStart(lines[k]);
      assert Trimmed(lines) == lines <==> Trimmed(lines[..k]) == lines[..k] && StartsSolid(lines[k]);
    }
  }

  /** So the round trip is exact precisely when there are no such spaces. */
  lemma FrameRoundTrip(id: nat, event: string, data: string)
    requires '\n' !in event
    ensures FrameOf(FrameText(id, event, data)) == Some(Frame(Some(event), data, Some(id))) <==>
            Trim(event) == event && forall l | l in Split(data) :: StartsSolid(l)
  {
    FrameIsReadBack(id, event, data);
    JoinOfSplit(data);
    var lines := Split(data);
    assert forall l | l in lines :: OneLine(l);
    StaysOneLine(lines);
    SplitOfJoin(Trimmed(lines));
    TrimmedIsSame(lines);
  }
}
