/**
 The `read` tool: one file as numbered lines, cut to a page, with the line to continue from.
 Path resolution, the file system and the text put around the numbered lines are outside.
 */
module FileReader {
  import opened Wrappers
  import opened OutputBlocks
  import EmbeddingIdentity

  const READ_MAX_LINES: nat := 800
  const READ_MAX_BYTES: nat := 64 * 1024

  datatype ReadError =
    | PathRejected | NotRegular | Unreadable | Binary | NotUtf8
    | PastEnd(start: nat, total: nat)

  /** What resolving and loading the path came to. */
  datatype Loaded = Refused(why: ReadError) | Loaded(text: Text)

  /** `next` is the start line named when the page stops short of the requested end. */
  datatype Outcome =
    | Failed(error: ReadError)
    | EmptyFile
    | Page(start: nat, end: nat, total: nat, body: Text, next: Option<nat>)

  function Numbered(n: nat, line: Text): (t: Text)
    ensures t != []
  {
    Ascii(EmbeddingIdentity.Decimal(n) + ": ") + line + [NEWLINE]
  }

  /** The file as it is shown: line `n`, numbered, at index `n - 1`. */
  function NumberedLines(lines: seq<Text>): (shown: seq<Text>)
    ensures |shown| == |lines|
    ensures forall i | 0 <= i < |lines| :: shown[i] == Numbered(i + 1, lines[i])
  {
    seq(|lines|, i requires 0 <= i < |lines| => Numbered(i + 1, lines[i]))
  }

  /** Lines `start..=end` of what is shown. */
  function Body(shown: seq<Text>, start: nat, end: nat): Text
    requires 1 <= start && end <= |shown|
  {
    if end < start then [] else Body(shown, start, end - 1) + shown[end - 1]
  }

  lemma {:induction false} BodySplits(shown: seq<Text>, start: nat, mid: nat, end: nat)
    requires 1 <= start <= mid + 1 && mid <= end <= |shown|
    ensures Body(shown, start, end) == Body(shown, start, mid) + Body(shown, mid + 1, end)
  {
    if mid < end {
      BodySplits(shown, start, mid, end - 1);
    }
  }

  function AtLeast(n: nat, least: nat): nat
  {
    if n < least then least else n
  }

  function AtMost(n: nat, most: nat): nat
  {
    if n > most then most else n
  }

  function FirstWanted(startLine: Option<nat>): nat
  {
    AtLeast(startLine.UnwrapOr(1), 1)
  }

  function LastWanted(startLine: Option<nat>, endLine: Option<nat>, total: nat): nat
  {
    AtLeast(AtMost(endLine.UnwrapOr(total), total), FirstWanted(startLine))
  }

  /** The page from `start` towards `wanted`: never empty, at most as many lines as the cap, within
      the byte cap unless it is one line, and as long as these allow. */
  ghost predicate IsPage(shown: seq<Text>, start: nat, wanted: nat, page: Outcome)
    requires 1 <= start <= wanted <= |shown|
  {
    && page.Page? && page.start == start && page.total == |shown|
    && start <= page.end <= AtMost(wanted, start + READ_MAX_LINES - 1)
    && page.body == Body(shown, start, page.end)
    && (|page.body| <= READ_MAX_BYTES || page.end == start)
    && (page.end < AtMost(wanted, start + READ_MAX_LINES - 1) ==>
          |Body(shown, start, page.end + 1)| > READ_MAX_BYTES)
    && page.next == if page.end < wanted then Some(page.end + 1) else None
  }

  /** The answer for a file of these lines. */
  ghost predicate Answers(lines: seq<Text>, startLine: Option<nat>, endLine: Option<nat>, out: Outcome)
  {
    var start := FirstWanted(startLine);
    if lines == [] then out == EmptyFile
    else if start > |lines| then out == Failed(PastEnd(start, |lines|))
    else IsPage(NumberedLines(lines), start, LastWanted(startLine, endLine, |lines|), out)
  }

  ghost predicate Reads(file: Loaded, startLine: Option<nat>, endLine: Option<nat>, out: Outcome)
  {
    match file
    case Refused(why) => out == Failed(why)
    case Loaded(text) => Answers(Lines(text), startLine, endLine, out)
  }

  /** Lines from `start` on, until the cap is reached or the next line would exceed the bytes. */
  method EmitLines(lines: seq<Text>, ghost shown: seq<Text>, start: nat, lineCapEnd: nat)
    returns (body: Text, emittedTo: nat)
    requires 1 <= start <= lineCapEnd <= |lines| == |shown|
    requires forall i | 0 <= i < |lines| :: shown[i] == Numbered(i + 1, lines[i])
    ensures start <= emittedTo <= lineCapEnd && body == Body(shown, start, emittedTo)
    ensures |body| <= READ_MAX_BYTES || emittedTo == start
    ensures emittedTo < lineCapEnd ==> |Body(shown, start, emittedTo + 1)| > READ_MAX_BYTES
  {
    body, emittedTo := [], start - 1;
    while emittedTo < lineCapEnd
      invariant start - 1 <= emittedTo <= lineCapEnd
      invariant body == Body(shown, start, emittedTo)
      invariant body != [] <==> start <= emittedTo
      invariant |body| <= READ_MAX_BYTES || emittedTo == start
    {
      var rendered := Numbered(emittedTo + 1, lines[emittedTo]);
      assert Body(shown, start, emittedTo + 1) == body + rendered;
      if body != [] && |body| + |rendered| > READ_MAX_BYTES {
        break;
      }
      body := body + rendered;
      emittedTo := emittedTo + 1;
    }
  }

  method ReadLines(lines: seq<Text>, startLine: Option<nat>, endLine: Option<nat>) returns (out: Outcome)
    ensures Answers(lines, startLine, endLine, out)
  {
    var total := |lines|;
    if total == 0 {
      return EmptyFile;
    }
    var start := FirstWanted(startLine);
    if start > total {
      return Failed(PastEnd(start, total));
    }
    var end := LastWanted(startLine, endLine, total);
    var body, emittedTo := EmitLines(lines, NumberedLines(lines), start, AtMost(end, start + READ_MAX_LINES - 1));
    out := Page(start, emittedTo, total, body, if emittedTo < end then Some(emittedTo + 1) else None);
    assert IsPage(NumberedLines(lines), start, end, out);
  }

  method RunRead(file: Loaded, startLine: Option<nat>, endLine: Option<nat>) returns (out: Outcome)
    ensures Reads(file, startLine, endLine, out)
  {
    if file.Refused? {
      return Failed(file.why);
    }
    out := ReadLines(Lines(file.text), startLine, endLine);
  }

  // ── Paging through a file ─────────────────────────────────────────────────

  lemma {:induction false} LongerBody(shown: seq<Text>, start: nat, a: nat, b: nat)
    requires 1 <= start && a <= b <= |shown|
    ensures |Body(shown, start, a)| <= |Body(shown, start, b)|
  {
    if a < b { LongerBody(shown, start, a, b - 1); }
  }

  lemma PageUnique(shown: seq<Text>, start: nat, wanted: nat, a: Outcome, b: Outcome)
    requires 1 <= start <= wanted <= |shown| && IsPage(shown, start, wanted, a) && IsPage(shown, start, wanted, b)
    ensures a == b
  {
    if a.end < b.end {
      LongerBody(shown, start, a.end + 1, b.end);
    } else if b.end < a.end {
      LongerBody(shown, start, b.end + 1, a.end);
    }
  }

  /** A request has one answer. */
  lemma AnswerUnique(file: Loaded, startLine: Option<nat>, endLine: Option<nat>, a: Outcome, b: Outcome)
    requires Reads(file, startLine, endLine, a) && Reads(file, startLine, endLine, b)
    ensures a == b
  {
    if a.Page? {
      var shown := NumberedLines(Lines(file.text));
      PageUnique(shown, FirstWanted(startLine), LastWanted(startLine, endLine, |shown|), a, b);
    }
  }

  /** The byte cap is not a hard one: a page exceeds it exactly when its first line alone does. */
  lemma OversizedIff(shown: seq<Text>, start: nat, wanted: nat, page: Outcome)
    requires 1 <= start <= wanted <= |shown| && IsPage(shown, start, wanted, page)
    ensures |page.body| > READ_MAX_BYTES <==> |shown[start - 1]| > READ_MAX_BYTES
  {
    assert Body(shown, start, start) == shown[start - 1];
    LongerBody(shown, start, start, page.end);
  }

  // ── What a page says ──────────────────────────────────────────────────────

  /** The numbered line without its newline. */
  function Shown(n: nat, line: Text): Text
  {
    Ascii(EmbeddingIdentity.Decimal(n)) + [0x3A, 0x20] + line
  }

  function DigitByte(c: char): (b: bv8)
    requires '0' <= c <= '9'
    ensures b < 128 && c as int == b as int && b != NEWLINE
  {
    if c == '0' then 0x30 else if c == '1' then 0x31 else if c == '2' then 0x32 else if c == '3' then 0x33
    else if c == '4' then 0x34 else if c == '5' then 0x35 else if c == '6' then 0x36 else if c == '7' then 0x37
    else if c == '8' then 0x38 else 0x39
  }

  lemma DecimalByte(n: nat, i: nat)
    requires i < |EmbeddingIdentity.Decimal(n)|
    ensures Ascii(EmbeddingIdentity.Decimal(n))[i] != NEWLINE
  {
    var s := EmbeddingIdentity.Decimal(n);
    EmbeddingIdentity.DecimalDigits(n);
    AsciiByte(s, i, DigitByte(s[i]));
  }

  lemma NumberedIs(n: nat, line: Text)
    ensures Numbered(n, line) == Shown(n, line) + [NEWLINE]
    ensures NEWLINE !in line ==> NEWLINE !in Shown(n, line)
  {
    var d := EmbeddingIdentity.Decimal(n);
    var s := d + ": ";
    AsciiByte(s, |d|, 0x3A);
    AsciiByte(s, |d| + 1, 0x20);
    assert Ascii(s) == Ascii(d) + [0x3A, 0x20];
    forall i | 0 <= i < |d| ensures Ascii(d)[i] != NEWLINE { DecimalByte(n, i); }
  }

  function ShownLines(lines: seq<Text>, start: nat, end: nat): (r: seq<Text>)
    requires 1 <= start <= end + 1 && end <= |lines|
    ensures |r| == end + 1 - start && forall i | 0 <= i < |r| :: r[i] == Shown(start + i, lines[start + i - 1])
  {
    seq(end + 1 - start, i requires 0 <= i < end + 1 - start => Shown(start + i, lines[start + i - 1]))
  }

  lemma {:induction false} TerminatedLast(raws: seq<Text>, raw: Text)
    ensures Terminated(raws + [raw]) == Terminated(raws) + raw + [NEWLINE]
  {
    if raws == [] {
      assert [raw][1..] == [];
    } else {
      TerminatedLast(raws[1..], raw);
      assert (raws + [raw])[1..] == raws[1..] + [raw];
    }
  }

  lemma ShownNext(lines: seq<Text>, start: nat, end: nat)
    requires 1 <= start <= end <= |lines|
    ensures ShownLines(lines, start, end) == ShownLines(lines, start, end - 1) + [Shown(end, lines[end - 1])]
  {}

  lemma {:induction false} BodyIsTerminated(lines: seq<Text>, start: nat, end: nat)
    requires 1 <= start <= end + 1 && end <= |lines|
    ensures Body(NumberedLines(lines), start, end) == Terminated(ShownLines(lines, start, end))
  {
    if start <= end {
      BodyIsTerminated(lines, start, end - 1);
      NumberedIs(end, lines[end - 1]);
      TerminatedLast(ShownLines(lines, start, end - 1), Shown(end, lines[end - 1]));
      ShownNext(lines, start, end);
    }
  }

  /** The lines of a page: the requested lines of the file, each behind its number and a colon. A carriage
      return at the end of a line counts as part of the line break, as in every text. */
  lemma PageReadsBack(text: Text, start: nat, end: nat)
    requires 1 <= start <= end <= |Lines(text)|
    ensures var page := Lines(Body(NumberedLines(Lines(text)), start, end));
            && |page| == end + 1 - start
            && forall i | 0 <= i < |page| ::
                 page[i] == WithoutReturn(Ascii(EmbeddingIdentity.Decimal(start + i)) + [0x3A, 0x20] + Lines(text)[start + i - 1])
  {
    var lines := Lines(text);
    var raws := ShownLines(lines, start, end);
    LinesHaveNoNewline(text);
    forall i | 0 <= i < |raws| ensures NEWLINE !in raws[i] { NumberedIs(start + i, lines[start + i - 1]); }
    BodyIsTerminated(lines, start, end);
    LinesOfTerminated(raws, []);
    assert Terminated(raws) + [] == Terminated(raws);
  }

  lemma OneLine(text: Text)
    requires text != [] && NEWLINE !in text
    ensures Lines(text) == [text]
  {}

  /** Such a file: one line as long as the cap. */
  lemma LongLineShownWhole() returns (text: Text, page: Outcome)
    ensures Reads(Loaded(text), None, None, page) && page.Page? && |page.body| > READ_MAX_BYTES
  {
    text := seq(READ_MAX_BYTES, _ => 0x61);
    assert text[0] == 0x61;
    OneLine(text);
    var shown := NumberedLines([text]);
    assert shown[0] == Numbered(1, text) && |Numbered(1, text)| > READ_MAX_BYTES;
    assert Body(shown, 1, 0) == [];
    page := Page(1, 1, 1, Body(shown, 1, 1), None);
  }

  /** The three kinds of answer, and where a page starts and stops: never past the larger of its start and
      the requested end, nor past the file, and with a line to continue from exactly if it stops short. */
  lemma PageStops(text: Text, startLine: Option<nat>, endLine: Option<nat>, out: Outcome)
    requires Reads(Loaded(text), startLine, endLine, out)
    ensures var total := |Lines(text)|;
            var start := if startLine.None? || startLine.value == 0 then 1 else startLine.value;
            && (out == EmptyFile <==> text == [])
            && (out.Failed? <==> text != [] && start > total)
            && (out.Failed? ==> out == Failed(PastEnd(start, total)))
            && (out.Page? ==>
                  && out.start == start <= out.end <= total == out.total
                  && (endLine.Some? && endLine.value <= start ==> out.end == start && out.next == None)
                  && (endLine.Some? && start <= endLine.value ==> out.end <= endLine.value)
                  && (endLine.Some? && start <= endLine.value <= total ==> (out.next == None <==> out.end == endLine.value))
                  && (endLine.None? || total < endLine.value ==> (out.next == None <==> out.end == total)))
  {
    assert text == [] <==> Lines(text) == [];
  }

  /** The last line a request from line `from` on asks for. */
  ghost function Asked(from: nat, endLine: Option<nat>, total: nat): nat
  {
    match endLine
    case None => total
    case Some(end) => if total < end then total else if end < from then from else end
  }

  /** What a request from line `from` on answers. */
  lemma ReadFrom(text: Text, from: nat, endLine: Option<nat>, out: Outcome)
    requires 1 <= from <= |Lines(text)|
    ensures Reads(Loaded(text), Some(from), endLine, out) <==>
            IsPage(NumberedLines(Lines(text)), from, Asked(from, endLine, |Lines(text)|), out)
  {}

  /** Pages that continue each other, from line `from` to line `last`. */
  ghost predicate Chain(shown: seq<Text>, from: nat, last: nat, pages: seq<Outcome>)
    requires 1 <= from <= last <= |shown|
    decreases |pages|
  {
    && pages != []
    && IsPage(shown, from, last, pages[0])
    && match pages[0].next
       case Some(next) => Chain(shown, next, last, pages[1..])
       case None => |pages| == 1
  }

  function BodyOf(out: Outcome): Text
  {
    if out.Page? then out.body else []
  }

  function Bodies(pages: seq<Outcome>): Text
  {
    if pages == [] then [] else BodyOf(pages[0]) + Bodies(pages[1..])
  }

  lemma {:induction false} ChainBodies(shown: seq<Text>, from: nat, last: nat, pages: seq<Outcome>)
    requires 1 <= from <= last <= |shown| && Chain(shown, from, last, pages)
    ensures Bodies(pages) == Body(shown, from, last)
    decreases |pages|
  {
    var page, rest := pages[0], pages[1..];
    OnePage(shown, from, last, page);
    if page.next.Some? {
      ChainBodies(shown, page.end + 1, last, rest);
      BodySplits(shown, from, page.end, last);
      assert Bodies(pages) == page.body + Bodies(rest);
    } else {
      assert rest == [];
      assert Bodies(pages) == page.body + [];
    }
  }

  lemma OnePage(shown: seq<Text>, from: nat, last: nat, page: Outcome)
    requires 1 <= from <= last <= |shown| && IsPage(shown, from, last, page)
    ensures page.body == Body(shown, from, page.end)
    ensures if page.next.Some? then page.next.value == page.end + 1 <= last else page.end == last
  {}

  lemma {:induction false} ChainLength(shown: seq<Text>, from: nat, last: nat, pages: seq<Outcome>)
    requires 1 <= from <= last <= |shown| && Chain(shown, from, last, pages)
    ensures |pages| <= last - from + 1
    decreases |pages|
  {
    if pages[0].next.Some? { ChainLength(shown, pages[0].end + 1, last, pages[1..]); }
  }

  lemma {:induction false} LongestFrom(shown: seq<Text>, start: nat, reached: nat, cap: nat) returns (end: nat)
    requires 1 <= start <= reached <= cap <= |shown|
    requires reached == start || |Body(shown, start, reached)| <= READ_MAX_BYTES
    ensures reached <= end <= cap
    ensures end == start || |Body(shown, start, end)| <= READ_MAX_BYTES
    ensures end < cap ==> |Body(shown, start, end + 1)| > READ_MAX_BYTES
    decreases cap - reached
  {
    end := reached;
    if reached < cap && |Body(shown, start, reached + 1)| <= READ_MAX_BYTES {
      end := LongestFrom(shown, start, reached + 1, cap);
    }
  }

  lemma SomePage(shown: seq<Text>, from: nat, last: nat) returns (page: Outcome)
    requires 1 <= from <= last <= |shown|
    ensures IsPage(shown, from, last, page)
  {
    var end := LongestFrom(shown, from, from, AtMost(last, from + READ_MAX_LINES - 1));
    page := Page(from, end, |shown|, Body(shown, from, end), if end < last then Some(end + 1) else None);
  }

  lemma {:induction false} ChainEnds(shown: seq<Text>, from: nat, last: nat) returns (pages: seq<Outcome>)
    requires 1 <= from <= last <= |shown|
    ensures Chain(shown, from, last, pages)
    decreases last - from
  {
    var page := SomePage(shown, from, last);
    if page.next.Some? {
      var rest := ChainEnds(shown, page.end + 1, last);
      pages := [page] + rest;
      assert pages[1..] == rest;
    } else {
      pages := [page];
    }
  }

  /** The answers to asking for line `from` and then, with the same requested end, for each line an answer
      names, until none is named. */
  ghost predicate Follows(text: Text, from: nat, endLine: Option<nat>, answers: seq<Outcome>)
    decreases |answers|
  {
    && answers != []
    && Reads(Loaded(text), Some(from), endLine, answers[0])
    && if answers[0].Page? && answers[0].next.Some?
       then Follows(text, answers[0].next.value, endLine, answers[1..])
       else |answers| == 1
  }

  lemma {:induction false} FollowsIsChain(text: Text, from: nat, endLine: Option<nat>, answers: seq<Outcome>)
    requires 1 <= from <= |Lines(text)|
    ensures Follows(text, from, endLine, answers) <==>
            Chain(NumberedLines(Lines(text)), from, Asked(from, endLine, |Lines(text)|), answers)
    decreases |answers|
  {
    var shown := NumberedLines(Lines(text));
    var last := Asked(from, endLine, |shown|);
    if answers != [] {
      ReadFrom(text, from, endLine, answers[0]);
      if IsPage(shown, from, last, answers[0]) && answers[0].next.Some? {
        FollowsIsChain(text, answers[0].next.value, endLine, answers[1..]);
      }
    }
  }

  lemma PagesShow(text: Text, from: nat, endLine: Option<nat>, answers: seq<Outcome>)
    requires 1 <= from <= |Lines(text)| && Follows(text, from, endLine, answers)
    ensures var shown := NumberedLines(Lines(text));
            var last := Asked(from, endLine, |shown|);
            Bodies(answers) == Body(shown, from, last) && |answers| <= last - from + 1
  {
    var shown := NumberedLines(Lines(text));
    var last := Asked(from, endLine, |shown|);
    FollowsIsChain(text, from, endLine, answers);
    ChainBodies(shown, from, last, answers);
    ChainLength(shown, from, last, answers);
  }

  lemma OneLineBody(shown: seq<Text>, from: nat)
    requires 1 <= from <= |shown|
    ensures Body(shown, from, from) == shown[from - 1]
  {
    assert Body(shown, from, from - 1) == [];
  }

  /** Paging from a line on shows every line from there to the requested end, or that of the file, once
      and in order, in no more reads than there are lines. */
  lemma PagesTile(text: Text, from: nat, endLine: Option<nat>, answers: seq<Outcome>)
    requires 1 <= from <= |Lines(text)| && Follows(text, from, endLine, answers)
    ensures var shown := NumberedLines(Lines(text));
            && (endLine.None? || |shown| < endLine.value ==> Bodies(answers) == Body(shown, from, |shown|))
            && (endLine.Some? && from <= endLine.value <= |shown| ==> Bodies(answers) == Body(shown, from, endLine.value))
            && (endLine.Some? && endLine.value < from ==> Bodies(answers) == shown[from - 1])
    ensures |answers| <= |Lines(text)| - from + 1
  {
    PagesShow(text, from, endLine, answers);
    OneLineBody(NumberedLines(Lines(text)), from);
  }

  /** Following the named lines always comes to an end. */
  lemma PagingEnds(text: Text, from: nat, endLine: Option<nat>) returns (answers: seq<Outcome>)
    requires 1 <= from <= |Lines(text)|
    ensures Follows(text, from, endLine, answers)
  {
    answers := ChainEnds(NumberedLines(Lines(text)), from, Asked(from, endLine, |Lines(text)|));
    FollowsIsChain(text, from, endLine, answers);
  }
}
