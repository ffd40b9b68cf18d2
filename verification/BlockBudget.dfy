/**
 Assembling the result blocks, in priority order, into one answer of bounded size: full blocks as
 long as they fit, then short forms, then a footer and the search hint.
 */
module BlockBudget {
  import opened Wrappers
  import opened OutputBlocks
  import opened ReadBack
  import EmbeddingIdentity
  import GrepHint

  const MAX_TOOL_OUTPUT_CHARS: nat := 48000
  const MAX_FIRST_LINE_CHARS: nat := 120
  const FOOTER_CHARS: nat := 150
  const FOOTER_RESERVE: nat := FOOTER_CHARS + GrepHint.MAX_HINT_CHARS
  const EFFECTIVE_BUDGET: nat := MAX_TOOL_OUTPUT_CHARS - FOOTER_RESERVE
  const USIZE_END: nat := 0x1_0000_0000_0000_0000

  // ── The two forms of a block ──────────────────────────────────────────────

  predicate IsContinuation(b: bv8)
  {
    0x80 <= b < 0xC0
  }

  predicate IsCharBoundary(line: Text, end: nat)
  {
    end == 0 || end == |line| || (end < |line| && !IsContinuation(line[end]))
  }

  const ELLIPSIS: Text := [0xE2, 0x80, 0xA6]

  /** The last character boundary up to `end`. */
  function LastBoundary(line: Text, end: nat): (r: nat)
    ensures r <= end && IsCharBoundary(line, r)
    ensures forall k | r < k <= end :: !IsCharBoundary(line, k)
  {
    if IsCharBoundary(line, end) then end else LastBoundary(line, end - 1)
  }

  function Display(line: Text): (shown: Text)
    ensures |shown| <= MAX_FIRST_LINE_CHARS + 3
    ensures |line| <= MAX_FIRST_LINE_CHARS ==> shown == line
  {
    if |line| > MAX_FIRST_LINE_CHARS
    then line[..LastBoundary(line, MAX_FIRST_LINE_CHARS)] + ELLIPSIS
    else line
  }

  /** In UTF-8 no character has more than three continuation bytes, so the cut is never far off. */
  lemma {:induction false} CutNearTheCap(line: Text, end: nat)
    requires 3 < end < |line|
    requires forall k | 0 <= k < |line| - 3 ::
               !(IsContinuation(line[k]) && IsContinuation(line[k + 1]) && IsContinuation(line[k + 2]) && IsContinuation(line[k + 3]))
    ensures end - 3 <= LastBoundary(line, end)
  {
    var k := end - 3;
    assert IsCharBoundary(line, k) || IsCharBoundary(line, k + 1) || IsCharBoundary(line, k + 2) || IsCharBoundary(line, k + 3);
  }

  function FirstLine(content: Text): Text
  {
    if Lines(content) == [] then [] else Lines(content)[0]
  }

  function FullText(b: Block): (t: Text)
    ensures t != []
  {
    b.header + [NEWLINE] + b.content
  }

  function ElisionText(b: Block): string
  {
    var from, to := EmbeddingIdentity.Decimal(b.lineStart + 1), EmbeddingIdentity.Decimal(b.lineEnd);
    "... (L" + (from + "-" + (to + " elided, use Read)"))
  }

  function Elision(b: Block): Text
  {
    Ascii(ElisionText(b))
  }

  /** The marker names the lines after the first, to the last. */
  lemma ElisionNames(b: Block)
    ensures Numbers(ElisionText(b)) == [b.lineStart + 1, b.lineEnd]
  {
    TwoNumbers("... (L", b.lineStart + 1, "-", b.lineEnd, " elided, use Read)");
  }

  function ShortText(b: Block): (t: Text)
    ensures t != []
  {
    var head := b.header + [NEWLINE] + Display(FirstLine(b.content));
    if b.lineEnd > b.lineStart then head + [NEWLINE] + Elision(b) else head
  }

  lemma FirstLineHasNoNewline(content: Text)
    ensures NEWLINE !in FirstLine(content) && NEWLINE !in Display(FirstLine(content))
  {
    LinesHaveNoNewline(content);
  }

  lemma HeaderAndLine(header: Text, shown: Text)
    requires NEWLINE !in header && NEWLINE !in shown
    ensures Lines(header + [NEWLINE] + shown) == [WithoutReturn(header)] + if shown == [] then [] else [shown]
  {
    LastOf(shown);
    FirstOf(header, shown);
  }

  lemma HeaderLineAndMarker(header: Text, shown: Text, marker: Text)
    requires NEWLINE !in header && NEWLINE !in shown
    ensures Lines(header + [NEWLINE] + shown + [NEWLINE] + marker)
         == [WithoutReturn(header)] + ([WithoutReturn(shown)] + Lines(marker))
  {
    FirstOf(shown, marker);
    FirstOf(header, shown + [NEWLINE] + marker);
    assert header + [NEWLINE] + shown + [NEWLINE] + marker == header + [NEWLINE] + (shown + [NEWLINE] + marker);
  }

  /** The lines of a short form: the header, what is shown of the first line, and, exactly if the block
      has more lines than one, the marker. */
  lemma ShortReadsBack(b: Block, shown: Text)
    requires NEWLINE !in b.header
    requires shown == Display(if b.content == [] then [] else Lines(b.content)[0])
    ensures Lines(ShortText(b)) ==
            [WithoutReturn(b.header)] +
            if b.lineEnd > b.lineStart then [WithoutReturn(shown)] + Lines(Elision(b))
            else if shown == [] then [] else [shown]
  {
    FirstLineHasNoNewline(b.content);
    if b.lineEnd > b.lineStart {
      HeaderLineAndMarker(b.header, shown, Elision(b));
    } else {
      HeaderAndLine(b.header, shown);
    }
  }

  // What is shown of a line that is too long, in characters.

  predicate IsLead(b: bv8, n: nat)
  {
    match n
    case 1 => b < 0x80
    case 2 => 0xC0 <= b < 0xE0
    case 3 => 0xE0 <= b < 0xF0
    case 4 => 0xF0 <= b < 0xF8
    case _ => false
  }

  /** The bytes of one character in UTF-8. */
  predicate IsChar(c: Text)
  {
    c != [] && IsLead(c[0], |c|) && forall k | 1 <= k < |c| :: 0x80 <= c[k] < 0xC0
  }

  function Flat(chars: seq<Text>): Text
  {
    if chars == [] then [] else Flat(chars[..|chars| - 1]) + chars[|chars| - 1]
  }

  lemma {:induction false} FlatPrefix(chars: seq<Text>, k: nat)
    requires k <= |chars|
    ensures Flat(chars[..k]) <= Flat(chars)
  {
    if k < |chars| {
      FlatPrefix(chars[..|chars| - 1], k);
      assert chars[..|chars| - 1][..k] == chars[..k];
    } else {
      assert chars[..k] == chars;
    }
  }

  ghost predicate AllChars(chars: seq<Text>)
  {
    forall i | 0 <= i < |chars| :: IsChar(chars[i])
  }

  /** The boundaries of a text are where its characters begin or end. */
  lemma {:induction false} BoundaryIff(chars: seq<Text>, end: nat)
    requires AllChars(chars) && end <= |Flat(chars)|
    ensures IsCharBoundary(Flat(chars), end) <==> exists k :: 0 <= k <= |chars| && |Flat(chars[..k])| == end
  {
    var n := |chars| - 1;
    if chars == [] {
      assert Flat(chars[..0]) == [];
    } else {
      var front, last := Flat(chars[..n]), chars[n];
      assert IsChar(last) && Flat(chars) == front + last && chars[..n + 1] == chars;
      if end < |front| {
        BoundaryIff(chars[..n], end);
        ShorterBoundary(chars, n, end);
        assert Flat(chars)[end] == front[end];
      } else if end == |front| {
        assert Flat(chars)[end] == last[0];
        assert |Flat(chars[..n])| == end;
      } else if end < |Flat(chars)| {
        assert Flat(chars)[end] == last[end - |front|];
        forall k | 0 <= k <= |chars| ensures |Flat(chars[..k])| != end {
          if k <= n { FlatPrefix(chars[..n], k); assert chars[..n][..k] == chars[..k]; }
        }
      } else {
        assert |Flat(chars[..n + 1])| == end;
      }
    }
  }

  lemma ShorterBoundary(chars: seq<Text>, n: nat, end: nat)
    requires n + 1 == |chars| && end < |Flat(chars[..n])|
    ensures (exists k :: 0 <= k <= n && |Flat(chars[..n][..k])| == end)
       <==> exists k :: 0 <= k <= |chars| && |Flat(chars[..k])| == end
  {
    forall k | 0 <= k <= n ensures chars[..n][..k] == chars[..k] {}
    if k :| 0 <= k <= |chars| && |Flat(chars[..k])| == end {
      if k == |chars| {
        assert chars[..k] == chars;
        FlatPrefix(chars, n);
      } else {
        assert |Flat(chars[..n][..k])| == end;
      }
    }
    if k :| 0 <= k <= n && |Flat(chars[..n][..k])| == end {
      assert |Flat(chars[..k])| == end;
    }
  }

  lemma NextCharacter(chars: seq<Text>, k: nat)
    requires AllChars(chars) && k < |chars|
    ensures |Flat(chars[..k])| < |Flat(chars[..k + 1])| <= |Flat(chars)|
  {
    assert chars[..k + 1][..k] == chars[..k] && IsChar(chars[k]);
    FlatPrefix(chars, k + 1);
  }

  /** What is shown of a line that is too long ends with its last whole character within the cap. */
  lemma ShownToCharacter(chars: seq<Text>) returns (k: nat)
    requires AllChars(chars) && |Flat(chars)| > MAX_FIRST_LINE_CHARS
    ensures k < |chars| && Display(Flat(chars)) == Flat(chars[..k]) + ELLIPSIS
    ensures |Flat(chars[..k])| <= MAX_FIRST_LINE_CHARS < |Flat(chars[..k + 1])|
  {
    var line := Flat(chars);
    var end := LastBoundary(line, MAX_FIRST_LINE_CHARS);
    BoundaryIff(chars, end);
    k :| 0 <= k <= |chars| && |Flat(chars[..k])| == end;
    assert chars[..|chars|] == chars;
    FlatPrefix(chars, k);
    NextCharacter(chars, k);
    if |Flat(chars[..k + 1])| <= MAX_FIRST_LINE_CHARS {
      BoundaryIff(chars, |Flat(chars[..k + 1])|);
    }
  }

  method TruncateBlock(b: Block) returns (t: Text)
    ensures t == ShortText(b)
  {
    var lines := Lines(b.content);
    var line := if lines == [] then [] else lines[0];
    var shown := line;
    if |line| > MAX_FIRST_LINE_CHARS {
      var end := MAX_FIRST_LINE_CHARS;
      while !IsCharBoundary(line, end)
        invariant 0 <= end <= MAX_FIRST_LINE_CHARS
        invariant LastBoundary(line, end) == LastBoundary(line, MAX_FIRST_LINE_CHARS)
        decreases end
      {
        end := end - 1;
      }
      shown := line[..end] + ELLIPSIS;
    }
    t := b.header + [NEWLINE] + shown;
    if b.lineEnd > b.lineStart {
      t := t + [NEWLINE] + Elision(b);
    }
  }

  // ── Laying the blocks out ─────────────────────────────────────────────────

  datatype Form = Full | Short | Omitted

  /** The two texts of a block. */
  datatype Item = Item(full: Text, short: Text)

  function Items(blocks: seq<Block>): (items: seq<Item>)
    ensures |items| == |blocks|
  {
    seq(|blocks|, i requires 0 <= i < |blocks| => Item(FullText(blocks[i]), ShortText(blocks[i])))
  }

  function Joined(out: Text, more: Text): Text
  {
    if out == [] then more else out + [NEWLINE, NEWLINE] + more
  }

  function Extend(out: Text, item: Item, form: Form): Text
  {
    match form
    case Full => Joined(out, item.full)
    case Short => Joined(out, item.short)
    case Omitted => out
  }

  function FormFor(item: Item, out: Text, budgetExceeded: bool): Form
  {
    if !budgetExceeded && |Joined(out, item.full)| <= EFFECTIVE_BUDGET then Full
    else if |Joined(out, item.short)| <= EFFECTIVE_BUDGET then Short
    else Omitted
  }

  /** The text of the first blocks in the given forms. */
  function Output(items: seq<Item>, forms: seq<Form>): Text
    requires |forms| <= |items|
  {
    if forms == [] then []
    else
      var n := |forms| - 1;
      Extend(Output(items, forms[..n]), items[n], forms[n])
  }

  /** Whether form `i` is the right one, given the forms before it. */
  ghost predicate RightForm(items: seq<Item>, forms: seq<Form>, fulls: nat, i: nat)
    requires i < |forms| <= |items|
  {
    var before := Output(items, forms[..i]);
    var fullFits := |Joined(before, items[i].full)| <= EFFECTIVE_BUDGET;
    var shortFits := |Joined(before, items[i].short)| <= EFFECTIVE_BUDGET;
    && (i < fulls ==> forms[i] == Full && fullFits)
    && (i == fulls ==> !fullFits)
    && (i >= fulls ==> forms[i] == if shortFits then Short else Omitted)
  }

  /** Exactly the first `fulls` blocks are shown in full. The next one would not fit in full, and
      from there on a block is shown short if that fits and not at all otherwise. */
  ghost predicate Layout(items: seq<Item>, forms: seq<Form>, fulls: nat)
  {
    && fulls <= |forms| <= |items|
    && forall i | 0 <= i < |forms| :: RightForm(items, forms, fulls, i)
  }

  lemma LayoutGrows(items: seq<Item>, forms: seq<Form>, fulls: nat, form: Form, grown: nat)
    requires Layout(items, forms, fulls) && |forms| < |items|
    requires grown == fulls || (grown == fulls + 1 == |forms| + 1)
    requires RightForm(items, forms + [form], grown, |forms|)
    ensures Layout(items, forms + [form], grown)
  {
    var more := forms + [form];
    forall i | 0 <= i < |forms| ensures RightForm(items, more, grown, i) {
      assert more[..i] == forms[..i];
      assert RightForm(items, forms, fulls, i);
    }
  }

  /** Choosing the form of the next block keeps the layout right. */
  lemma NextForm(items: seq<Item>, forms: seq<Form>, fulls: nat)
    requires Layout(items, forms, fulls) && |forms| < |items|
    ensures var item, out := items[|forms|], Output(items, forms);
            var form := FormFor(item, out, fulls < |forms|);
            && Layout(items, forms + [form], if form == Full then fulls + 1 else fulls)
            && Output(items, forms + [form]) == Extend(out, item, form)
  {
    var form := FormFor(items[|forms|], Output(items, forms), fulls < |forms|);
    assert (forms + [form])[..|forms|] == forms;
    LayoutGrows(items, forms, fulls, form, if form == Full then fulls + 1 else fulls);
  }

  function Pow10(k: nat): (r: nat)
    ensures r >= 1
  {
    if k == 0 then 1 else 10 * Pow10(k - 1)
  }

  lemma {:induction false} DecimalLength(n: nat, k: nat)
    requires 1 <= k && n < Pow10(k)
    ensures |EmbeddingIdentity.Decimal(n)| <= k
  {
    if n >= 10 { DecimalLength(n / 10, k - 1); }
  }

  lemma CountsLength(truncated: nat, total: nat)
    requires truncated <= total < USIZE_END
    ensures |EmbeddingIdentity.Decimal(truncated)| <= 20 && |EmbeddingIdentity.Decimal(total)| <= 20
  {
    assert Pow10(5) == 1_00000;
    assert Pow10(10) == 1_00000_00000;
    assert Pow10(15) == 1_00000_00000_00000;
    assert Pow10(20) == 1_00000_00000_00000_00000;
    DecimalLength(truncated, 20);
    DecimalLength(total, 20);
  }

  const FOOTER_MIDDLE: string := " results truncated to fit output size limit;"
  const FOOTER_END: string := " use the Read tool" + " with the line ranges above."

  function FooterText(truncated: nat, total: nat): string
  {
    var few, all := EmbeddingIdentity.Decimal(truncated), EmbeddingIdentity.Decimal(total);
    "\n\n---\n" + (few + " of " + (all + (FOOTER_MIDDLE + FOOTER_END)))
  }

  /** It fits its reserve for any 64-bit counts. */
  function Footer(truncated: nat, total: nat): (t: Text)
    ensures truncated <= total < USIZE_END ==> |t| <= FOOTER_CHARS
  {
    assert truncated <= total < USIZE_END ==> |FooterText(truncated, total)| <= FOOTER_CHARS by {
      if truncated <= total < USIZE_END { CountsLength(truncated, total); }
    }
    Ascii(FooterText(truncated, total))
  }

  lemma FooterMiddleWords()
    ensures NoDigits(FOOTER_MIDDLE)
  {}

  lemma FooterEndWords()
    ensures NoDigits(FOOTER_END)
  {
    assert NoDigits(" use the Read tool") && NoDigits(" with the line ranges above.");
  }

  /** The footer names the two counts. */
  lemma FooterNames(truncated: nat, total: nat)
    ensures Numbers(FooterText(truncated, total)) == [truncated, total]
  {
    FooterMiddleWords();
    FooterEndWords();
    TwoNumbers("\n\n---\n", truncated, " of ", total, FOOTER_MIDDLE + FOOTER_END);
  }

  function FooterOf(truncated: nat, total: nat): (t: Text)
    ensures truncated <= total < USIZE_END ==> |t| <= FOOTER_CHARS
  {
    if truncated > 0 then Footer(truncated, total) else []
  }

  /** One block: in full while everything so far is, else short, else not at all. */
  method PlaceBlock(block: Block, ghost item: Item, out: Text, budgetExceeded: bool) returns (out': Text, form: Form)
    requires item == Item(FullText(block), ShortText(block))
    ensures form == FormFor(item, out, budgetExceeded) && out' == Extend(out, item, form)
  {
    if !budgetExceeded {
      var candidate := Joined(out, FullText(block));
      if |candidate| <= EFFECTIVE_BUDGET {
        return candidate, Full;
      }
    }
    var text := TruncateBlock(block);
    var candidate := Joined(out, text);
    if |candidate| <= EFFECTIVE_BUDGET {
      return candidate, Short;
    }
    return out, Omitted;
  }

  /** The blocks in the given forms, and a footer that counts those not shown in full. */
  ghost predicate AssembledAs(items: seq<Item>, forms: seq<Form>, fulls: nat, out: Text)
  {
    && |forms| == |items| && Layout(items, forms, fulls)
    && out == Output(items, forms) + FooterOf(|items| - fulls, |items|)
  }

  /** `out` is what the blocks are assembled into. */
  ghost predicate IsAssembly(items: seq<Item>, out: Text)
  {
    exists forms, fulls :: AssembledAs(items, forms, fulls, out)
  }

  /** The loop over the blocks, and how many it did not show in full. */
  method LayOut(blocks: seq<Block>) returns (out: Text, truncated: nat, ghost forms: seq<Form>, ghost fulls: nat)
    ensures |forms| == |blocks| && Layout(Items(blocks), forms, fulls) && truncated == |blocks| - fulls
    ensures out == Output(Items(blocks), forms)
  {
    out, forms, fulls := [], [], 0;
    truncated := 0;
    var budgetExceeded := false;
    ghost var items := Items(blocks);
    for i := 0 to |blocks|
      invariant |forms| == i && Layout(items, forms, fulls)
      invariant out == Output(items, forms)
      invariant truncated == i - fulls && budgetExceeded == (fulls < i)
    {
      NextForm(items, forms, fulls);
      var form;
      out, form := PlaceBlock(blocks[i], items[i], out, budgetExceeded);
      forms := forms + [form];
      if form == Full {
        fulls := fulls + 1;
      } else {
        budgetExceeded, truncated := true, truncated + 1;
      }
    }
  }

  method AssembleWithBudget(blocks: seq<Block>) returns (out: Text)
    ensures IsAssembly(Items(blocks), out)
  {
    var truncated; ghost var forms, fulls;
    out, truncated, forms, fulls := LayOut(blocks);
    if truncated > 0 {
      out := out + Footer(truncated, |blocks|);
    }
    assert AssembledAs(Items(blocks), forms, fulls, out);
  }

  /** The rule leaves no choice: there is one layout. */
  lemma {:induction false} LayoutUnique(items: seq<Item>, forms: seq<Form>, fulls: nat, forms': seq<Form>, fulls': nat)
    requires Layout(items, forms, fulls) && Layout(items, forms', fulls') && |forms| == |forms'|
    ensures forms == forms' && fulls == fulls'
  {
    if forms != [] {
      var n := |forms| - 1;
      LayoutPrefix(items, forms, fulls, n);
      LayoutPrefix(items, forms', fulls', n);
      LayoutUnique(items, forms[..n], Least(fulls, n), forms'[..n], Least(fulls', n));
      SameLast(items, forms, fulls, forms', fulls', n);
      assert forms == forms[..n] + [forms[n]] && forms' == forms'[..n] + [forms'[n]];
    }
  }

  lemma SameLast(items: seq<Item>, forms: seq<Form>, fulls: nat, forms': seq<Form>, fulls': nat, n: nat)
    requires n + 1 == |forms| == |forms'| <= |items| && fulls <= n + 1 && fulls' <= n + 1
    requires forms[..n] == forms'[..n] && Least(fulls, n) == Least(fulls', n)
    requires RightForm(items, forms, fulls, n) && RightForm(items, forms', fulls', n)
    ensures forms[n] == forms'[n] && fulls == fulls'
  {}

  function Least(a: nat, b: nat): nat
  {
    if a <= b then a else b
  }

  lemma LayoutPrefix(items: seq<Item>, forms: seq<Form>, fulls: nat, n: nat)
    requires Layout(items, forms, fulls) && n <= |forms|
    ensures Layout(items, forms[..n], Least(fulls, n))
  {
    var shorter, fewer := forms[..n], Least(fulls, n);
    forall i | 0 <= i < n ensures RightForm(items, shorter, fewer, i) {
      assert shorter[..i] == forms[..i];
      assert RightForm(items, forms, fulls, i);
    }
  }

  /** Every block shown stays within the budget left by the reserve. */
  lemma {:induction false} OutputFits(items: seq<Item>, forms: seq<Form>, fulls: nat)
    requires Layout(items, forms, fulls)
    ensures |Output(items, forms)| <= EFFECTIVE_BUDGET
  {
    if forms != [] {
      var n := |forms| - 1;
      LayoutPrefix(items, forms, fulls, n);
      OutputFits(items, forms[..n], Least(fulls, n));
      assert RightForm(items, forms, fulls, n);
    }
  }

  function AllFull(k: nat): (r: seq<Form>)
    ensures |r| == k
  {
    seq(k, _ => Full)
  }

  lemma {:induction false} FullOutputGrows(items: seq<Item>, j: nat, k: nat)
    requires j <= k <= |items|
    ensures |Output(items, AllFull(j))| <= |Output(items, AllFull(k))|
  {
    if j < k {
      FullOutputGrows(items, j, k - 1);
      assert AllFull(k)[..k - 1] == AllFull(k - 1);
    }
  }

  /** The blocks shown in full are as many as fit, counted from the front. */
  lemma FullsAreAsManyAsFit(items: seq<Item>, forms: seq<Form>, fulls: nat, k: nat)
    requires Layout(items, forms, fulls) && |forms| == |items| && k <= |items|
    ensures k <= fulls <==> |Output(items, AllFull(k))| <= EFFECTIVE_BUDGET
  {
    forall i | 0 <= i < fulls ensures forms[i] == Full {
      assert RightForm(items, forms, fulls, i);
    }
    assert forms[..fulls] == AllFull(fulls);
    if k <= fulls {
      LayoutPrefix(items, forms, fulls, fulls);
      OutputFits(items, forms[..fulls], fulls);
      FullOutputGrows(items, k, fulls);
    } else {
      assert RightForm(items, forms, fulls, fulls);
      assert AllFull(fulls + 1)[..fulls] == forms[..fulls];
      FullOutputGrows(items, fulls + 1, k);
    }
  }

  /** Every block shown, the first `fulls` of them in full. */
  function FullThenShort(fulls: nat, n: nat): (r: seq<Form>)
    ensures |r| == n
  {
    seq(n, i => if i < fulls then Full else Short)
  }

  lemma {:induction false} LongerOutput(items: seq<Item>, forms: seq<Form>, j: nat)
    requires j <= |forms| <= |items|
    ensures |Output(items, forms[..j])| <= |Output(items, forms)|
  {
    if j < |forms| {
      var n := |forms| - 1;
      LongerOutput(items, forms[..n], j);
      assert forms[..n][..j] == forms[..j];
    } else {
      assert forms[..j] == forms;
    }
  }

  /** While every block fits in short form, none is left out. */
  lemma {:induction false} ShortsFollow(items: seq<Item>, forms: seq<Form>, fulls: nat, n: nat)
    requires Layout(items, forms, fulls) && |forms| == |items| && fulls <= n <= |items|
    requires |Output(items, FullThenShort(fulls, |items|))| <= EFFECTIVE_BUDGET
    ensures forms[..n] == FullThenShort(fulls, n)
  {
    if n == fulls {
      forall i | 0 <= i < fulls ensures forms[i] == Full {
        assert RightForm(items, forms, fulls, i);
      }
    } else {
      ShortsFollow(items, forms, fulls, n - 1);
      LongerOutput(items, FullThenShort(fulls, |items|), n);
      ShortNext(items, forms, fulls, n - 1);
      assert forms[..n] == forms[..n - 1] + [forms[n - 1]];
    }
  }

  lemma ShortNext(items: seq<Item>, forms: seq<Form>, fulls: nat, i: nat)
    requires Layout(items, forms, fulls) && fulls <= i < |forms| == |items|
    requires forms[..i] == FullThenShort(fulls, i)
    requires |Output(items, FullThenShort(fulls, |items|)[..i + 1])| <= EFFECTIVE_BUDGET
    ensures forms[i] == Short
  {
    assert RightForm(items, forms, fulls, i);
    assert FullThenShort(fulls, |items|)[..i + 1] == forms[..i] + [Short];
    assert (forms[..i] + [Short])[..i] == forms[..i];
  }

  lemma NoneOmittedIfFits(items: seq<Item>, forms: seq<Form>, fulls: nat)
    requires Layout(items, forms, fulls) && |forms| == |items|
    requires |Output(items, FullThenShort(fulls, |items|))| <= EFFECTIVE_BUDGET
    ensures Omitted !in forms
  {
    ShortsFollow(items, forms, fulls, |items|);
    assert forms[..|items|] == forms;
  }

  /** Every block is shown, in full or short, exactly if the answer with the rest in short form fits. */
  lemma NoneOmittedIff(items: seq<Item>, forms: seq<Form>, fulls: nat)
    requires Layout(items, forms, fulls) && |forms| == |items|
    ensures Omitted !in forms <==> |Output(items, FullThenShort(fulls, |items|))| <= EFFECTIVE_BUDGET
  {
    if |Output(items, FullThenShort(fulls, |items|))| <= EFFECTIVE_BUDGET {
      NoneOmittedIfFits(items, forms, fulls);
    }
    if Omitted !in forms {
      forall i | 0 <= i < |forms| ensures forms[i] == FullThenShort(fulls, |items|)[i] {
        assert RightForm(items, forms, fulls, i) && forms[i] in forms;
      }
      assert forms == FullThenShort(fulls, |items|);
      OutputFits(items, forms, fulls);
    }
  }

  /** A block is left out: one that fills the budget to the last byte, and an empty one after it. */
  lemma OmittedBlock() returns (blocks: seq<Block>)
    ensures Layout(Items(blocks), [Full, Omitted], 1)
  {
    var first := Block([], seq(EFFECTIVE_BUDGET - 1, _ => 0), "", 0, 0, None, None, [], None, [], []);
    var second := Block([], [], "", 0, 0, None, None, [], None, [], []);
    blocks := [first, second];
    var items := Items(blocks);
    assert |items[0].full| == EFFECTIVE_BUDGET;
    assert [Full, Omitted][..0] == [] && [Full, Omitted][..1] == [Full] && [Full][..0] == [];
    assert Output(items, [Full]) == items[0].full;
    assert RightForm(items, [Full, Omitted], 1, 0) && RightForm(items, [Full, Omitted], 1, 1);
  }

  // ── What an answer consists of ────────────────────────────────────────────

  /** The texts shown, in order. */
  function Parts(items: seq<Item>, forms: seq<Form>): seq<Text>
    requires |forms| <= |items|
  {
    if forms == [] then []
    else
      ShownAs(items[0], forms[0]) + Parts(items[1..], forms[1..])
  }

  function ShownAs(item: Item, form: Form): seq<Text>
  {
    match form
    case Full => [item.full]
    case Short => [item.short]
    case Omitted => []
  }

  /** One text after the other, with an empty line in between. */
  function WithGaps(parts: seq<Text>): Text
  {
    if parts == [] then []
    else if |parts| == 1 then parts[0]
    else parts[0] + [NEWLINE, NEWLINE] + WithGaps(parts[1..])
  }

  lemma {:induction false} PartsLast(items: seq<Item>, forms: seq<Form>)
    requires 0 < |forms| <= |items|
    ensures var n := |forms| - 1;
            Parts(items, forms) == Parts(items, forms[..n]) + ShownAs(items[n], forms[n])
  {
    var n := |forms| - 1;
    if n > 0 {
      PartsLast(items[1..], forms[1..]);
      assert forms[1..][..n - 1] == forms[..n][1..];
    } else {
      assert forms[1..] == [] && forms[..0] == [];
    }
  }

  lemma {:induction false} GapsLast(parts: seq<Text>, part: Text)
    requires part != [] && forall i | 0 <= i < |parts| :: parts[i] != []
    ensures WithGaps(parts + [part]) == Joined(WithGaps(parts), part)
    ensures parts != [] ==> WithGaps(parts) != []
  {
    if parts != [] {
      assert (parts + [part])[1..] == parts[1..] + [part];
      GapsLast(parts[1..], part);
      if |parts| == 1 {
        assert parts[1..] == [];
      }
    }
  }

  ghost predicate NoneEmpty(items: seq<Item>)
  {
    forall i | 0 <= i < |items| :: items[i].full != [] && items[i].short != []
  }

  lemma {:induction false} OutputIsGapped(items: seq<Item>, forms: seq<Form>)
    requires NoneEmpty(items) && |forms| <= |items|
    ensures Output(items, forms) == WithGaps(Parts(items, forms))
    ensures forall i | 0 <= i < |Parts(items, forms)| :: Parts(items, forms)[i] != []
  {
    if forms != [] {
      var n := |forms| - 1;
      OutputIsGapped(items, forms[..n]);
      PartsLast(items, forms);
      var before := Parts(items, forms[..n]);
      match forms[n]
      case Full =>
        GapsLast(before, items[n].full);
        assert Parts(items, forms) == before + [items[n].full];
      case Short =>
        GapsLast(before, items[n].short);
        assert Parts(items, forms) == before + [items[n].short];
      case Omitted =>
        assert Parts(items, forms) == before;
    }
  }

  lemma FullIff(items: seq<Item>, forms: seq<Form>, fulls: nat)
    requires Layout(items, forms, fulls) && |forms| == |items|
    ensures (forall i | 0 <= i < |forms| :: forms[i] == Full) <==> fulls == |items|
  {
    forall i | 0 <= i < |forms| ensures forms[i] == Full <==> i < fulls {
      assert RightForm(items, forms, fulls, i);
    }
    assert fulls < |forms| ==> forms[fulls] != Full;
  }

  /** An assembly: the texts shown with empty lines in between, and exactly if some block is not shown in
      full a footer (which names how many are not and how many there are, see `FooterNames`). */
  lemma AssemblyConsistsOf(items: seq<Item>, forms: seq<Form>, fulls: nat, out: Text)
    requires NoneEmpty(items) && AssembledAs(items, forms, fulls, out)
    ensures var shown := WithGaps(Parts(items, forms));
            out == if forall i | 0 <= i < |forms| :: forms[i] == Full then shown
                   else shown + Ascii(FooterText(|items| - fulls, |items|))
  {
    OutputIsGapped(items, forms);
    FullIff(items, forms, fulls);
  }

  // ── The whole answer ──────────────────────────────────────────────────────

  function HintOf(names: seq<string>): Text
  {
    if names == [] then [] else Ascii(GrepHint.RenderHint(GrepHint.Pattern(names)))
  }

  lemma AssembledFits(items: seq<Item>, forms: seq<Form>, fulls: nat, out: Text)
    requires |items| < USIZE_END && AssembledAs(items, forms, fulls, out)
    ensures |out| <= MAX_TOOL_OUTPUT_CHARS - GrepHint.MAX_HINT_CHARS
  {
    OutputFits(items, forms, fulls);
  }

  /** What is assembled leaves room for the hint. */
  lemma AssemblyFits(items: seq<Item>, out: Text)
    requires |items| < USIZE_END && IsAssembly(items, out)
    ensures |out| <= MAX_TOOL_OUTPUT_CHARS - GrepHint.MAX_HINT_CHARS
  {
    var forms, fulls :| AssembledAs(items, forms, fulls, out);
    AssembledFits(items, forms, fulls, out);
  }

  lemma SameLayout(items: seq<Item>, forms: seq<Form>, fulls: nat, a: Text, forms': seq<Form>, fulls': nat, b: Text)
    requires AssembledAs(items, forms, fulls, a) && AssembledAs(items, forms', fulls', b)
    ensures forms == forms' && fulls == fulls'
  {
    LayoutUnique(items, forms, fulls, forms', fulls');
  }

  lemma SameAssembly(items: seq<Item>, forms: seq<Form>, fulls: nat, a: Text, b: Text)
    requires AssembledAs(items, forms, fulls, a) && AssembledAs(items, forms, fulls, b)
    ensures a == b
  {}

  /** There is one assembly of a block list. */
  lemma AssemblyUnique(items: seq<Item>, a: Text, b: Text)
    requires IsAssembly(items, a) && IsAssembly(items, b)
    ensures a == b
  {
    var forms, fulls :| AssembledAs(items, forms, fulls, a);
    var forms', fulls' :| AssembledAs(items, forms', fulls', b);
    SameLayout(items, forms, fulls, a, forms', fulls', b);
    SameAssembly(items, forms, fulls, a, b);
  }

  /** The assembled blocks, then the hint for the symbols they carry. */
  ghost predicate HasParts(blocks: seq<Block>, answer: Text, assembled: Text, names: seq<string>)
  {
    && IsAssembly(Items(blocks), assembled)
    && GrepHint.LongestFitting(GrepHint.Usable(GrepHint.Candidates(blocks)), names)
    && answer == assembled + HintOf(names)
  }

  ghost predicate IsAnswer(blocks: seq<Block>, answer: Text)
  {
    exists assembled, names :: HasParts(blocks, answer, assembled, names)
  }

  /** An answer: the assembled blocks, and exactly if some symbol or callee of the blocks can be searched
      for, the hint for the longest fitting list of them. */
  lemma AnswerConsistsOf(blocks: seq<Block>, answer: Text, assembled: Text, names: seq<string>)
    requires HasParts(blocks, answer, assembled, names)
    ensures IsAssembly(Items(blocks), assembled)
    ensures (forall c | c in GrepHint.Candidates(blocks) :: !GrepHint.IsGreppable(c)) ==> answer == assembled
    ensures (exists c :: c in GrepHint.Candidates(blocks) && GrepHint.IsGreppable(c)) ==>
              && names != [] && GrepHint.LongestFitting(GrepHint.Usable(GrepHint.Candidates(blocks)), names)
              && answer == assembled + Ascii(GrepHint.RenderHint(GrepHint.Pattern(names)))
  {
    GrepHint.FirstNameFits(GrepHint.Candidates(blocks), names);
  }

  /** The answer never exceeds the output limit, whatever the blocks are. */
  method AssembleWithHint(blocks: seq<Block>) returns (answer: Text)
    requires |blocks| < USIZE_END
    ensures IsAnswer(blocks, answer)
    ensures |answer| <= MAX_TOOL_OUTPUT_CHARS
  {
    var hint; ghost var names;
    answer := AssembleWithBudget(blocks);
    AssemblyFits(Items(blocks), answer);
    ghost var assembled := answer;
    hint, names := GrepHint.BuildGrepHint(blocks);
    if hint.Some? {
      answer := answer + Ascii(hint.value);
    }
    assert HasParts(blocks, answer, assembled, names);
  }
}
