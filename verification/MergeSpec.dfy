/** What merging overlapping or touching blocks of one file has to achieve, and the steps it takes. */
module MergeSpec {
  import opened Wrappers
  import opened OutputBlocks

  const U32_MAX: nat := 0xFFFF_FFFF

  /** File access and formatting, which are not part of this model. */
  datatype Renderer = Renderer(
    reread: (string, nat, nat) -> Option<Text>,
    fallback: seq<Text> -> Text,
    header: Block -> Text)

  /** A block with the position that decides where it goes in the output. */
  datatype Entry = Entry(pos: nat, block: Block)

  ghost predicate WellFormed(blocks: seq<Block>)
  {
    forall i | 0 <= i < |blocks| :: blocks[i].lineStart <= blocks[i].lineEnd < U32_MAX
  }

  // ── What one merged block is ──────────────────────────────────────────────

  ghost predicate Covers(b: Block, n: nat)
  {
    b.lineStart <= n <= b.lineEnd
  }

  ghost predicate SomeCovers(blocks: seq<Block>, members: set<nat>, n: nat)
  {
    exists i :: i in members && i < |blocks| && Covers(blocks[i], n)
  }

  /** The caller data comes whole from one member that has the largest count. */
  ghost predicate CallersFrom(blocks: seq<Block>, members: set<nat>, b: Block, i: nat)
  {
    && i in members && i < |blocks|
    && b.callers == blocks[i].callers && b.callerFiles == blocks[i].callerFiles
    && b.callerNames == blocks[i].callerNames
    && forall j | j in members && j < |blocks| :: CountOr0(blocks[j].callers) <= CountOr0(b.callers)
  }

  ghost predicate CalleesFrom(blocks: seq<Block>, members: set<nat>, b: Block, i: nat)
  {
    && i in members && i < |blocks|
    && b.callees == blocks[i].callees && b.calleeNames == blocks[i].calleeNames
    && forall j | j in members && j < |blocks| :: CountOr0(blocks[j].callees) <= CountOr0(b.callees)
  }

  ghost predicate HasSymbol(blocks: seq<Block>, members: set<nat>, name: string)
  {
    exists i :: i in members && i < |blocks| && name in blocks[i].symbols
  }

  /** `e` is the merge of exactly the given members. */
  ghost predicate MergeOf(blocks: seq<Block>, members: set<nat>, e: Entry)
  {
    && (forall i | i in members :: i < |blocks| && blocks[i].file == e.block.file)
    && e.pos in members && (forall i | i in members :: e.pos <= i)
    && (forall n :: Covers(e.block, n) <==> SomeCovers(blocks, members, n))
    && (exists i :: CallersFrom(blocks, members, e.block, i))
    && (exists i :: CalleesFrom(blocks, members, e.block, i))
    && (forall name :: name in e.block.symbols <==> HasSymbol(blocks, members, name))
    && e.block.lineStart <= e.block.lineEnd < U32_MAX
  }

  /** Disjoint and not even adjacent. */
  ghost predicate Apart(a: Block, b: Block)
  {
    a.file != b.file || a.lineEnd + 1 < b.lineStart || b.lineEnd + 1 < a.lineStart
  }

  lemma SingleMerge(blocks: seq<Block>, i: nat)
    requires WellFormed(blocks) && i < |blocks|
    ensures MergeOf(blocks, {i}, Entry(i, blocks[i]))
  {
    var b := blocks[i];
    assert CallersFrom(blocks, {i}, b, i);
    assert CalleesFrom(blocks, {i}, b, i);
    forall n ensures Covers(b, n) <==> SomeCovers(blocks, {i}, n) {
      if Covers(b, n) { assert i in {i} && Covers(blocks[i], n); }
    }
    forall name ensures name in b.symbols <==> HasSymbol(blocks, {i}, name) {
      if name in b.symbols { assert i in {i} && name in blocks[i].symbols; }
    }
  }

  /** Absorb `next` into `current`. */
  function Absorb(current: Entry, orig: nat, next: Block): Entry
  {
    var c := current.block;
    var ranged := c.(lineEnd := if next.lineEnd > c.lineEnd then next.lineEnd else c.lineEnd,
                     symbols := c.symbols + next.symbols);
    var called := if CountOr0(next.callers) > CountOr0(c.callers)
                  then ranged.(callers := next.callers, callerFiles := next.callerFiles, callerNames := next.callerNames)
                  else ranged;
    var calling := if CountOr0(next.callees) > CountOr0(c.callees)
                   then called.(callees := next.callees, calleeNames := next.calleeNames)
                   else called;
    Entry(if orig < current.pos then orig else current.pos, calling)
  }

  lemma AbsorbMerges(blocks: seq<Block>, members: set<nat>, e: Entry, i: nat)
    requires WellFormed(blocks) && MergeOf(blocks, members, e)
    requires i < |blocks| && blocks[i].file == e.block.file
    requires e.block.lineStart <= blocks[i].lineStart <= e.block.lineEnd + 1
    ensures MergeOf(blocks, members + {i}, Absorb(e, i, blocks[i]))
  {
    var all := members + {i};
    var r := Absorb(e, i, blocks[i]);
    forall n ensures Covers(r.block, n) <==> SomeCovers(blocks, all, n) {
      if Covers(e.block, n) {
        var m :| m in members && m < |blocks| && Covers(blocks[m], n);
        assert m in all && Covers(blocks[m], n);
      } else if Covers(blocks[i], n) {
        assert i in all && Covers(blocks[i], n);
      }
      if SomeCovers(blocks, all, n) {
        var m :| m in all && m < |blocks| && Covers(blocks[m], n);
        if m in members { assert SomeCovers(blocks, members, n); }
      }
    }
    AbsorbSymbols(blocks, members, e, i);
    AbsorbCounts(blocks, members, e, i);
  }

  lemma AbsorbSymbols(blocks: seq<Block>, members: set<nat>, e: Entry, i: nat)
    requires i < |blocks|
    requires forall name :: name in e.block.symbols <==> HasSymbol(blocks, members, name)
    ensures forall name :: name in Absorb(e, i, blocks[i]).block.symbols <==> HasSymbol(blocks, members + {i}, name)
  {
    var all := members + {i};
    forall name ensures name in e.block.symbols + blocks[i].symbols <==> HasSymbol(blocks, all, name) {
      if name in e.block.symbols {
        var m :| m in members && m < |blocks| && name in blocks[m].symbols;
        assert m in all && name in blocks[m].symbols;
      } else if name in blocks[i].symbols {
        assert i in all && name in blocks[i].symbols;
      }
      if HasSymbol(blocks, all, name) {
        var m :| m in all && m < |blocks| && name in blocks[m].symbols;
        if m in members { assert HasSymbol(blocks, members, name); }
      }
    }
  }

  lemma AbsorbCounts(blocks: seq<Block>, members: set<nat>, e: Entry, i: nat)
    requires i < |blocks|
    requires exists m :: CallersFrom(blocks, members, e.block, m)
    requires exists m :: CalleesFrom(blocks, members, e.block, m)
    ensures exists m :: CallersFrom(blocks, members + {i}, Absorb(e, i, blocks[i]).block, m)
    ensures exists m :: CalleesFrom(blocks, members + {i}, Absorb(e, i, blocks[i]).block, m)
  {
    var all := members + {i};
    var r := Absorb(e, i, blocks[i]).block;
    var m :| CallersFrom(blocks, members, e.block, m);
    assert CallersFrom(blocks, all, r, if CountOr0(blocks[i].callers) > CountOr0(e.block.callers) then i else m);
    var k :| CalleesFrom(blocks, members, e.block, k);
    assert CalleesFrom(blocks, all, r, if CountOr0(blocks[i].callees) > CountOr0(e.block.callees) then i else k);
  }

  // ── Lists of merged blocks ────────────────────────────────────────────────

  /** The member sets account for `done`, each index once. */
  ghost predicate Partition(done: set<nat>, members: seq<set<nat>>)
  {
    && (forall k | 0 <= k < |members| :: members[k] <= done)
    && (forall i | i in done :: exists k :: 0 <= k < |members| && i in members[k])
    && (forall k, l, i | 0 <= k < |members| && 0 <= l < |members| && i in members[k] && i in members[l] :: k == l)
  }

  ghost predicate AllMerge(blocks: seq<Block>, members: seq<set<nat>>, entries: seq<Entry>)
  {
    |entries| == |members| && forall k | 0 <= k < |entries| :: MergeOf(blocks, members[k], entries[k])
  }

  lemma PartitionAppend(done: set<nat>, members: seq<set<nat>>, more: set<nat>)
    requires Partition(done, members) && more !! done
    ensures Partition(done + more, members + [more])
  {
    var all := members + [more];
    forall i | i in done + more ensures exists k :: 0 <= k < |all| && i in all[k] {
      if i in more {
        assert i in all[|members|];
      } else {
        var k :| 0 <= k < |members| && i in members[k];
        assert i in all[k];
      }
    }
  }

  lemma PartitionAbsorb(done: set<nat>, members: seq<set<nat>>, i: nat)
    requires Partition(done, members) && members != [] && i !in done
    ensures var last := |members| - 1;
            Partition(done + {i}, members[last := members[last] + {i}])
  {
    var last := |members| - 1;
    var all := members[last := members[last] + {i}];
    forall j | j in done + {i} ensures exists k :: 0 <= k < |all| && j in all[k] {
      if j == i {
        assert j in all[last];
      } else {
        var k :| 0 <= k < |members| && j in members[k];
        assert j in all[k];
      }
    }
  }

  function Indices(group: seq<nat>): set<nat>
  {
    set i | i in group
  }

  ghost predicate SortedByStart(blocks: seq<Block>, group: seq<nat>)
  {
    && (forall p | 0 <= p < |group| :: group[p] < |blocks|)
    && (forall p, q | 0 <= p < q < |group| ::
          group[p] != group[q] && blocks[group[p]].lineStart <= blocks[group[q]].lineStart)
  }

  /** Content so far: one text per member, and a block with one member is still that member. */
  ghost predicate Gathered(blocks: seq<Block>, members: seq<set<nat>>, entries: seq<Entry>, originals: seq<seq<Text>>)
  {
    && |originals| == |entries| == |members|
    && forall k | 0 <= k < |entries| ::
         && |originals[k]| == |members[k]| >= 1
         && (|originals[k]| == 1 ==> entries[k].pos < |blocks| && entries[k].block == blocks[entries[k].pos])
  }

  /** One file's blocks, left to right with a gap between neighbours. */
  ghost predicate Spaced(entries: seq<Entry>, file: string)
  {
    && (forall k | 0 <= k < |entries| :: entries[k].block.file == file)
    && (forall k, l | 0 <= k < l < |entries| :: entries[k].block.lineEnd + 1 < entries[l].block.lineStart)
  }

  /** Each entry stands at the place of a member and has lines. */
  ghost predicate Anchored(members: seq<set<nat>>, entries: seq<Entry>)
  {
    && |members| == |entries|
    && forall k | 0 <= k < |entries| ::
         entries[k].pos in members[k] && entries[k].block.lineStart <= entries[k].block.lineEnd
  }

  lemma AnchoredAbsorb(members: seq<set<nat>>, entries: seq<Entry>, i: nat, next: Block)
    requires Anchored(members, entries) && entries != []
    ensures var last := |entries| - 1;
            Anchored(members[last := members[last] + {i}], entries[last := Absorb(entries[last], i, next)])
  {}

  lemma AnchoredAppend(members: seq<set<nat>>, entries: seq<Entry>, i: nat, next: Block)
    requires Anchored(members, entries) && next.lineStart <= next.lineEnd
    ensures Anchored(members + [{i}], entries + [Entry(i, next)])
  {}

  /** Everything about the pass so far except what each entry is the merge of. */
  ghost predicate Shape(blocks: seq<Block>, file: string, done: set<nat>, s: MergeState)
  {
    && Partition(done, s.members) && Spaced(s.entries, file)
    && Gathered(blocks, s.members, s.entries, s.originals)
    && Anchored(s.members, s.entries)
  }

  lemma AllMergeSet(blocks: seq<Block>, members: seq<set<nat>>, entries: seq<Entry>, k: nat, m: set<nat>, e: Entry)
    requires AllMerge(blocks, members, entries) && k < |entries| && MergeOf(blocks, m, e)
    ensures AllMerge(blocks, members[k := m], entries[k := e])
  {}

  lemma AllMergeAdd(blocks: seq<Block>, members: seq<set<nat>>, entries: seq<Entry>, m: set<nat>, e: Entry)
    requires AllMerge(blocks, members, entries) && MergeOf(blocks, m, e)
    ensures AllMerge(blocks, members + [m], entries + [e])
  {}

  lemma SpacedAbsorb(entries: seq<Entry>, file: string, orig: nat, next: Block)
    requires Spaced(entries, file) && entries != []
    ensures var last := |entries| - 1; Spaced(entries[last := Absorb(entries[last], orig, next)], file)
  {}

  lemma SpacedAppend(entries: seq<Entry>, file: string, e: Entry)
    requires Spaced(entries, file) && e.block.file == file
    requires forall k | 0 <= k < |entries| :: entries[k].block.lineStart <= entries[k].block.lineEnd
    requires entries != [] ==> entries[|entries| - 1].block.lineEnd + 1 < e.block.lineStart
    ensures Spaced(entries + [e], file)
  {}

  lemma GatheredAbsorb(blocks: seq<Block>, members: seq<set<nat>>, entries: seq<Entry>, originals: seq<seq<Text>>,
                       i: nat, next: Block)
    requires Gathered(blocks, members, entries, originals) && entries != []
    requires i !in members[|members| - 1]
    ensures var last := |entries| - 1;
            Gathered(blocks, members[last := members[last] + {i}],
                     entries[last := Absorb(entries[last], i, next)],
                     originals[last := originals[last] + [next.content]])
  {
    var last := |entries| - 1;
    assert |members[last] + {i}| == |members[last]| + 1;
  }

  // ── The merge pass as a fold ──────────────────────────────────────────────

  datatype MergeState = MergeState(entries: seq<Entry>, originals: seq<seq<Text>>, members: seq<set<nat>>)

  function AbsorbLast(blocks: seq<Block>, s: MergeState, i: nat): MergeState
    requires i < |blocks| && s.entries != [] && |s.entries| == |s.originals| == |s.members|
  {
    var last := |s.entries| - 1;
    MergeState(s.entries[last := Absorb(s.entries[last], i, blocks[i])],
               s.originals[last := s.originals[last] + [blocks[i].content]],
               s.members[last := s.members[last] + {i}])
  }

  function Append(blocks: seq<Block>, s: MergeState, i: nat): MergeState
    requires i < |blocks|
  {
    MergeState(s.entries + [Entry(i, blocks[i])], s.originals + [[blocks[i].content]], s.members + [{i}])
  }

  function MergeStep(blocks: seq<Block>, s: MergeState, i: nat): (t: MergeState)
    requires i < |blocks| && |s.entries| == |s.originals| == |s.members|
    ensures |t.entries| == |t.originals| == |t.members|
  {
    if s.entries != [] && blocks[i].lineStart <= s.entries[|s.entries| - 1].block.lineEnd + 1
    then AbsorbLast(blocks, s, i) else Append(blocks, s, i)
  }

  function MergePass(blocks: seq<Block>, group: seq<nat>): (t: MergeState)
    requires forall p | 0 <= p < |group| :: group[p] < |blocks|
    ensures |t.entries| == |t.originals| == |t.members|
  {
    if group == [] then MergeState([], [], [])
    else MergeStep(blocks, MergePass(blocks, group[..|group| - 1]), group[|group| - 1])
  }

  lemma GatheredAppend(blocks: seq<Block>, s: MergeState, i: nat)
    requires Gathered(blocks, s.members, s.entries, s.originals) && i < |blocks|
    ensures var t := Append(blocks, s, i); Gathered(blocks, t.members, t.entries, t.originals)
  {}

  /** Only the last entry changes, and its first line does not. */
  lemma StepStarts(blocks: seq<Block>, s: MergeState, i: nat)
    requires i < |blocks| && |s.entries| == |s.originals| == |s.members|
    ensures var t := MergeStep(blocks, s, i).entries;
      && t != []
      && (t[|t| - 1].block.lineStart == blocks[i].lineStart
          || (s.entries != [] && t[|t| - 1].block.lineStart == s.entries[|s.entries| - 1].block.lineStart))
  {
    if s.entries != [] {
      var e := s.entries[|s.entries| - 1];
      assert Absorb(e, i, blocks[i]).block.lineStart == e.block.lineStart;
    }
  }

  lemma AbsorbShape(blocks: seq<Block>, file: string, done: set<nat>, s: MergeState, i: nat)
    requires WellFormed(blocks) && Shape(blocks, file, done, s)
    requires s.entries != [] && i < |blocks| && i !in done
    ensures Shape(blocks, file, done + {i}, AbsorbLast(blocks, s, i))
  {
    PartitionAbsorb(done, s.members, i);
    SpacedAbsorb(s.entries, file, i, blocks[i]);
    GatheredAbsorb(blocks, s.members, s.entries, s.originals, i, blocks[i]);
    AnchoredAbsorb(s.members, s.entries, i, blocks[i]);
  }

  lemma AppendShape(blocks: seq<Block>, file: string, done: set<nat>, s: MergeState, i: nat)
    requires WellFormed(blocks) && Shape(blocks, file, done, s)
    requires i < |blocks| && i !in done && blocks[i].file == file
    requires s.entries != [] ==> s.entries[|s.entries| - 1].block.lineEnd + 1 < blocks[i].lineStart
    ensures Shape(blocks, file, done + {i}, Append(blocks, s, i))
  {
    PartitionAppend(done, s.members, {i});
    SpacedAppend(s.entries, file, Entry(i, blocks[i]));
    GatheredAppend(blocks, s, i);
    AnchoredAppend(s.members, s.entries, i, blocks[i]);
  }

  lemma StepShape(blocks: seq<Block>, file: string, done: set<nat>, s: MergeState, i: nat)
    requires WellFormed(blocks) && Shape(blocks, file, done, s)
    requires i < |blocks| && i !in done && blocks[i].file == file
    ensures Shape(blocks, file, done + {i}, MergeStep(blocks, s, i))
  {
    if s.entries != [] && blocks[i].lineStart <= s.entries[|s.entries| - 1].block.lineEnd + 1 {
      AbsorbShape(blocks, file, done, s, i);
    } else {
      AppendShape(blocks, file, done, s, i);
    }
  }

  /** First line of the last entry. */
  function LastStart(s: MergeState): nat
    requires s.entries != []
  {
    s.entries[|s.entries| - 1].block.lineStart
  }

  lemma {:induction false} MergePassStarts(blocks: seq<Block>, group: seq<nat>)
    requires SortedByStart(blocks, group) && group != []
    ensures MergePass(blocks, group).entries != []
    ensures LastStart(MergePass(blocks, group)) <= blocks[group[|group| - 1]].lineStart
  {
    var before, i := group[..|group| - 1], group[|group| - 1];
    if before != [] {
      MergePassStarts(blocks, before);
      assert blocks[before[|before| - 1]].lineStart <= blocks[i].lineStart;
    }
    StepStarts(blocks, MergePass(blocks, before), i);
  }

  /** The pass over one file, in any order sorted by first line. */
  lemma {:induction false} MergePassShape(blocks: seq<Block>, file: string, group: seq<nat>)
    requires WellFormed(blocks) && SortedByStart(blocks, group)
    requires forall p | 0 <= p < |group| :: blocks[group[p]].file == file
    ensures Shape(blocks, file, Indices(group), MergePass(blocks, group))
  {
    if group != [] {
      var before, i := group[..|group| - 1], group[|group| - 1];
      MergePassShape(blocks, file, before);
      assert Indices(group) == Indices(before) + {i};
      StepShape(blocks, file, Indices(before), MergePass(blocks, before), i);
    }
  }

  lemma StepMerges(blocks: seq<Block>, file: string, s: MergeState, i: nat)
    requires WellFormed(blocks) && AllMerge(blocks, s.members, s.entries) && |s.originals| == |s.entries|
    requires i < |blocks| && blocks[i].file == file && Spaced(s.entries, file)
    requires s.entries != [] ==> LastStart(s) <= blocks[i].lineStart
    ensures AllMerge(blocks, MergeStep(blocks, s, i).members, MergeStep(blocks, s, i).entries)
  {
    var last := |s.entries| - 1;
    if s.entries != [] && blocks[i].lineStart <= s.entries[last].block.lineEnd + 1 {
      AbsorbMerges(blocks, s.members[last], s.entries[last], i);
      AllMergeSet(blocks, s.members, s.entries, last, s.members[last] + {i}, Absorb(s.entries[last], i, blocks[i]));
    } else {
      SingleMerge(blocks, i);
      AllMergeAdd(blocks, s.members, s.entries, {i}, Entry(i, blocks[i]));
    }
  }

  lemma {:induction false} MergePassMerges(blocks: seq<Block>, file: string, group: seq<nat>)
    requires WellFormed(blocks) && SortedByStart(blocks, group)
    requires forall p | 0 <= p < |group| :: blocks[group[p]].file == file
    ensures AllMerge(blocks, MergePass(blocks, group).members, MergePass(blocks, group).entries)
  {
    if group != [] {
      var before, i := group[..|group| - 1], group[|group| - 1];
      MergePassMerges(blocks, file, before);
      MergePassShape(blocks, file, before);
      if before != [] {
        MergePassStarts(blocks, before);
        assert blocks[before[|before| - 1]].lineStart <= blocks[i].lineStart;
      }
      StepMerges(blocks, file, MergePass(blocks, before), i);
    }
  }

  // ── Rendering ─────────────────────────────────────────────────────────────

  ghost predicate Alone(blocks: seq<Block>, i: nat)
    requires i < |blocks|
  {
    forall j | 0 <= j < |blocks| && blocks[j].file == blocks[i].file :: j == i
  }

  /** One text per member, and every member's text. */
  ghost predicate ContentsOf(blocks: seq<Block>, members: set<nat>, texts: seq<Text>)
  {
    && |texts| == |members|
    && forall i | i in members :: i < |blocks| && blocks[i].content in texts
  }

  /** The content of a block with several members. */
  ghost predicate Joined(r: Renderer, blocks: seq<Block>, members: set<nat>, b: Block)
  {
    match r.reread(b.file, b.lineStart, b.lineEnd)
    case Some(text) => b.content == text
    case None => exists texts :: ContentsOf(blocks, members, texts) && b.content == r.fallback(texts)
  }

  /** The only block of its file is passed through. Any other block gets a new header, and one with
      several members also a new content. */
  ghost predicate Rendered(r: Renderer, blocks: seq<Block>, members: set<nat>, e: Entry)
  {
    var b := e.block;
    && e.pos < |blocks|
    && (Alone(blocks, e.pos) ==> b == blocks[e.pos])
    && (!Alone(blocks, e.pos) ==>
          && b.header == r.header(b.(header := []))
          && (|members| == 1 ==> b.content == blocks[e.pos].content)
          && (|members| > 1 ==> Joined(r, blocks, members, b)))
  }

  function Render(r: Renderer, e: Entry, originals: seq<Text>): Entry
  {
    var b := e.block;
    var content :=
      if |originals| <= 1 then b.content
      else if r.reread(b.file, b.lineStart, b.lineEnd).Some? then r.reread(b.file, b.lineStart, b.lineEnd).value
      else r.fallback(originals);
    var filled := b.(content := content, header := []);
    Entry(e.pos, filled.(header := r.header(filled)))
  }

  lemma RenderKeepsMerge(r: Renderer, blocks: seq<Block>, members: set<nat>, e: Entry, originals: seq<Text>)
    requires MergeOf(blocks, members, e)
    ensures MergeOf(blocks, members, Render(r, e, originals))
  {
    var b, c := e.block, Render(r, e, originals).block;
    var i :| CallersFrom(blocks, members, b, i);
    assert CallersFrom(blocks, members, c, i);
    var k :| CalleesFrom(blocks, members, b, k);
    assert CalleesFrom(blocks, members, c, k);
    forall n ensures Covers(c, n) <==> SomeCovers(blocks, members, n) {
      assert Covers(c, n) <==> Covers(b, n);
    }
  }

  function RenderAll(r: Renderer, s: MergeState): (es: seq<Entry>)
    requires |s.entries| == |s.originals|
    ensures |es| == |s.entries|
  {
    seq(|s.entries|, k requires 0 <= k < |s.entries| => Render(r, s.entries[k], s.originals[k]))
  }

  lemma RenderedOne(r: Renderer, blocks: seq<Block>, members: set<nat>, e: Entry, originals: seq<Text>)
    requires e.pos < |blocks| && !Alone(blocks, e.pos)
    requires |members| >= 1 && ContentsOf(blocks, members, originals)
    requires |members| == 1 ==> e.block == blocks[e.pos]
    ensures Rendered(r, blocks, members, Render(r, e, originals))
  {}

  ghost predicate AllContents(blocks: seq<Block>, s: MergeState)
    requires |s.originals| == |s.members|
  {
    forall k | 0 <= k < |s.members| :: ContentsOf(blocks, s.members[k], s.originals[k])
  }

  lemma StepContents(blocks: seq<Block>, done: set<nat>, s: MergeState, i: nat)
    requires |s.entries| == |s.originals| == |s.members| && AllContents(blocks, s)
    requires i < |blocks| && i !in done && forall k | 0 <= k < |s.members| :: s.members[k] <= done
    ensures AllContents(blocks, MergeStep(blocks, s, i))
  {
    var t := MergeStep(blocks, s, i);
    forall k | 0 <= k < |t.members| ensures ContentsOf(blocks, t.members[k], t.originals[k]) {
      if k < |s.members| && t.members[k] != s.members[k] {
        assert t.members[k] == s.members[k] + {i} && i !in s.members[k];
      }
    }
  }

  lemma {:induction false} MergePassContents(blocks: seq<Block>, file: string, group: seq<nat>)
    requires WellFormed(blocks) && SortedByStart(blocks, group)
    requires forall p | 0 <= p < |group| :: blocks[group[p]].file == file
    ensures AllContents(blocks, MergePass(blocks, group))
  {
    if group != [] {
      var before := group[..|group| - 1];
      MergePassContents(blocks, file, before);
      MergePassShape(blocks, file, before);
      StepContents(blocks, Indices(before), MergePass(blocks, before), group[|group| - 1]);
    }
  }

  /** Rendering changes content and header only. */
  lemma RenderAllKeeps(r: Renderer, blocks: seq<Block>, file: string, s: MergeState)
    requires AllMerge(blocks, s.members, s.entries) && Spaced(s.entries, file)
    requires Gathered(blocks, s.members, s.entries, s.originals) && AllContents(blocks, s)
    requires forall k | 0 <= k < |s.entries| :: s.entries[k].pos < |blocks| && !Alone(blocks, s.entries[k].pos)
    ensures AllMerge(blocks, s.members, RenderAll(r, s)) && Spaced(RenderAll(r, s), file)
    ensures forall k | 0 <= k < |s.entries| :: Rendered(r, blocks, s.members[k], RenderAll(r, s)[k])
  {
    var es := RenderAll(r, s);
    forall k | 0 <= k < |es| ensures MergeOf(blocks, s.members[k], es[k]) && Rendered(r, blocks, s.members[k], es[k]) {
      assert MergeOf(blocks, s.members[k], s.entries[k]);
      RenderKeepsMerge(r, blocks, s.members[k], s.entries[k], s.originals[k]);
      RenderedOne(r, blocks, s.members[k], s.entries[k], s.originals[k]);
    }
  }
}
