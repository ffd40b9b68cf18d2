/**
 `merge_overlapping_blocks`: blocks of one file whose line ranges overlap or touch become one
 block. The order in which the hash map yields files and the order an unstable sort leaves equal
 keys in are left open.
 */
module BlockMerge {
  import opened OutputBlocks
  import opened MergeSpec
  import Sorting

  /** Original indices per file, in order of appearance. */
  ghost predicate IsGroup(blocks: seq<Block>, upTo: nat, file: string, group: seq<nat>)
  {
    && (forall p | 0 <= p < |group| :: group[p] < |blocks|)
    && (forall p, q | 0 <= p < q < |group| :: group[p] < group[q])
    && (forall i: nat :: i in group <==> i < upTo && i < |blocks| && blocks[i].file == file)
  }

  lemma GroupGrows(blocks: seq<Block>, i: nat, file: string, group: seq<nat>)
    requires i < |blocks| && IsGroup(blocks, i, file, group)
    ensures IsGroup(blocks, i + 1, file, if blocks[i].file == file then group + [i] else group)
  {
    var grown := if blocks[i].file == file then group + [i] else group;
    forall j: nat ensures j in grown <==> j < i + 1 && blocks[j].file == file {
      assert j in group <==> j < i && blocks[j].file == file;
    }
    assert forall p | 0 <= p < |group| :: group[p] in group;
  }

  ghost predicate HasFile(blocks: seq<Block>, upTo: nat, file: string)
  {
    exists j :: 0 <= j < upTo && j < |blocks| && blocks[j].file == file
  }

  /** The first blocks grouped: one group for each file among them. */
  ghost predicate Groups(blocks: seq<Block>, upTo: nat, byFile: map<string, seq<nat>>)
  {
    && (forall f | f in byFile :: IsGroup(blocks, upTo, f, byFile[f]))
    && (forall f :: f in byFile <==> HasFile(blocks, upTo, f))
  }

  lemma GroupsGrow(blocks: seq<Block>, i: nat, byFile: map<string, seq<nat>>)
    requires i < |blocks| && Groups(blocks, i, byFile)
    ensures var file := blocks[i].file;
            Groups(blocks, i + 1, byFile[file := (if file in byFile then byFile[file] else []) + [i]])
  {
    var file := blocks[i].file;
    var group := if file in byFile then byFile[file] else [];
    var grown := byFile[file := group + [i]];
    assert IsGroup(blocks, i, file, group) by {
      assert file !in byFile ==> !HasFile(blocks, i, file);
    }
    forall f | f in grown ensures IsGroup(blocks, i + 1, f, grown[f]) {
      GroupGrows(blocks, i, f, if f == file then group else byFile[f]);
    }
    forall f ensures f in grown <==> HasFile(blocks, i + 1, f) {
      assert HasFile(blocks, i + 1, f) <==> HasFile(blocks, i, f) || f == file;
    }
  }

  method GroupByFile(blocks: seq<Block>) returns (byFile: map<string, seq<nat>>)
    ensures Groups(blocks, |blocks|, byFile)
  {
    byFile := map[];
    for i := 0 to |blocks|
      invariant Groups(blocks, i, byFile)
    {
      var file := blocks[i].file;
      GroupsGrow(blocks, i, byFile);
      byFile := byFile[file := (if file in byFile then byFile[file] else []) + [i]];
    }
  }

  lemma MergePassNext(blocks: seq<Block>, group: seq<nat>, p: nat)
    requires p < |group| && forall q | 0 <= q < |group| :: group[q] < |blocks|
    ensures MergePass(blocks, group[..p + 1]) == MergeStep(blocks, MergePass(blocks, group[..p]), group[p])
  {
    assert group[..p + 1][..p] == group[..p];
  }

  /** The merge pass over one file. */
  method MergeSorted(blocks: seq<Block>, group: seq<nat>) returns (merged: seq<Entry>, originals: seq<seq<Text>>)
    requires forall p | 0 <= p < |group| :: group[p] < |blocks|
    ensures merged == MergePass(blocks, group).entries && originals == MergePass(blocks, group).originals
  {
    merged, originals := [], [];
    for p := 0 to |group|
      invariant merged == MergePass(blocks, group[..p]).entries
      invariant originals == MergePass(blocks, group[..p]).originals
    {
      MergePassNext(blocks, group, p);
      var i, last := group[p], |merged| - 1;
      if merged != [] && blocks[i].lineStart <= merged[last].block.lineEnd + 1 {
        merged := merged[last := Absorb(merged[last], i, blocks[i])];
        originals := originals[last := originals[last] + [blocks[i].content]];
      } else {
        merged := merged + [Entry(i, blocks[i])];
        originals := originals + [[blocks[i].content]];
      }
    }
    assert group[..|group|] == group;
  }

  /** A list of output entries: who they merge, that same-file ranges are apart, what they show. */
  ghost predicate Placed(r: Renderer, blocks: seq<Block>, done: set<nat>, members: seq<set<nat>>, entries: seq<Entry>)
  {
    && Partition(done, members)
    && AllMerge(blocks, members, entries)
    && (forall k, l | 0 <= k < l < |entries| :: Apart(entries[k].block, entries[l].block))
    && (forall k | 0 <= k < |entries| :: Rendered(r, blocks, members[k], entries[k]))
  }

  lemma PartitionConcat(done: set<nat>, members: seq<set<nat>>, more: set<nat>, others: seq<set<nat>>)
    requires Partition(done, members) && Partition(more, others) && done !! more
    ensures Partition(done + more, members + others)
  {
    var all := members + others;
    forall i | i in done + more ensures exists k :: 0 <= k < |all| && i in all[k] {
      if i in done {
        var k :| 0 <= k < |members| && i in members[k];
        assert i in all[k];
      } else {
        var k :| 0 <= k < |others| && i in others[k];
        assert i in all[|members| + k];
      }
    }
  }

  lemma PartitionPermute(done: set<nat>, members: seq<set<nat>>, perm: seq<nat>)
    requires Partition(done, members) && Sorting.Permutation(perm, |members|)
    ensures Partition(done, Sorting.Permute(members, perm))
  {
    var all := Sorting.Permute(members, perm);
    forall i | i in done ensures exists k :: 0 <= k < |all| && i in all[k] {
      var j :| 0 <= j < |members| && i in members[j];
      assert j in perm;
      var k :| 0 <= k < |perm| && perm[k] == j;
      assert i in all[k];
    }
    forall k, l, i | 0 <= k < |all| && 0 <= l < |all| && i in all[k] && i in all[l] ensures k == l {
      assert perm[k] == perm[l];
    }
  }

  lemma PlacedPermute(r: Renderer, blocks: seq<Block>, done: set<nat>, members: seq<set<nat>>, entries: seq<Entry>,
                      perm: seq<nat>)
    requires Placed(r, blocks, done, members, entries) && Sorting.Permutation(perm, |entries|)
    ensures Placed(r, blocks, done, Sorting.Permute(members, perm), Sorting.Permute(entries, perm))
  {
    PartitionPermute(done, members, perm);
    var es, ms := Sorting.Permute(entries, perm), Sorting.Permute(members, perm);
    forall k, l | 0 <= k < l < |es| ensures Apart(es[k].block, es[l].block) {
      assert Apart(entries[perm[k]].block, entries[perm[l]].block) || Apart(entries[perm[l]].block, entries[perm[k]].block);
    }
    forall k | 0 <= k < |es| ensures MergeOf(blocks, ms[k], es[k]) && Rendered(r, blocks, ms[k], es[k]) {
      assert MergeOf(blocks, members[perm[k]], entries[perm[k]]);
    }
  }

  lemma GroupNotAlone(blocks: seq<Block>, file: string, group: seq<nat>, i: nat)
    requires IsGroup(blocks, |blocks|, file, group) && |group| > 1 && i in group
    ensures !Alone(blocks, i)
  {
    assert group[0] in group && group[1] in group;
  }

  lemma PermutedGroup(blocks: seq<Block>, file: string, group: seq<nat>, keys: seq<nat>, perm: seq<nat>)
    requires IsGroup(blocks, |blocks|, file, group)
    requires |keys| == |group| && forall p | 0 <= p < |group| :: keys[p] == blocks[group[p]].lineStart
    requires Sorting.Permutation(perm, |group|) && Sorting.Ordered(keys, perm)
    ensures SortedByStart(blocks, Sorting.Permute(group, perm))
    ensures Indices(Sorting.Permute(group, perm)) == Indices(group)
    ensures forall p | 0 <= p < |perm| :: blocks[Sorting.Permute(group, perm)[p]].file == file
  {
    var sorted := Sorting.Permute(group, perm);
    forall p, q | 0 <= p < q < |sorted| ensures sorted[p] != sorted[q] {
      assert perm[p] != perm[q];
    }
    forall i | i in group ensures i in sorted {
      var p: nat :| p < |group| && group[p] == i;
      assert p in perm;
      var k :| 0 <= k < |perm| && perm[k] == p;
      assert sorted[k] == i;
    }
    assert forall p | 0 <= p < |perm| :: sorted[p] in group;
  }

  function IndicesBelow(n: nat): (r: set<nat>)
    ensures forall i: nat :: i in r <==> i < n
  {
    if n == 0 then {} else IndicesBelow(n - 1) + {n - 1}
  }

  /** One file. */
  method MergeFile(r: Renderer, blocks: seq<Block>, file: string, group: seq<nat>)
    returns (entries: seq<Entry>, ghost members: seq<set<nat>>)
    requires WellFormed(blocks) && IsGroup(blocks, |blocks|, file, group) && group != []
    ensures Placed(r, blocks, Indices(group), members, entries)
    ensures forall k | 0 <= k < |entries| :: entries[k].block.file == file
  {
    if |group| == 1 {
      entries, members := [Entry(group[0], blocks[group[0]])], [{group[0]}];
      SingleMerge(blocks, group[0]);
      assert Indices(group) == {group[0]} && group[0] in members[0];
      assert forall j | 0 <= j < |blocks| && blocks[j].file == file :: j in group;
      return;
    }
    var keys := seq(|group|, p requires 0 <= p < |group| => blocks[group[p]].lineStart);
    var perm := Sorting.SortIndices(keys);
    var sorted := Sorting.Permute(group, perm);
    PermutedGroup(blocks, file, group, keys, perm);
    var merged, originals := MergeSorted(blocks, sorted);
    ghost var s := MergePass(blocks, sorted);
    MergePassShape(blocks, file, sorted);
    MergePassMerges(blocks, file, sorted);
    MergePassContents(blocks, file, sorted);
    forall k | 0 <= k < |merged| ensures merged[k].pos < |blocks| && !Alone(blocks, merged[k].pos) {
      GroupNotAlone(blocks, file, group, merged[k].pos);
    }
    RenderAllKeeps(r, blocks, file, s);
    entries, members := RenderAll(r, MergeState(merged, originals, [])), s.members;
    assert entries == RenderAll(r, s);
  }

  lemma PlacedConcat(r: Renderer, blocks: seq<Block>, done: set<nat>, members: seq<set<nat>>, entries: seq<Entry>,
                     more: set<nat>, others: seq<set<nat>>, added: seq<Entry>, file: string)
    requires Placed(r, blocks, done, members, entries) && Placed(r, blocks, more, others, added)
    requires forall i | i in more :: i < |blocks| && blocks[i].file == file
    requires forall i | i in done :: i < |blocks| && blocks[i].file != file
    ensures Placed(r, blocks, done + more, members + others, entries + added)
  {
    PartitionConcat(done, members, more, others);
    var ms, es := members + others, entries + added;
    forall k | 0 <= k < |es| ensures MergeOf(blocks, ms[k], es[k]) && Rendered(r, blocks, ms[k], es[k]) {
      if k < |entries| {
        assert MergeOf(blocks, members[k], entries[k]);
      } else {
        assert MergeOf(blocks, others[k - |entries|], added[k - |entries|]);
      }
    }
    forall k, l | 0 <= k < l < |es| ensures Apart(es[k].block, es[l].block) {
      assert es[k].pos in ms[k] && es[l].pos in ms[l];
    }
  }

  /** The indices whose file has been handled. */
  ghost predicate Handled(blocks: seq<Block>, byFile: map<string, seq<nat>>, left: set<string>, done: set<nat>)
  {
    forall i :: i in done <==> 0 <= i < |blocks| && blocks[i].file in byFile && blocks[i].file !in left
  }

  lemma AllHandled(blocks: seq<Block>, byFile: map<string, seq<nat>>, done: set<nat>)
    requires Groups(blocks, |blocks|, byFile) && Handled(blocks, byFile, {}, done)
    ensures done == IndicesBelow(|blocks|)
  {
    forall i: nat ensures i in done <==> i < |blocks| {
      if i < |blocks| { assert HasFile(blocks, |blocks|, blocks[i].file); }
    }
  }

  lemma GroupNotEmpty(blocks: seq<Block>, byFile: map<string, seq<nat>>, file: string)
    requires Groups(blocks, |blocks|, byFile) && file in byFile
    ensures byFile[file] != []
  {
    var i :| 0 <= i < |blocks| && blocks[i].file == file;
    assert i in byFile[file];
  }

  lemma HandledNext(blocks: seq<Block>, byFile: map<string, seq<nat>>, left: set<string>, done: set<nat>, file: string)
    requires Groups(blocks, |blocks|, byFile) && Handled(blocks, byFile, left, done) && file in left && file in byFile
    ensures Handled(blocks, byFile, left - {file}, done + Indices(byFile[file]))
    ensures forall i | i in Indices(byFile[file]) :: i < |blocks| && blocks[i].file == file
    ensures forall i | i in done :: i < |blocks| && blocks[i].file != file
  {
    forall i: nat ensures i in Indices(byFile[file]) <==> i < |blocks| && blocks[i].file == file {
      assert i in Indices(byFile[file]) <==> i in byFile[file];
    }
  }

  /** The files not in `left` are merged. */
  ghost predicate Progress(r: Renderer, blocks: seq<Block>, byFile: map<string, seq<nat>>, left: set<string>,
                           done: set<nat>, members: seq<set<nat>>, placed: seq<Entry>)
  {
    Handled(blocks, byFile, left, done) && Placed(r, blocks, done, members, placed)
  }

  lemma ProgressNext(r: Renderer, blocks: seq<Block>, byFile: map<string, seq<nat>>, left: set<string>, done: set<nat>,
                     members: seq<set<nat>>, placed: seq<Entry>, file: string, others: seq<set<nat>>, entries: seq<Entry>)
    requires Progress(r, blocks, byFile, left, done, members, placed)
    requires Groups(blocks, |blocks|, byFile) && file in left && file in byFile
    requires Placed(r, blocks, Indices(byFile[file]), others, entries)
    ensures Progress(r, blocks, byFile, left - {file}, done + Indices(byFile[file]), members + others, placed + entries)
  {
    HandledNext(blocks, byFile, left, done, file);
    PlacedConcat(r, blocks, done, members, placed, Indices(byFile[file]), others, entries, file);
  }

  method MergeFiles(r: Renderer, blocks: seq<Block>) returns (placed: seq<Entry>, ghost members: seq<set<nat>>)
    requires WellFormed(blocks)
    ensures Placed(r, blocks, IndicesBelow(|blocks|), members, placed)
  {
    var byFile := GroupByFile(blocks);
    placed, members := [], [];
    var left := byFile.Keys;
    ghost var done: set<nat> := {};
    while left != {}
      invariant left <= byFile.Keys && Progress(r, blocks, byFile, left, done, members, placed)
    {
      var file :| file in left;
      GroupNotEmpty(blocks, byFile, file);
      var entries; ghost var others;
      entries, others := MergeFile(r, blocks, file, byFile[file]);
      ProgressNext(r, blocks, byFile, left, done, members, placed, file, others, entries);
      placed, members, done := placed + entries, members + others, done + Indices(byFile[file]);
      left := left - {file};
    }
    AllHandled(blocks, byFile, done);
  }

  /** `out` shows every input block in exactly one merged block; same-file ranges are apart; the
      order is that of the earliest member. */
  ghost predicate MergedInOrder(r: Renderer, blocks: seq<Block>, out: seq<Block>, entries: seq<Entry>,
                                members: seq<set<nat>>)
  {
    && Placed(r, blocks, IndicesBelow(|blocks|), members, entries)
    && (forall k, l | 0 <= k < l < |entries| :: entries[k].pos < entries[l].pos)
    && |out| == |entries| && (forall k | 0 <= k < |out| :: out[k] == entries[k].block)
  }

  /** What the merge of a block list is. */
  ghost predicate IsMerge(r: Renderer, blocks: seq<Block>, out: seq<Block>)
  {
    exists entries, members :: MergedInOrder(r, blocks, out, entries, members)
  }

  lemma StrictlyPlaced(r: Renderer, blocks: seq<Block>, done: set<nat>, members: seq<set<nat>>, entries: seq<Entry>)
    requires Placed(r, blocks, done, members, entries)
    requires forall k, l | 0 <= k < l < |entries| :: entries[k].pos <= entries[l].pos
    ensures forall k, l | 0 <= k < l < |entries| :: entries[k].pos < entries[l].pos
  {
    forall k, l | 0 <= k < l < |entries| ensures entries[k].pos < entries[l].pos {
      assert entries[k].pos in members[k] && entries[l].pos in members[l];
    }
  }

  ghost predicate Shows(blocks: seq<Block>, file: string, n: nat)
  {
    exists i :: 0 <= i < |blocks| && blocks[i].file == file && Covers(blocks[i], n)
  }

  lemma LineFound(blocks: seq<Block>, out: seq<Block>, entries: seq<Entry>, members: seq<set<nat>>, file: string, n: nat)
    requires Partition(IndicesBelow(|blocks|), members) && AllMerge(blocks, members, entries)
    requires |out| == |entries| && forall k | 0 <= k < |out| :: out[k] == entries[k].block
    requires Shows(blocks, file, n)
    ensures Shows(out, file, n)
  {
    var i :| 0 <= i < |blocks| && blocks[i].file == file && Covers(blocks[i], n);
    assert i in IndicesBelow(|blocks|);
    var k :| 0 <= k < |members| && i in members[k];
    assert MergeOf(blocks, members[k], entries[k]) && SomeCovers(blocks, members[k], n);
    assert out[k].file == file && Covers(out[k], n);
  }

  lemma LineTraced(blocks: seq<Block>, out: seq<Block>, entries: seq<Entry>, members: seq<set<nat>>, file: string, n: nat)
    requires AllMerge(blocks, members, entries)
    requires |out| == |entries| && forall k | 0 <= k < |out| :: out[k] == entries[k].block
    requires Shows(out, file, n)
    ensures Shows(blocks, file, n)
  {
    var k :| 0 <= k < |out| && out[k].file == file && Covers(out[k], n);
    assert MergeOf(blocks, members[k], entries[k]) && SomeCovers(blocks, members[k], n);
  }

  ghost predicate ShownOnce(out: seq<Block>, n: nat)
  {
    forall k, l | 0 <= k < l < |out| && out[k].file == out[l].file :: !(Covers(out[k], n) && Covers(out[l], n))
  }

  lemma LinesOnce(r: Renderer, blocks: seq<Block>, out: seq<Block>, entries: seq<Entry>, members: seq<set<nat>>, n: nat)
    requires MergedInOrder(r, blocks, out, entries, members)
    ensures ShownOnce(out, n)
  {
    forall k, l | 0 <= k < l < |out| && out[k].file == out[l].file ensures !(Covers(out[k], n) && Covers(out[l], n)) {
      assert Apart(entries[k].block, entries[l].block);
    }
  }

  /** The lines shown of each file are the same as before, and none is shown twice. */
  lemma LinesKept(r: Renderer, blocks: seq<Block>, out: seq<Block>, file: string, n: nat)
    requires IsMerge(r, blocks, out)
    ensures Shows(blocks, file, n) <==> Shows(out, file, n)
    ensures ShownOnce(out, n)
  {
    var entries: seq<Entry>, members: seq<set<nat>> :| MergedInOrder(r, blocks, out, entries, members);
    if Shows(blocks, file, n) { LineFound(blocks, out, entries, members, file, n); }
    if Shows(out, file, n) { LineTraced(blocks, out, entries, members, file, n); }
    LinesOnce(r, blocks, out, entries, members, n);
  }

  /** Everything of block `i` is found in the output block: its lines, its symbols, and counts at least as
      large as its own. */
  ghost predicate TakesIn(b: Block, x: Block)
  {
    && b.file == x.file && Covers(b, x.lineStart) && Covers(b, x.lineEnd)
    && (forall name | name in x.symbols :: name in b.symbols)
    && (x.callers.Some? && x.callers.value > 0 ==> b.callers.Some? && x.callers.value <= b.callers.value)
    && (x.callees.Some? && x.callees.value > 0 ==> b.callees.Some? && x.callees.value <= b.callees.value)
  }

  lemma MemberTakenIn(blocks: seq<Block>, members: set<nat>, e: Entry, i: nat)
    requires WellFormed(blocks) && MergeOf(blocks, members, e) && i in members
    ensures TakesIn(e.block, blocks[i])
  {
    var x := blocks[i];
    assert Covers(x, x.lineStart) && Covers(x, x.lineEnd);
    assert SomeCovers(blocks, members, x.lineStart) && SomeCovers(blocks, members, x.lineEnd);
    forall name | name in x.symbols ensures name in e.block.symbols { assert HasSymbol(blocks, members, name); }
    var m :| CallersFrom(blocks, members, e.block, m);
    var k :| CalleesFrom(blocks, members, e.block, k);
    assert CountOr0(x.callers) <= CountOr0(e.block.callers) && CountOr0(x.callees) <= CountOr0(e.block.callees);
  }

  /** No block is lost. */
  lemma EveryBlockTakenIn(r: Renderer, blocks: seq<Block>, out: seq<Block>, i: nat)
    requires WellFormed(blocks) && IsMerge(r, blocks, out) && i < |blocks|
    ensures exists k :: 0 <= k < |out| && TakesIn(out[k], blocks[i])
  {
    var entries: seq<Entry>, members: seq<set<nat>> :| MergedInOrder(r, blocks, out, entries, members);
    assert i in IndicesBelow(|blocks|);
    var k :| 0 <= k < |members| && i in members[k];
    MemberTakenIn(blocks, members[k], entries[k], i);
    assert TakesIn(out[k], blocks[i]);
  }

  lemma MemberIf(r: Renderer, blocks: seq<Block>, out: seq<Block>, entries: seq<Entry>, members: seq<set<nat>>,
                 l: nat, j: nat)
    requires WellFormed(blocks) && MergedInOrder(r, blocks, out, entries, members) && l < |out| && j < |blocks|
    requires blocks[j].file == out[l].file && Covers(out[l], blocks[j].lineStart)
    ensures j in members[l]
  {
    assert j in IndicesBelow(|blocks|);
    var m :| 0 <= m < |members| && j in members[m];
    MemberTakenIn(blocks, members[m], entries[m], j);
    LinesOnce(r, blocks, out, entries, members, blocks[j].lineStart);
    assert out[m] == entries[m].block;
  }

  /** The order is that of the blocks seen first: for every block in a later output block there is an
      earlier one in an earlier output block. */
  lemma OrderOfFirst(r: Renderer, blocks: seq<Block>, out: seq<Block>, k: nat, l: nat, j: nat)
    requires WellFormed(blocks) && IsMerge(r, blocks, out) && k < l < |out| && j < |blocks|
    requires blocks[j].file == out[l].file && Covers(out[l], blocks[j].lineStart)
    ensures exists i :: 0 <= i < j && blocks[i].file == out[k].file && Covers(out[k], blocks[i].lineStart)
  {
    var entries: seq<Entry>, members: seq<set<nat>> :| MergedInOrder(r, blocks, out, entries, members);
    MemberIf(r, blocks, out, entries, members, l, j);
    assert MergeOf(blocks, members[l], entries[l]) && MergeOf(blocks, members[k], entries[k]);
    var i := entries[k].pos;
    assert i in members[k] && entries[l].pos <= j;
    MemberTakenIn(blocks, members[k], entries[k], i);
  }

  ghost predicate LiesIn(blocks: seq<Block>, i: int, b: Block)
  {
    0 <= i < |blocks| && blocks[i].file == b.file && Covers(b, blocks[i].lineStart)
  }

  lemma LiesInIff(r: Renderer, blocks: seq<Block>, out: seq<Block>, entries: seq<Entry>, members: seq<set<nat>>,
                  k: nat, i: nat)
    requires WellFormed(blocks) && MergedInOrder(r, blocks, out, entries, members) && k < |out|
    ensures LiesIn(blocks, i, out[k]) <==> i in members[k]
  {
    if LiesIn(blocks, i, out[k]) { MemberIf(r, blocks, out, entries, members, k, i); }
    if i in members[k] {
      assert MergeOf(blocks, members[k], entries[k]);
      MemberTakenIn(blocks, members[k], entries[k], i);
    }
  }

  /** The text of what is merged from several blocks: that of the file, or, if it cannot be read, what the
      fallback makes of texts among which are those of all these blocks. */
  ghost predicate MergedText(r: Renderer, blocks: seq<Block>, b: Block)
  {
    match r.reread(b.file, b.lineStart, b.lineEnd)
    case Some(text) => b.content == text
    case None => exists texts :: AllTexts(blocks, b, texts) && b.content == r.fallback(texts)
  }

  ghost predicate AllTexts(blocks: seq<Block>, b: Block, texts: seq<Text>)
  {
    forall i | LiesIn(blocks, i, b) :: blocks[i].content in texts
  }

  lemma JoinedText(r: Renderer, blocks: seq<Block>, out: seq<Block>, entries: seq<Entry>, members: seq<set<nat>>, k: nat)
    requires WellFormed(blocks) && MergedInOrder(r, blocks, out, entries, members) && k < |out|
    requires Joined(r, blocks, members[k], out[k])
    ensures MergedText(r, blocks, out[k])
  {
    var b := out[k];
    if r.reread(b.file, b.lineStart, b.lineEnd).None? {
      var texts :| ContentsOf(blocks, members[k], texts) && b.content == r.fallback(texts);
      forall i | LiesIn(blocks, i, b) ensures blocks[i].content in texts {
        LiesInIff(r, blocks, out, entries, members, k, i);
      }
      assert AllTexts(blocks, b, texts);
    }
  }

  lemma OneMember(r: Renderer, blocks: seq<Block>, out: seq<Block>, entries: seq<Entry>, members: seq<set<nat>>, k: nat)
    requires WellFormed(blocks) && MergedInOrder(r, blocks, out, entries, members) && k < |out|
    requires |members[k]| == 1
    ensures var p := entries[k].pos;
            && p < |blocks| && members[k] == {p}
            && (Alone(blocks, p) ==> out[k] == blocks[p])
            && (!Alone(blocks, p) ==> out[k].header == r.header(out[k].(header := [])) && out[k].content == blocks[p].content)
  {
    var m, p := members[k], entries[k].pos;
    assert Rendered(r, blocks, m, entries[k]) && p in m;
    assert |m - {p}| == 0;
    assert m == {p};
  }

  lemma SeveralMembers(r: Renderer, blocks: seq<Block>, out: seq<Block>, entries: seq<Entry>, members: seq<set<nat>>, k: nat)
    requires WellFormed(blocks) && MergedInOrder(r, blocks, out, entries, members) && k < |out|
    requires |members[k]| > 1
    ensures out[k].header == r.header(out[k].(header := [])) && MergedText(r, blocks, out[k])
  {
    var m, p := members[k], entries[k].pos;
    assert Rendered(r, blocks, m, entries[k]) && MergeOf(blocks, m, entries[k]);
    if m == {p} {
      assert false;
    }
    var j :| j in m && j != p;
    assert blocks[j].file == blocks[p].file && !Alone(blocks, p);
    JoinedText(r, blocks, out, entries, members, k);
  }

  lemma TextOfOne(r: Renderer, blocks: seq<Block>, out: seq<Block>, entries: seq<Entry>, members: seq<set<nat>>,
                  k: nat, i: nat)
    requires WellFormed(blocks) && MergedInOrder(r, blocks, out, entries, members) && k < |out|
    requires |members[k]| == 1 && i in members[k]
    ensures i < |blocks| && (Alone(blocks, i) ==> out[k] == blocks[i])
    ensures !Alone(blocks, i) ==> out[k].header == r.header(out[k].(header := [])) && out[k].content == blocks[i].content
    ensures forall j | LiesIn(blocks, j, out[k]) :: j == i
  {
    OneMember(r, blocks, out, entries, members, k);
    forall j | LiesIn(blocks, j, out[k]) ensures j == i { LiesInIff(r, blocks, out, entries, members, k, j); }
  }

  /** What an output block shows: the only block of its file as it was; and otherwise a new header, and the
      text of the one input block that lies in it, or the merged text of several. */
  lemma OutputText(r: Renderer, blocks: seq<Block>, out: seq<Block>, k: nat, i: nat)
    requires WellFormed(blocks) && IsMerge(r, blocks, out) && k < |out| && LiesIn(blocks, i, out[k])
    ensures Alone(blocks, i) ==> out[k] == blocks[i]
    ensures !Alone(blocks, i) ==> out[k].header == r.header(out[k].(header := []))
    ensures if forall j | LiesIn(blocks, j, out[k]) :: j == i then out[k].content == blocks[i].content
            else MergedText(r, blocks, out[k])
  {
    var entries: seq<Entry>, members: seq<set<nat>> :| MergedInOrder(r, blocks, out, entries, members);
    LiesInIff(r, blocks, out, entries, members, k, i);
    OutputTextOf(r, blocks, out, entries, members, k, i);
  }

  lemma OutputTextOf(r: Renderer, blocks: seq<Block>, out: seq<Block>, entries: seq<Entry>, members: seq<set<nat>>,
                     k: nat, i: nat)
    requires WellFormed(blocks) && MergedInOrder(r, blocks, out, entries, members) && k < |out| && i < |blocks|
    requires i in members[k]
    ensures Alone(blocks, i) ==> out[k] == blocks[i]
    ensures !Alone(blocks, i) ==> out[k].header == r.header(out[k].(header := []))
    ensures if forall j | LiesIn(blocks, j, out[k]) :: j == i then out[k].content == blocks[i].content
            else MergedText(r, blocks, out[k])
  {
    if |members[k]| == 1 {
      TextOfOne(r, blocks, out, entries, members, k, i);
    } else {
      SomeOther(r, blocks, out, entries, members, k, i);
      SeveralMembers(r, blocks, out, entries, members, k);
    }
  }

  lemma SomeOther(r: Renderer, blocks: seq<Block>, out: seq<Block>, entries: seq<Entry>, members: seq<set<nat>>,
                  k: nat, i: nat)
    requires WellFormed(blocks) && MergedInOrder(r, blocks, out, entries, members) && k < |out|
    requires i in members[k] && |members[k]| != 1
    ensures |members[k]| > 1 && !Alone(blocks, i) && exists j :: LiesIn(blocks, j, out[k]) && j != i
  {
    var m := members[k];
    assert MergeOf(blocks, m, entries[k]);
    assert |m| == |m - {i}| + 1;
    var j :| j in m - {i};
    LiesInIff(r, blocks, out, entries, members, k, j);
    assert LiesIn(blocks, j, out[k]) && blocks[j].file == blocks[i].file;
  }

  /** Alike but for the header and the order of the symbols. */
  ghost predicate SameBlock(a: Block, b: Block)
  {
    && a.file == b.file && a.lineStart == b.lineStart && a.lineEnd == b.lineEnd && a.content == b.content
    && a.callers == b.callers && a.callerFiles == b.callerFiles && a.callerNames == b.callerNames
    && a.callees == b.callees && a.calleeNames == b.calleeNames
    && forall name :: name in a.symbols <==> name in b.symbols
  }

  lemma SingleIsSame(blocks: seq<Block>, e: Entry, i: nat)
    requires WellFormed(blocks) && i < |blocks| && MergeOf(blocks, {i}, e) && e.block.content == blocks[i].content
    ensures SameBlock(e.block, blocks[i])
  {
    var a, b := e.block, blocks[i];
    forall n ensures Covers(a, n) <==> Covers(b, n) {
      assert SomeCovers(blocks, {i}, n) <==> Covers(b, n);
    }
    assert Covers(a, a.lineStart) && Covers(a, a.lineEnd) && Covers(b, b.lineStart) && Covers(b, b.lineEnd);
    forall name ensures name in a.symbols <==> name in b.symbols {
      assert HasSymbol(blocks, {i}, name) <==> name in b.symbols;
    }
  }

  lemma UntouchedEntry(r: Renderer, blocks: seq<Block>, out: seq<Block>, entries: seq<Entry>, members: seq<set<nat>>,
                       i: nat) returns (k: nat)
    requires WellFormed(blocks) && MergedInOrder(r, blocks, out, entries, members) && i < |blocks|
    requires forall j | 0 <= j < |blocks| && j != i :: Apart(blocks[i], blocks[j])
    ensures k < |out| && members[k] == {i} && out[k].content == blocks[i].content && MergeOf(blocks, {i}, entries[k])
  {
    assert i in IndicesBelow(|blocks|);
    k :| 0 <= k < |members| && i in members[k];
    NothingJoins(blocks, members[k], entries[k], i);
    assert entries[k].pos in members[k];
  }

  /** A block that touches no other block of its file comes out as itself, but for the header. */
  lemma UntouchedBlock(r: Renderer, blocks: seq<Block>, out: seq<Block>, i: nat)
    requires WellFormed(blocks) && IsMerge(r, blocks, out) && i < |blocks|
    requires forall j | 0 <= j < |blocks| && j != i :: Apart(blocks[i], blocks[j])
    ensures exists k :: 0 <= k < |out| && SameBlock(out[k], blocks[i])
  {
    var entries: seq<Entry>, members: seq<set<nat>> :| MergedInOrder(r, blocks, out, entries, members);
    var k := UntouchedEntry(r, blocks, out, entries, members, i);
    SingleIsSame(blocks, entries[k], i);
  }

  lemma GapUncovered(blocks: seq<Block>, members: set<nat>, e: Entry, i: nat, gap: nat)
    requires MergeOf(blocks, members, e) && i in members
    requires forall j | 0 <= j < |blocks| && j != i :: Apart(blocks[i], blocks[j])
    requires gap == blocks[i].lineEnd + 1 || gap + 1 == blocks[i].lineStart
    requires blocks[i].lineStart <= blocks[i].lineEnd
    ensures !Covers(e.block, gap)
  {
    assert !SomeCovers(blocks, members, gap);
  }

  lemma NothingJoins(blocks: seq<Block>, members: set<nat>, e: Entry, i: nat)
    requires WellFormed(blocks) && MergeOf(blocks, members, e) && i in members
    requires forall j | 0 <= j < |blocks| && j != i :: Apart(blocks[i], blocks[j])
    ensures members == {i} && |members| == 1
  {
    var b := blocks[i];
    forall j | j in members ensures j == i {
      if j != i {
        assert Apart(b, blocks[j]);
        assert Covers(e.block, b.lineStart) && Covers(e.block, b.lineEnd);
        assert Covers(blocks[j], blocks[j].lineStart) && Covers(e.block, blocks[j].lineStart);
        GapUncovered(blocks, members, e, i, if b.lineEnd < blocks[j].lineStart then b.lineEnd + 1 else b.lineStart - 1);
        assert false;
      }
    }
    assert members == {i};
  }

  lemma FewBlocks(r: Renderer, blocks: seq<Block>)
    requires WellFormed(blocks) && |blocks| <= 1
    ensures IsMerge(r, blocks, blocks)
  {
    if |blocks| == 0 {
      assert MergedInOrder(r, blocks, blocks, [], []);
    } else {
      SingleMerge(blocks, 0);
      assert 0 in [{0 as nat}][0];
      assert MergedInOrder(r, blocks, blocks, [Entry(0, blocks[0])], [{0}]);
    }
  }

  method MergeOverlappingBlocks(r: Renderer, blocks: seq<Block>)
    returns (out: seq<Block>)
    requires WellFormed(blocks)
    ensures IsMerge(r, blocks, out)
  {
    if |blocks| <= 1 {
      FewBlocks(r, blocks);
      return blocks;
    }
    var placed; ghost var owners;
    placed, owners := MergeFiles(r, blocks);
    var keys := seq(|placed|, k requires 0 <= k < |placed| => placed[k].pos);
    var perm := Sorting.SortIndices(keys);
    PlacedPermute(r, blocks, IndicesBelow(|blocks|), owners, placed, perm);
    var positioned := Sorting.Permute(placed, perm);
    ghost var members := Sorting.Permute(owners, perm);
    StrictlyPlaced(r, blocks, IndicesBelow(|blocks|), members, positioned);
    out := seq(|positioned|, k requires 0 <= k < |positioned| => positioned[k].block);
    assert MergedInOrder(r, blocks, out, positioned, members);
  }
}
