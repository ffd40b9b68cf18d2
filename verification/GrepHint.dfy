/**
 The search hint under a retrieval answer: a literal pattern `a|b|c` for the symbols the answer
 shows, short enough to fit the part of the output budget reserved for it.
 */
module GrepHint {
  import opened Wrappers
  import opened OutputBlocks
  import opened ReadBack

  const MAX_SYMBOLS: nat := 5
  const MIN_NAME_LEN: nat := 4
  const MAX_NAME_LEN: nat := 40
  const MAX_PATTERN_CHARS: nat := 100
  const MAX_HINT_CHARS: nat := 400

  predicate IsLetter(c: char)
  {
    'a' <= c <= 'z' || 'A' <= c <= 'Z' || c == '_'
  }

  predicate IsIdentifierChar(c: char)
  {
    IsLetter(c) || '0' <= c <= '9'
  }

  /** Identifiers of a useful length. Their length in bytes is their length in characters. */
  predicate IsGreppable(name: string)
  {
    && MIN_NAME_LEN <= |name| <= MAX_NAME_LEN
    && IsLetter(name[0])
    && forall i | 0 <= i < |name| :: IsIdentifierChar(name[i])
  }

  function AllSymbols(blocks: seq<Block>): seq<string>
  {
    if blocks == [] then [] else blocks[0].symbols + AllSymbols(blocks[1..])
  }

  function AllCalleeNames(blocks: seq<Block>): seq<string>
  {
    if blocks == [] then [] else blocks[0].calleeNames + AllCalleeNames(blocks[1..])
  }

  /** Every defined symbol comes before every callee. */
  function Candidates(blocks: seq<Block>): seq<string>
  {
    AllSymbols(blocks) + AllCalleeNames(blocks)
  }

  /** The greppable candidates, each at its first occurrence. */
  function Usable(candidates: seq<string>): seq<string>
  {
    if candidates == [] then []
    else
      var before, name := Usable(candidates[..|candidates| - 1]), candidates[|candidates| - 1];
      if IsGreppable(name) && name !in before then before + [name] else before
  }

  function Pattern(names: seq<string>): string
  {
    if names == [] then []
    else if |names| == 1 then names[0]
    else Pattern(names[..|names| - 1]) + "|" + names[|names| - 1]
  }

  lemma {:induction false} UsableGrows(candidates: seq<string>, i: nat)
    requires i <= |candidates|
    ensures Usable(candidates[..i]) <= Usable(candidates)
  {
    if i < |candidates| {
      UsableGrows(candidates[..|candidates| - 1], i);
      assert candidates[..|candidates| - 1][..i] == candidates[..i];
    } else {
      assert candidates[..i] == candidates;
    }
  }

  ghost predicate Distinct(names: seq<string>)
  {
    forall i, j | 0 <= i < j < |names| :: names[i] != names[j]
  }

  lemma {:induction false} UsableIsDistinct(candidates: seq<string>)
    ensures Distinct(Usable(candidates))
    ensures forall name :: name in Usable(candidates) <==> name in candidates && IsGreppable(name)
  {
    if candidates != [] {
      var n := |candidates| - 1;
      UsableIsDistinct(candidates[..n]);
      assert candidates == candidates[..n] + [candidates[n]];
      var before, u := Usable(candidates[..n]), Usable(candidates);
      forall i, j | 0 <= i < j < |u| ensures u[i] != u[j] {
        assert u[i] == before[i] && before[i] in before;
        assert j < |before| ==> u[j] == before[j];
      }
    }
  }

  lemma {:induction false} LongerPattern(names: seq<string>, i: nat)
    requires i <= |names|
    ensures |Pattern(names[..i])| <= |Pattern(names)|
  {
    if i < |names| {
      LongerPattern(names[..|names| - 1], i);
      assert names[..|names| - 1][..i] == names[..i];
    } else {
      assert names[..i] == names;
    }
  }

  predicate Fits(names: seq<string>)
  {
    |names| <= MAX_SYMBOLS && |Pattern(names)| <= MAX_PATTERN_CHARS
  }

  /** The longest prefix that fits. */
  ghost predicate LongestFitting(usable: seq<string>, names: seq<string>)
  {
    && names <= usable && Fits(names)
    && forall k | |names| < k <= |usable| :: !Fits(usable[..k])
  }

  /** Once one name more does not fit, no longer prefix does. */
  lemma NextTooLong(usable: seq<string>, names: seq<string>)
    requires names <= usable && Fits(names)
    requires |names| < |usable| ==> !Fits(usable[..|names| + 1])
    ensures LongestFitting(usable, names)
  {
    forall k | |names| < k <= |usable| ensures !Fits(usable[..k]) {
      LongerPattern(usable[..k], |names| + 1);
      assert usable[..k][..|names| + 1] == usable[..|names| + 1];
    }
  }

  lemma NextName(candidates: seq<string>, i: nat)
    requires i < |candidates|
    ensures Usable(candidates[..i]) <= Usable(candidates) && Usable(candidates[..i + 1]) <= Usable(candidates)
    ensures var names, name := Usable(candidates[..i]), candidates[i];
            Usable(candidates[..i + 1]) == if IsGreppable(name) && name !in names then names + [name] else names
  {
    UsableGrows(candidates, i);
    UsableGrows(candidates, i + 1);
    assert candidates[..i + 1][..i] == candidates[..i];
  }

  lemma PatternNext(names: seq<string>, name: string)
    ensures |Pattern(names + [name])| == |Pattern(names)| + |name| + if names != [] then 1 else 0
  {
    assert (names + [name])[..|names|] == names;
  }

  lemma NoRoom(usable: seq<string>, names: seq<string>, name: string)
    requires names + [name] <= usable && Fits(names) && !Fits(names + [name])
    ensures LongestFitting(usable, names)
  {
    assert usable[..|names| + 1] == names + [name];
    NextTooLong(usable, names);
  }

  /** The loop over the candidates stops at the first name for which there is no room. */
  method ChooseNames(blocks: seq<Block>) returns (names: seq<string>)
    ensures LongestFitting(Usable(Candidates(blocks)), names)
  {
    var candidates := Candidates(blocks);
    var patternLen := 0;
    names := [];
    for i := 0 to |candidates|
      invariant names == Usable(candidates[..i]) && Fits(names) && patternLen == |Pattern(names)|
    {
      NextName(candidates, i);
      if |names| >= MAX_SYMBOLS {
        NextTooLong(Usable(candidates), names);
        return;
      }
      var name := candidates[i];
      if !IsGreppable(name) || name in names {
        continue;
      }
      var added := |name| + if names != [] then 1 else 0;
      PatternNext(names, name);
      if patternLen + added > MAX_PATTERN_CHARS {
        NoRoom(Usable(candidates), names, name);
        return;
      }
      patternLen := patternLen + added;
      names := names + [name];
    }
    assert candidates[..|candidates|] == candidates;
    NextTooLong(Usable(candidates), names);
  }

  /** The hint template around its two commands, line endings normalized and trimmed. */
  const INTRO: string :=
    "\n\n---\nResults above are top-k, not exhaustive. To find every usage of a symbol, search the repo literally:\n"
  const SECOND: string := "   (or: "
  const LAST: string := ")"

  function Call(tool: string, pattern: string): (call: string)
    ensures |call| == |tool| + |pattern| + 2
  {
    tool + "'" + pattern + "'"
  }

  function RenderHint(pattern: string): (hint: string)
    ensures |hint| == 16 + |INTRO| + |SECOND| + |LAST| + 2 * |pattern|
  {
    INTRO + Call("rg ", pattern) + SECOND + Call("grep -rE ", pattern) + LAST
  }

  /** No hint when no symbol can be searched for. */
  method BuildGrepHint(blocks: seq<Block>) returns (hint: Option<string>, ghost names: seq<string>)
    ensures LongestFitting(Usable(Candidates(blocks)), names)
    ensures hint == if names == [] then None else Some(RenderHint(Pattern(names)))
    ensures hint.None? <==> forall c | c in Candidates(blocks) :: !IsGreppable(c)
    ensures hint.Some? ==> |hint.value| <= MAX_HINT_CHARS
  {
    var chosen := ChooseNames(blocks);
    names := chosen;
    FirstNameFits(Candidates(blocks), names);
    if chosen == [] {
      return None, names;
    }
    hint := Some(RenderHint(Pattern(chosen)));
  }

  /** A single name always fits, so there are names as soon as one candidate is greppable. */
  lemma FirstNameFits(candidates: seq<string>, names: seq<string>)
    requires LongestFitting(Usable(candidates), names)
    ensures names == [] <==> forall c | c in candidates :: !IsGreppable(c)
  {
    var usable := Usable(candidates);
    UsableIsDistinct(candidates);
    if usable != [] {
      assert usable[0] in usable;
      assert usable[..1] == [usable[0]];
      assert Fits(usable[..1]);
    }
    if names != [] {
      assert names[0] == usable[0];
    }
  }

  // ── What the pattern means ────────────────────────────────────────────────

  predicate InAlphabet(c: char)
  {
    c in LOWER || c in UPPER || c == '_' || c in DIGITS
  }

  lemma CharIff(c: char)
    ensures IsIdentifierChar(c) <==> InAlphabet(c)
    ensures IsLetter(c) <==> InAlphabet(c) && c !in DIGITS
  {
    LowerIff(c);
    UpperIff(c);
    DigitIff(c);
  }

  /** A name can be searched for exactly if it has 4 to 40 letters, digits and underscores and does not
      begin with a digit. */
  lemma GreppableIff(name: string)
    ensures IsGreppable(name) <==>
            4 <= |name| <= 40 && name[0] !in DIGITS && forall i | 0 <= i < |name| :: InAlphabet(name[i])
  {
    forall i | 0 <= i < |name|
      ensures IsIdentifierChar(name[i]) <==> InAlphabet(name[i])
      ensures IsLetter(name[i]) <==> InAlphabet(name[i]) && name[i] !in DIGITS
    {
      CharIff(name[i]);
    }
  }

  lemma NoMeta(name: string, c: char)
    requires IsGreppable(name) && (c == '|' || c == '\'')
    ensures c !in name
  {}

  /** The alternatives of the pattern are exactly the chosen names. */
  lemma {:induction false} PatternMeansNames(names: seq<string>)
    requires names != [] && forall k | 0 <= k < |names| :: IsGreppable(names[k])
    ensures Pieces(Pattern(names), At('|')) == names
    ensures '\'' !in Pattern(names)
  {
    var n := |names| - 1;
    assert IsGreppable(names[n]);
    NoMeta(names[n], '|');
    NoMeta(names[n], '\'');
    OnePiece(names[n], At('|'));
    if n > 0 {
      PatternMeansNames(names[..n]);
      PiecesSplit(Pattern(names[..n]), '|', names[n], At('|'));
      assert Pattern(names) == Pattern(names[..n]) + ['|'] + names[n];
    }
  }

  lemma BothParts(a: string, x: string, b: string, y: string, c: string)
    ensures Contains(a + x + b + y + c, x) && Contains(a + x + b + y + c, y)
  {
    ContainsMiddle(a, x, b + y + c);
    assert a + x + b + y + c == a + x + (b + y + c);
    ContainsMiddle(a + x + b, y, c);
  }

  /** The hint calls both tools with the quoted pattern. */
  lemma HintCallsTools(pattern: string)
    ensures Contains(RenderHint(pattern), "rg " + "'" + pattern + "'")
    ensures Contains(RenderHint(pattern), "grep -rE " + "'" + pattern + "'")
  {
    BothParts(INTRO, "rg " + "'" + pattern + "'", SECOND, "grep -rE " + "'" + pattern + "'", LAST);
  }

  // ── Which names come first ────────────────────────────────────────────────

  ghost predicate Defines(blocks: seq<Block>, name: string)
  {
    exists k :: 0 <= k < |blocks| && name in blocks[k].symbols
  }

  ghost predicate Calls(blocks: seq<Block>, name: string)
  {
    exists k :: 0 <= k < |blocks| && name in blocks[k].calleeNames
  }

  lemma {:induction false} SymbolIff(blocks: seq<Block>, name: string)
    ensures name in AllSymbols(blocks) <==> Defines(blocks, name)
    ensures name in AllCalleeNames(blocks) <==> Calls(blocks, name)
  {
    if blocks != [] {
      var rest := blocks[1..];
      SymbolIff(rest, name);
      assert forall k | 0 <= k < |rest| :: rest[k] == blocks[k + 1];
      assert name in blocks[0].symbols ==> Defines(blocks, name);
      assert name in blocks[0].calleeNames ==> Calls(blocks, name);
      if Defines(rest, name) {
        var k :| 0 <= k < |rest| && name in rest[k].symbols;
        assert name in blocks[k + 1].symbols;
      }
      if Calls(rest, name) {
        var k :| 0 <= k < |rest| && name in rest[k].calleeNames;
        assert name in blocks[k + 1].calleeNames;
      }
    }
  }

  lemma {:induction false} FirstBlocksFirst(blocks: seq<Block>, n: nat)
    requires n <= |blocks|
    ensures AllSymbols(blocks[..n]) <= AllSymbols(blocks) && AllCalleeNames(blocks[..n]) <= AllCalleeNames(blocks)
  {
    if n > 0 {
      FirstBlocksFirst(blocks[1..], n - 1);
      assert blocks[..n][1..] == blocks[1..][..n - 1];
    }
  }

  lemma EarlierFirst(candidates: seq<string>, front: seq<string>, i: nat, j: nat)
    requires front <= candidates && i < j < |Usable(candidates)| && Usable(candidates)[j] in front
    ensures Usable(candidates)[i] in front
  {
    var u, f := Usable(candidates), Usable(front);
    assert candidates[..|front|] == front;
    UsableGrows(candidates, |front|);
    UsableIsDistinct(candidates);
    UsableIsDistinct(front);
    assert u[j] in u;
    var k :| 0 <= k < |f| && f[k] == u[j];
    assert f[k] == u[k] && k == j;
    assert f[i] == u[i] && f[i] in f;
  }

  /** Names are taken in this order: what the blocks define, block by block, and after all of that what
      they call, block by block. */
  lemma NamesInOrder(blocks: seq<Block>, n: nat, i: nat, j: nat)
    requires n <= |blocks| && i < j < |Usable(Candidates(blocks))|
    ensures var u := Usable(Candidates(blocks));
            && (Defines(blocks[..n], u[j]) ==> Defines(blocks[..n], u[i]))
            && (Calls(blocks[..n], u[j]) ==> Defines(blocks, u[i]) || Calls(blocks[..n], u[i]))
  {
    var u, front := Usable(Candidates(blocks)), blocks[..n];
    FirstBlocksFirst(blocks, n);
    SymbolIff(front, u[i]);
    SymbolIff(front, u[j]);
    SymbolIff(blocks, u[i]);
    if Defines(front, u[j]) {
      EarlierFirst(Candidates(blocks), AllSymbols(front), i, j);
    }
    if Calls(front, u[j]) {
      EarlierFirst(Candidates(blocks), AllSymbols(blocks) + AllCalleeNames(front), i, j);
    }
  }

  /** And every name that a block defines or calls is a candidate. */
  lemma CandidateIff(blocks: seq<Block>, name: string)
    ensures name in Candidates(blocks) <==> Defines(blocks, name) || Calls(blocks, name)
  {
    SymbolIff(blocks, name);
  }
}
