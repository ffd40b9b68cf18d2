/** The result blocks of a retrieval answer, and the text they are made of. */
module OutputBlocks {
  import opened Wrappers

  /** UTF-8 text. */
  type Text = seq<bv8>

  datatype Block = Block(
    header: Text, content: Text, file: string, lineStart: nat, lineEnd: nat,
    callers: Option<nat>, callerFiles: Option<nat>, callerNames: seq<string>,
    callees: Option<nat>, calleeNames: seq<string>, symbols: seq<string>)

  function CountOr0(n: Option<nat>): nat
  {
    if n.Some? then n.value else 0
  }

  /** The bytes of an ASCII string. */
  function Ascii(s: string): (t: Text)
    ensures |t| == |s|
  {
    seq(|s|, i requires 0 <= i < |s| => if s[i] as int < 128 then s[i] as int as bv8 else 63)
  }

  const NEWLINE: bv8 := 10
  const CARRIAGE_RETURN: bv8 := 13

  /** Length of the text before the first newline. */
  function UpToNewline(t: Text): (k: nat)
    ensures k <= |t| && NEWLINE !in t[..k] && (k < |t| ==> t[k] == NEWLINE)
  {
    if t == [] || t[0] == NEWLINE then 0
    else
      var k := UpToNewline(t[1..]);
      assert t[..k + 1] == [t[0]] + t[1..][..k];
      k + 1
  }

  /** A carriage return goes with the newline it precedes, and only then. */
  function WithoutReturn(line: Text): Text
  {
    if line != [] && line[|line| - 1] == CARRIAGE_RETURN then line[..|line| - 1] else line
  }

  /** The lines of a text. A newline at the very end starts no further line. */
  function Lines(t: Text): seq<Text>
    decreases |t|
  {
    if t == [] then []
    else
      var k := UpToNewline(t);
      if k == |t| then [t] else [WithoutReturn(t[..k])] + Lines(t[k + 1..])
  }

  // ── Lines read back ───────────────────────────────────────────────────────

  /** Each line followed by a newline. */
  function Terminated(raws: seq<Text>): Text
  {
    if raws == [] then [] else raws[0] + [NEWLINE] + Terminated(raws[1..])
  }

  ghost predicate NoNewlines(raws: seq<Text>)
  {
    forall i | 0 <= i < |raws| :: NEWLINE !in raws[i]
  }

  lemma FirstNewline(raw: Text, rest: Text)
    requires NEWLINE !in raw
    ensures UpToNewline(raw + [NEWLINE] + rest) == |raw|
  {
    var t := raw + [NEWLINE] + rest;
    var k := UpToNewline(t);
    assert t[|raw|] == NEWLINE;
    assert forall j | 0 <= j < k :: t[j] in t[..k];
    assert forall j | 0 <= j < |raw| :: t[j] == raw[j] && raw[j] in raw;
  }

  lemma FirstOf(raw: Text, rest: Text)
    requires NEWLINE !in raw
    ensures Lines(raw + [NEWLINE] + rest) == [WithoutReturn(raw)] + Lines(rest)
  {
    var t := raw + [NEWLINE] + rest;
    FirstNewline(raw, rest);
    assert t[..|raw|] == raw && t[|raw| + 1..] == rest;
  }

  lemma LastOf(last: Text)
    requires NEWLINE !in last
    ensures Lines(last) == if last == [] then [] else [last]
  {
    var k := UpToNewline(last);
    assert forall j | 0 <= j < |last| :: last[j] in last;
  }

  lemma AsciiByte(s: string, i: nat, b: bv8)
    requires i < |s| && b < 128 && s[i] as int == b as int
    ensures Ascii(s)[i] == b
  {
    assert (b as int) as bv8 == b;
  }

  /** The lines of a text are what stands between its newlines. */
  lemma {:induction false} LinesOfTerminated(raws: seq<Text>, last: Text)
    requires NoNewlines(raws) && NEWLINE !in last
    ensures |Lines(Terminated(raws) + last)| == |raws| + if last == [] then 0 else 1
    ensures forall i | 0 <= i < |raws| :: Lines(Terminated(raws) + last)[i] == WithoutReturn(raws[i])
    ensures last != [] ==> Lines(Terminated(raws) + last)[|raws|] == last
  {
    if raws == [] {
      assert Terminated(raws) + last == last;
      LastOf(last);
    } else {
      var rest := Terminated(raws[1..]) + last;
      assert Terminated(raws) + last == raws[0] + [NEWLINE] + rest;
      FirstOf(raws[0], rest);
      LinesOfTerminated(raws[1..], last);
    }
  }

  /** Of a line that ends in a carriage return only that is left out. */
  lemma ReturnLeftOut(line: Text)
    ensures WithoutReturn(line + [CARRIAGE_RETURN]) == line
    ensures line == [] || line[|line| - 1] != CARRIAGE_RETURN ==> WithoutReturn(line) == line
  {}

  lemma {:induction false} LinesHaveNoNewline(t: Text)
    ensures NoNewlines(Lines(t))
    decreases |t|
  {
    if t != [] && UpToNewline(t) < |t| {
      LinesHaveNoNewline(t[UpToNewline(t) + 1..]);
    }
  }

  /** Every text is of this kind. */
  lemma {:induction false} SomeTerminated(t: Text) returns (raws: seq<Text>, last: Text)
    ensures NoNewlines(raws) && NEWLINE !in last && t == Terminated(raws) + last
    decreases |t|
  {
    var k := UpToNewline(t);
    if k == |t| {
      raws, last := [], t;
      assert t[..k] == t;
    } else {
      var rest;
      rest, last := SomeTerminated(t[k + 1..]);
      raws := [t[..k]] + rest;
      assert raws[1..] == rest;
      assert t == t[..k] + [NEWLINE] + t[k + 1..];
    }
  }
}
