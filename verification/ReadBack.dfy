/** Reading a text again: the pieces between separators, and the numbers that occur in it. */
module ReadBack {
  import EmbeddingIdentity

  predicate IsDigit(c: char)
  {
    '0' <= c <= '9'
  }

  /** What separates the pieces of a text: one character, or whatever is no digit. */
  datatype Separator = At(c: char) | NonDigit

  predicate Separates(sep: Separator, c: char)
  {
    match sep
    case At(d) => c == d
    case NonDigit => !IsDigit(c)
  }

  function Pieces(text: string, sep: Separator): (r: seq<string>)
    ensures r != []
  {
    if text == [] then [[]]
    else
      var rest := Pieces(text[1..], sep);
      if Separates(sep, text[0]) then [[]] + rest else [[text[0]] + rest[0]] + rest[1..]
  }

  lemma {:induction false} OnePiece(text: string, sep: Separator)
    requires forall i | 0 <= i < |text| :: !Separates(sep, text[i])
    ensures Pieces(text, sep) == [text]
  {
    if text != [] {
      OnePiece(text[1..], sep);
      assert text == [text[0]] + text[1..];
    }
  }

  /** A separator splits a text. */
  lemma {:induction false} PiecesSplit(front: string, c: char, back: string, sep: Separator)
    requires Separates(sep, c)
    ensures Pieces(front + [c] + back, sep) == Pieces(front, sep) + Pieces(back, sep)
  {
    var whole := front + [c] + back;
    if front == [] {
      assert whole[1..] == back;
    } else {
      assert whole[1..] == front[1..] + [c] + back;
      PiecesSplit(front[1..], c, back, sep);
    }
  }

  predicate StandsAt(text: string, part: string, k: nat)
  {
    k + |part| <= |text| && text[k..k + |part|] == part
  }

  ghost predicate Contains(text: string, part: string)
  {
    exists k: nat :: StandsAt(text, part, k)
  }

  lemma ContainsMiddle(front: string, part: string, back: string)
    ensures Contains(front + part + back, part)
  {
    assert StandsAt(front + part + back, part, |front|);
  }

  // ── Numbers ───────────────────────────────────────────────────────────────

  /** The number some digits stand for. */
  function Value(digits: string): int
  {
    if digits == [] then 0 else 10 * Value(digits[..|digits| - 1]) + (digits[|digits| - 1] as int - '0' as int)
  }

  lemma {:induction false} ValueOfDecimal(n: nat)
    ensures Value(EmbeddingIdentity.Decimal(n)) == n
  {
    var s := EmbeddingIdentity.Decimal(n);
    if n >= 10 {
      ValueOfDecimal(n / 10);
      assert s[..|s| - 1] == EmbeddingIdentity.Decimal(n / 10);
    } else {
      assert s[..0] == [];
    }
  }

  function Values(pieces: seq<string>): seq<int>
  {
    if pieces == [] then [] else (if pieces[0] == [] then [] else [Value(pieces[0])]) + Values(pieces[1..])
  }

  lemma {:induction false} ValuesConcat(a: seq<string>, b: seq<string>)
    ensures Values(a + b) == Values(a) + Values(b)
  {
    if a == [] {
      assert a + b == b;
    } else {
      assert (a + b)[1..] == a[1..] + b;
      ValuesConcat(a[1..], b);
    }
  }

  /** The numbers in a text, in order. */
  function Numbers(text: string): seq<int>
  {
    Values(Pieces(text, NonDigit))
  }

  lemma NumbersSplit(front: string, c: char, back: string)
    requires !IsDigit(c)
    ensures Numbers(front + [c] + back) == Numbers(front) + Numbers(back)
  {
    PiecesSplit(front, c, back, NonDigit);
    ValuesConcat(Pieces(front, NonDigit), Pieces(back, NonDigit));
  }

  lemma NumbersOfDecimal(n: nat)
    ensures Numbers(EmbeddingIdentity.Decimal(n)) == [n]
  {
    var s := EmbeddingIdentity.Decimal(n);
    EmbeddingIdentity.DecimalDigits(n);
    OnePiece(s, NonDigit);
    ValueOfDecimal(n);
    assert Values([]) == [] && [s][1..] == [];
  }

  predicate NoDigits(text: string)
  {
    forall i | 0 <= i < |text| :: !IsDigit(text[i])
  }

  /** Words before a text do not change its numbers. */
  lemma {:induction false} WordsFirst(words: string, rest: string)
    requires NoDigits(words)
    ensures Numbers(words + rest) == Numbers(rest)
  {
    if words == [] {
      assert words + rest == rest;
    } else {
      WordsFirst(words[1..], rest);
      NumbersSplit([], words[0], words[1..] + rest);
      assert words + rest == [] + [words[0]] + (words[1..] + rest);
      assert Values([[]]) == [] + Values([[]][1..]);
    }
  }

  /** A number, some words, and the rest. */
  lemma NumberFirst(n: nat, words: string, rest: string)
    requires words != [] && NoDigits(words)
    ensures Numbers(EmbeddingIdentity.Decimal(n) + words + rest) == [n] + Numbers(rest)
  {
    var d := EmbeddingIdentity.Decimal(n);
    NumbersOfDecimal(n);
    WordsFirst(words[1..], rest);
    NumbersSplit(d, words[0], words[1..] + rest);
    assert words == [words[0]] + words[1..];
    assert d + words + rest == d + [words[0]] + (words[1..] + rest);
  }

  lemma NumberLast(n: nat, words: string)
    requires words != [] && NoDigits(words)
    ensures Numbers(EmbeddingIdentity.Decimal(n) + words) == [n]
  {
    NumberFirst(n, words, []);
    assert EmbeddingIdentity.Decimal(n) + words + [] == EmbeddingIdentity.Decimal(n) + words;
    assert Values([[]]) == [] + Values([[]][1..]);
  }

  /** Two numbers with words around them. */
  lemma TwoNumbers(before: string, a: nat, between: string, b: nat, after: string)
    requires NoDigits(before) && NoDigits(between) && NoDigits(after) && between != [] && after != []
    ensures Numbers(before + (EmbeddingIdentity.Decimal(a) + between + (EmbeddingIdentity.Decimal(b) + after))) == [a, b]
  {
    var da, rest := EmbeddingIdentity.Decimal(a), EmbeddingIdentity.Decimal(b) + after;
    NumberLast(b, after);
    NumberFirst(a, between, rest);
    WordsFirst(before, da + between + rest);
  }

  // ── Alphabets ─────────────────────────────────────────────────────────────

  const LOWER: string := "abcdefghijklmnopqrstuvwxyz"
  const UPPER: string := "ABCDEFGHIJKLMNOPQRSTUVWXYZ"
  const DIGITS: string := "0123456789"

  lemma LowerIff(c: char)
    ensures 'a' <= c <= 'z' <==> c in LOWER
  {
    if 'a' <= c <= 'z' { assert LOWER[c as int - 'a' as int] == c; }
  }

  lemma UpperIff(c: char)
    ensures 'A' <= c <= 'Z' <==> c in UPPER
  {
    if 'A' <= c <= 'Z' { assert UPPER[c as int - 'A' as int] == c; }
  }

  lemma DigitIff(c: char)
    ensures '0' <= c <= '9' <==> c in DIGITS
  {
    if '0' <= c <= '9' { assert DIGITS[c as int - '0' as int] == c; }
  }
}
