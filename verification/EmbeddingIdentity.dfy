/**
 The embedding identity and its canonical key. The warm protocol compares key strings only, so
 it needs the key to be injective: no two embedding spaces share one, whatever characters the
 model name contains.
 */
module EmbeddingIdentity {
  import opened Wrappers

  datatype Provider = Voyage | OpenAI

  datatype Identity = Identity(provider: Provider, model: string, dimensions: Option<nat>)

  function ProviderName(p: Provider): string
  {
    match p
    case Voyage => "voyage"
    case OpenAI => "openai"
  }

  function Digit(d: nat): char
    requires d < 10
  {
    '0' + d as char
  }

  /** Decimal rendering. */
  function Decimal(n: nat): string
  {
    if n < 10 then [Digit(n)] else Decimal(n / 10) + [Digit(n % 10)]
  }

  function DimensionsName(d: Option<nat>): string
  {
    match d
    case Some(n) => Decimal(n)
    case None => "native"
  }

  function KeyString(id: Identity): string
  {
    ProviderName(id.provider) + "|" + id.model + "|" + DimensionsName(id.dimensions)
  }

  // ── Injectivity ───────────────────────────────────────────────────────────

  ghost predicate AllDigits(s: string)
  {
    forall i | 0 <= i < |s| :: '0' <= s[i] <= '9'
  }

  lemma {:induction false} DecimalDigits(n: nat)
    ensures Decimal(n) != [] && AllDigits(Decimal(n))
  {
    if n >= 10 { DecimalDigits(n / 10); }
  }

  lemma {:induction false} DecimalInjective(a: nat, b: nat)
    requires Decimal(a) == Decimal(b)
    ensures a == b
  {
    DecimalDigits(a / 10);
    DecimalDigits(b / 10);
    var s, t := Decimal(a), Decimal(b);
    assert s[|s| - 1] == Digit(a % 10) && t[|t| - 1] == Digit(b % 10);
    if a >= 10 && b >= 10 {
      assert Decimal(a / 10) == s[..|s| - 1];
      assert Decimal(b / 10) == t[..|t| - 1];
      DecimalInjective(a / 10, b / 10);
    }
  }

  lemma NoBar(id: Identity)
    ensures '|' !in ProviderName(id.provider)
    ensures '|' !in DimensionsName(id.dimensions)
  {
    if id.dimensions.Some? {
      DecimalDigits(id.dimensions.value);
    }
  }

  lemma DimensionsInjective(a: Option<nat>, b: Option<nat>)
    requires DimensionsName(a) == DimensionsName(b)
    ensures a == b
  {
    if a.Some? { DecimalDigits(a.value); }
    if b.Some? { DecimalDigits(b.value); }
    if a.Some? && b.Some? {
      DecimalInjective(a.value, b.value);
    } else {
      assert "native"[0] == 'n';
    }
  }

  lemma BarPlaces(s: string, x: string)
    ensures (s + "|" + x)[|s|] == '|'
    ensures '|' !in x ==> forall k | |s| < k < |s + "|" + x| :: (s + "|" + x)[k] != '|'
    ensures '|' !in s ==> forall k | 0 <= k < |s| :: (s + "|" + x)[k] != '|'
  {
    var whole := s + "|" + x;
    forall k | |s| < k < |whole| ensures whole[k] in x {
      assert whole[k] == x[k - |s| - 1];
    }
    forall k | 0 <= k < |s| ensures whole[k] in s {
      assert whole[k] == s[k];
    }
  }

  /** The parts around a bar are determined by the string when the bar is the last one, and
      when it is the first one. */
  lemma FieldsUnique(s: string, x: string, t: string, y: string)
    requires s + "|" + x == t + "|" + y
    requires ('|' !in x && '|' !in y) || ('|' !in s && '|' !in t)
    ensures s == t && x == y
  {
    BarPlaces(s, x);
    BarPlaces(t, y);
    var whole := s + "|" + x;
    assert |s| == |t|;
    assert s == whole[..|s|] && t == whole[..|t|];
    assert x == whole[|s| + 1..] && y == whole[|t| + 1..];
  }

  /** Equal keys mean the same embedding space. */
  lemma KeyStringInjective(a: Identity, b: Identity)
    requires KeyString(a) == KeyString(b)
    ensures a == b
  {
    NoBar(a);
    NoBar(b);
    var pa, pb := ProviderName(a.provider), ProviderName(b.provider);
    FieldsUnique(pa + "|" + a.model, DimensionsName(a.dimensions), pb + "|" + b.model, DimensionsName(b.dimensions));
    FieldsUnique(pa, a.model, pb, b.model);
    DimensionsInjective(a.dimensions, b.dimensions);
    assert "voyage"[0] == 'v' && "openai"[0] == 'o';
  }
}
