/** The order in which the database sorts paths: lexicographic by code point. */
module PathOrder {

  predicate Less(a: string, b: string)
  {
    b != [] && (a == [] || a[0] < b[0] || (a[0] == b[0] && Less(a[1..], b[1..])))
  }

  /** The names agree up to `k`, where the first one ends or has the smaller character. */
  predicate LessAt(a: string, b: string, k: nat)
  {
    && k <= |a| && k < |b| && a[..k] == b[..k]
    && (k == |a| || a[k] < b[k])
  }

  /** The order is decided at the first difference. */
  lemma {:induction false} LessIff(a: string, b: string)
    ensures Less(a, b) <==> exists k: nat :: LessAt(a, b, k)
  {
    if a == [] || b == [] || a[0] != b[0] {
      if Less(a, b) { assert LessAt(a, b, 0); }
    } else {
      LessIff(a[1..], b[1..]);
      if Less(a, b) {
        var k: nat :| LessAt(a[1..], b[1..], k);
        assert a[..k + 1] == [a[0]] + a[1..][..k] && b[..k + 1] == [b[0]] + b[1..][..k];
        assert LessAt(a, b, k + 1);
      }
      if k: nat :| LessAt(a, b, k) {
        assert a[1..][..k - 1] == a[..k][1..] && b[1..][..k - 1] == b[..k][1..];
        assert LessAt(a[1..], b[1..], k - 1);
      }
    }
  }

  lemma {:induction false} LessTransitive(a: string, b: string, c: string)
    requires Less(a, b) && Less(b, c)
    ensures Less(a, c)
  {
    if a != [] && a[0] == b[0] == c[0] {
      LessTransitive(a[1..], b[1..], c[1..]);
    }
  }

  lemma {:induction false} LessTotal(a: string, b: string)
    ensures Less(a, b) || Less(b, a) || a == b
    ensures !(Less(a, b) && Less(b, a))
    ensures !Less(a, a)
  {
    if a != [] && b != [] && a[0] == b[0] {
      LessTotal(a[1..], b[1..]);
      assert a == [a[0]] + a[1..] && b == [b[0]] + b[1..];
    }
    if a != [] { LessTotal(a[1..], a[1..]); }
  }

  ghost predicate Ascending(page: seq<string>)
  {
    forall i, j | 0 <= i < j < |page| :: Less(page[i], page[j])
  }

  /** `page` is the first `limit` members of `pool`, in order. */
  ghost predicate IsPage(page: seq<string>, pool: set<string>, limit: nat)
  {
    && Ascending(page)
    && |page| <= limit
    && (forall p | p in page :: p in pool)
    && (forall p | p in pool && p !in page :: |page| == limit && forall q | q in page :: Less(q, p))
  }

  /** The least member of a non-empty set. */
  method Least(pool: set<string>) returns (least: string)
    requires pool != {}
    ensures least in pool && forall p | p in pool && p != least :: Less(least, p)
  {
    least :| least in pool;
    var rest := pool - {least};
    while rest != {}
      invariant least in pool && rest <= pool
      invariant forall p | p in pool && p !in rest && p != least :: Less(least, p)
    {
      var p :| p in rest;
      rest := rest - {p};
      LessTotal(p, least);
      if Less(p, least) {
        forall q | q in pool && q !in rest && q != p ensures Less(p, q) {
          if q != least { LessTransitive(p, least, q); }
        }
        least := p;
      }
    }
  }

  /** One keyset page. */
  method TakePage(pool: set<string>, limit: nat) returns (page: seq<string>)
    ensures IsPage(page, pool, limit)
  {
    page := [];
    var rest := pool;
    while |page| < limit && rest != {}
      invariant Ascending(page) && |page| <= limit
      invariant rest <= pool && forall p | p in pool :: p in page <==> p !in rest
      invariant forall p | p in page :: p in pool
      invariant forall p, q | p in rest && q in page :: Less(q, p)
      decreases limit - |page|
    {
      var p := Least(rest);
      page := page + [p];
      rest := rest - {p};
    }
  }
}
