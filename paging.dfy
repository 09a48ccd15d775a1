/** The count / `LIMIT ? OFFSET ?` / `ceil(total / limit)` pattern that the
    app listing and the message listing share. */
module Paging {

  function Min(a: int, b: int): int {
    if a < b then a else b
  }

  /** `$offset = ($page - 1) * $limit`; `page` is not clamped. */
  function Offset(page: int, limit: int): int {
    (page - 1) * limit
  }

  /** `ceil($total / $limit)` for a positive limit: the least `q` with
      `q * limit >= total`. */
  function CeilDiv(n: nat, d: int): (q: nat)
    requires d > 0
    ensures (q - 1) * d < n <= q * d
  {
    var q := (n + d - 1) / d;
    assert q * d + (n + d - 1) % d == n + d - 1;
    q
  }

  /** SQL `LIMIT limit OFFSET offset` applied to an ordered result. */
  function Slice<T>(s: seq<T>, offset: nat, limit: nat): (r: seq<T>)
    ensures |r| == if offset >= |s| then 0 else Min(limit, |s| - offset)
    ensures forall k :: 0 <= k < |r| ==> r[k] == s[offset + k]
  {
    if offset >= |s| then [] else s[offset..offset + Min(limit, |s| - offset)]
  }

  lemma MulMonotone(a: int, b: int, d: int)
    requires a <= b && d > 0
    ensures a * d <= b * d
  {
  }

  /** Row `k` of the full ordered result is row `k % limit` of page
      `k / limit + 1`, and that page is within `1..pages`. */
  lemma OnItsPage<T>(s: seq<T>, limit: int, k: nat)
    requires limit > 0 && k < |s|
    ensures var p := k / limit + 1;
            var off := Offset(p, limit);
            && 1 <= p <= CeilDiv(|s|, limit)
            && 0 <= off <= k < off + limit
            && k - off < |Slice(s, off, limit)|
            && Slice(s, off, limit)[k - off] == s[k]
  {
    var p := k / limit + 1;
    var off := Offset(p, limit);
    assert off == (k / limit) * limit;
    assert (k / limit) * limit + k % limit == k;
    var q := CeilDiv(|s|, limit);
    if p > q {
      MulMonotone(q, p - 1, limit);
      assert false;
    }
  }

  /** `pages` is exactly the number of non-empty pages: page `p >= 1` has
      rows iff `p <= ceil(total / limit)`. */
  lemma NonEmptyPages<T>(s: seq<T>, limit: int, p: int)
    requires limit > 0 && p >= 1
    ensures |Slice(s, Offset(p, limit), limit)| > 0 <==> p <= CeilDiv(|s|, limit)
  {
    var q := CeilDiv(|s|, limit);
    if p <= q {
      MulMonotone(p - 1, q - 1, limit);
    } else {
      MulMonotone(q, p - 1, limit);
    }
  }
}
