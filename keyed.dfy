/** Lookup by key in an ordered collection: a unique-key table row, an
    entry of a PHP associative array, a group of a grouped result. */
module Keyed {
  import opened Common

  /** Index of the first element whose key is `k`. */
  function FindBy<T>(s: seq<T>, key: T -> string, k: string): (r: Option<nat>)
    ensures r.Some? ==> r.value < |s| && key(s[r.value]) == k
    ensures r.Some? ==> forall j :: 0 <= j < r.value ==> key(s[j]) != k
    ensures r.None? <==> forall j :: 0 <= j < |s| ==> key(s[j]) != k
  {
    if s == [] then None
    else if key(s[0]) == k then Some(0)
    else
      var r := FindBy(s[1..], key, k);
      assert forall j :: 1 <= j < |s| ==> s[1..][j - 1] == s[j];
      if r.Some? then Some(r.value + 1) else None
  }

  /** The first match depends only on the keys. */
  lemma FindBySameKeys<T>(s: seq<T>, t: seq<T>, key: T -> string, k: string)
    requires |s| == |t| && forall j :: 0 <= j < |s| ==> key(s[j]) == key(t[j])
    ensures FindBy(s, key, k) == FindBy(t, key, k)
  {
    var a, b := FindBy(s, key, k), FindBy(t, key, k);
    if a.Some? {
      assert key(t[a.value]) == k;
    }
    if b.Some? {
      assert key(s[b.value]) == k;
    }
  }

  /** Appending an element finds it only when no earlier element matches. */
  lemma FindByAppend<T>(s: seq<T>, x: T, key: T -> string, k: string)
    ensures FindBy(s + [x], key, k) ==
      if FindBy(s, key, k).Some? then FindBy(s, key, k)
      else if key(x) == k then Some(|s|)
      else None
  {
    var t := s + [x];
    assert forall j :: 0 <= j < |s| ==> t[j] == s[j];
    var a := FindBy(s, key, k);
    if a.Some? {
      assert key(t[a.value]) == k;
    } else if key(x) == k {
      assert key(t[|s|]) == k;
    }
  }

  /** No two elements share a key. */
  predicate KeysDistinct<T>(s: seq<T>, key: T -> string) {
    forall i, j :: 0 <= i < j < |s| ==> key(s[i]) != key(s[j])
  }
}
