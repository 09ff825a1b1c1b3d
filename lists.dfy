/** The indexing rules of a Python list, which `ASTRef` exposes through `__getitem__`,
    `__setitem__`, `__delitem__`, `insert` and `append`. */
module Lists {
  import opened Wrappers

  /** The position an integer subscript denotes in a list of length `n`: a negative subscript
      counts from the end; anything outside `-n .. n - 1` is an `IndexError` (`None`). */
  function Index(n: nat, ii: int): (r: Option<nat>)
    ensures r.Some? <==> 0 <= ii + n && ii < n
    ensures r.Some? ==> r.value < n && (r.value == ii || r.value == ii + n)
  {
    if 0 <= ii < n then Some(ii)
    else if 0 <= ii + n && ii < 0 then Some(ii + n)
    else None
  }

  /** The position `insert(ii, v)` puts `v` at in a list of length `n`: like a subscript, but
      clamped to the ends instead of failing. */
  function InsertPosition(n: nat, ii: int): (r: nat)
    ensures r <= n
    ensures ii >= n ==> r == n
    ensures ii + n <= 0 ==> r == 0
  {
    if ii < 0 then (if ii + n < 0 then 0 else ii + n)
    else if ii > n then n
    else ii
  }

  /** `s` with `v` placed before position `p`. */
  function InsertAt<T>(s: seq<T>, p: nat, v: T): (r: seq<T>)
    requires p <= |s|
    ensures |r| == |s| + 1 && r[p] == v
  {
    s[..p] + [v] + s[p..]
  }

  /** `s` without the element at position `i`. */
  function RemoveAt<T>(s: seq<T>, i: nat): (r: seq<T>)
    requires i < |s|
    ensures |r| == |s| - 1
  {
    s[..i] + s[i + 1..]
  }

  /** Inserting keeps the other elements in their order: taking the new element out again
      gives back the list. */
  lemma InsertKeepsOrder<T>(s: seq<T>, p: nat, v: T)
    requires p <= |s|
    ensures RemoveAt(InsertAt(s, p, v), p) == s
    ensures forall i :: 0 <= i < p ==> InsertAt(s, p, v)[i] == s[i]
    ensures forall i :: p <= i < |s| ==> InsertAt(s, p, v)[i + 1] == s[i]
  {
    var r := InsertAt(s, p, v);
    assert r[..p] == s[..p];
    assert r[p + 1..] == s[p..];
  }

  /** Inserting at an existing subscript puts the new element where that subscript pointed;
      a subscript counted from the front then finds the new element. */
  lemma InsertAtSubscript<T>(s: seq<T>, ii: int, v: T)
    requires Index(|s|, ii).Some?
    ensures InsertPosition(|s|, ii) == Index(|s|, ii).value
    ensures ii >= 0 ==> InsertAt(s, InsertPosition(|s|, ii), v)[ii] == v
  {
  }

  /** `append(v)` is `insert(len, v)`: the element goes at the end. */
  lemma AppendAtEnd<T>(s: seq<T>, v: T)
    ensures InsertAt(s, InsertPosition(|s|, |s|), v) == s + [v]
  {
    assert s[..|s|] == s;
  }

  /** Deleting the element under a subscript and inserting it back under the same subscript
      restores the list, for a subscript that counts from the front. */
  lemma DeleteThenInsert<T>(s: seq<T>, i: nat)
    requires i < |s|
    ensures InsertAt(RemoveAt(s, i), InsertPosition(|s| - 1, i), s[i]) == s
  {
    var d := RemoveAt(s, i);
    assert d[..i] == s[..i];
    assert d[i..] == s[i + 1..];
  }

  /** Growing a list one element at a time, as a loop over `b` appending to `a` does. */
  lemma AppendNext<T>(a: seq<T>, b: seq<T>, i: nat)
    requires i < |b|
    ensures a + b[..i + 1] == (a + b[..i]) + [b[i]]
  {
    assert b[..i + 1] == b[..i] + [b[i]];
  }

  /** A list is the prefix of itself with one more element. */
  lemma PrefixOfAppend<T>(a: seq<T>, x: T)
    ensures (a + [x])[..|a|] == a
  {
  }

  /** The whole of a list, and a list appended to nothing. */
  lemma WholeList<T>(b: seq<T>)
    ensures [] + b == b && b[..|b|] == b
  {
  }

  /** Two dictionaries with the same keys and the same value under each key are equal. */
  lemma SameMap<K, V>(a: map<K, V>, b: map<K, V>)
    requires forall k :: k in a <==> k in b
    requires forall k :: k in a ==> a[k] == b[k]
    ensures a == b
  {
  }
}
