/**
 * Rust's `str::split` with a string pattern, followed by `collect` into a
 * vector and `Vec::get`, as used on the reply to the client-id query.
 * Matches are searched left to right and never overlap; the text between
 * them (possibly empty) becomes the pieces.
 */
module TextSplit {
  import opened Wrappers

  /** `sep` occurs in `s` starting at position `i`. */
  predicate OccursAt(s: string, sep: string, i: nat) {
    i + |sep| <= |s| && s[i..i + |sep|] == sep
  }

  /** `sep` occurs nowhere in `s`. */
  predicate Free(s: string, sep: string) {
    forall j: nat :: j <= |s| ==> !OccursAt(s, sep, j)
  }

  /** The first position at or after `from` where `sep` occurs in `s`. */
  function FindFrom(s: string, sep: string, from: nat): (r: Option<nat>)
    decreases |s| - from
    ensures r.Some? ==> from <= r.value && OccursAt(s, sep, r.value)
    ensures r.Some? ==> forall j: nat :: from <= j < r.value ==> !OccursAt(s, sep, j)
    ensures r.None? ==> forall j: nat :: from <= j ==> !OccursAt(s, sep, j)
  {
    if from + |sep| > |s| then None
    else if OccursAt(s, sep, from) then Some(from)
    else FindFrom(s, sep, from + 1)
  }

  /** A text that never holds the separator's first character cannot hold the separator. */
  lemma FreeOfLead(s: string, sep: string)
    requires |sep| > 0
    requires forall i :: 0 <= i < |s| ==> s[i] != sep[0]
    ensures Free(s, sep)
  {
    forall j: nat | j <= |s| ensures !OccursAt(s, sep, j) {
      if j + |sep| <= |s| {
        assert s[j..j + |sep|][0] == s[j];
      }
    }
  }

  /** The first position where `sep` occurs in `s`. */
  function Find(s: string, sep: string): (r: Option<nat>) {
    FindFrom(s, sep, 0)
  }

  /** An occurrence with none before it is the one `Find` reports. */
  lemma FindFirst(s: string, sep: string, k: nat)
    requires OccursAt(s, sep, k)
    requires forall j: nat :: j < k ==> !OccursAt(s, sep, j)
    ensures Find(s, sep) == Some(k)
  {
  }

  /** Without any occurrence `Find` reports none. */
  lemma FindNone(s: string, sep: string)
    requires Free(s, sep)
    ensures Find(s, sep) == None
  {
  }

  /** `s.split(sep).collect::<Vec<&str>>()` for a non-empty separator. */
  function Split(s: string, sep: string): (parts: seq<string>)
    requires |sep| > 0
    decreases |s|
    ensures |parts| >= 1
  {
    match Find(s, sep)
    case None => [s]
    case Some(i) => [s[..i]] + Split(s[i + |sep|..], sep)
  }

  /** `parts.join(sep)`: the inverse partner of `Split`. */
  function Join(parts: seq<string>, sep: string): (s: string) {
    if |parts| == 0 then ""
    else if |parts| == 1 then parts[0]
    else parts[0] + sep + Join(parts[1..], sep)
  }

  /** `Vec::get`: the element at `n`, if there is one. */
  function Get(parts: seq<string>, n: nat): (r: Option<string>)
    ensures r.Some? <==> n < |parts|
    ensures r.Some? ==> r.value == parts[n]
  {
    if n < |parts| then Some(parts[n]) else None
  }

  /** Splitting loses nothing: joining the pieces with the separator gives the text back. */
  lemma {:induction false} JoinSplit(s: string, sep: string)
    requires |sep| > 0
    decreases |s|
    ensures Join(Split(s, sep), sep) == s
  {
    match Find(s, sep)
    case None =>
    case Some(i) =>
      var tail := s[i + |sep|..];
      var rest := Split(tail, sep);
      JoinSplit(tail, sep);
      assert Split(s, sep) == [s[..i]] + rest;
      assert ([s[..i]] + rest)[1..] == rest;
      assert s[i..i + |sep|] == sep;
      assert s == s[..i] + s[i..i + |sep|] + tail;
  }

  /** No piece of a split contains the separator. */
  lemma {:induction false} SplitPiecesFree(s: string, sep: string)
    requires |sep| > 0
    decreases |s|
    ensures forall k :: 0 <= k < |Split(s, sep)| ==> Free(Split(s, sep)[k], sep)
  {
    match Find(s, sep)
    case None =>
    case Some(i) =>
      var tail := s[i + |sep|..];
      SplitPiecesFree(tail, sep);
      var head := s[..i];
      forall j: nat ensures !OccursAt(head, sep, j) {
        if OccursAt(head, sep, j) {
          assert s[j..j + |sep|] == head[j..j + |sep|];
          assert OccursAt(s, sep, j);
        }
      }
      assert Split(s, sep) == [head] + Split(tail, sep);
  }

  /** The first piece runs up to the first occurrence of the separator, or is the whole text. */
  lemma SplitFirst(s: string, sep: string)
    requires |sep| > 0
    ensures Split(s, sep)[0] == match Find(s, sep) case None => s case Some(i) => s[..i]
  {
  }

  /** Splitting at the first occurrence `k`: the piece before it, then the split of what follows. */
  lemma SplitAt(s: string, sep: string, k: nat)
    requires |sep| > 0
    requires OccursAt(s, sep, k)
    requires forall j: nat :: j < k ==> !OccursAt(s, sep, j)
    ensures Split(s, sep) == [s[..k]] + Split(s[k + |sep|..], sep)
  {
    FindFirst(s, sep, k);
  }

  /** After a one-character separator-free text, the separator's first occurrence is right after it. */
  lemma FindAfterFree(a: string, sep: string, rest: string)
    requires |sep| == 1
    requires Free(a, sep)
    ensures Find(a + sep + rest, sep) == Some(|a|)
    ensures Split(a + sep + rest, sep) == [a] + Split(rest, sep)
  {
    var s := a + sep + rest;
    var k := |a|;
    assert s[k..k + 1] == sep;
    forall j: nat | j < k ensures !OccursAt(s, sep, j) {
      assert s[j..j + 1] == a[j..j + 1];
      assert !OccursAt(a, sep, j);
    }
    FindFirst(s, sep, k);
    SplitAt(s, sep, k);
    assert s[..k] == a;
    assert s[k + 1..] == rest;
  }

  /** A text without the separator splits into itself alone. */
  lemma SplitFree(s: string, sep: string)
    requires |sep| > 0
    requires Free(s, sep)
    ensures Split(s, sep) == [s]
  {
    FindNone(s, sep);
  }
}
