/** Bytes, and first-occurrence search in sequences (Rust's `windows(n).position(..)`). */
module Bytes {
  import opened Wrappers

  type byte = x: int | 0 <= x < 256

  type bytes = seq<byte>

  const CR: byte := 13
  const LF: byte := 10
  const CRLF: bytes := [13, 10]
  const BLANK_LINE: bytes := [13, 10, 13, 10]

  /** `needle` occurs in `s` at index `i`. */
  predicate At<T(==)>(s: seq<T>, needle: seq<T>, i: int) {
    0 <= i && i + |needle| <= |s| && s[i..i + |needle|] == needle
  }

  lemma AtIff<T>(s: seq<T>, needle: seq<T>, i: int)
    ensures At(s, needle, i)
            <==> 0 <= i && i + |needle| <= |s| && forall k | i <= k < i + |needle| :: s[k] == needle[k - i]
  {
    if 0 <= i && i + |needle| <= |s| {
      assert forall k | i <= k < i + |needle| :: s[k] == s[i..i + |needle|][k - i];
    }
  }

  /** The first index at or after `start` where `needle` occurs. */
  function Find<T(==)>(s: seq<T>, needle: seq<T>, start: nat): (r: Option<nat>)
    requires start <= |s|
    ensures r.Some? ==> start <= r.value <= |s| - |needle| && At(s, needle, r.value)
    ensures r.Some? ==> forall j :: start <= j < r.value ==> !At(s, needle, j)
    ensures r.None? ==> forall j :: start <= j ==> !At(s, needle, j)
    decreases |s| - start
  {
    if |s| - start < |needle| then None
    else if s[start..start + |needle|] == needle then Some(start)
    else Find(s, needle, start + 1)
  }

  /** Occurrences that end inside a prefix do not depend on what follows it. */
  lemma AtInPrefix<T>(s: seq<T>, rest: seq<T>, needle: seq<T>, i: int)
    requires i + |needle| <= |s|
    ensures At(s, needle, i) == At(s + rest, needle, i)
  {
    if 0 <= i {
      assert (s + rest)[i..i + |needle|] == s[i..i + |needle|];
    }
  }

  /** A first occurrence that ends inside `s` is also the first one in `s + rest`. */
  lemma FindInPrefix<T>(s: seq<T>, rest: seq<T>, needle: seq<T>)
    requires Find(s, needle, 0).Some?
    ensures Find(s + rest, needle, 0) == Find(s, needle, 0)
  {
    var i := Find(s, needle, 0).value;
    AtInPrefix(s, rest, needle, i);
    forall j | 0 <= j < i
      ensures !At(s + rest, needle, j)
    {
      AtInPrefix(s, rest, needle, j);
    }
  }

  /** Occurrences are the same in a suffix, with the indices shifted. */
  lemma AtInSuffix<T>(prefix: seq<T>, s: seq<T>, needle: seq<T>, i: nat)
    ensures At(prefix + s, needle, |prefix| + i) == At(s, needle, i)
  {
    if i + |needle| <= |s| {
      assert (prefix + s)[|prefix| + i..|prefix| + i + |needle|] == s[i..i + |needle|];
    }
  }

  /** Searching from `start` is searching the rest of the sequence. */
  lemma FindInRest<T>(s: seq<T>, needle: seq<T>, start: nat)
    requires start <= |s|
    ensures Find(s, needle, start).Some? == Find(s[start..], needle, 0).Some?
    ensures Find(s, needle, start).Some? ==>
              Find(s, needle, start).value == start + Find(s[start..], needle, 0).value
  {
    assert s == s[..start] + s[start..];
    forall i: nat
      ensures At(s, needle, start + i) == At(s[start..], needle, i)
    {
      AtInSuffix(s[..start], s[start..], needle, i);
    }
    if Find(s, needle, start).Some? {
      assert At(s[start..], needle, Find(s, needle, start).value - start);
    }
    if Find(s[start..], needle, 0).Some? {
      assert At(s, needle, start + Find(s[start..], needle, 0).value);
    }
  }

  lemma FindsFirst<T>(s: seq<T>, needle: seq<T>, i: nat)
    requires At(s, needle, i) && forall j | 0 <= j < i :: !At(s, needle, j)
    ensures Find(s, needle, 0) == Some(i)
  {
  }
}
