/** Character and string helpers with the meaning LLVM's `StringRef` gives them:
    ASCII-only case folding, substring search and character filtering. */
module Text {
  import opened Wrappers

  predicate IsDigit(c: char) {
    '0' <= c <= '9'
  }

  function DigitValue(c: char): (d: nat)
    requires IsDigit(c)
    ensures d < 10
  {
    c as int - '0' as int
  }

  /** `llvm::toLower`: only the 26 ASCII capitals are folded. */
  function ToLower(c: char): (r: char)
    ensures 'A' <= c <= 'Z' ==> r as int == c as int + 32
    ensures !('A' <= c <= 'Z') ==> r == c
  {
    if 'A' <= c <= 'Z' then (c as int + 32) as char else c
  }

  /** `StringRef::equals_insensitive`. */
  predicate EqualsInsensitive(a: string, b: string) {
    |a| == |b| && forall i :: 0 <= i < |a| ==> ToLower(a[i]) == ToLower(b[i])
  }

  /** `StringRef::starts_with_insensitive`. */
  predicate StartsWithInsensitive(s: string, prefix: string) {
    |prefix| <= |s| && EqualsInsensitive(s[..|prefix|], prefix)
  }

  predicate OccursAt(s: string, pattern: string, i: nat) {
    i + |pattern| <= |s| && s[i..i + |pattern|] == pattern
  }

  /** `StringRef::contains`. */
  predicate Contains(s: string, pattern: string) {
    exists i: nat | i <= |s| :: OccursAt(s, pattern, i)
  }

  /** The characters of `s` other than `c`, in order. */
  function Remove(s: string, c: char): (r: string)
    ensures |r| <= |s|
    ensures c !in r
    ensures forall x :: x in r <==> x in s && x != c
  {
    if s == [] then []
    else Remove(s[..|s| - 1], c) + (if s[|s| - 1] == c then [] else [s[|s| - 1]])
  }

  /** Removal keeps every other character with its multiplicity, and leaves a
      string without `c` as it is. */
  lemma {:induction false} RemoveCounts(s: string, c: char)
    ensures multiset(Remove(s, c)) == multiset(s)[c := 0]
    ensures c !in s ==> Remove(s, c) == s
    decreases |s|
  {
    if s != [] {
      var init, last := s[..|s| - 1], s[|s| - 1];
      assert s == init + [last];
      RemoveCounts(init, c);
    }
  }

  /** Dropping a character distributes over concatenation. */
  lemma {:induction false} RemoveAppend(s: string, t: string, c: char)
    ensures Remove(s + t, c) == Remove(s, c) + Remove(t, c)
    decreases |t|
  {
    if t == [] {
      assert s + t == s;
    } else {
      assert (s + t)[..|s + t| - 1] == s + t[..|t| - 1];
      RemoveAppend(s, t[..|t| - 1], c);
    }
  }

  /** `find(c)`: the first index holding `c`, if any. */
  function Find(s: string, c: char): (r: Option<nat>)
    ensures r.None? <==> c !in s
    ensures r.Some? ==> r.value < |s| && s[r.value] == c && c !in s[..r.value]
  {
    if s == [] then None
    else if s[0] == c then Some(0)
    else
      match Find(s[1..], c)
      case None => None
      case Some(i) =>
        assert s[..i + 1] == [s[0]] + s[1..][..i];
        Some(i + 1)
  }

  /** `rfind(pattern)`: the last position where `pattern` occurs, if any. */
  function RFind(s: string, pattern: string): (r: Option<nat>)
    ensures r.None? <==> !Contains(s, pattern)
    ensures r.Some? ==> OccursAt(s, pattern, r.value)
    ensures r.Some? ==> forall j: nat :: r.value < j ==> !OccursAt(s, pattern, j)
  {
    RFindAtOrBelow(s, pattern, |s|)
  }

  /** The last position at or below `k` where `pattern` occurs. */
  function RFindAtOrBelow(s: string, pattern: string, k: nat): (r: Option<nat>)
    requires k <= |s|
    ensures r.None? ==> forall j: nat :: j <= k ==> !OccursAt(s, pattern, j)
    ensures r.Some? ==> r.value <= k && OccursAt(s, pattern, r.value)
    ensures r.Some? ==> forall j: nat :: r.value < j <= k ==> !OccursAt(s, pattern, j)
    decreases k
  {
    if OccursAt(s, pattern, k) then Some(k)
    else if k == 0 then None
    else RFindAtOrBelow(s, pattern, k - 1)
  }
}
