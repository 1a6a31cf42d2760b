/** Character-string primitives shared by both variants of the tool:
    `std::string::find` and the removal of one character. */
module Strings {

  /** `sub` occurs in `s` starting at index `i`. */
  predicate OccursAt(s: string, sub: string, i: int)
  {
    0 <= i && i + |sub| <= |s| && s[i..i + |sub|] == sub
  }

  /** `std::string::find(sub, from)`: the first index at or after `from`
      where `sub` occurs, or -1 for `npos` (the callers store the result in
      an `int`). */
  function Find(s: string, sub: string, from: nat): (r: int)
    ensures r == -1 || (from <= r && OccursAt(s, sub, r))
    ensures forall i :: from <= i && (r == -1 || i < r) ==> !OccursAt(s, sub, i)
    decreases |s| - from
  {
    if from + |sub| > |s| then -1
    else if s[from..from + |sub|] == sub then from
    else Find(s, sub, from + 1)
  }

  /** `s` with every `c` removed and all other characters kept in order. */
  function Without(s: string, c: char): (r: string)
    ensures forall x :: x in r <==> x in s && x != c
    ensures |r| <= |s|
  {
    if s == [] then []
    else (if s[0] == c then [] else [s[0]]) + Without(s[1..], c)
  }

  /** Removing a character distributes over concatenation: together with
      the one-character case this pins down `Without` as the order-keeping
      filter. */
  lemma {:induction false} WithoutAppend(a: string, b: string, c: char)
    ensures Without(a + b, c) == Without(a, c) + Without(b, c)
  {
    if a == [] {
      assert a + b == b;
    } else {
      assert (a + b)[0] == a[0];
      assert (a + b)[1..] == a[1..] + b;
      WithoutAppend(a[1..], b, c);
    }
  }

  /** A string that does not contain `c` is left unchanged. */
  lemma {:induction false} WithoutAbsent(s: string, c: char)
    requires c !in s
    ensures Without(s, c) == s
  {
    if s != [] {
      assert s == [s[0]] + s[1..];
      WithoutAbsent(s[1..], c);
    }
  }

  /** A one-character string occurs exactly where that character stands. */
  lemma OccursAtChar(s: string, c: char, i: int)
    ensures OccursAt(s, [c], i) <==> 0 <= i < |s| && s[i] == c
  {
    if 0 <= i < |s| {
      assert s[i..i + 1] == [s[i]];
    }
  }

  /** Searching for one character finds its first position at or after
      `from`, or -1 when it does not occur there. */
  lemma FindChar(s: string, c: char, from: nat)
    ensures Find(s, [c], from) == -1 <==> forall k :: from <= k < |s| ==> s[k] != c
    ensures Find(s, [c], from) != -1 ==>
      from <= Find(s, [c], from) < |s| && s[Find(s, [c], from)] == c
      && forall k :: from <= k < Find(s, [c], from) ==> s[k] != c
  {
    forall k | 0 <= k < |s| ensures OccursAt(s, [c], k) <==> s[k] == c {
      OccursAtChar(s, c, k);
    }
  }
}
