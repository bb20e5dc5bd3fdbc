/** Character-level search primitives of std::string, as the parsers of
    SearchManager.cpp use them: find, rfind, count, compare-at-prefix and
    substr with its clamping of the length argument. Positions are naturals;
    std::string::npos is represented by None. */
module Strings {

  datatype Option<T> = None | Some(value: T)

  /** `s.compare(0, |p|, p) == 0`: the first |p| characters of s are p. */
  predicate StartsWith(s: string, p: string) {
    |s| >= |p| && s[..|p|] == p
  }

  /** `s.find(c, from)`: the first position at or after `from` holding c. */
  function Find(s: string, c: char, from: nat): (r: Option<nat>)
    ensures r.Some? ==> from <= r.value < |s| && s[r.value] == c
    ensures r.Some? ==> forall k :: from <= k < r.value ==> s[k] != c
    ensures r.None? ==> forall k :: from <= k < |s| ==> s[k] != c
    decreases |s| - from
  {
    if from >= |s| then None
    else if s[from] == c then Some(from)
    else Find(s, c, from + 1)
  }

  /** The last position strictly below `end` holding c. */
  function RFindBefore(s: string, c: char, end: nat): (r: Option<nat>)
    requires end <= |s|
    ensures r.Some? ==> r.value < end && s[r.value] == c
    ensures r.Some? ==> forall k :: r.value < k < end ==> s[k] != c
    ensures r.None? ==> forall k :: 0 <= k < end ==> s[k] != c
  {
    if end == 0 then None
    else if s[end - 1] == c then Some(end - 1)
    else RFindBefore(s, c, end - 1)
  }

  /** `s.rfind(c, pos)`: the last position at or before `pos`; a negative
      `pos` stands for a size_t that wrapped to npos, which searches the
      whole string, as does any pos beyond the end. */
  function RFindUpTo(s: string, c: char, pos: int): (r: Option<nat>)
    ensures r.Some? ==> r.value < |s| && s[r.value] == c
    ensures r.Some? && 0 <= pos ==> r.value <= pos
  {
    if pos < 0 || pos >= |s| then RFindBefore(s, c, |s|) else RFindBefore(s, c, pos + 1)
  }

  /** `s.rfind(c)`: the last position holding c. */
  function RFind(s: string, c: char): (r: Option<nat>)
    ensures r.Some? ==> r.value < |s| && s[r.value] == c
    ensures r.Some? ==> forall k :: r.value < k < |s| ==> s[k] != c
    ensures r.None? ==> forall k :: 0 <= k < |s| ==> s[k] != c
  {
    RFindBefore(s, c, |s|)
  }

  /** The two-character string [a, b] starts at position k of s. */
  predicate PairAt(s: string, k: nat, a: char, b: char) {
    k + 1 < |s| && s[k] == a && s[k + 1] == b
  }

  /** The last start position below `end` of the two-character string [a, b]. */
  function RFindPairBefore(s: string, a: char, b: char, end: nat): (r: Option<nat>)
    requires end < |s|
    ensures r.Some? ==> r.value < end && PairAt(s, r.value, a, b)
    ensures r.Some? ==> forall k :: r.value < k < end ==> !PairAt(s, k, a, b)
    ensures r.None? ==> forall k :: 0 <= k < end ==> !PairAt(s, k, a, b)
  {
    if end == 0 then None
    else if PairAt(s, end - 1, a, b) then Some(end - 1)
    else RFindPairBefore(s, a, b, end - 1)
  }

  /** `s.rfind(p)` for a two-character p = [a, b]: the last start position. */
  function RFindPair(s: string, a: char, b: char): (r: Option<nat>)
    ensures r.Some? ==> PairAt(s, r.value, a, b)
    ensures r.Some? ==> forall k :: r.value < k < |s| - 1 ==> !PairAt(s, k, a, b)
    ensures r.None? ==> forall k :: 0 <= k < |s| - 1 ==> !PairAt(s, k, a, b)
  {
    if |s| < 2 then None else RFindPairBefore(s, a, b, |s| - 1)
  }

  /** `std::count(s.begin() + from, s.end(), c)`. */
  function CountFrom(s: string, c: char, from: nat): (n: nat)
    ensures n <= if from <= |s| then |s| - from else 0
    decreases |s| - from
  {
    if from >= |s| then 0
    else (if s[from] == c then 1 else 0) + CountFrom(s, c, from + 1)
  }

  /** `s.substr(i, j - i)` where both are size_t: when j < i the length
      wraps to a huge value and substr clamps it to the end of the string. */
  function SubstrTo(s: string, i: nat, j: nat): (r: string)
    requires i <= |s|
    ensures j >= i && j <= |s| ==> r == s[i..j]
    ensures j < i ==> r == s[i..]
  {
    if j >= i then s[i..if j <= |s| then j else |s|] else s[i..]
  }

  /** A single occurrence of c at or after `from` is the one Find returns,
      and there is no other. */
  lemma {:induction false} CountOneFind(s: string, c: char, from: nat, k: nat)
    requires from <= k < |s| && s[k] == c
    requires CountFrom(s, c, from) == 1
    ensures Find(s, c, from) == Some(k)
    ensures forall m :: from <= m < |s| && m != k ==> s[m] != c
    decreases |s| - from
  {
    if from < k {
      CountPositive(s, c, from + 1, k);
      if s[from] == c {
        assert false;
      }
      CountOneFind(s, c, from + 1, k);
    } else {
      CountZeroNone(s, c, from + 1);
    }
  }

  /** An occurrence at k >= from makes the count from `from` positive. */
  lemma {:induction false} CountPositive(s: string, c: char, from: nat, k: nat)
    requires from <= k < |s| && s[k] == c
    ensures CountFrom(s, c, from) >= 1
    decreases |s| - from
  {
    if from < k {
      CountPositive(s, c, from + 1, k);
    }
  }

  /** A zero count means c does not occur from `from` on. */
  lemma {:induction false} CountZeroNone(s: string, c: char, from: nat)
    requires CountFrom(s, c, from) == 0
    ensures forall m :: from <= m < |s| ==> s[m] != c
    decreases |s| - from
  {
    if from < |s| {
      CountZeroNone(s, c, from + 1);
    }
  }

  /** Find returns the first occurrence, so naming it pins the result down. */
  lemma FindIs(s: string, c: char, from: nat, k: nat)
    requires from <= k < |s| && s[k] == c
    requires forall m :: from <= m < k ==> s[m] != c
    ensures Find(s, c, from) == Some(k)
  {
  }

  /** RFind returns the last occurrence, so naming it pins the result down. */
  lemma RFindIs(s: string, c: char, k: nat)
    requires k < |s| && s[k] == c
    requires forall m :: k < m < |s| ==> s[m] != c
    ensures RFind(s, c) == Some(k)
  {
  }

  lemma RFindPairIs(s: string, a: char, b: char, k: nat)
    requires PairAt(s, k, a, b)
    requires forall m :: k < m < |s| - 1 ==> !PairAt(s, m, a, b)
    ensures RFindPair(s, a, b) == Some(k)
  {
  }

  /** Positions without c do not add to the count. */
  lemma {:induction false} CountSkip(s: string, c: char, from: nat, to: nat)
    requires from <= to <= |s|
    requires forall m :: from <= m < to ==> s[m] != c
    ensures CountFrom(s, c, from) == CountFrom(s, c, to)
    decreases |s| - from
  {
    if from < to {
      CountSkip(s, c, from + 1, to);
    }
  }
}
