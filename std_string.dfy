/** The searches of `std::string` that the toolkit builds on (`find`,
    `find_first_not_of`, `find_last_not_of`), each specified by the position
    it returns. `npos` is `None`. */
module StdString {
  import opened Basics

  /** `pat` occurs in `s` starting at position `p`. */
  predicate OccursAt(s: string, pat: string, p: int) {
    0 <= p && p + |pat| <= |s| && s[p..p + |pat|] == pat
  }

  /** `r` is the least position at or after `from` where `pat` occurs in `s`,
      or `None` when there is none. */
  ghost predicate IsFirstOccurrence(s: string, pat: string, from: nat, r: Option<nat>) {
    && (r.Some? ==> from <= r.value && OccursAt(s, pat, r.value))
    && (forall p :: from <= p && (r.None? || p < r.value) ==> !OccursAt(s, pat, p))
  }

  /** `s.find(pat, from)`. */
  function Find(s: string, pat: string, from: nat): (r: Option<nat>)
    ensures IsFirstOccurrence(s, pat, from, r)
    decreases |s| - from
  {
    if from + |pat| > |s| then None
    else if s[from..from + |pat|] == pat then Some(from)
    else Find(s, pat, from + 1)
  }

  /** `s.find_first_not_of(chars, from)`. */
  function FirstNotOf(s: string, chars: string, from: nat): (r: Option<nat>)
    ensures r.Some? ==> from <= r.value < |s| && s[r.value] !in chars
    ensures forall k :: from <= k < |s| && (r.None? || k < r.value) ==> s[k] in chars
    decreases |s| - from
  {
    if from >= |s| then None
    else if s[from] !in chars then Some(from)
    else FirstNotOf(s, chars, from + 1)
  }

  /** `s.find_last_not_of(chars)` searching backwards from before position `upto`. */
  function LastNotOfBefore(s: string, chars: string, upto: nat): (r: Option<nat>)
    requires upto <= |s|
    ensures r.Some? ==> r.value < upto && s[r.value] !in chars
    ensures forall k :: 0 <= k < upto && (r.None? || r.value < k) ==> s[k] in chars
  {
    if upto == 0 then None
    else if s[upto - 1] !in chars then Some(upto - 1)
    else LastNotOfBefore(s, chars, upto - 1)
  }

  /** `s.find_last_not_of(chars)`. */
  function LastNotOf(s: string, chars: string): (r: Option<nat>)
    ensures r.Some? ==> r.value < |s| && s[r.value] !in chars
    ensures forall k :: 0 <= k < |s| && (r.None? || r.value < k) ==> s[k] in chars
  {
    LastNotOfBefore(s, chars, |s|)
  }

  /** `FirstNotOf` is determined by its contract: a position preceded (from
      `from` on) only by characters of `chars` and itself outside `chars`. */
  lemma {:induction false} FirstNotOfIs(s: string, chars: string, from: nat, i: nat)
    requires from <= i < |s| && s[i] !in chars
    requires forall k :: from <= k < i ==> s[k] in chars
    ensures FirstNotOf(s, chars, from) == Some(i)
    decreases i - from
  {
    if from < i {
      FirstNotOfIs(s, chars, from + 1, i);
    }
  }

  /** `LastNotOfBefore` is determined by its contract. */
  lemma {:induction false} LastNotOfIs(s: string, chars: string, upto: nat, i: nat)
    requires i < upto <= |s| && s[i] !in chars
    requires forall k :: i < k < upto ==> s[k] in chars
    ensures LastNotOfBefore(s, chars, upto) == Some(i)
  {
    if i < upto - 1 {
      LastNotOfIs(s, chars, upto - 1, i);
    }
  }

  /** When every character of `s` is in `chars`, `LastNotOf` finds nothing. */
  lemma {:induction false} LastNotOfNone(s: string, chars: string, upto: nat)
    requires upto <= |s|
    requires forall k :: 0 <= k < upto ==> s[k] in chars
    ensures LastNotOfBefore(s, chars, upto) == None
  {
    if upto > 0 {
      LastNotOfNone(s, chars, upto - 1);
    }
  }

  /** A slice of characters from `chars` consists of `chars`. */
  lemma AllInSlice(s: string, chars: string, a: nat, b: nat)
    requires a <= b <= |s|
    requires forall k :: a <= k < b ==> s[k] in chars
    ensures AllIn(s[a..b], chars)
  {
    forall k | 0 <= k < b - a ensures s[a..b][k] in chars {
      assert s[a..b][k] == s[a + k];
    }
  }

  /** Every character of `t` is one of `chars`. */
  predicate AllIn(t: string, chars: string) {
    forall k :: 0 <= k < |t| ==> t[k] in chars
  }
}
