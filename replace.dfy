/** `str_replace` (utils_string.cc): replace occurrences of `from` by `to`. */
module Replace {
  import opened Basics
  import opened StdString

  /** Reference meaning of `str_replace`. With an empty `from`, `to` is put in
      front of the string and after every character; otherwise the string is
      scanned left to right and every occurrence of `from` found is replaced by
      `to`, the scan resuming right after it (occurrences do not overlap). */
  function ReplaceAll(s: string, from: string, to: string): string {
    if from == [] then to + Interleave(s, to) else Scan(s, from, to)
  }

  /** Each character of `s` followed by `sep`. */
  function Interleave(s: string, sep: string): string {
    if s == [] then [] else [s[0]] + sep + Interleave(s[1..], sep)
  }

  /** The left-to-right, non-overlapping replacement for a non-empty `from`. */
  function Scan(s: string, from: string, to: string): string
    requires from != []
    decreases |s|
  {
    if s == [] then []
    else if from <= s then to + Scan(s[|from|..], from, to)
    else [s[0]] + Scan(s[1..], from, to)
  }

  /** `str_replace`: the loop over `std::string::find` computes `ReplaceAll`. */
  method StrReplace(s: string, from: string, to: string) returns (str: string)
    ensures str == ReplaceAll(s, from, to)
  {
    if from == [] {
      str := InsertEverywhere(s, to);
    } else {
      str := ReplaceOccurrences(s, from, to);
    }
  }

  /** The empty-`from` branch: `to`, then each character followed by `to`. */
  method InsertEverywhere(s: string, to: string) returns (str: string)
    ensures str == to + Interleave(s, to)
  {
    str := [];
    str := str + to;
    assert s[0..] == s;
    for i := 0 to |s|
      invariant str + Interleave(s[i..], to) == to + Interleave(s, to)
    {
      InterleaveStep(s, to, i, str);
      str := str + [s[i]];
      str := str + to;
    }
    assert s[|s|..] == [];
  }

  /** The non-empty-`from` branch: copy up to each occurrence found, then `to`. */
  method ReplaceOccurrences(s: string, from: string, to: string) returns (str: string)
    requires from != []
    ensures str == Scan(s, from, to)
  {
    str := [];
    var start: nat := 0;
    var p: Option<nat> := Find(s, from, 0);
    assert s[0..] == s;
    while p.Some?
      invariant start <= |s|
      invariant IsFirstOccurrence(s, from, start, p)
      invariant str + Scan(s[start..], from, to) == Scan(s, from, to)
      decreases |s| - start
    {
      str, start := ReplaceRound(s, from, to, start, p.value, str);
      p := Find(s, from, start);
    }
    ScanWithoutMatch(s, from, to, start);
    if start < |s| {
      str := str + s[start..];
    } else {
      assert s[start..] == [];
    }
  }

  /** One round of the loop: copy `s[start..p]`, append `to`, resume after
      the occurrence at `p`. */
  method ReplaceRound(s: string, from: string, to: string, start: nat, p: nat, str: string)
    returns (copied: string, next: nat)
    requires from != [] && start <= |s|
    requires IsFirstOccurrence(s, from, start, Some(p))
    requires str + Scan(s[start..], from, to) == Scan(s, from, to)
    ensures start < next <= |s| && next == p + |from|
    ensures copied + Scan(s[next..], from, to) == Scan(s, from, to)
  {
    ReplaceStep(s, from, to, start, p, str);
    copied := str;
    if p > start {
      copied := copied + s[start..p];
    } else {
      assert copied + s[start..p] == copied;
    }
    copied := copied + to;
    next := p + |from|;
  }

  lemma InterleaveStep(s: string, sep: string, i: nat, str: string)
    requires i < |s|
    ensures (str + [s[i]] + sep) + Interleave(s[i + 1..], sep) == str + Interleave(s[i..], sep)
  {
    assert s[i..][1..] == s[i + 1..];
    assert Interleave(s[i..], sep) == [s[i]] + sep + Interleave(s[i + 1..], sep);
  }

  lemma ReplaceStep(s: string, from: string, to: string, start: nat, p: nat, str: string)
    requires from != [] && start <= |s|
    requires IsFirstOccurrence(s, from, start, Some(p))
    requires str + Scan(s[start..], from, to) == Scan(s, from, to)
    ensures (str + s[start..p]) + to + Scan(s[p + |from|..], from, to) == Scan(s, from, to)
  {
    ScanUpToMatch(s, from, to, start, p);
  }

  /** From `start`, the first occurrence at `p` is replaced and everything
      before it is kept. */
  lemma {:induction false} ScanUpToMatch(s: string, from: string, to: string, start: nat, p: nat)
    requires from != [] && start <= |s|
    requires IsFirstOccurrence(s, from, start, Some(p))
    ensures Scan(s[start..], from, to) == s[start..p] + to + Scan(s[p + |from|..], from, to)
    decreases p - start
  {
    var t := s[start..];
    if start == p {
      PrefixIsOccurrence(s, from, start);
      assert t[|from|..] == s[p + |from|..];
    } else {
      assert !OccursAt(s, from, start);
      PrefixIsOccurrence(s, from, start);
      assert t[1..] == s[start + 1..];
      ScanUpToMatch(s, from, to, start + 1, p);
      assert s[start..p] == [s[start]] + s[start + 1..p];
    }
  }

  /** `from` is a prefix of the rest of `s` exactly when it occurs at `start`. */
  lemma PrefixIsOccurrence(s: string, pat: string, start: nat)
    requires start <= |s|
    ensures (pat <= s[start..]) == OccursAt(s, pat, start)
  {
    if start + |pat| <= |s| {
      assert s[start..][..|pat|] == s[start..start + |pat|];
    }
  }

  /** From `start` on, with no further occurrence, the rest is kept as is. */
  lemma {:induction false} ScanWithoutMatch(s: string, from: string, to: string, start: nat)
    requires from != [] && start <= |s|
    requires IsFirstOccurrence(s, from, start, None)
    ensures Scan(s[start..], from, to) == s[start..]
    decreases |s| - start
  {
    var t := s[start..];
    if start < |s| {
      assert !OccursAt(s, from, start);
      PrefixIsOccurrence(s, from, start);
      assert t[1..] == s[start + 1..];
      ScanWithoutMatch(s, from, to, start + 1);
    }
  }

  /** With an empty `from`, the result has `|s| + 1` copies of `to` around
      the `|s|` characters. */
  lemma {:induction false} ReplaceEmptyLength(s: string, to: string)
    ensures |ReplaceAll(s, [], to)| == |s| + (|s| + 1) * |to|
  {
    InterleaveLength(s, to);
  }

  lemma {:induction false} InterleaveLength(s: string, sep: string)
    ensures |Interleave(s, sep)| == |s| * (1 + |sep|)
  {
    if s != [] {
      InterleaveLength(s[1..], sep);
    }
  }

  /** With an empty `from`, the characters of `s` sit at every
      `(|to| + 1)`-th position, after a leading `to`. */
  lemma {:induction false} ReplaceEmptyPositions(s: string, to: string, k: nat)
    requires k < |s|
    ensures |ReplaceAll(s, [], to)| == |s| + (|s| + 1) * |to|
    ensures ReplaceAll(s, [], to)[|to| + k * (|to| + 1)] == s[k]
  {
    ReplaceEmptyLength(s, to);
    InterleaveAt(s, to, k);
  }

  lemma {:induction false} InterleaveAt(s: string, sep: string, k: nat)
    requires k < |s|
    ensures |Interleave(s, sep)| == |s| * (1 + |sep|)
    ensures Interleave(s, sep)[k * (|sep| + 1)] == s[k]
  {
    InterleaveLength(s, sep);
    if k > 0 {
      InterleaveAt(s[1..], sep, k - 1);
      var rest := Interleave(s[1..], sep);
      assert Interleave(s, sep) == ([s[0]] + sep) + rest;
      assert k * (|sep| + 1) == (|sep| + 1) + (k - 1) * (|sep| + 1);
    }
  }

  /** A non-empty `from` that does not occur in `s` leaves `s` unchanged. */
  lemma ReplaceAbsent(s: string, from: string, to: string)
    requires from != []
    requires forall p :: 0 <= p ==> !OccursAt(s, from, p)
    ensures ReplaceAll(s, from, to) == s
  {
    ScanWithoutMatch(s, from, to, 0);
    assert s[0..] == s;
  }

  /** Replacing a non-empty `from` by itself changes nothing. */
  lemma {:induction false} ReplaceBySelf(s: string, from: string)
    requires from != []
    ensures ReplaceAll(s, from, from) == s
    decreases |s|
  {
    if s != [] {
      if from <= s {
        ReplaceBySelf(s[|from|..], from);
        assert s == from + s[|from|..];
      } else {
        ReplaceBySelf(s[1..], from);
        assert s == [s[0]] + s[1..];
      }
    }
  }

  /** A one-character pattern is replaced character by character, so the
      replacement distributes over concatenation. */
  lemma {:induction false} ScanCharConcat(a: string, b: string, x: char, to: string)
    ensures Scan(a + b, [x], to) == Scan(a, [x], to) + Scan(b, [x], to)
    decreases |a|
  {
    if a != [] {
      assert (a + b)[1..] == a[1..] + b;
      assert [x] <= a + b <==> [x] <= a;
      ScanCharConcat(a[1..], b, x, to);
    } else {
      assert a + b == b;
    }
  }

  /** Replacing `from` by a `to` no longer than it never makes the string
      longer. */
  lemma {:induction false} ScanShrinks(s: string, from: string, to: string)
    requires from != [] && |to| <= |from|
    ensures |Scan(s, from, to)| <= |s|
    decreases |s|
  {
    if s != [] {
      if from <= s {
        ScanShrinks(s[|from|..], from, to);
      } else {
        ScanShrinks(s[1..], from, to);
      }
    }
  }
}
