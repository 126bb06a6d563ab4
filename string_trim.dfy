/** `str_strip`, `str_lstrip` and `str_rstrip` (utils_string.cc): remove the
    characters of `chars` from both ends, the front only, or the back only. */
module StringTrim {
  import opened Basics
  import opened StdString

  /** `str_lstrip`: the longest suffix of `s` that does not start with a
      character of `chars`; everything removed is in `chars`. */
  function Lstrip(s: string, chars: string): (r: string)
    ensures |r| <= |s| && r == s[|s| - |r|..]
    ensures AllIn(s[..|s| - |r|], chars)
    ensures r == [] || r[0] !in chars
  {
    match FirstNotOf(s, chars, 0)
    case None => []
    case Some(begin) => s[begin..]
  }

  /** `str_rstrip`: the longest prefix of `s` that does not end with a
      character of `chars`; everything removed is in `chars`. */
  function Rstrip(s: string, chars: string): (r: string)
    ensures |r| <= |s| && r == s[..|r|]
    ensures AllIn(s[|r|..], chars)
    ensures r == [] || r[|r| - 1] !in chars
  {
    match LastNotOf(s, chars)
    case None => []
    case Some(end) => s[..end + 1]
  }

  /** `str_strip`: a contiguous piece of `s`, empty exactly when every
      character of `s` is in `chars`, otherwise starting and ending with a
      character outside `chars`; what is cut off on either side is in `chars`. */
  function Strip(s: string, chars: string): (r: string)
    ensures r == [] <==> AllIn(s, chars)
    ensures r != [] ==> r[0] !in chars && r[|r| - 1] !in chars
    ensures exists i :: 0 <= i <= |s| - |r| && s[i..i + |r|] == r
                        && AllIn(s[..i], chars) && AllIn(s[i + |r|..], chars)
  {
    match FirstNotOf(s, chars, 0)
    case None =>
      assert s[..0] == [] && s[0..0] == [] && s[0..] == s;
      []
    case Some(begin) =>
      var end := LastNotOf(s, chars).value;
      var r := s[begin..end + 1];
      assert s[begin..begin + |r|] == r;
      AllInSlice(s, chars, 0, begin);
      assert s[..begin] == s[0..begin];
      AllInSlice(s, chars, end + 1, |s|);
      assert s[begin + |r|..] == s[end + 1..|s|];
      r
  }

  /** Stripping both ends is stripping the back, then the front. */
  lemma StripIsLstripOfRstrip(s: string, chars: string)
    ensures Strip(s, chars) == Lstrip(Rstrip(s, chars), chars)
  {
    match FirstNotOf(s, chars, 0)
    case None =>
      LastNotOfNone(s, chars, |s|);
    case Some(begin) =>
      var end := LastNotOf(s, chars).value;
      var r := s[..end + 1];
      assert Rstrip(s, chars) == r;
      forall k | 0 <= k < begin ensures r[k] in chars {
        assert r[k] == s[k];
      }
      FirstNotOfIs(r, chars, 0, begin);
      assert Lstrip(r, chars) == r[begin..];
      assert r[begin..] == s[begin..end + 1];
  }

  /** Stripping both ends is stripping the front, then the back. */
  lemma StripIsRstripOfLstrip(s: string, chars: string)
    ensures Strip(s, chars) == Rstrip(Lstrip(s, chars), chars)
  {
    var l := Lstrip(s, chars);
    var r := Rstrip(l, chars);
    var i := |s| - |l|;
    var j := i + |r|;
    assert s[j..] == l[|r|..];
    assert s[i..j] == r;
    if r == [] {
      // Here `l` is empty: a non-empty `l` starts outside `chars`.
      forall k | 0 <= k < |s| ensures s[k] in chars {
        assert s[..i][k] == s[k];
      }
    } else {
      assert r[0] == l[0];
    }
    StripIsUnique(s, chars, i, j);
  }

  /** Any decomposition `s == pre + mid + post` where `pre` and `post` consist
      of `chars` and `mid` is empty or starts and ends outside `chars` is the
      one `Strip` picks: the result is determined by these properties. */
  lemma StripIsUnique(s: string, chars: string, i: nat, j: nat)
    requires i <= j <= |s|
    requires AllIn(s[..i], chars) && AllIn(s[j..], chars)
    requires i < j ==> s[i] !in chars && s[j - 1] !in chars
    requires i == j ==> AllIn(s, chars)
    ensures Strip(s, chars) == s[i..j]
  {
    if i < j {
      forall k | 0 <= k < i ensures s[k] in chars {
        assert s[..i][k] == s[k];
      }
      FirstNotOfIs(s, chars, 0, i);
      forall k | j - 1 < k < |s| ensures s[k] in chars {
        assert s[j..][k - j] == s[k];
      }
      LastNotOfIs(s, chars, |s|, j - 1);
    }
  }
}
