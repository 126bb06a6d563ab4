/** `quote_string`, `unquote_string` and `get_quote_span` (utils_string.cc):
    escaping a string into a quoted literal, undoing it, and finding the span
    of the first quoted part of a string. */
module Quoting {
  import opened Basics
  import opened Replace
  import opened StdString

  const Backslash: char := '\\'

  /** What `quote_string` puts between the quotes: every backslash doubled,
      every quote character preceded by a backslash, everything else as is. */
  function Escaped(s: string, q: char): string {
    if s == [] then []
    else EscapeChar(s[0], q) + Escaped(s[1..], q)
  }

  function EscapeChar(c: char, q: char): string {
    if c == Backslash then [Backslash, Backslash]
    else if c == q then [Backslash, q]
    else [c]
  }

  /** `quote_string`: first every backslash is doubled, then every quote
      character is escaped, and the result is put between two quotes. */
  function QuoteString(s: string, q: char): (r: string)
    ensures |r| >= 2 && r[0] == q && r[|r| - 1] == q
    ensures q != Backslash ==> r == [q] + Escaped(s, q) + [q]
  {
    var backslash := ReplaceAll(s, [Backslash], [Backslash, Backslash]);
    var esc := ReplaceAll(backslash, [q], [Backslash, q]);
    if q != Backslash then EscapeInTwoPasses(s, q); [q] + esc + [q]
    else [q] + esc + [q]
  }

  /** `unquote_string`: drop one pair of enclosing quotes if present, then
      turn every backslash-quote into a quote, then every double backslash
      into one backslash. It never lengthens the string, and a string
      without backslashes only loses its enclosing quotes. That it undoes
      `quote_string` is `QuoteRoundTrip`. */
  function UnquoteString(s: string, q: char): (r: string)
    ensures |r| <= |s|
    ensures Backslash !in s && |s| >= 2 && s[0] == q && s[|s| - 1] == q ==> r == s[1..|s| - 1]
    ensures Backslash !in s && !(|s| >= 2 && s[0] == q && s[|s| - 1] == q) ==> r == s
  {
    var inner := if |s| >= 2 && s[0] == q && s[|s| - 1] == q then s[1..|s| - 1] else s;
    var unq := ReplaceAll(inner, [Backslash, q], [q]);
    ScanShrinks(inner, [Backslash, q], [q]);
    ScanShrinks(unq, [Backslash, Backslash], [Backslash]);
    if Backslash in s then ReplaceAll(unq, [Backslash, Backslash], [Backslash])
    else
      assert forall k :: 0 <= k < |inner| ==> inner[k] in s;
      UnescapeWithoutBackslash(inner, q);
      ReplaceAll(unq, [Backslash, Backslash], [Backslash])
  }

  /** Both unescaping passes leave a string without backslashes alone. */
  lemma UnescapeWithoutBackslash(t: string, q: char)
    requires forall k :: 0 <= k < |t| ==> t[k] != Backslash
    ensures ReplaceAll(ReplaceAll(t, [Backslash, q], [q]), [Backslash, Backslash], [Backslash]) == t
  {
    forall p | 0 <= p
      ensures !OccursAt(t, [Backslash, q], p) && !OccursAt(t, [Backslash, Backslash], p)
    {
      if p + 2 <= |t| {
        assert t[p..p + 2][0] == t[p];
      }
    }
    ReplaceAbsent(t, [Backslash, q], [q]);
    ReplaceAbsent(t, [Backslash, Backslash], [Backslash]);
  }

  /** The two replacement passes of `quote_string` produce `Escaped`. */
  lemma {:induction false} EscapeInTwoPasses(s: string, q: char)
    requires q != Backslash
    ensures ReplaceAll(ReplaceAll(s, [Backslash], [Backslash, Backslash]), [q], [Backslash, q])
            == Escaped(s, q)
  {
    if s != [] {
      var d := ReplaceAll(s, [Backslash], [Backslash, Backslash]);
      var head := if s[0] == Backslash then [Backslash, Backslash] else [s[0]];
      var tail := ReplaceAll(s[1..], [Backslash], [Backslash, Backslash]);
      assert d == head + tail;
      ScanCharConcat(head, tail, q, [Backslash, q]);
      assert ReplaceAll(head, [q], [Backslash, q]) == EscapeChar(s[0], q) by {
        if s[0] == Backslash {
          assert head[1..] == [Backslash];
        }
      }
      EscapeInTwoPasses(s[1..], q);
    }
  }

  /** What is left of `Escaped` after the first pass of `unquote_string`:
      backslashes are still doubled, quote characters are plain again. */
  function HalfUnescaped(s: string): string {
    if s == [] then []
    else (if s[0] == Backslash then [Backslash, Backslash] else [s[0]]) + HalfUnescaped(s[1..])
  }

  /** An escaped string never starts with a quote character. */
  lemma EscapedHead(s: string, q: char)
    requires q != Backslash && s != []
    ensures Escaped(s, q) != [] && Escaped(s, q)[0] != q
  {
  }

  /** The first pass of `unquote_string` undoes the quote escaping. */
  lemma {:induction false} UnescapeQuotes(s: string, q: char)
    requires q != Backslash
    ensures ReplaceAll(Escaped(s, q), [Backslash, q], [q]) == HalfUnescaped(s)
  {
    if s != [] {
      var e := Escaped(s, q);
      var rest := Escaped(s[1..], q);
      UnescapeQuotes(s[1..], q);
      if s[0] == Backslash {
        assert e == [Backslash, Backslash] + rest;
        assert e[1..] == [Backslash] + rest;
        assert e[1..][1..] == rest;
        assert e[1] == Backslash;
        assert Scan(e, [Backslash, q], [q]) == [Backslash] + Scan(e[1..], [Backslash, q], [q]);
        if rest != [] {
          EscapedHead(s[1..], q);
          assert e[1..][1] != q;
        }
        assert Scan(e[1..], [Backslash, q], [q]) == [Backslash] + Scan(rest, [Backslash, q], [q]);
      } else if s[0] == q {
        assert e == [Backslash, q] + rest;
        assert e[2..] == rest;
        assert Scan(e, [Backslash, q], [q]) == [q] + Scan(rest, [Backslash, q], [q]);
      } else {
        assert e == [s[0]] + rest;
        assert e[1..] == rest;
        assert Scan(e, [Backslash, q], [q]) == [s[0]] + Scan(rest, [Backslash, q], [q]);
      }
    }
  }

  /** The second pass of `unquote_string` halves the doubled backslashes. */
  lemma {:induction false} HalveBackslashes(s: string)
    ensures ReplaceAll(HalfUnescaped(s), [Backslash, Backslash], [Backslash]) == s
  {
    if s != [] {
      var h := HalfUnescaped(s);
      var rest := HalfUnescaped(s[1..]);
      HalveBackslashes(s[1..]);
      if s[0] == Backslash {
        assert h == [Backslash, Backslash] + rest;
        assert h[2..] == rest;
        assert Scan(h, [Backslash, Backslash], [Backslash]) == [Backslash] + Scan(rest, [Backslash, Backslash], [Backslash]);
      } else {
        assert h == [s[0]] + rest;
        assert h[1..] == rest;
        assert Scan(h, [Backslash, Backslash], [Backslash]) == [s[0]] + Scan(rest, [Backslash, Backslash], [Backslash]);
      }
    }
  }

  /** Round trip: for any quote character other than the backslash,
      unquoting a quoted string gives the string back. */
  lemma QuoteRoundTrip(s: string, q: char)
    requires q != Backslash
    ensures UnquoteString(QuoteString(s, q), q) == s
  {
    var quoted := QuoteString(s, q);
    assert quoted[1..|quoted| - 1] == Escaped(s, q);
    UnescapeQuotes(s, q);
    HalveBackslashes(s);
  }

  /** Whether position `i` of `s` is escaped when a scan starts at `from` in
      the unescaped state: a backslash escapes the character after it unless
      it is itself escaped. */
  function EscapedAt(s: string, from: nat, i: nat): bool
    requires from <= i <= |s|
    decreases i - from
  {
    if i == from then false else s[i - 1] == Backslash && !EscapedAt(s, from, i - 1)
  }

  /** Position `i` holds a quote character that is not escaped. */
  predicate QuoteAt(s: string, q: char, from: nat, i: nat)
    requires from <= i < |s|
  {
    s[i] == q && !EscapedAt(s, from, i)
  }

  /** Position `j` holds a quote character that is not escaped when the scan
      restarts right after the opening quote at `open`. */
  predicate ClosingQuoteAt(s: string, q: char, open: nat, j: nat)
    requires open < j < |s|
  {
    QuoteAt(s, q, open + 1, j)
  }

  /** `get_quote_span`: the position of the first unescaped quote character
      and of the next unescaped one after it, the escape state restarting
      after the opening quote. A string shorter than two characters or
      without an unescaped quote gives `(npos, npos)`; an opening quote
      without a closing one gives `(open, npos)`. */
  method GetQuoteSpan(q: char, str: string) returns (open: Option<nat>, close: Option<nat>)
    ensures |str| < 2 ==> open.None?
    ensures open.None? ==> close.None?
    ensures open.None? && |str| >= 2 ==> forall i :: 0 <= i < |str| ==> !QuoteAt(str, q, 0, i)
    ensures open.Some? ==> open.value < |str| && QuoteAt(str, q, 0, open.value)
    ensures open.Some? ==> forall i :: 0 <= i < open.value ==> !QuoteAt(str, q, 0, i)
    ensures close.Some? ==> open.Some? && open.value < close.value < |str|
                            && ClosingQuoteAt(str, q, open.value, close.value)
    ensures open.Some? ==> forall j :: open.value < j < |str| && (close.None? || j < close.value)
                                       ==> !ClosingQuoteAt(str, q, open.value, j)
  {
    var escaped := false;
    if |str| < 2 {
      return None, None;
    }
    var openPos: nat := 0;
    // The C++ loop condition reads str[i] before testing i < end, relying on
    // the terminating NUL at str[end]; testing the bound first gives the
    // same outcome, since at i == end the condition is false either way.
    var i: nat := 0;
    var end := |str|;
    while i < end && (str[i] != q || escaped)
      invariant i <= end && openPos == i
      invariant escaped == EscapedAt(str, 0, i)
      invariant forall k :: 0 <= k < i ==> !QuoteAt(str, q, 0, k)
    {
      openPos := openPos + 1;
      escaped := str[i] == Backslash && !escaped;
      i := i + 1;
    }
    if openPos == |str| {
      return None, None;
    }
    var closePos: nat := openPos + 1;
    i := closePos;
    while i < end && (str[i] != q || escaped)
      invariant openPos < i <= end && closePos == i
      invariant escaped == EscapedAt(str, openPos + 1, i)
      invariant forall k :: openPos < k < i ==> !ClosingQuoteAt(str, q, openPos, k)
    {
      closePos := closePos + 1;
      escaped := str[i] == Backslash && !escaped;
      i := i + 1;
    }
    open := Some(openPos);
    close := if closePos == |str| then None else Some(closePos);
  }

  /** For a quote character other than the backslash, restarting the escape
      state after the opening quote changes nothing: the closing quote is
      also unescaped when the whole string is scanned from the start. */
  lemma {:induction false} RestartAfterQuote(s: string, q: char, open: nat, j: nat)
    requires q != Backslash
    requires open < j <= |s| && s[open] == q
    ensures EscapedAt(s, open + 1, j) == EscapedAt(s, 0, j)
    decreases j - open
  {
    if j > open + 1 {
      RestartAfterQuote(s, q, open, j - 1);
    }
  }
}
