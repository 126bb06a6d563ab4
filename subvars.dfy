/** `str_subvars` (utils_string.cc): expand variables in a string. A variable
    starts with `varBegin` and ends either with `varEnd` or, when `varEnd` is
    empty, at the first character that is not an identifier character; its
    name is handed to `subvar`, whose result replaces the whole variable. */
module SubVars {
  import opened Basics
  import opened StdString

  /** `k_idchars`: the characters a variable name may use when no end
      delimiter is given (the digit 0 appears twice in the source, which
      changes nothing). */
  const IdChars: string := "abcdefghijklmnopqrstuvwxyzABCDEFGHIJKLMNOPQRSTUVWXYZ_01234567890"

  /** One round of the expansion loop started at `p0`: either the rest of the
      output is `tail` and the loop ends, or `text` is appended and the loop
      goes on at `next`. */
  datatype Round = Done(tail: string) | Expand(text: string, next: nat)

  function RoundAt(s: string, subvar: string -> string, varBegin: string, varEnd: string, p0: nat): (r: Round)
    requires |varBegin| > 0 && p0 <= |s|
    ensures r.Expand? ==> p0 < r.next <= |s|
  {
    match Find(s, varBegin, p0)
    case None => Done(s[p0..])
    case Some(pos) =>
      var start := pos + |varBegin|;
      if varEnd == [] then
        match FirstNotOf(s, IdChars, start)
        case None => Done(s[p0..pos] + subvar(s[start..]))
        case Some(p1) => Expand(s[p0..pos] + subvar(s[start..p1]), p1)
      else
        match Find(s, varEnd, start)
        case None => Done(s[p0..pos] + s[start..])
        case Some(p1) => Expand(s[p0..pos] + subvar(s[start..p1]), p1 + |varEnd|)
  }

  /** Reference meaning of `str_subvars`, continuing the expansion at `p0`. */
  function SubstFrom(s: string, subvar: string -> string, varBegin: string, varEnd: string, p0: nat): string
    requires |varBegin| > 0 && p0 <= |s|
    decreases |s| - p0
  {
    match RoundAt(s, subvar, varBegin, varEnd, p0)
    case Done(tail) => tail
    case Expand(text, next) => text + SubstFrom(s, subvar, varBegin, varEnd, next)
  }

  /** The expansion of the whole string. */
  function Subst(s: string, subvar: string -> string, varBegin: string, varEnd: string): string
    requires |varBegin| > 0
  {
    SubstFrom(s, subvar, varBegin, varEnd, 0)
  }

  /** `str_subvars`: the loop computes `Subst`. The C++ code asserts that
      `varBegin` is not empty; that is the precondition. The body of the
      loop is `ExpansionRound`. */
  method StrSubvars(s: string, subvar: string -> string, varBegin: string, varEnd: string)
    returns (outS: string)
    requires |varBegin| > 0
    ensures outS == Subst(s, subvar, varBegin, varEnd)
  {
    ghost var goal := Subst(s, subvar, varBegin, varEnd);
    outS := [];
    var p0: nat := 0;
    while true
      invariant p0 <= |s| && outS + SubstFrom(s, subvar, varBegin, varEnd, p0) == goal
      decreases |s| - p0
    {
      var round := ExpansionRound(s, subvar, varBegin, varEnd, p0);
      match round
      case Done(tail) =>
        return outS + tail;
      case Expand(text, next) =>
        ContinueAt(outS, text, SubstFrom(s, subvar, varBegin, varEnd, next));
        outS, p0 := outS + text, next;
    }
  }

  /** One pass through the body of the `str_subvars` loop, starting at `p0`. */
  method ExpansionRound(s: string, subvar: string -> string, varBegin: string, varEnd: string, p0: nat)
    returns (r: Round)
    requires |varBegin| > 0 && p0 <= |s|
    ensures r == RoundAt(s, subvar, varBegin, varEnd, p0)
  {
    var pos := Find(s, varBegin, p0);
    if pos.None? {
      return Done(s[p0..]);
    }
    var piece := s[p0..pos.value];
    var start := pos.value + |varBegin|;
    var p1: Option<nat>;
    if varEnd == [] {
      p1 := FirstNotOf(s, IdChars, start);
    } else {
      p1 := Find(s, varEnd, start);
      if p1.None? {
        return Done(piece + s[start..]);
      }
    }
    if p1.None? {
      r := Done(piece + subvar(s[start..]));
    } else {
      r := Expand(piece + subvar(s[start..p1.value]), p1.value + |varEnd|);
    }
  }

  lemma ContinueAt<T>(out: seq<T>, text: seq<T>, rest: seq<T>)
    ensures out + (text + rest) == (out + text) + rest
  {
  }

  /** When no end delimiter is given and `subvar` writes each variable back
      as it was (`varBegin` followed by the name), expansion changes nothing. */
  lemma {:induction false} RestoringSubvarIsIdentity(s: string, subvar: string -> string, varBegin: string, p0: nat)
    requires |varBegin| > 0 && p0 <= |s|
    requires forall name :: subvar(name) == varBegin + name
    ensures SubstFrom(s, subvar, varBegin, [], p0) == s[p0..]
    decreases |s| - p0
  {
    match Find(s, varBegin, p0)
    case None =>
    case Some(pos) =>
      var start := pos + |varBegin|;
      match FirstNotOf(s, IdChars, start)
      case None =>
        assert subvar(s[start..]) == varBegin + s[start..];
        RestoredLastName(s, subvar, varBegin, p0, pos);
      case Some(p1) =>
        assert subvar(s[start..p1]) == varBegin + s[start..p1];
        RestoringSubvarIsIdentity(s, subvar, varBegin, p1);
        RoundAtVariable(s, subvar, varBegin, [], p0, pos, p1);
        RestoredName(s, subvar, varBegin, p0, pos, p1);
  }

  /** The last round of `RestoringSubvarIsIdentity`: the name runs to the
      end of the string. */
  lemma RestoredLastName(s: string, subvar: string -> string, varBegin: string, p0: nat, pos: nat)
    requires |varBegin| > 0 && p0 <= |s| && Find(s, varBegin, p0) == Some(pos)
    requires FirstNotOf(s, IdChars, pos + |varBegin|) == None
    requires subvar(s[pos + |varBegin|..]) == varBegin + s[pos + |varBegin|..]
    ensures SubstFrom(s, subvar, varBegin, [], p0) == s[p0..]
  {
    var start := pos + |varBegin|;
    assert RoundAt(s, subvar, varBegin, [], p0) == Done(s[p0..pos] + subvar(s[start..]));
    ReassembleTail(s, p0, pos, start, varBegin);
  }

  /** A middle round of `RestoringSubvarIsIdentity`: the variable at `pos`,
      whose name ends at `p1`, is written back unchanged. */
  lemma RestoredName(s: string, subvar: string -> string, varBegin: string, p0: nat, pos: nat, p1: nat)
    requires |varBegin| > 0 && p0 <= pos && pos + |varBegin| <= p1 <= |s| && OccursAt(s, varBegin, pos)
    requires RoundAt(s, subvar, varBegin, [], p0) == Expand(s[p0..pos] + subvar(s[pos + |varBegin|..p1]), p1)
    requires subvar(s[pos + |varBegin|..p1]) == varBegin + s[pos + |varBegin|..p1]
    requires SubstFrom(s, subvar, varBegin, [], p1) == s[p1..]
    ensures SubstFrom(s, subvar, varBegin, [], p0) == s[p0..]
  {
    var start := pos + |varBegin|;
    var text := s[p0..pos] + subvar(s[start..p1]);
    ExpandOnce(s, subvar, varBegin, [], p0, text, p1);
    Reassemble(s, p0, pos, start, p1, varBegin);
    RejoinTail(s, p0, p1);
  }

  /** `SubstFrom` after a round that expands a variable. */
  lemma ExpandOnce(s: string, subvar: string -> string, varBegin: string, varEnd: string, p0: nat, text: string, next: nat)
    requires |varBegin| > 0 && p0 <= |s| && RoundAt(s, subvar, varBegin, varEnd, p0) == Expand(text, next)
    ensures SubstFrom(s, subvar, varBegin, varEnd, p0) == text + SubstFrom(s, subvar, varBegin, varEnd, next)
  {
  }

  /** A variable written back after the text before it gives back the
      original slice. */
  lemma Reassemble(s: string, p0: nat, pos: nat, start: nat, p1: nat, varBegin: string)
    requires p0 <= pos <= start <= p1 <= |s| && s[pos..start] == varBegin
    ensures s[p0..pos] + (varBegin + s[start..p1]) == s[p0..p1]
  {
    Rejoin(s, pos, start, p1);
    Rejoin(s, p0, pos, p1);
  }

  /** A variable written back after the text before it, running to the end
      of the string, gives back the original suffix. */
  lemma ReassembleTail(s: string, p0: nat, pos: nat, start: nat, varBegin: string)
    requires p0 <= pos <= start <= |s| && s[pos..start] == varBegin
    ensures s[p0..pos] + (varBegin + s[start..]) == s[p0..]
  {
    RejoinTail(s, pos, start);
    RejoinTail(s, p0, pos);
  }

  /** Splitting a suffix at an inner point. */
  lemma RejoinTail(s: string, i: nat, j: nat)
    requires i <= j <= |s|
    ensures s[i..] == s[i..j] + s[j..]
  {
  }

  /** Splitting a slice at an inner point. */
  lemma Rejoin(s: string, i: nat, j: nat, k: nat)
    requires i <= j <= k <= |s|
    ensures s[i..k] == s[i..j] + s[j..k]
  {
  }

  /** As written, a variable whose end delimiter never comes is copied
      without its opening delimiter: `"${x"` expands to `"x"`. */
  lemma UnterminatedDropsBegin(subvar: string -> string)
    ensures Subst("${x", subvar, "${", "}") == "x"
  {
    var s := "${x";
    assert s[0..2] == "${";
    assert Find(s, "${", 0) == Some(0);
    assert s[2] == 'x';
    assert Find(s, "}", 3) == None;
    assert Find(s, "}", 2) == None;
    assert RoundAt(s, subvar, "${", "}", 0) == Done([] + s[2..]);
  }

  /** The evidently intended round: an unterminated variable is copied
      with its opening delimiter. */
  function IntendedRoundAt(s: string, subvar: string -> string, varBegin: string, varEnd: string, p0: nat): (r: Round)
    requires |varBegin| > 0 && p0 <= |s|
    ensures r.Expand? ==> p0 < r.next <= |s|
  {
    match Find(s, varBegin, p0)
    case Some(pos) =>
      if varEnd != [] && Find(s, varEnd, pos + |varBegin|).None? then Done(s[p0..])
      else RoundAt(s, subvar, varBegin, varEnd, p0)
    case None => RoundAt(s, subvar, varBegin, varEnd, p0)
  }

  function IntendedSubstFrom(s: string, subvar: string -> string, varBegin: string, varEnd: string, p0: nat): string
    requires |varBegin| > 0 && p0 <= |s|
    decreases |s| - p0
  {
    match IntendedRoundAt(s, subvar, varBegin, varEnd, p0)
    case Done(tail) => tail
    case Expand(text, next) => text + IntendedSubstFrom(s, subvar, varBegin, varEnd, next)
  }

  /** With the intended round, a `subvar` that writes each variable back
      (`varBegin`, name, `varEnd`) leaves every string unchanged. */
  lemma {:induction false} IntendedRestoringIsIdentity(s: string, subvar: string -> string, varBegin: string, varEnd: string, p0: nat)
    requires |varBegin| > 0 && varEnd != [] && p0 <= |s|
    requires forall name :: subvar(name) == varBegin + name + varEnd
    ensures IntendedSubstFrom(s, subvar, varBegin, varEnd, p0) == s[p0..]
    decreases |s| - p0
  {
    match Find(s, varBegin, p0)
    case None =>
      assert IntendedRoundAt(s, subvar, varBegin, varEnd, p0) == Done(s[p0..]);
    case Some(pos) =>
      var start := pos + |varBegin|;
      match Find(s, varEnd, start)
      case None =>
        assert IntendedRoundAt(s, subvar, varBegin, varEnd, p0) == Done(s[p0..]);
      case Some(p1) =>
        var name := s[start..p1];
        var next := p1 + |varEnd|;
        RoundAtVariable(s, subvar, varBegin, varEnd, p0, pos, p1);
        assert IntendedRoundAt(s, subvar, varBegin, varEnd, p0) == RoundAt(s, subvar, varBegin, varEnd, p0);
        IntendedExpandOnce(s, subvar, varBegin, varEnd, p0, s[p0..pos] + subvar(name), next);
        assert subvar(name) == varBegin + name + varEnd;
        IntendedRestoringIsIdentity(s, subvar, varBegin, varEnd, next);
        EnclosedRestored(s, varBegin, varEnd, p0, pos, p1, next, subvar(name),
                         IntendedSubstFrom(s, subvar, varBegin, varEnd, p0),
                         IntendedSubstFrom(s, subvar, varBegin, varEnd, next));
  }

  /** Every occurrence of `varBegin` at or after `p0` is followed by a
      `varEnd`: the string has no unterminated variable there. */
  ghost predicate Terminated(s: string, varBegin: string, varEnd: string, p0: nat) {
    forall p :: p0 <= p && OccursAt(s, varBegin, p) ==> Find(s, varEnd, p + |varBegin|).Some?
  }

  /** As written and as intended, the expansion is the same on every string
      without an unterminated variable: the two differ only there. */
  lemma {:induction false} AsWrittenAgreesWhenTerminated(s: string, subvar: string -> string, varBegin: string,
                                                         varEnd: string, p0: nat)
    requires |varBegin| > 0 && p0 <= |s| && Terminated(s, varBegin, varEnd, p0)
    ensures SubstFrom(s, subvar, varBegin, varEnd, p0) == IntendedSubstFrom(s, subvar, varBegin, varEnd, p0)
    decreases |s| - p0
  {
    assert IntendedRoundAt(s, subvar, varBegin, varEnd, p0) == RoundAt(s, subvar, varBegin, varEnd, p0);
    match RoundAt(s, subvar, varBegin, varEnd, p0)
    case Done(_) =>
    case Expand(text, next) =>
      ExpandOnce(s, subvar, varBegin, varEnd, p0, text, next);
      IntendedExpandOnce(s, subvar, varBegin, varEnd, p0, text, next);
      AsWrittenAgreesWhenTerminated(s, subvar, varBegin, varEnd, next);
  }

  /** As written, a `subvar` that writes each variable back with both
      delimiters leaves unchanged every string in which each `varBegin` is
      followed by a `varEnd`. */
  lemma TerminatedRestoringIsIdentity(s: string, subvar: string -> string, varBegin: string, varEnd: string)
    requires |varBegin| > 0 && varEnd != []
    requires forall name :: subvar(name) == varBegin + name + varEnd
    requires Terminated(s, varBegin, varEnd, 0)
    ensures Subst(s, subvar, varBegin, varEnd) == s
  {
    AsWrittenAgreesWhenTerminated(s, subvar, varBegin, varEnd, 0);
    IntendedRestoringIsIdentity(s, subvar, varBegin, varEnd, 0);
  }

  /** A round that writes the variable at `pos` back with both delimiters,
      followed by the unchanged rest, leaves the suffix at `p0` unchanged. */
  lemma EnclosedRestored(s: string, varBegin: string, varEnd: string, p0: nat, pos: nat, p1: nat, next: nat,
                         expansion: string, whole: string, rest: string)
    requires p0 <= pos && pos + |varBegin| <= p1 && next == p1 + |varEnd| <= |s|
    requires OccursAt(s, varBegin, pos) && OccursAt(s, varEnd, p1)
    requires expansion == varBegin + s[pos + |varBegin|..p1] + varEnd
    requires whole == s[p0..pos] + expansion + rest && rest == s[next..]
    ensures whole == s[p0..]
  {
    ReassembleEnclosed(s, p0, pos, pos + |varBegin|, p1, varBegin, varEnd);
    RejoinTail(s, p0, next);
  }

  /** `IntendedSubstFrom` after a round that expands a variable. */
  lemma IntendedExpandOnce(s: string, subvar: string -> string, varBegin: string, varEnd: string, p0: nat, text: string, next: nat)
    requires |varBegin| > 0 && p0 <= |s| && IntendedRoundAt(s, subvar, varBegin, varEnd, p0) == Expand(text, next)
    ensures IntendedSubstFrom(s, subvar, varBegin, varEnd, p0) == text + IntendedSubstFrom(s, subvar, varBegin, varEnd, next)
  {
  }

  /** A variable written back with both delimiters after the text before it
      gives back the original slice. */
  lemma ReassembleEnclosed(s: string, p0: nat, pos: nat, start: nat, p1: nat, varBegin: string, varEnd: string)
    requires p0 <= pos && start == pos + |varBegin| <= p1 && p1 + |varEnd| <= |s|
    requires OccursAt(s, varBegin, pos) && OccursAt(s, varEnd, p1)
    ensures s[p0..pos] + (varBegin + s[start..p1] + varEnd) == s[p0..p1 + |varEnd|]
  {
    Reassemble(s, p0, pos, start, p1, varBegin);
    Rejoin(s, p0, p1, p1 + |varEnd|);
  }

  /** The round that meets a complete variable. */
  lemma RoundAtVariable(s: string, subvar: string -> string, varBegin: string, varEnd: string, p0: nat, pos: nat, p1: nat)
    requires |varBegin| > 0 && p0 <= |s| && Find(s, varBegin, p0) == Some(pos)
    requires varEnd == [] ==> FirstNotOf(s, IdChars, pos + |varBegin|) == Some(p1)
    requires varEnd != [] ==> Find(s, varEnd, pos + |varBegin|) == Some(p1)
    ensures pos + |varBegin| <= p1 && p1 + |varEnd| <= |s|
    ensures RoundAt(s, subvar, varBegin, varEnd, p0) == Expand(s[p0..pos] + subvar(s[pos + |varBegin|..p1]), p1 + |varEnd|)
  {
  }
}
