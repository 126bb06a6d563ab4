/** `str_break_into_lines` (utils_string.cc): cuts a text into lines at
    newlines and, where a line is longer than the width, at the last
    whitespace that keeps it within the width. The character cut at is
    dropped. */
module LineBreaking {
  import opened Basics

  /** `std::isspace` in the "C" locale. */
  predicate IsSpace(c: char) {
    c == ' ' || c == '\t' || c == '\n' || c == '\U{0B}' || c == '\U{0C}' || c == '\r'
  }

  predicate NoSpace(s: string) {
    forall k :: 0 <= k < |s| ==> !IsSpace(s[k])
  }

  predicate NoNewline(s: string) {
    forall k :: 0 <= k < |s| ==> s[k] != '\n'
  }

  /** The smallest index of a newline in `s[lo..hi]`, or `hi` when there is
      none. */
  function FirstNewline(s: string, lo: nat, hi: nat): (r: nat)
    requires lo <= hi <= |s|
    ensures lo <= r <= hi && (r < hi ==> s[r] == '\n')
    ensures forall k :: lo <= k < r ==> s[k] != '\n'
    decreases hi - lo
  {
    if lo == hi then hi else if s[lo] == '\n' then lo else FirstNewline(s, lo + 1, hi)
  }

  /** The inner `while`: from `at` down, the first whitespace, stopping at 0. */
  function BackScan(s: string, at: nat): (r: nat)
    requires at < |s|
    ensures r <= at && (IsSpace(s[r]) || r == 0)
    ensures forall k :: r < k <= at ==> !IsSpace(s[k])
  {
    if IsSpace(s[at]) || at == 0 then at else BackScan(s, at - 1)
  }

  /** The forward `for`: from `from` up, the first whitespace, or `|s|`. */
  function ForwardScan(s: string, from: nat): (r: nat)
    requires from <= |s|
    ensures from <= r <= |s| && (r < |s| ==> IsSpace(s[r]))
    ensures forall k :: from <= k < r ==> !IsSpace(s[k])
    decreases |s| - from
  {
    if from == |s| || IsSpace(s[from]) then from else ForwardScan(s, from + 1)
  }

  /** Where one round of the outer loop cuts `rem`, or `None` when the loop
      stops. Within the width the cut is at the first newline. Past it, the
      search for a newline is skipped (`nl_pos` keeps its old value, which is
      then always `npos`): the cut is at the last whitespace at or before
      `width - 1`, moved back to the first newline before it; without any
      whitespace there, at the first whitespace from `width` on, and the loop
      stops when there is none. */
  function Split(rem: string, width: nat): (r: Option<nat>)
    requires width > 0 || |rem| <= width
    ensures r.Some? ==> r.value < |rem| && IsSpace(rem[r.value])
    ensures r.Some? ==> forall k :: 0 <= k < r.value ==> rem[k] != '\n' && (r.value < width || !IsSpace(rem[k]))
    ensures r.None? ==> forall k :: 0 <= k < |rem| ==> rem[k] != '\n' && (|rem| <= width || !IsSpace(rem[k]))
    ensures r.Some? && |rem| <= width ==> rem[r.value] == '\n'
    ensures r.Some? && r.value < width ==>
              rem[r.value] == '\n' || forall k :: r.value < k < width && k < |rem| ==> !IsSpace(rem[k])
  {
    if |rem| > width then
      var b := BackScan(rem, width - 1);
      if b == 0 && !IsSpace(rem[0]) then
        var f := ForwardScan(rem, width);
        if f == |rem| then None else Some(f)
      else
        Some(FirstNewline(rem, 0, b))
    else
      var n := FirstNewline(rem, 0, |rem|);
      if n == |rem| then None else Some(n)
  }

  /** The lines `str_break_into_lines` returns for `rem`. */
  function Lines(rem: string, width: nat): seq<string>
    requires width > 0 || rem == []
    decreases |rem|
  {
    match Split(rem, width)
    case None => if rem == [] then [] else [rem]
    case Some(sp) => [rem[..sp]] + Lines(rem[sp + 1..], width)
  }

  /** The characters dropped at the cuts, in order. */
  function Separators(rem: string, width: nat): string
    requires width > 0 || rem == []
    decreases |rem|
  {
    match Split(rem, width)
    case None => []
    case Some(sp) => [rem[sp]] + Separators(rem[sp + 1..], width)
  }

  /** Lines joined back with the separators between them; a last line may
      follow the last separator. */
  function Unbreak(lines: seq<string>, seps: string): string
    requires |lines| == |seps| || |lines| == |seps| + 1
  {
    if seps == [] then (if lines == [] then [] else lines[0])
    else lines[0] + [seps[0]] + Unbreak(lines[1..], seps[1..])
  }

  /** `str_break_into_lines(line, line_width)`. With `line_width == 0` and a
      non-empty line the source reads `rem[SIZE_MAX]`. */
  method BreakIntoLines(line: string, lineWidth: nat) returns (result: seq<string>)
    requires lineWidth > 0 || line == []
    ensures result == Lines(line, lineWidth)
  {
    result := [];
    var rem := line;
    var nlPos: Option<nat> := None;
    while true
      invariant lineWidth > 0 || rem == []
      invariant |rem| > lineWidth ==> nlPos.None?
      invariant result + Lines(rem, lineWidth) == Lines(line, lineWidth)
      decreases |rem|
    {
      if |rem| <= lineWidth {
        var n := FirstNewline(rem, 0, |rem|);
        nlPos := if n < |rem| then Some(n) else None;
        if nlPos.None? {
          break;
        }
      }
      var splitPoint: nat;
      if nlPos.Some? {
        splitPoint := nlPos.value;
      } else {
        var found;
        found, splitPoint := WrapPoint(rem, lineWidth);
        if !found {
          break;
        }
      }
      LinesStep(result, rem, lineWidth, splitPoint);
      if splitPoint == 0 {
        result := result + [""];
      } else {
        result := result + [rem[..splitPoint]];
      }
      rem := if splitPoint + 1 >= |rem| then [] else rem[splitPoint + 1..];
    }
    if rem != [] {
      result := result + [rem];
    }
  }

  /** The `else` branch of the outer loop for a `rem` longer than the width:
      whether there is a cut, and where. */
  method WrapPoint(rem: string, lineWidth: nat) returns (found: bool, splitPoint: nat)
    requires 0 < lineWidth < |rem|
    ensures found <==> Split(rem, lineWidth).Some?
    ensures found ==> splitPoint == Split(rem, lineWidth).value
  {
    splitPoint := lineWidth - 1;
    while !IsSpace(rem[splitPoint]) && splitPoint > 0
      invariant splitPoint < lineWidth
      invariant BackScan(rem, splitPoint) == BackScan(rem, lineWidth - 1)
    {
      splitPoint := splitPoint - 1;
    }
    if splitPoint == 0 && !IsSpace(rem[0]) {
      splitPoint := lineWidth;
      while splitPoint < |rem| && !IsSpace(rem[splitPoint])
        invariant lineWidth <= splitPoint <= |rem|
        invariant ForwardScan(rem, splitPoint) == ForwardScan(rem, lineWidth)
        decreases |rem| - splitPoint
      {
        splitPoint := splitPoint + 1;
      }
      found := splitPoint < |rem|;
    } else {
      var b := splitPoint;
      var i: int := splitPoint - 1;
      while i >= 0
        invariant -1 <= i < b
        invariant splitPoint == FirstNewline(rem, i + 1, b)
      {
        if rem[i] == '\n' {
          splitPoint := i;
        }
        i := i - 1;
      }
      found := true;
    }
  }

  /** One round of the outer loop, as `Lines` sees it. */
  lemma LinesStep(result: seq<string>, rem: string, width: nat, sp: nat)
    requires width > 0 || rem == []
    requires Split(rem, width) == Some(sp)
    ensures result + Lines(rem, width)
            == (result + [if sp == 0 then "" else rem[..sp]])
               + Lines(if sp + 1 >= |rem| then [] else rem[sp + 1..], width)
  {
    CutAt(rem, width, sp);
    PieceShapes(rem, sp);
    AppendLine(result, rem[..sp], Lines(rem[sp + 1..], width));
  }

  /** The source's special cases for an empty line and an empty rest are
      the plain slices. */
  lemma PieceShapes(rem: string, sp: nat)
    requires sp < |rem|
    ensures (if sp == 0 then "" else rem[..sp]) == rem[..sp]
    ensures (if sp + 1 >= |rem| then [] else rem[sp + 1..]) == rem[sp + 1..]
  {
  }

  lemma AppendLine(result: seq<string>, line: string, rest: seq<string>)
    ensures result + ([line] + rest) == (result + [line]) + rest
  {
  }

  /** `Lines` and `Separators` at a cut. */
  lemma CutAt(rem: string, width: nat, sp: nat)
    requires width > 0 || rem == []
    requires Split(rem, width) == Some(sp)
    ensures Lines(rem, width) == [rem[..sp]] + Lines(rem[sp + 1..], width)
    ensures Separators(rem, width) == [rem[sp]] + Separators(rem[sp + 1..], width)
  {
  }

  /** No line holds a newline. */
  lemma {:induction false} LinesHaveNoNewline(rem: string, width: nat)
    requires width > 0 || rem == []
    ensures forall i :: 0 <= i < |Lines(rem, width)| ==> NoNewline(Lines(rem, width)[i])
    decreases |rem|
  {
    match Split(rem, width)
    case None =>
    case Some(sp) =>
      LinesHaveNoNewline(rem[sp + 1..], width);
      CutAt(rem, width, sp);
      assert NoNewline(rem[..sp]) by {
        forall k | 0 <= k < sp ensures rem[..sp][k] != '\n' {
          assert rem[..sp][k] == rem[k];
        }
      }
  }

  /** Every line fits the width, unless it is a single run of characters
      without whitespace that is longer than the width. */
  lemma {:induction false} LinesFit(rem: string, width: nat)
    requires width > 0 || rem == []
    ensures forall i :: 0 <= i < |Lines(rem, width)| ==>
              |Lines(rem, width)[i]| <= width || NoSpace(Lines(rem, width)[i])
    decreases |rem|
  {
    match Split(rem, width)
    case None =>
    case Some(sp) =>
      LinesFit(rem[sp + 1..], width);
      CutAt(rem, width, sp);
      assert |rem[..sp]| <= width || NoSpace(rem[..sp]) by {
        if sp > width {
          forall k | 0 <= k < sp ensures !IsSpace(rem[..sp][k]) {
            assert rem[..sp][k] == rem[k];
          }
        }
      }
  }

  /** There is one separator between each two lines, and possibly one
      after the last. */
  lemma {:induction false} LinesAndSeparators(rem: string, width: nat)
    requires width > 0 || rem == []
    ensures |Lines(rem, width)| == |Separators(rem, width)|
            || |Lines(rem, width)| == |Separators(rem, width)| + 1
    decreases |rem|
  {
    match Split(rem, width)
    case None =>
      NoCut(rem, width);
    case Some(sp) =>
      LinesAndSeparators(rem[sp + 1..], width);
      CutAt(rem, width, sp);
  }

  /** Only whitespace is dropped. */
  lemma {:induction false} SeparatorsAreSpace(rem: string, width: nat)
    requires width > 0 || rem == []
    ensures forall k :: 0 <= k < |Separators(rem, width)| ==> IsSpace(Separators(rem, width)[k])
    decreases |rem|
  {
    match Split(rem, width)
    case None =>
      NoCut(rem, width);
    case Some(sp) =>
      SeparatorsAreSpace(rem[sp + 1..], width);
      CutAt(rem, width, sp);
  }

  /** Joining the lines back with the dropped characters gives the text. */
  lemma {:induction false} UnbreakLines(rem: string, width: nat)
    requires width > 0 || rem == []
    ensures LinesAndSeparatorsAgree(rem, width)
    ensures Unbreak(Lines(rem, width), Separators(rem, width)) == rem
    decreases |rem|
  {
    LinesAndSeparators(rem, width);
    match Split(rem, width)
    case None =>
      NoCut(rem, width);
    case Some(sp) =>
      var rest := rem[sp + 1..];
      UnbreakLines(rest, width);
      CutAt(rem, width, sp);
      UnbreakCut(rem, sp, Lines(rest, width), Separators(rest, width));
  }

  predicate LinesAndSeparatorsAgree(rem: string, width: nat)
    requires width > 0 || rem == []
  {
    |Lines(rem, width)| == |Separators(rem, width)| || |Lines(rem, width)| == |Separators(rem, width)| + 1
  }

  /** `Lines` and `Separators` where the loop stops. */
  lemma NoCut(rem: string, width: nat)
    requires width > 0 || rem == []
    requires Split(rem, width).None?
    ensures Lines(rem, width) == (if rem == [] then [] else [rem])
    ensures Separators(rem, width) == []
  {
  }

  /** Joining at a cut. */
  lemma UnbreakCut(rem: string, sp: nat, lines: seq<string>, seps: string)
    requires sp < |rem|
    requires |lines| == |seps| || |lines| == |seps| + 1
    requires Unbreak(lines, seps) == rem[sp + 1..]
    ensures Unbreak([rem[..sp]] + lines, [rem[sp]] + seps) == rem
  {
    assert ([rem[..sp]] + lines)[1..] == lines;
    assert ([rem[sp]] + seps)[1..] == seps;
    assert rem[..sp] + [rem[sp]] + rem[sp + 1..] == rem;
  }

  /** A text within the width and without a newline is one line, or none
      when it is empty. */
  lemma ShortTextIsOneLine(s: string, width: nat)
    requires |s| <= width && NoNewline(s)
    ensures Lines(s, width) == (if s == [] then [] else [s])
  {
    assert FirstNewline(s, 0, |s|) == |s|;
  }
}
