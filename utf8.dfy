/** `is_valid_utf8` (utils_string.cc): decides whether a byte string is
    well-formed UTF-8 as section 4 of RFC 3629 defines it. */
module Utf8 {
  import opened Basics

  /** A continuation byte `10xxxxxx`, i.e. `(b & 0xC0) == 0x80`
      (UTF8-tail in RFC 3629). */
  predicate IsTail(b: int) {
    0x80 <= b <= 0xBF
  }

  /** One character of the grammar in section 4 of RFC 3629: UTF8-1, UTF8-2,
      UTF8-3 or UTF8-4. */
  predicate Utf8Char(t: seq<uint8>) {
    || (|t| == 1 && t[0] <= 0x7F)
    || (|t| == 2 && 0xC2 <= t[0] <= 0xDF && IsTail(t[1]))
    || (|t| == 3 && IsTail(t[2]) &&
        (|| (t[0] == 0xE0 && 0xA0 <= t[1] <= 0xBF)
         || (0xE1 <= t[0] <= 0xEC && IsTail(t[1]))
         || (t[0] == 0xED && 0x80 <= t[1] <= 0x9F)
         || (0xEE <= t[0] <= 0xEF && IsTail(t[1]))))
    || (|t| == 4 && IsTail(t[2]) && IsTail(t[3]) &&
        (|| (t[0] == 0xF0 && 0x90 <= t[1] <= 0xBF)
         || (0xF1 <= t[0] <= 0xF3 && IsTail(t[1]))
         || (t[0] == 0xF4 && 0x80 <= t[1] <= 0x8F)))
  }

  /** UTF8-octets = *( UTF8-char ): `s` splits into characters. */
  ghost predicate WellFormed(s: seq<uint8>)
    decreases |s|
  {
    s == [] || exists n :: 1 <= n <= 4 && n <= |s| && Utf8Char(s[..n]) && WellFormed(s[n..])
  }

  /** The number of bytes the source expects from the lead byte `b`:
      `0xxxxxxx`, `110xxxxx`, `1110xxxx`, `11110xxx`; 0 for any other byte. */
  function LeadLength(b: uint8): nat {
    if b < 0x80 then 1
    else if 0xC0 <= b < 0xE0 then 2
    else if 0xE0 <= b < 0xF0 then 3
    else if 0xF0 <= b < 0xF8 then 4
    else 0
  }

  /** The code-point bits of the lead byte `b`: `b & 0x7F`, `b & 0x1F`,
      `b & 0x0F` or `b & 0x07`. */
  function LeadBits(b: uint8): nat {
    if b < 0x80 then b
    else if 0xC0 <= b < 0xE0 then b - 0xC0
    else if 0xE0 <= b < 0xF0 then b - 0xE0
    else if 0xF0 <= b < 0xF8 then b - 0xF0
    else 0
  }

  /** `cp = (cp << 6) | (b & 0x3F)` for each continuation byte, in order. */
  function Accumulate(cp: nat, tails: seq<uint8>): nat
    decreases |tails|
  {
    if tails == [] then cp else Accumulate(cp, tails[..|tails| - 1]) * 64 + tails[|tails| - 1] % 64
  }

  /** The source's test for an invalid code point: an overlong form (`cp`
      needs fewer bytes than were read), a UTF-16 surrogate half, or a value
      past U+10FFFF. */
  predicate Rejected(cp: nat, bytes: nat) {
    || (cp <= 0x7F && bytes != 1)
    || (0x80 <= cp <= 0x07FF && bytes != 2)
    || (0x0800 <= cp <= 0xFFFF && bytes != 3)
    || (0x10000 <= cp <= 0x10FFFF && bytes != 4)
    || (0xD800 <= cp <= 0xDFFF)
    || cp > 0x10FFFF
  }

  /** `is_valid_utf8`: `c` walks the bytes, one character per round of the
      outer loop (`CheckCharacter`). */
  method IsValidUtf8(s: seq<uint8>) returns (ok: bool)
    ensures ok == WellFormed(s)
  {
    var c := 0;
    while c < |s|
      invariant c <= |s|
      invariant WellFormed(s) == WellFormed(s[c..])
    {
      StepWellFormed(s, c);
      var valid, next := CheckCharacter(s, c);
      if !valid {
        return false;
      }
      c := next;
    }
    return true;
  }

  /** One round of the outer loop of `is_valid_utf8`, at the lead byte
      `s[start]`: it accepts exactly a character of RFC 3629 and then moves
      past it. */
  method CheckCharacter(s: seq<uint8>, start: nat) returns (valid: bool, next: nat)
    requires start < |s|
    ensures valid <==> var n := LeadLength(s[start]);
                       n > 0 && start + n <= |s| && Utf8Char(s[start..start + n])
    ensures valid ==> next == start + LeadLength(s[start])
  {
    var lead := s[start];
    var bytes: nat;
    if lead < 0x80 {
      bytes := 1;
    } else if 0xC0 <= lead < 0xE0 {
      bytes := 2;
    } else if 0xE0 <= lead < 0xF0 {
      bytes := 3;
    } else if 0xF0 <= lead < 0xF8 {
      bytes := 4;
    } else {
      return false, start;
    }
    var complete, c, cp := ReadTails(s, start, bytes);
    if !complete {
      if start + bytes <= |s| {
        assert s[start..start + bytes][c - start] == s[c];
      }
      return false, c;
    }
    CharCheck(s[start..c]);
    assert s[start..c][1..] == s[start + 1..c];
    if Rejected(cp, bytes) {
      return false, c;
    }
    return true, c;
  }

  /** The inner loop of `is_valid_utf8`: reads the continuation bytes after
      the lead byte `s[start]`, folding their bits into `cp`. A byte read at
      the end of the string is the terminating NUL of `c_str()`, which is no
      continuation byte, so a truncated character stops the loop there. */
  method ReadTails(s: seq<uint8>, start: nat, bytes: nat) returns (complete: bool, c: nat, cp: nat)
    requires start < |s| && bytes == LeadLength(s[start]) > 0
    ensures complete <==> start + bytes <= |s| && forall j :: start < j < start + bytes ==> IsTail(s[j])
    ensures complete ==> c == start + bytes && cp == Accumulate(LeadBits(s[start]), s[start + 1..c])
    ensures !complete ==> start < c <= |s| && c < start + bytes && (c < |s| ==> !IsTail(s[c]))
  {
    cp := LeadBits(s[start]);
    assert s[start + 1..start + 1] == [];
    c := start + 1;
    var b := 1;
    while b < bytes
      invariant 1 <= b <= bytes && c == start + b <= |s|
      invariant forall j :: start < j < c ==> IsTail(s[j])
      invariant cp == Accumulate(LeadBits(s[start]), s[start + 1..c])
    {
      var t: uint8 := if c < |s| then s[c] else 0;
      if !IsTail(t) {
        if c < |s| {
          assert !IsTail(s[c]);
        } else {
          assert start + bytes > |s|;
        }
        return false, c, cp;
      }
      AccumulateNext(s, start + 1, c);
      cp := cp * 64 + t % 64;
      c := c + 1;
      b := b + 1;
    }
    return true, c, cp;
  }

  /** A well-formed string starts with a character whose length the lead
      byte gives, followed by a well-formed rest. */
  lemma StepWellFormed(s: seq<uint8>, i: nat)
    requires i < |s|
    ensures WellFormed(s[i..]) <==>
              var n := LeadLength(s[i]);
              n > 0 && i + n <= |s| && Utf8Char(s[i..i + n]) && WellFormed(s[i + n..])
  {
    var n := LeadLength(s[i]);
    var r := s[i..];
    if WellFormed(r) {
      var k :| 1 <= k <= 4 && k <= |r| && Utf8Char(r[..k]) && WellFormed(r[k..]);
      assert r[..k][0] == s[i];
      assert k == n;
      assert r[..k] == s[i..i + n] && r[k..] == s[i + n..];
    }
    if n > 0 && i + n <= |s| && Utf8Char(s[i..i + n]) && WellFormed(s[i + n..]) {
      assert r[..n] == s[i..i + n] && r[n..] == s[i + n..];
    }
  }

  /** For a lead byte and the continuation bytes it asks for, the source's
      code-point test accepts exactly the characters of RFC 3629. */
  lemma CharCheck(t: seq<uint8>)
    requires |t| > 0 && |t| == LeadLength(t[0])
    requires forall j :: 0 < j < |t| ==> IsTail(t[j])
    ensures Utf8Char(t) <==> !Rejected(Accumulate(LeadBits(t[0]), t[1..]), |t|)
  {
    var lead := LeadBits(t[0]);
    var tails := t[1..];
    if |t| == 1 {
      assert tails == [];
    } else {
      assert Accumulate(lead, tails[..0]) == lead;
      AccumulateLast(lead, tails[..0], tails[0]);
      assert tails[..0] + [tails[0]] == tails[..1];
      var cp1 := lead * 64 + t[1] % 64;
      assert Accumulate(lead, tails[..1]) == cp1;
      if |t| == 2 {
        assert tails[..1] == tails;
        assert t == [t[0], t[1]];
        CharCheck2(t[0], t[1]);
      } else {
        AccumulateLast(lead, tails[..1], tails[1]);
        assert tails[..1] + [tails[1]] == tails[..2];
        var cp2 := cp1 * 64 + t[2] % 64;
        assert Accumulate(lead, tails[..2]) == cp2;
        if |t| == 3 {
          assert tails[..2] == tails;
          assert t == [t[0], t[1], t[2]];
          CharCheck3(t[0], t[1], t[2]);
        } else {
          AccumulateLast(lead, tails[..2], tails[2]);
          assert tails[..2] + [tails[2]] == tails;
          assert Accumulate(lead, tails) == cp2 * 64 + t[3] % 64;
          assert t == [t[0], t[1], t[2], t[3]];
          CharCheck4(t[0], t[1], t[2], t[3]);
        }
      }
    }
  }

  /** `AccumulateLast` for the next byte of a slice of `s`. */
  lemma AccumulateNext(s: seq<uint8>, i: nat, j: nat)
    requires i <= j < |s|
    ensures forall cp: nat {:trigger Accumulate(cp, s[i..j + 1])} ::
              Accumulate(cp, s[i..j + 1]) == Accumulate(cp, s[i..j]) * 64 + s[j] % 64
  {
    assert s[i..j] + [s[j]] == s[i..j + 1];
    forall cp: nat {
      AccumulateLast(cp, s[i..j], s[j]);
    }
  }

  /** One more continuation byte shifts the code point by six bits. */
  lemma AccumulateLast(cp: nat, tails: seq<uint8>, b: uint8)
    ensures Accumulate(cp, tails + [b]) == Accumulate(cp, tails) * 64 + b % 64
  {
    assert (tails + [b])[..|tails|] == tails;
  }

  lemma CharCheck2(b0: uint8, b1: uint8)
    requires LeadLength(b0) == 2 && IsTail(b1)
    ensures Utf8Char([b0, b1]) <==> !Rejected(LeadBits(b0) * 64 + b1 % 64, 2)
  {
    assert b1 % 64 == b1 as int - 0x80;
  }

  lemma CharCheck3(b0: uint8, b1: uint8, b2: uint8)
    requires LeadLength(b0) == 3 && IsTail(b1) && IsTail(b2)
    ensures Utf8Char([b0, b1, b2]) <==> !Rejected((LeadBits(b0) * 64 + b1 % 64) * 64 + b2 % 64, 3)
  {
    assert b1 % 64 == b1 as int - 0x80;
    assert b2 % 64 == b2 as int - 0x80;
  }

  lemma CharCheck4(b0: uint8, b1: uint8, b2: uint8, b3: uint8)
    requires LeadLength(b0) == 4 && IsTail(b1) && IsTail(b2) && IsTail(b3)
    ensures Utf8Char([b0, b1, b2, b3]) <==>
              !Rejected(((LeadBits(b0) * 64 + b1 % 64) * 64 + b2 % 64) * 64 + b3 % 64, 4)
  {
    assert b1 % 64 == b1 as int - 0x80;
    assert b2 % 64 == b2 as int - 0x80;
    assert b3 % 64 == b3 as int - 0x80;
  }

  /** Every string of ASCII bytes is well-formed. */
  lemma {:induction false} AsciiIsWellFormed(s: seq<uint8>)
    requires forall i :: 0 <= i < |s| ==> s[i] <= 0x7F
    ensures WellFormed(s)
    decreases |s|
  {
    if s != [] {
      AsciiIsWellFormed(s[1..]);
      assert Utf8Char(s[..1]);
    }
  }

  /** The rejections RFC 3629 asks for: an overlong NUL, a UTF-16
      surrogate, a code point past U+10FFFF, a character cut short and a
      stray continuation byte are each ill-formed. */
  lemma RejectsIllFormed()
    ensures !WellFormed([0xC0, 0x80])
    ensures !WellFormed([0xED, 0xA0, 0x80])
    ensures !WellFormed([0xF4, 0x90, 0x80, 0x80])
    ensures !WellFormed([0xE2, 0x82])
    ensures !WellFormed([0x80])
  {
    StepWellFormed([0xC0, 0x80], 0);
    StepWellFormed([0xED, 0xA0, 0x80], 0);
    StepWellFormed([0xF4, 0x90, 0x80, 0x80], 0);
    StepWellFormed([0xE2, 0x82], 0);
    StepWellFormed([0x80], 0);
  }
}
