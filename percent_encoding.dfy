/** `pctencode` and `pctdecode` (utils_string.cc): percent-encoding of
    a byte string after section 2.1 of RFC 3986. */
module PercentEncoding {
  import opened Basics

  /** `k_reserved_chars`, sixteen bytes to a row: 1 for every byte `pctencode`
      writes as `%XX`. */
  const ReservedRows: seq<seq<int>> := [
    [1, 1, 1, 1, 1, 1, 1, 1, 1, 1, 1, 1, 1, 1, 1, 1],
    [1, 1, 1, 1, 1, 1, 1, 1, 1, 1, 1, 1, 1, 1, 1, 1],
    [1, 1, 1, 1, 1, 1, 1, 1, 1, 1, 1, 1, 1, 0, 0, 1],
    [0, 0, 0, 0, 0, 0, 0, 0, 0, 0, 1, 1, 1, 1, 1, 1],
    [1, 0, 0, 0, 0, 0, 0, 0, 0, 0, 0, 0, 0, 0, 0, 0],
    [0, 0, 0, 0, 0, 0, 0, 0, 0, 0, 0, 1, 1, 1, 1, 0],
    [1, 0, 0, 0, 0, 0, 0, 0, 0, 0, 0, 0, 0, 0, 0, 0],
    [0, 0, 0, 0, 0, 0, 0, 0, 0, 0, 0, 1, 1, 1, 0, 1],
    [1, 1, 1, 1, 1, 1, 1, 1, 1, 1, 1, 1, 1, 1, 1, 1],
    [1, 1, 1, 1, 1, 1, 1, 1, 1, 1, 1, 1, 1, 1, 1, 1],
    [1, 1, 1, 1, 1, 1, 1, 1, 1, 1, 1, 1, 1, 1, 1, 1],
    [1, 1, 1, 1, 1, 1, 1, 1, 1, 1, 1, 1, 1, 1, 1, 1],
    [1, 1, 1, 1, 1, 1, 1, 1, 1, 1, 1, 1, 1, 1, 1, 1],
    [1, 1, 1, 1, 1, 1, 1, 1, 1, 1, 1, 1, 1, 1, 1, 1],
    [1, 1, 1, 1, 1, 1, 1, 1, 1, 1, 1, 1, 1, 1, 1, 1],
    [1, 1, 1, 1, 1, 1, 1, 1, 1, 1, 1, 1, 1, 1, 1, 1]
  ]

  /** `k_reserved_chars[b]`. */
  function ReservedEntry(b: uint8): int {
    ReservedRows[b / 16][b % 16]
  }

  /** `k_hex_values`: the value of each ASCII hex digit, 0 elsewhere. */
  const HexValues: seq<int> :=
    [0, 0, 0, 0, 0, 0, 0, 0, 0, 0, 0, 0, 0, 0, 0, 0] +
    [0, 0, 0, 0, 0, 0, 0, 0, 0, 0, 0, 0, 0, 0, 0, 0] +
    [0, 0, 0, 0, 0, 0, 0, 0, 0, 0, 0, 0, 0, 0, 0, 0] +
    [0, 1, 2, 3, 4, 5, 6, 7, 8, 9, 0, 0, 0, 0, 0, 0] +
    [0, 10, 11, 12, 13, 14, 15, 0, 0, 0, 0, 0, 0, 0, 0, 0] +
    [0, 0, 0, 0, 0, 0, 0, 0, 0, 0, 0, 0, 0, 0, 0, 0] +
    [0, 10, 11, 12, 13, 14, 15, 0, 0, 0, 0, 0, 0, 0, 0, 0] +
    [0, 0, 0, 0, 0, 0, 0, 0, 0, 0, 0, 0, 0, 0, 0, 0]

  /** The unreserved characters of section 2.3 of RFC 3986:
      ALPHA / DIGIT / "-" / "." / "_" / "~". */
  predicate Unreserved(b: uint8) {
    || 'A' as int <= b <= 'Z' as int
    || 'a' as int <= b <= 'z' as int
    || '0' as int <= b <= '9' as int
    || b == '-' as int || b == '.' as int || b == '_' as int || b == '~' as int
  }

  /** `isxdigit` in the "C" locale. */
  predicate IsXDigit(b: uint8) {
    || '0' as int <= b <= '9' as int
    || 'A' as int <= b <= 'F' as int
    || 'a' as int <= b <= 'f' as int
  }

  /** The value of a hex digit of either case. */
  function DigitValue(b: uint8): (v: nat)
    requires IsXDigit(b)
    ensures v < 16
  {
    if b <= '9' as int then b - '0' as int
    else if b <= 'F' as int then b - 'A' as int + 10
    else b - 'a' as int + 10
  }

  /** The bytes `pctencode` escapes are exactly the ones RFC 3986 does not
      list as unreserved. */
  lemma ReservedTableIsRfc3986()
    ensures forall b: uint8 :: ReservedEntry(b) != 0 <==> !Unreserved(b)
  {
    forall b: uint8
      ensures ReservedEntry(b) != 0 <==> !Unreserved(b)
    {
      if b < 128 {
        ReservedAsciiRow(b / 16, b % 16);
      } else {
        ReservedHighRow(b / 16, b % 16);
      }
    }
  }

  lemma ReservedAsciiRow(row: nat, col: nat)
    requires row < 8 && col < 16
    ensures ReservedRows[row][col] != 0 <==> !Unreserved(row * 16 + col)
  {
  }

  /** No byte from 0x80 up is unreserved. */
  lemma ReservedHighRow(row: nat, col: nat)
    requires 8 <= row < 16 && col < 16
    ensures ReservedRows[row][col] == 1 && !Unreserved(row * 16 + col)
  {
  }

  /** `k_hex_values` gives each hex digit its value. */
  lemma HexValuesTableIsDigitValue()
    ensures |HexValues| == 128
    ensures forall b: uint8 :: IsXDigit(b) ==> b < 128 && HexValues[b] == DigitValue(b)
  {
  }

  lemma HexValueIsDigitValue(b: uint8)
    requires IsXDigit(b)
    ensures b < |HexValues| && HexValues[b] == DigitValue(b)
  {
    HexValuesTableIsDigitValue();
  }

  /** `sprintf("%02X")` digit: `0`-`9`, then uppercase `A`-`F`. */
  function HexDigit(v: nat): (d: uint8)
    requires v < 16
    ensures IsXDigit(d) && DigitValue(d) == v
  {
    if v < 10 then '0' as int + v else 'A' as int + v - 10
  }

  /** What `pctencode` writes for one byte: an unreserved byte itself,
      any other byte `%` and its two uppercase hex digits. */
  function EncodeByte(b: uint8): seq<uint8> {
    if !Unreserved(b) then ['%' as int, HexDigit(b / 16), HexDigit(b % 16)] else [b]
  }

  /** The encoding of `s`, byte by byte. */
  function Encoded(s: seq<uint8>): seq<uint8>
    decreases |s|
  {
    if s == [] then [] else Encoded(s[..|s| - 1]) + EncodeByte(s[|s| - 1])
  }

  /** `pctencode`: `enc` is sized for three bytes per input byte, `offs`
      is the write position, and the buffer is cut back to `offs` at the
      end. */
  method PctEncode(s: seq<uint8>) returns (encoded: seq<uint8>)
    ensures encoded == Encoded(s)
  {
    var enc := new uint8[|s| * 3];
    var offs: nat := 0;
    for i := 0 to |s|
      invariant offs <= 3 * i <= enc.Length
      invariant enc[..offs] == Encoded(s[..i])
    {
      EncodedAppend(s, i);
      offs := PutEncoded(enc, offs, s[i]);
    }
    assert s[..|s|] == s;
    encoded := enc[..offs];
  }

  /** One round of the `pctencode` loop: the encoding of `c` written at
      `offs`. */
  method PutEncoded(enc: array<uint8>, offs: nat, c: uint8) returns (next: nat)
    requires offs + 3 <= enc.Length
    modifies enc
    ensures next == offs + |EncodeByte(c)| && next <= offs + 3
    ensures enc[..next] == old(enc[..offs]) + EncodeByte(c)
  {
    ReservedTableIsRfc3986();
    if ReservedEntry(c) != 0 {
      enc[offs] := '%' as int;
      enc[offs + 1] := HexDigit(c / 16);
      enc[offs + 2] := HexDigit(c % 16);
      next := offs + 3;
    } else {
      enc[offs] := c;
      next := offs + 1;
    }
  }

  /** `Encoded` one byte further. */
  lemma EncodedAppend(s: seq<uint8>, i: nat)
    requires i < |s|
    ensures Encoded(s[..i + 1]) == Encoded(s[..i]) + EncodeByte(s[i])
  {
    assert s[..i + 1][..i] == s[..i];
  }

  /** The byte `pctdecode` reads at `k`: past the last byte of `s` it is the
      terminating NUL of the `std::string`. */
  function At(s: seq<uint8>, k: nat): uint8
    requires k <= |s|
  {
    if k < |s| then s[k] else 0
  }

  /** `c - 3` on `size_t`: wraps modulo 2^64 when `c < 3`. */
  function SizeMinus3(c: nat): nat
    requires c < 0x1_0000_0000_0000_0000
  {
    if c >= 3 then c - 3 else c + 0x1_0000_0000_0000_0000 - 3
  }

  /** The decoding of `s`: `%` and two hex digits of either case become the
      byte they spell; every other byte is kept. */
  function Decoded(s: seq<uint8>): seq<uint8>
    decreases |s|
  {
    if s == [] then []
    else if |s| >= 3 && s[0] == '%' as int && IsXDigit(s[1]) && IsXDigit(s[2]) then
      [DigitValue(s[1]) * 16 + DigitValue(s[2])] + Decoded(s[3..])
    else [s[0]] + Decoded(s[1..])
  }

  /** `pctdecode`: `i` walks `s`; `dec` collects the bytes. */
  method PctDecode(s: seq<uint8>) returns (dec: seq<uint8>)
    requires |s| < 0x1_0000_0000_0000_0000
    ensures dec == Decoded(s)
  {
    dec := [];
    var i := 0;
    while i < |s|
      invariant i <= |s|
      invariant dec + Decoded(s[i..]) == Decoded(s)
      decreases |s| - i
    {
      ghost var before := dec;
      var ch, next := DecodeRound(s, i);
      dec := dec + [ch];
      i := next;
      PushOne(before, ch, Decoded(s[i..]));
    }
    assert dec + [] == dec;
  }

  /** One round of the `pctdecode` loop at `i` (`c` is `s.size()`): the
      byte it pushes and where it goes on. */
  method DecodeRound(s: seq<uint8>, i: nat) returns (ch: uint8, next: nat)
    requires i < |s| < 0x1_0000_0000_0000_0000
    ensures i < next <= |s|
    ensures Decoded(s[i..]) == [ch] + Decoded(s[next..])
  {
    var c := |s|;
    DecodeStep(s, i);
    if i <= SizeMinus3(c) && s[i] == '%' as int && IsXDigit(At(s, i + 1))
       && (assert i + 2 <= c; IsXDigit(At(s, i + 2)))
    {
      ch := HexPair(s[i + 1], s[i + 2]);
      next := i + 3;
    } else {
      ch := s[i];
      next := i + 1;
    }
  }

  /** Moving one decoded byte from the pending part onto the output. */
  lemma PushOne(out: seq<uint8>, x: uint8, rest: seq<uint8>)
    ensures out + [x] + rest == out + ([x] + rest)
  {
  }

  /** `k_hex_values[hi] << 4 | k_hex_values[lo]`. */
  method HexPair(hi: uint8, lo: uint8) returns (ch: uint8)
    requires IsXDigit(hi) && IsXDigit(lo)
    ensures ch == DigitValue(hi) * 16 + DigitValue(lo)
  {
    HexValueIsDigitValue(hi);
    HexValueIsDigitValue(lo);
    ch := HexValues[hi] * 16 + HexValues[lo];
  }

  /** One round of the `pctdecode` loop as `Decoded` sees it at `i`. The
      wrapped `c - 3` lets the test through when fewer than three bytes
      remain, but the NUL after the last byte is no hex digit, so the
      test is the plain one. */
  lemma DecodeStep(s: seq<uint8>, i: nat)
    requires i < |s| < 0x1_0000_0000_0000_0000
    ensures var escape := i <= SizeMinus3(|s|) && s[i] == '%' as int && IsXDigit(At(s, i + 1))
                          && IsXDigit(At(s, i + 2));
            && (escape ==>
                  && i + 3 <= |s|
                  && Decoded(s[i..]) == [DigitValue(s[i + 1]) * 16 + DigitValue(s[i + 2])] + Decoded(s[i + 3..]))
            && (!escape ==> Decoded(s[i..]) == [s[i]] + Decoded(s[i + 1..]))
  {
    var r := s[i..];
    if i + 3 <= |s| {
      assert r[3..] == s[i + 3..];
    }
    assert r[1..] == s[i + 1..];
  }

  /** Encoding works byte by byte from the front as well. */
  lemma {:induction false} EncodedPrepend(b: uint8, t: seq<uint8>)
    ensures Encoded([b] + t) == EncodeByte(b) + Encoded(t)
    decreases |t|
  {
    if t == [] {
      assert ([b] + t)[..0] == [];
    } else {
      var init := t[..|t| - 1];
      var last := t[|t| - 1];
      var bt := [b] + t;
      EncodedPrepend(b, init);
      assert bt[..|bt| - 1] == [b] + init && bt[|bt| - 1] == last;
      assert Encoded(bt) == Encoded([b] + init) + EncodeByte(last);
      assert Encoded(t) == Encoded(init) + EncodeByte(last);
      PrependAssoc(EncodeByte(b), Encoded(init), EncodeByte(last));
    }
  }

  lemma PrependAssoc(x: seq<uint8>, y: seq<uint8>, z: seq<uint8>)
    ensures x + y + z == x + (y + z)
  {
  }

  /** Decoding undoes the encoding of one byte, whatever follows it. */
  lemma DecodeEncodedByte(b: uint8, rest: seq<uint8>)
    ensures Decoded(EncodeByte(b) + rest) == [b] + Decoded(rest)
  {
    ReservedTableIsRfc3986();
    var e := EncodeByte(b) + rest;
    if !Unreserved(b) {
      assert e[3..] == rest;
      assert DigitValue(e[1]) * 16 + DigitValue(e[2]) == b;
    } else {
      assert e[1..] == rest;
    }
  }

  /** `pctdecode(pctencode(s)) == s`. */
  lemma {:induction false} DecodeEncoded(s: seq<uint8>)
    ensures Decoded(Encoded(s)) == s
    decreases |s|
  {
    if s != [] {
      DecodeEncoded(s[1..]);
      assert [s[0]] + s[1..] == s;
      EncodedPrepend(s[0], s[1..]);
      DecodeEncodedByte(s[0], Encoded(s[1..]));
    }
  }

  /** The encoding keeps at least one and at most three bytes per byte,
      so it fits the `3 * s.size()` buffer. */
  lemma {:induction false} EncodedLength(s: seq<uint8>)
    ensures |s| <= |Encoded(s)| <= 3 * |s|
    decreases |s|
  {
    if s != [] {
      EncodedLength(s[..|s| - 1]);
    }
  }

  /** Every byte of an encoding is unreserved or the `%` of an escape, so
      the encoding can stand in a URI component. */
  lemma {:induction false} EncodedIsUnreservedOrPercent(s: seq<uint8>)
    ensures forall k :: 0 <= k < |Encoded(s)| ==> Unreserved(Encoded(s)[k]) || Encoded(s)[k] == '%' as int
    decreases |s|
  {
    if s != [] {
      var init := Encoded(s[..|s| - 1]);
      EncodedIsUnreservedOrPercent(s[..|s| - 1]);
      ReservedTableIsRfc3986();
      var last := EncodeByte(s[|s| - 1]);
      assert forall k :: 0 <= k < |last| ==> Unreserved(last[k]) || last[k] == '%' as int;
      assert Encoded(s) == init + last;
    }
  }

  /** A string of unreserved bytes encodes to itself. */
  lemma {:induction false} EncodeUnreservedIsIdentity(s: seq<uint8>)
    requires forall k :: 0 <= k < |s| ==> Unreserved(s[k])
    ensures Encoded(s) == s
    decreases |s|
  {
    if s != [] {
      EncodeUnreservedIsIdentity(s[..|s| - 1]);
      ReservedTableIsRfc3986();
      assert s[..|s| - 1] + [s[|s| - 1]] == s;
    }
  }

  /** Decoding never makes a string longer. */
  lemma {:induction false} DecodedLength(s: seq<uint8>)
    ensures |Decoded(s)| <= |s|
    decreases |s|
  {
    if |s| >= 3 && s[0] == '%' as int && IsXDigit(s[1]) && IsXDigit(s[2]) {
      DecodedLength(s[3..]);
    } else if s != [] {
      DecodedLength(s[1..]);
    }
  }
}
