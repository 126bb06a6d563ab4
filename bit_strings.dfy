/** `bits_to_string` and `string_to_bits` (utils_string.cc): a `uint64_t` shown
    as a string of '0'/'1' digits, most significant first, and back. */
module BitStrings {
  import opened Basics

  function Pow2(n: nat): (r: nat)
    ensures r >= 1
  {
    if n == 0 then 1 else 2 * Pow2(n - 1)
  }

  /** Every character is a binary digit. */
  predicate IsBitString(s: string) {
    forall i :: 0 <= i < |s| ==> s[i] == '0' || s[i] == '1'
  }

  /** The `n` lowest bits of `v` as digits, most significant first. */
  function Binary(v: nat, n: nat): (r: string)
    ensures |r| == n && IsBitString(r)
  {
    if n == 0 then [] else Binary(v / 2, n - 1) + [if v % 2 == 1 then '1' else '0']
  }

  /** `k_bits[b]`: the eight digits of the byte `b`. */
  function ByteBits(b: uint8): (r: string)
    ensures |r| == 8 && IsBitString(r)
  {
    Binary(b, 8)
  }

  /** The number a string of binary digits denotes (what `std::bitset<64>(s)`
      holds, read by `to_ullong`). */
  function Value(s: string): (r: nat)
    requires IsBitString(s)
    ensures r < Pow2(|s|)
  {
    if s == [] then 0 else 2 * Value(s[..|s| - 1]) + (if s[|s| - 1] == '1' then 1 else 0)
  }

  /** `v >> b`. */
  function Shr(v: nat, b: nat): nat {
    if b == 0 then v else Shr(v / 2, b - 1)
  }

  /** `v & (2^n - 1)`: the `n` lowest bits of `v`. */
  function Low(v: nat, n: nat): (r: nat)
    ensures r < Pow2(n)
  {
    if n == 0 then 0 else 2 * Low(v / 2, n - 1) + v % 2
  }

  /** The digits of `v` split into the high `a` and the low `b`. */
  lemma {:induction false} BinaryConcat(v: nat, a: nat, b: nat)
    ensures Binary(v, a + b) == Binary(Shr(v, b), a) + Binary(v, b)
    decreases b
  {
    if b > 0 {
      BinaryConcat(v / 2, a, b - 1);
      assert Binary(v, a + b) == Binary(v / 2, a + b - 1) + [if v % 2 == 1 then '1' else '0'];
    }
  }

  /** Only the `n` lowest bits of `v` matter. */
  lemma {:induction false} BinaryLow(v: nat, n: nat)
    ensures Binary(Low(v, n), n) == Binary(v, n)
  {
    if n > 0 {
      BinaryLow(v / 2, n - 1);
      var w := Low(v, n);
      assert w / 2 == Low(v / 2, n - 1) && w % 2 == v % 2;
    }
  }

  /** The digits of `v` read back give the `n` lowest bits of `v`. */
  lemma {:induction false} ValueOfBinary(v: nat, n: nat)
    ensures Value(Binary(v, n)) == Low(v, n)
  {
    if n > 0 {
      var s := Binary(v, n);
      assert s[..n - 1] == Binary(v / 2, n - 1);
      ValueOfBinary(v / 2, n - 1);
    }
  }

  /** A string of binary digits is the `|s|`-digit form of its value. */
  lemma {:induction false} BinaryOfValue(s: string)
    requires IsBitString(s)
    ensures Binary(Value(s), |s|) == s
  {
    if s != [] {
      var init := s[..|s| - 1];
      var last := s[|s| - 1];
      BinaryOfValue(init);
      HalveDigit(Value(init), if last == '1' then 1 else 0);
      assert Binary(Value(s), |s|) == Binary(Value(init), |init|) + [last];
      assert s == init + [last];
    }
  }

  /** Dropping the last binary digit halves the value. */
  lemma HalveDigit(a: nat, d: nat)
    requires d < 2
    ensures (2 * a + d) / 2 == a && (2 * a + d) % 2 == d
  {
  }

  /** `Low` is the remainder modulo `2^n`. */
  lemma {:induction false} LowIsMod(v: nat, n: nat)
    ensures Low(v, n) == v % Pow2(n)
  {
    if n > 0 {
      LowIsMod(v / 2, n - 1);
      ModDouble(v, Pow2(n - 1));
    }
  }

  /** The remainder modulo `2m` from the remainder of `v / 2` modulo `m`. */
  lemma ModDouble(v: nat, m: nat)
    requires m >= 1
    ensures v % (2 * m) == 2 * ((v / 2) % m) + v % 2
  {
    var t, u := (v / 2) / m, (v / 2) % m;
    assert v == 2 * (m * t + u) + v % 2;
    assert v == (2 * m) * t + (2 * u + v % 2);
    DivModUnique(v, 2 * m, t, 2 * u + v % 2);
  }

  /** Quotient and remainder are determined by the division equation. */
  lemma DivModUnique(v: int, d: int, t: int, w: int)
    requires d > 0 && v == d * t + w && 0 <= w < d
    ensures v / d == t && v % d == w
  {
    var q, r := v / d, v % d;
    assert d * (t - q) == r - w;
    MultipleInOpenRange(d, t - q);
  }

  /** The only multiple of `d` strictly between `-d` and `d` is 0. */
  lemma MultipleInOpenRange(d: int, k: int)
    requires d > 0 && -d < d * k < d
    ensures k == 0
  {
    if k >= 1 {
      assert d * k == d + d * (k - 1);
      MulNonneg(d, k - 1);
    } else if k <= -1 {
      assert d * k == -d + d * (k + 1);
      MulNonneg(d, -(k + 1));
      assert d * (k + 1) == -(d * (-(k + 1)));
    }
  }

  lemma MulNonneg(a: int, b: int)
    requires a >= 0 && b >= 0
    ensures a * b >= 0
  {
  }

  // ---------------------------------------------------------------------
  // bits_to_string

  /** `std::div(n, 8)`: the quotient truncates toward zero and the remainder
      takes the sign of `n`. */
  function Div8(n: int): (r: (int, int))
    ensures n == 8 * r.0 + r.1 && -8 < r.1 < 8
    ensures n >= 0 ==> 0 <= r.1 && r.0 == n / 8
    ensures n < 0 ==> r.1 <= 0 && r.0 <= 0
  {
    if n >= 0 then (n / 8, n % 8) else (-((-n) / 8), -((-n) % 8))
  }

  /** The shift of the group appended by `case k` of the `switch`, as
      written: cases 3 and 2 both shift by 16. */
  const Shifts: seq<nat> := [0, 8, 16, 16, 24, 32, 40, 48, 56]

  /** The groups appended when the `switch` enters at `case k` and falls
      through to `case 0`, for the shift table `shift`. */
  function Groups(shift: seq<nat>, bits: uint64, k: int): (r: string)
    requires |shift| == 9 && -1 <= k <= 8
    ensures |r| == 8 * (k + 1) && IsBitString(r)
    decreases k + 1
  {
    if k < 0 then [] else ByteBits(Low(Shr(bits, shift[k]), 8)) + Groups(shift, bits, k - 1)
  }

  /** `r.substr(8 - rem)` after the `switch` for the shift table `shift`:
      `std::out_of_range` when the start is past the end. */
  function ShowBits(shift: seq<nat>, bits: uint64, nbits: int): Result<string>
    requires |shift| == 9
  {
    var (quot, rem) := Div8(nbits);
    var r := if 0 <= quot <= 8 then Groups(shift, bits, quot) else [];
    if 8 - rem <= |r| then Ok(r[8 - rem..]) else Err("basic_string::substr")
  }

  /** `bits_to_string` as written. */
  function AsWrittenBitsToString(bits: uint64, nbits: int): Result<string> {
    ShowBits(Shifts, bits, nbits)
  }

  /** `bits_to_string`: the `switch` is a loop from `case quot` down to
      `case 0`, each round appending one group of eight digits. */
  method BitsToString(bits: uint64, nbits: int) returns (res: Result<string>)
    ensures res == AsWrittenBitsToString(bits, nbits)
  {
    var (quot, rem) := Div8(nbits);
    var r := "";
    if 0 <= quot <= 8 {
      r := Switch(bits, quot);
    }
    if 8 - rem <= |r| {
      res := Ok(r[8 - rem..]);
    } else {
      res := Err("basic_string::substr");
    }
  }

  /** The `switch (quot)`: from `case quot` down to `case 0`, one group of
      eight digits per case. */
  method Switch(bits: uint64, quot: int) returns (r: string)
    requires 0 <= quot <= 8
    ensures r == Groups(Shifts, bits, quot)
  {
    r := "";
    var k := quot;
    while k >= 0
      invariant -1 <= k <= quot
      invariant r + Groups(Shifts, bits, k) == Groups(Shifts, bits, quot)
    {
      var group := ByteBits(Low(Shr(bits, Shifts[k]), 8));
      AppendGroup(r, group, Groups(Shifts, bits, k - 1));
      r := r + group;
      k := k - 1;
    }
    assert r + [] == r;
  }

  lemma AppendGroup(r: string, group: string, rest: string)
    ensures r + (group + rest) == (r + group) + rest
  {
  }

  /** `bits_to_string` succeeds exactly for `0 <= nbits <= 71`, and then
      gives `nbits` binary digits. */
  lemma BitsToStringDefined(shift: seq<nat>, bits: uint64, nbits: int)
    requires |shift| == 9
    ensures ShowBits(shift, bits, nbits).Ok? <==> 0 <= nbits <= 71
    ensures ShowBits(shift, bits, nbits).Ok? ==>
              |ShowBits(shift, bits, nbits).value| == nbits && IsBitString(ShowBits(shift, bits, nbits).value)
  {
    var (quot, rem) := Div8(nbits);
    if nbits < 0 {
      assert quot <= 0 && rem <= 0;
      if quot == 0 {
        assert rem < 0;
      }
    } else if nbits > 71 {
      assert quot > 8;
    }
  }

  /** For the table as written, the first `k + 1` groups are those of the
      correct table as long as `k <= 2`. */
  lemma GroupsAgreeUpTo2(bits: uint64, k: int)
    requires -1 <= k <= 2
    ensures Groups(Shifts, bits, k) == Groups(CorrectShifts, bits, k)
    decreases k + 1
  {
    if k >= 0 {
      GroupsAgreeUpTo2(bits, k - 1);
    }
  }

  /** As written, `bits_to_string(bits, nbits)` is the binary form of the
      `nbits` lowest bits for `0 <= nbits <= 24`. */
  lemma AsWrittenCorrectUpTo24(bits: uint64, nbits: int)
    requires 0 <= nbits <= 24
    ensures AsWrittenBitsToString(bits, nbits) == Ok(Binary(bits, nbits))
  {
    var (quot, rem) := Div8(nbits);
    if quot <= 2 {
      GroupsAgreeUpTo2(bits, quot);
    } else {
      assert nbits == 24 && rem == 0;
      GroupsAgreeUpTo2(bits, 2);
      assert Groups(Shifts, bits, 3)[8..] == Groups(Shifts, bits, 2);
    }
    IntendedIsBinary(bits, nbits);
  }

  /** As written, the digits for `nbits == 32` repeat the third byte where the
      fourth belongs: `bits_to_string(0x1000000, 32)` is 32 zeros although
      bit 24 is set. */
  lemma AsWrittenWrongAt32()
    ensures AsWrittenBitsToString(0x100_0000, 32) == Ok(Binary(0, 32))
    ensures Binary(0x100_0000, 32) != Binary(0, 32)
  {
    var v := 0x100_0000;
    Pow2Values();
    ShrIsDiv(v, 24);
    ShrIsDiv(v, 16);
    ShrIsDiv(v, 8);
    LowIsMod(1, 8);
    LowIsMod(256, 8);
    LowIsMod(0x1_0000, 8);
    LowIsMod(v, 8);
    var z := ByteBits(0);
    assert Groups(Shifts, v, 4)[8..] == z + (z + (z + (z + [])));
    ZeroBytes();
    ValueOfBinary(v, 32);
    ValueOfBinary(0, 32);
    LowIsMod(v, 32);
    LowIsMod(0, 32);
  }

  /** The bound of `AsWrittenCorrectUpTo24` is tight: at `nbits == 25` the
      group that should hold bits 24 to 31 repeats bits 16 to 23, so bit 24
      is lost. */
  lemma AsWrittenWrongAt25()
    ensures AsWrittenBitsToString(0x100_0000, 25) == Ok(Binary(0, 25))
    ensures Binary(0x100_0000, 25) != Binary(0, 25)
  {
    var v := 0x100_0000;
    Pow2Values();
    ShrIsDiv(v, 16);
    ShrIsDiv(v, 8);
    LowIsMod(256, 8);
    LowIsMod(0x1_0000, 8);
    LowIsMod(v, 8);
    var z := ByteBits(0);
    assert Groups(Shifts, v, 3) == z + (z + (z + (z + [])));
    ZeroBytes();
    ShrOfZero(25);
    BinaryConcat(0, 7, 25);
    assert Binary(0, 32)[7..] == Binary(0, 25);
    Pow2Add(24, 1);
    ValueOfBinary(v, 25);
    ValueOfBinary(0, 25);
    LowIsMod(v, 25);
    LowIsMod(0, 25);
  }

  /** Four zero bytes are the 32 digits of zero. */
  lemma ZeroBytes()
    ensures ByteBits(0) + (ByteBits(0) + (ByteBits(0) + (ByteBits(0) + []))) == Binary(0, 32)
  {
    ShrOfZero(8);
    ShrOfZero(16);
    ShrOfZero(24);
    BinaryConcat(0, 8, 24);
    BinaryConcat(0, 8, 16);
    BinaryConcat(0, 8, 8);
    assert Binary(0, 8) + [] == Binary(0, 8);
  }

  lemma {:induction false} ShrOfZero(b: nat)
    ensures Shr(0, b) == 0
  {
    if b > 0 {
      ShrOfZero(b - 1);
    }
  }

  /** The powers of two the concrete cases use. */
  lemma Pow2Values()
    ensures Pow2(8) == 0x100 && Pow2(16) == 0x1_0000 && Pow2(24) == 0x100_0000
    ensures Pow2(32) == 0x1_0000_0000 && Pow2(64) == 0x1_0000_0000_0000_0000
  {
    assert Pow2(2) == 4;
    assert Pow2(4) == 16;
    assert Pow2(6) == 64;
    assert Pow2(8) == 0x100;
    Pow2Add(8, 8);
    Pow2Add(16, 8);
    Pow2Add(16, 16);
    Pow2Add(32, 32);
  }

  lemma {:induction false} Pow2Add(a: nat, b: nat)
    ensures Pow2(a + b) == Pow2(a) * Pow2(b)
  {
    if a > 0 {
      Pow2Add(a - 1, b);
    }
  }

  /** `v >> b` is division by `2^b`. */
  lemma {:induction false} ShrIsDiv(v: nat, b: nat)
    ensures Shr(v, b) == v / Pow2(b)
  {
    if b > 0 {
      ShrIsDiv(v / 2, b - 1);
      var m := Pow2(b - 1);
      var t, u := (v / 2) / m, (v / 2) % m;
      assert v == (2 * m) * t + (2 * u + v % 2);
      DivModUnique(v, 2 * m, t, 2 * u + v % 2);
    }
  }

  // ---------------------------------------------------------------------
  // The evidently intended bits_to_string

  /** The shift table the `switch` evidently intends: `case k` appends the
      byte `k`. (`bits >> 64` is undefined in C++; for the eighth byte of a
      `uint64_t` the intended group is zero, which `Shr` gives.) */
  const CorrectShifts: seq<nat> := [0, 8, 16, 24, 32, 40, 48, 56, 64]

  /** The evidently intended `bits_to_string`. */
  function IntendedBitsToString(bits: uint64, nbits: int): Result<string> {
    ShowBits(CorrectShifts, bits, nbits)
  }

  /** With the intended table the groups are the binary form of the
      `8 * (k + 1)` lowest bits. */
  lemma {:induction false} CorrectGroups(bits: uint64, k: int)
    requires -1 <= k <= 8
    ensures Groups(CorrectShifts, bits, k) == Binary(bits, 8 * (k + 1))
    decreases k + 1
  {
    if k >= 0 {
      CorrectGroups(bits, k - 1);
      BinaryLow(Shr(bits, 8 * k), 8);
      BinaryConcat(bits, 8, 8 * k);
    }
  }

  /** The intended `bits_to_string` gives the binary form of the `nbits`
      lowest bits for every `0 <= nbits <= 71`. */
  lemma IntendedIsBinary(bits: uint64, nbits: int)
    requires 0 <= nbits <= 71
    ensures IntendedBitsToString(bits, nbits) == Ok(Binary(bits, nbits))
  {
    var quot, width := nbits / 8, 8 - nbits % 8;
    ShowBitsInRange(CorrectShifts, bits, nbits);
    CorrectGroups(bits, quot);
    assert 8 * (quot + 1) == width + nbits;
    BinaryConcat(bits, width, nbits);
    var high := Binary(Shr(bits, nbits), width);
    assert Groups(CorrectShifts, bits, quot) == high + Binary(bits, nbits);
    assert (high + Binary(bits, nbits))[width..] == Binary(bits, nbits);
  }

  /** For `0 <= nbits <= 71` the `substr` is in range. */
  lemma ShowBitsInRange(shift: seq<nat>, bits: uint64, nbits: int)
    requires |shift| == 9 && 0 <= nbits <= 71
    ensures ShowBits(shift, bits, nbits) == Ok(Groups(shift, bits, nbits / 8)[8 - nbits % 8..])
  {
  }

  // ---------------------------------------------------------------------
  // string_to_bits

  /** `string_to_bits`: more than 64 characters is `std::invalid_argument`
      with the message below; a character other than '0' and '1' makes the
      `std::bitset` constructor throw `std::invalid_argument`. Otherwise the
      value of the digits and the number of digits. */
  function StringToBits(s: string): (r: Result<(uint64, int)>)
    ensures r.Ok? <==> |s| <= 64 && IsBitString(s)
    ensures r.Ok? ==> r.value.1 == |s| && r.value.0 < Pow2(|s|)
  {
    if |s| > 64 then Err("bit string length must be <= 64")
    else if !IsBitString(s) then Err("bitset: invalid argument")
    else
      PowMonotone(|s|, 64);
      Pow2Values();
      Ok((Value(s), |s|))
  }

  /** Reading back what the intended `bits_to_string` writes gives the
      `nbits` lowest bits and `nbits`. */
  lemma BitsRoundTrip(bits: uint64, nbits: int)
    requires 0 <= nbits <= 64
    ensures StringToBits(IntendedBitsToString(bits, nbits).value) == Ok((Low(bits, nbits), nbits))
  {
    IntendedIsBinary(bits, nbits);
    ValueOfBinary(bits, nbits);
  }

  /** Writing out what `string_to_bits` reads gives the string back. */
  lemma StringRoundTrip(s: string)
    requires StringToBits(s).Ok?
    ensures IntendedBitsToString(StringToBits(s).value.0, StringToBits(s).value.1) == Ok(s)
  {
    IntendedIsBinary(Value(s), |s|);
    BinaryOfValue(s);
  }

  lemma {:induction false} PowMonotone(a: nat, b: nat)
    requires a <= b
    ensures Pow2(a) <= Pow2(b)
    decreases b - a
  {
    if a < b {
      PowMonotone(a + 1, b);
    }
  }
}
