/** `truncate(const wchar_t *str, size_t length, size_t max_length)`
    (utils_string.cc): keeps the first `max_length` characters of a wide
    string. Where `wchar_t` holds 16 bits the string is UTF-16 (RFC 2781)
    and a character is a surrogate pair or a single unit; where it holds
    32 bits every unit is a character. */
module WideTruncate {
  import opened Basics

  /** `(u & 0xFC00) == 0xD800`: a high (leading) surrogate, D800-DBFF
      (section 2.1 of RFC 2781). */
  predicate IsHighSurrogate(u: uint16) {
    0xD800 <= u <= 0xDBFF
  }

  /** The units the UTF-16 loop emits for `str` with room for `room` more
      characters: a high surrogate takes the unit after it along, whatever
      that unit is; a high surrogate in last position ends the output. */
  function TruncatedUtf16(str: seq<uint16>, room: nat): seq<uint16>
    decreases |str|
  {
    if room == 0 || str == [] then []
    else if IsHighSurrogate(str[0]) then
      if |str| == 1 then [] else str[..2] + TruncatedUtf16(str[2..], room - 1)
    else [str[0]] + TruncatedUtf16(str[1..], room - 1)
  }

  /** The UTF-16 variant: `idx` walks `str`, `truncatedLength` counts the
      characters emitted. */
  method TruncateUtf16(str: seq<uint16>, maxLength: nat) returns (truncated: seq<uint16>)
    ensures truncated == TruncatedUtf16(str, maxLength)
  {
    truncated := [];
    var idx := 0;
    var truncatedLength := 0;
    while truncatedLength < maxLength && idx < |str|
      invariant idx <= |str| && truncatedLength <= maxLength
      invariant truncated + TruncatedUtf16(str[idx..], maxLength - truncatedLength)
                == TruncatedUtf16(str, maxLength)
      decreases |str| - idx
    {
      TruncatedStep(str, idx, maxLength - truncatedLength);
      if IsHighSurrogate(str[idx]) {
        if idx + 1 == |str| {
          break;
        }
        truncated := truncated + [str[idx]];
        idx := idx + 1;
      }
      truncated := truncated + [str[idx]];
      idx := idx + 1;
      truncatedLength := truncatedLength + 1;
    }
    assert truncated + [] == truncated;
  }

  /** One round of the UTF-16 loop, as `TruncatedUtf16` sees it at `idx`. */
  lemma TruncatedStep(str: seq<uint16>, idx: nat, room: nat)
    requires idx < |str| && room > 0
    ensures IsHighSurrogate(str[idx]) && idx + 1 == |str| ==> TruncatedUtf16(str[idx..], room) == []
    ensures IsHighSurrogate(str[idx]) && idx + 1 < |str| ==>
              TruncatedUtf16(str[idx..], room)
              == [str[idx]] + [str[idx + 1]] + TruncatedUtf16(str[idx + 2..], room - 1)
    ensures !IsHighSurrogate(str[idx]) ==>
              TruncatedUtf16(str[idx..], room) == [str[idx]] + TruncatedUtf16(str[idx + 1..], room - 1)
  {
    var r := str[idx..];
    if IsHighSurrogate(str[idx]) && idx + 1 < |str| {
      assert r[..2] == [str[idx]] + [str[idx + 1]];
      assert r[2..] == str[idx + 2..];
    }
    if !IsHighSurrogate(str[idx]) {
      assert r[1..] == str[idx + 1..];
    }
  }

  /** The characters of a UTF-16 string: a high surrogate and the unit after
      it, or a single unit. A high surrogate with nothing after it is no
      character. */
  function Characters(str: seq<uint16>): seq<seq<uint16>>
    decreases |str|
  {
    if str == [] then []
    else if IsHighSurrogate(str[0]) then
      if |str| == 1 then [] else [str[..2]] + Characters(str[2..])
    else [[str[0]]] + Characters(str[1..])
  }

  /** The units of a sequence of characters, in order. */
  function Flatten(cs: seq<seq<uint16>>): seq<uint16>
  {
    if cs == [] then [] else cs[0] + Flatten(cs[1..])
  }

  function Min(a: nat, b: nat): nat {
    if a <= b then a else b
  }

  /** The UTF-16 result is exactly the first `maxLength` characters of
      `str` (all of them when there are fewer). */
  lemma {:induction false} TruncatedIsFirstCharacters(str: seq<uint16>, maxLength: nat)
    ensures TruncatedUtf16(str, maxLength)
            == Flatten(Characters(str)[..Min(maxLength, |Characters(str)|)])
    decreases |str|
  {
    var cs := Characters(str);
    if maxLength == 0 || str == [] {
      assert cs[..Min(maxLength, |cs|)] == [];
    } else if IsHighSurrogate(str[0]) && |str| == 1 {
      assert cs == [];
    } else {
      var k := if IsHighSurrogate(str[0]) then 2 else 1;
      TruncatedIsFirstCharacters(str[k..], maxLength - 1);
      var rest := Characters(str[k..]);
      if k == 1 {
        assert [str[0]] == str[..1];
      }
      assert cs == [str[..k]] + rest;
      assert |cs| == 1 + |rest|;
      FlattenConsPrefix(str[..k], rest, Min(maxLength - 1, |rest|));
      assert TruncatedUtf16(str, maxLength) == str[..k] + TruncatedUtf16(str[k..], maxLength - 1);
    }
  }

  /** The first `m + 1` characters of `[c] + rest` are `c` and the first `m`
      of `rest`. */
  lemma FlattenConsPrefix(c: seq<uint16>, rest: seq<seq<uint16>>, m: nat)
    requires m <= |rest|
    ensures Flatten(([c] + rest)[..m + 1]) == c + Flatten(rest[..m])
  {
    var taken := ([c] + rest)[..m + 1];
    assert taken[0] == c;
    assert taken[1..] == rest[..m];
  }

  /** The UTF-16 result is a prefix of the input. */
  lemma {:induction false} TruncatedIsPrefix(str: seq<uint16>, maxLength: nat)
    ensures var r := TruncatedUtf16(str, maxLength); |r| <= |str| && r == str[..|r|]
    decreases |str|
  {
    if maxLength > 0 && str != [] && !(IsHighSurrogate(str[0]) && |str| == 1) {
      var k := if IsHighSurrogate(str[0]) then 2 else 1;
      TruncatedIsPrefix(str[k..], maxLength - 1);
      var tail := TruncatedUtf16(str[k..], maxLength - 1);
      assert TruncatedUtf16(str, maxLength) == str[..k] + tail;
      assert str[..k] + tail == str[..k + |tail|];
    }
  }

  /** The UTF-16 result holds at most `maxLength` characters: its own
      characters are the ones it was cut from. */
  lemma TruncatedCharacterCount(str: seq<uint16>, maxLength: nat)
    ensures Characters(TruncatedUtf16(str, maxLength))
            == Characters(str)[..Min(maxLength, |Characters(str)|)]
    ensures |Characters(TruncatedUtf16(str, maxLength))| <= maxLength
  {
    TruncatedIsFirstCharacters(str, maxLength);
    var cs := Characters(str);
    CharactersAreWhole(str);
    CharactersOfFlatten(cs[..Min(maxLength, |cs|)]);
  }

  /** A character is a high surrogate with one unit after it, or one unit
      that is no high surrogate. */
  predicate IsCharacter(c: seq<uint16>) {
    (|c| == 2 && IsHighSurrogate(c[0])) || (|c| == 1 && !IsHighSurrogate(c[0]))
  }

  lemma {:induction false} CharactersAreWhole(str: seq<uint16>)
    ensures forall i :: 0 <= i < |Characters(str)| ==> IsCharacter(Characters(str)[i])
    decreases |str|
  {
    if str != [] && !(IsHighSurrogate(str[0]) && |str| == 1) {
      var k := if IsHighSurrogate(str[0]) then 2 else 1;
      CharactersAreWhole(str[k..]);
    }
  }

  /** Splitting the units of whole characters gives the characters back. */
  lemma {:induction false} CharactersOfFlatten(cs: seq<seq<uint16>>)
    requires forall i :: 0 <= i < |cs| ==> IsCharacter(cs[i])
    ensures Characters(Flatten(cs)) == cs
  {
    if cs != [] {
      CharactersOfFlatten(cs[1..]);
      var units := Flatten(cs);
      assert IsCharacter(cs[0]);
      assert units == cs[0] + Flatten(cs[1..]);
      assert units[0] == cs[0][0];
      assert units[|cs[0]|..] == Flatten(cs[1..]);
      assert units[..|cs[0]|] == cs[0];
      if |cs[0]| == 2 {
        assert IsHighSurrogate(units[0]) && |units| >= 2;
        assert Characters(units) == [units[..2]] + Characters(units[2..]);
      } else {
        assert !IsHighSurrogate(units[0]);
        assert [units[0]] == cs[0];
        assert Characters(units) == [[units[0]]] + Characters(units[1..]);
      }
      assert [cs[0]] + cs[1..] == cs;
    }
  }

  /** With room for every character, the UTF-16 result is the whole input,
      or the whole input but a high surrogate in last position. */
  lemma {:induction false} TruncatedKeepsAll(str: seq<uint16>, maxLength: nat)
    requires maxLength >= |str|
    ensures var r := TruncatedUtf16(str, maxLength);
            r == str || (r + [str[|str| - 1]] == str && IsHighSurrogate(str[|str| - 1]))
    decreases |str|
  {
    if str != [] && !(IsHighSurrogate(str[0]) && |str| == 1) {
      var k := if IsHighSurrogate(str[0]) then 2 else 1;
      TruncatedKeepsAll(str[k..], maxLength - 1);
      var tail := TruncatedUtf16(str[k..], maxLength - 1);
      assert TruncatedUtf16(str, maxLength) == str[..k] + tail;
      if tail != str[k..] {
        assert str[k..][|str[k..]| - 1] == str[|str| - 1];
        assert str[..k] + tail + [str[|str| - 1]] == str[..k] + (tail + [str[|str| - 1]]);
      }
      assert str[..k] + str[k..] == str;
    }
  }

  /** Truncating twice to the same length changes nothing the second time. */
  lemma TruncateUtf16Idempotent(str: seq<uint16>, maxLength: nat)
    ensures TruncatedUtf16(TruncatedUtf16(str, maxLength), maxLength) == TruncatedUtf16(str, maxLength)
  {
    var r := TruncatedUtf16(str, maxLength);
    TruncatedCharacterCount(str, maxLength);
    TruncatedIsFirstCharacters(r, maxLength);
    TruncatedIsFirstCharacters(str, maxLength);
    var cs := Characters(str);
    var taken := cs[..Min(maxLength, |cs|)];
    assert Characters(r) == taken;
    assert taken[..Min(maxLength, |taken|)] == taken;
  }

  /** The UTF-32 variant: `std::wstring(str, min(length, max_length))`. */
  function TruncateUtf32(str: seq<uint32>, maxLength: nat): (r: seq<uint32>)
    ensures |r| == Min(|str|, maxLength)
    ensures r == str[..|r|]
  {
    str[..Min(|str|, maxLength)]
  }
}
