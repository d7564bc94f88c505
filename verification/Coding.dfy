/** lib/coding.c: Unicode to UTF-8. */
module Coding {
  import opened Bytes

  /** Code points the encoder has a length for: the range of Unicode, and the five- and six-byte forms above it. */
  predicate Encodable(u: int) {
    0 <= u <= 0x10FFFF || 0x20_0000 <= u <= 0x7FFF_FFFF
  }

  function Size(u: int): (n: nat)
    ensures 1 <= n <= 6
  {
    if u <= 0x7F then 1 else if u <= 0x7FF then 2 else if u <= 0xFFFF then 3 else if u <= 0x10FFFF then 4
    else if u <= 0x3FF_FFFF then 5 else 6
  }

  /** A continuation byte holds six bits. */
  function Low(v: int): int { v % 0x40 + 0x80 }

  /** The bits of `u` in groups of six, from the right: `v1` is `u` without the last group, and so on. */
  ghost predicate Groups(u: int, v1: int, v2: int, v3: int, v4: int, v5: int) {
    v1 == u / 0x40 && v2 == v1 / 0x40 && v3 == v2 / 0x40 && v4 == v3 / 0x40 && v5 == v4 / 0x40
  }

  /** The UTF-8 form of a code point, given its groups: a first byte that tells the length, then six bits to a byte. */
  ghost function Form(u: int, v1: int, v2: int, v3: int, v4: int, v5: int): seq<int> {
    match Size(u)
    case 1 => [u]
    case 2 => [0xC0 + v1, Low(u)]
    case 3 => [0xE0 + v2, Low(v1), Low(u)]
    case 4 => [0xF0 + v3, Low(v2), Low(v1), Low(u)]
    case 5 => [0xF8 + v4, Low(v3), Low(v2), Low(v1), Low(u)]
    case _ => [0xFC + v5, Low(v4), Low(v3), Low(v2), Low(v1), Low(u)]
  }

  ghost function Encode(u: int): (r: seq<Byte>)
    requires Encodable(u)
    ensures |r| == Size(u)
  {
    var v1 := u / 0x40;
    var v2 := v1 / 0x40;
    var v3 := v2 / 0x40;
    var v4 := v3 / 0x40;
    Form(u, v1, v2, v3, v4, v4 / 0x40)
  }

  // ----- Reading it back -----

  /** The length that a first byte announces. */
  ghost function Announced(b: int): nat {
    if b < 0x80 then 1 else if b < 0xE0 then 2 else if b < 0xF0 then 3 else if b < 0xF8 then 4
    else if b < 0xFC then 5 else 6
  }

  /** Appending the six bits of a continuation byte. */
  ghost function Add(v: int, b: int): int { v * 0x40 + (b - 0x80) }

  /** The code point that the bytes begin with. */
  ghost function Decode(b: seq<int>): int
    requires b != [] && |b| >= Announced(b[0])
  {
    match Announced(b[0])
    case 1 => b[0]
    case 2 => Add(b[0] - 0xC0, b[1])
    case 3 => Add(Add(b[0] - 0xE0, b[1]), b[2])
    case 4 => Add(Add(Add(b[0] - 0xF0, b[1]), b[2]), b[3])
    case 5 => Add(Add(Add(Add(b[0] - 0xF8, b[1]), b[2]), b[3]), b[4])
    case _ => Add(Add(Add(Add(Add(b[0] - 0xFC, b[1]), b[2]), b[3]), b[4]), b[5])
  }

  /** Whatever follows, decoding gives back the code point, and the first byte says where the next one begins. */
  lemma DecodeInvertsEncode(u: int, rest: seq<Byte>)
    requires Encodable(u)
    ensures Announced((Encode(u) + rest)[0]) == Size(u)
    ensures Decode(Encode(u) + rest) == u
  {
  }

  /** How many code points have a form of `n` bytes: seven bits for one byte, four more for the second, and five more
      for each after that. */
  ghost function Capacity(n: nat): int {
    if n <= 1 then 0x80 else if n == 2 then 0x800 else 0x20 * Capacity(n - 1)
  }

  /** Every code point gets its shortest form. */
  lemma ShortestForm(u: int, n: nat)
    requires Encodable(u) && 1 <= n <= 6
    ensures |Encode(u)| <= n <==> u < Capacity(n)
  {
    assert Capacity(3) == 0x1_0000 && Capacity(4) == 0x20_0000;
    assert Capacity(5) == 0x400_0000 && Capacity(6) == 0x8000_0000;
  }

  /** No byte of a nonzero code point is zero, so a zero still ends the string. */
  lemma NoZeroBytes(u: int)
    requires Encodable(u) && u != 0
    ensures 0 !in Encode(u)
  {
  }

  // ----- The encoder -----

  lemma Shifts(u: int)
    requires 0 <= u
    ensures Groups(u, u / 0x40, u / 0x1000, u / 0x4_0000, u / 0x100_0000, u / 0x4000_0000)
  {
  }

  // The branches of unicode_into_utf8. The masks and markers of the C code share no bits, so their sum is their or.

  method PutTwo(u: int, utf8: array<Byte>, at: nat)
    requires 0x80 <= u <= 0x7FF && at + 2 <= utf8.Length
    modifies utf8
    ensures utf8[at..at + 2] == Encode(u)
    ensures forall i | 0 <= i < utf8.Length && !(at <= i < at + 2) :: utf8[i] == old(utf8[i])
  {
    Shifts(u);
    utf8[at + 1] := u % 0x40 + 0x80;
    utf8[at] := u / 0x40 % 0x20 + 0xC0;
  }

  method PutThree(u: int, utf8: array<Byte>, at: nat)
    requires 0x800 <= u <= 0xFFFF && at + 3 <= utf8.Length
    modifies utf8
    ensures utf8[at..at + 3] == Encode(u)
    ensures forall i | 0 <= i < utf8.Length && !(at <= i < at + 3) :: utf8[i] == old(utf8[i])
  {
    Shifts(u);
    utf8[at + 2] := u % 0x40 + 0x80;
    utf8[at + 1] := u / 0x40 % 0x40 + 0x80;
    utf8[at] := u / 0x1000 % 0x10 + 0xE0;
  }

  method PutFour(u: int, utf8: array<Byte>, at: nat)
    requires 0x1_0000 <= u <= 0x10_FFFF && at + 4 <= utf8.Length
    modifies utf8
    ensures utf8[at..at + 4] == Encode(u)
    ensures forall i | 0 <= i < utf8.Length && !(at <= i < at + 4) :: utf8[i] == old(utf8[i])
  {
    Shifts(u);
    utf8[at + 3] := u % 0x40 + 0x80;
    utf8[at + 2] := u / 0x40 % 0x40 + 0x80;
    utf8[at + 1] := u / 0x1000 % 0x40 + 0x80;
    utf8[at] := u / 0x4_0000 % 8 + 0xF0;
  }

  method PutFive(u: int, utf8: array<Byte>, at: nat)
    requires 0x20_0000 <= u <= 0x3FF_FFFF && at + 5 <= utf8.Length
    modifies utf8
    ensures utf8[at..at + 5] == Encode(u)
    ensures forall i | 0 <= i < utf8.Length && !(at <= i < at + 5) :: utf8[i] == old(utf8[i])
  {
    Shifts(u);
    assert u / 0x100_0000 % 4 == u / 0x100_0000;
    utf8[at + 4] := u % 0x40 + 0x80;
    utf8[at + 3] := u / 0x40 % 0x40 + 0x80;
    utf8[at + 2] := u / 0x1000 % 0x40 + 0x80;
    utf8[at + 1] := u / 0x4_0000 % 0x40 + 0x80;
    utf8[at] := u / 0x100_0000 % 4 + 0xF8;
  }

  method PutSix(u: int, utf8: array<Byte>, at: nat)
    requires 0x400_0000 <= u <= 0x7FFF_FFFF && at + 6 <= utf8.Length
    modifies utf8
    ensures utf8[at..at + 6] == Encode(u)
    ensures forall i | 0 <= i < utf8.Length && !(at <= i < at + 6) :: utf8[i] == old(utf8[i])
  {
    Shifts(u);
    assert u / 0x4000_0000 % 2 == u / 0x4000_0000;
    utf8[at + 5] := u % 0x40 + 0x80;
    utf8[at + 4] := u / 0x40 % 0x40 + 0x80;
    utf8[at + 3] := u / 0x1000 % 0x40 + 0x80;
    utf8[at + 2] := u / 0x4_0000 % 0x40 + 0x80;
    utf8[at + 1] := u / 0x100_0000 % 0x40 + 0x80;
    utf8[at] := u / 0x4000_0000 % 2 + 0xFC;
  }

  /** unicode_into_utf8 at `utf8 + at` */
  method UnicodeIntoUtf8(u: int, utf8: array<Byte>, at: nat) returns (size: nat)
    requires Encodable(u) && at + Size(u) <= utf8.Length
    modifies utf8
    ensures size == Size(u) && utf8[at..at + size] == Encode(u)
    ensures forall i | 0 <= i < utf8.Length && !(at <= i < at + size) :: utf8[i] == old(utf8[i])
  {
    size := 0;
    if u <= 0x7F {
      utf8[at] := u % 0x80;
      size := 1;
    }
    if 0x80 <= u <= 0x7FF {
      PutTwo(u, utf8, at);
      size := 2;
    }
    if 0x800 <= u <= 0xFFFF {
      PutThree(u, utf8, at);
      size := 3;
    }
    if 0x1_0000 <= u <= 0x10_FFFF {
      PutFour(u, utf8, at);
      size := 4;
    }
    if 0x20_0000 <= u <= 0x3FF_FFFF {
      PutFive(u, utf8, at);
      size := 5;
    }
    if 0x400_0000 <= u <= 0x7FFF_FFFF {
      PutSix(u, utf8, at);
      size := 6;
    }
  }

  // ----- Strings of 16-bit units -----

  /** The UTF-8 of all units, one after the other. */
  ghost function EncodeAll(units: seq<int>): seq<Byte>
    requires forall i | 0 <= i < |units| :: 0 < units[i] < 0x1_0000
  {
    if units == [] then [] else EncodeAll(units[..|units| - 1]) + Encode(units[|units| - 1])
  }

  lemma {:induction false} EncodeAllMore(units: seq<int>, n: nat)
    requires forall i | 0 <= i < |units| :: 0 < units[i] < 0x1_0000
    requires n <= |units|
    ensures |EncodeAll(units[..n])| <= |EncodeAll(units)|
    ensures n < |units| ==> |EncodeAll(units[..n])| + Size(units[n]) <= |EncodeAll(units)|
    ensures n < |units| ==> EncodeAll(units[..n + 1]) == EncodeAll(units[..n]) + Encode(units[n])
    decreases |units|
  {
    if n == |units| {
      assert units[..n] == units;
    } else {
      assert units[..n + 1][..n] == units[..n];
      EncodeAllMore(units[..|units| - 1], if n + 1 == |units| then n else n);
      assert units[..|units| - 1][..n] == units[..n];
      if n + 1 == |units| {
        assert units[..n + 1] == units;
      }
    }
  }

  lemma {:induction false} NoZeroInAll(units: seq<int>)
    requires forall i | 0 <= i < |units| :: 0 < units[i] < 0x1_0000
    ensures 0 !in EncodeAll(units)
  {
    if units != [] {
      NoZeroInAll(units[..|units| - 1]);
      NoZeroBytes(units[|units| - 1]);
    }
  }

  /** The units that UTF-8 bytes stand for. */
  ghost function DecodeAll(b: seq<Byte>): seq<int> {
    if b == [] || |b| < Announced(b[0]) then [] else [Decode(b)] + DecodeAll(b[Announced(b[0])..])
  }

  lemma {:induction false} EncodeAllFront(units: seq<int>)
    requires units != [] && forall i | 0 <= i < |units| :: 0 < units[i] < 0x1_0000
    ensures EncodeAll(units) == Encode(units[0]) + EncodeAll(units[1..])
  {
    if |units| == 1 {
      assert units[..0] == [] && EncodeAll([]) == [];
    } else {
      var front := units[..|units| - 1];
      EncodeAllFront(front);
      assert front[1..] == units[1..][..|units| - 2];
      var last := Encode(units[|units| - 1]);
      assert (Encode(units[0]) + EncodeAll(front[1..])) + last == Encode(units[0]) + (EncodeAll(front[1..]) + last);
    }
  }

  /** Decoding the bytes of a string of units gives the units back. */
  lemma {:induction false} DecodeAllInverts(units: seq<int>)
    requires forall i | 0 <= i < |units| :: 0 < units[i] < 0x1_0000
    ensures DecodeAll(EncodeAll(units)) == units
  {
    if units != [] {
      EncodeAllFront(units);
      DecodeInvertsEncode(units[0], EncodeAll(units[1..]));
      DecodeAllInverts(units[1..]);
      assert EncodeAll(units)[Size(units[0])..] == EncodeAll(units[1..]);
    }
  }

  /** str_unicode_to_utf8: the units up to the first zero, and a zero behind their bytes. `ok` is false where they are
      written past the end of the caller's buffer. */
  method StrUnicodeToUtf8(unicode: array<int>, utf8: array<Byte>, ghost units: seq<int>)
    returns (sumSize: nat, ok: bool)
    requires |units| < unicode.Length && unicode[|units|] == 0
    requires forall i | 0 <= i < |units| :: 0 < units[i] < 0x1_0000 && unicode[i] == units[i]
    modifies utf8
    ensures ok <==> |EncodeAll(units)| < utf8.Length
    ensures ok ==> sumSize == |EncodeAll(units)| && utf8[..sumSize] == EncodeAll(units) && utf8[sumSize] == 0
  {
    sumSize := 0;
    var i := 0;
    while unicode[i] != 0
      invariant i <= |units| && sumSize == |EncodeAll(units[..i])| <= utf8.Length
      invariant utf8[..sumSize] == EncodeAll(units[..i])
      decreases |units| - i
    {
      EncodeAllMore(units, i);
      if sumSize + Size(unicode[i]) > utf8.Length {
        return sumSize, false;
      }
      ghost var done := utf8[..sumSize];
      var size := UnicodeIntoUtf8(unicode[i], utf8, sumSize);
      assert utf8[..sumSize + size] == done + Encode(units[i]);
      sumSize := sumSize + size;
      i := i + 1;
      EncodeAllMore(units, i);
    }
    assert units[..|units|] == units;
    if sumSize == utf8.Length {
      return sumSize, false;
    }
    utf8[sumSize] := 0;
    ok := true;
  }
}
