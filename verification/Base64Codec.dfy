/** The buffer-to-buffer codec of iot_security_util.c, proved against module Base64. */
module Base64Codec {
  import opened Bytes
  import opened Base64
  import opened Arithmetic

  const SIZE_T_MAX: int := 0xFFFF_FFFF

  datatype Error = NoError | InvalidArgs | EncodeError | DecodeError | UrlEncodeError | UrlDecodeError

  // ----- encoder -----

  /** Four stores through the moving output pointer. */
  method StoreGroup(dst: array<byte>, p: nat, a: byte, b: byte, c: byte, d: byte)
    requires p + 4 <= dst.Length
    modifies dst
    ensures dst[..] == Patch(old(dst[..]), p, [a, b, c, d])
  {
    dst[p], dst[p + 1], dst[p + 2], dst[p + 3] := a, b, c, d;
  }

  /** The encoder's main loop, over the whole groups of three bytes. */
  method EncodeGroups(dst: array<byte>, at: nat, src: seq<byte>) returns (i: nat, p: nat)
    requires at + EncodedLen(|src|) <= dst.Length
    modifies dst
    ensures i == |src| / 3 * 3 && p == at + |Encode(src[..i])| == at + |src| / 3 * 4
    ensures dst[..] == Patch(old(dst[..]), at, Encode(src[..i]))
  {
    hide EncMap, Encode, Patch, EncodeGroup;
    ghost var f := dst[..];
    var n := |src| / 3 * 3;
    ghost var groups := 0;
    i, p := 0, at;
    EncodeNothing(src);
    PatchNothing(f, at);
    while i < n
      invariant 0 <= i == 3 * groups <= n && p == at + 4 * groups
      invariant |Encode(src[..i])| == 4 * groups
      invariant dst[..] == Patch(f, at, Encode(src[..i]))
    {
      var c1, c2, c3 := src[i], src[i + 1], src[i + 2];
      GroupIndices(c1, c2, c3);
      StoreGroup(dst, p, EncMap(c1 / 4 % 64), EncMap((c1 % 4 * 16 + c2 / 16) % 64),
                 EncMap((c2 % 16 * 4 + c3 / 64) % 64), EncMap(c3 % 64));
      AppendGroup(src, i);
      PatchTwice(f, at, Encode(src[..i]), EncodeGroup(c1, c2, c3));
      i, p, groups := i + 3, p + 4, groups + 1;
    }
  }

  /** The one or two bytes after the last whole group. */
  method EncodeRest(dst: array<byte>, p: nat, src: seq<byte>, i: nat) returns (p': nat)
    requires i == |src| / 3 * 3 && p + (if i < |src| then 4 else 0) <= dst.Length
    modifies dst
    ensures p' == p + |Encode(src[i..])|
    ensures dst[..] == Patch(old(dst[..]), p, Encode(src[i..]))
  {
    p' := p;
    if i < |src| {
      var c1 := src[i];
      var c2 := if i + 1 < |src| then src[i + 1] else 0;
      TailIndices(src[i..]);
      hide EncMap, EncodeTail;
      StoreGroup(dst, p, EncMap(c1 / 4 % 64), EncMap((c1 % 4 * 16 + c2 / 16) % 64),
                 if i + 1 < |src| then EncMap(c2 % 16 * 4 % 64) else EQUALS, EQUALS);
      p' := p + 4;
    }
  }

  /** All of a non-empty source, with a terminating zero. */
  method EncodeAll(dst: array<byte>, at: nat, src: seq<byte>) returns (p: nat)
    requires at + EncodedLen(|src|) < dst.Length
    modifies dst
    ensures p == at + |Encode(src)| == at + EncodedLen(|src|)
    ensures dst[..] == Patch(old(dst[..]), at, Encode(src) + [0])
  {
    hide Encode, Patch;
    EncodeLength(src);
    ghost var f := dst[..];
    var i;
    i, p := EncodeGroups(dst, at, src);
    assert src == src[..i] + src[i..];
    EncodeSplits(src[..i], src[i..]);
    p := EncodeRest(dst, p, src, i);
    PatchTwice(f, at, Encode(src[..i]), Encode(src[i..]));
    ghost var g := dst[..];
    dst[p] := 0;
    PatchOne(g, p, 0);
    PatchTwice(f, at, Encode(src), [0]);
  }

  /** _base64_encode, storing from dst[at] on: the text and a terminating zero. */
  method EncodeTo(dst: array<byte>, at: nat, dlen: nat, src: seq<byte>) returns (ret: int, olen: int)
    requires at + dlen <= dst.Length && dlen <= SIZE_T_MAX && |src| <= SIZE_T_MAX
    modifies dst
    ensures ret == if src == [] || EncodedLen(|src|) + 1 <= dlen then 0 else -1
    ensures ret == 0 ==> olen == |Encode(src)| == EncodedLen(|src|)
    ensures ret == 0 && src != [] ==> dst[..] == Patch(old(dst[..]), at, Encode(src) + [0])
    ensures ret != 0 || src == [] ==> dst[..] == old(dst[..])
    ensures ret != 0 ==>
              olen == if EncodedLen(|src|) / 4 > (SIZE_T_MAX - 1) / 4 then SIZE_T_MAX else EncodedLen(|src|) + 1
  {
    if |src| == 0 {
      return 0, 0;
    }
    var n := |src| / 3 + (if |src| % 3 != 0 then 1 else 0);
    assert n * 4 == EncodedLen(|src|);
    if n > (SIZE_T_MAX - 1) / 4 {
      return -1, SIZE_T_MAX;
    }
    n := n * 4;
    if dlen < n + 1 {
      return -1, n + 1;
    }
    hide Encode, Patch;
    var p := EncodeAll(dst, at, src);
    olen := p - at;
    ret := 0;
  }

  lemma EncodeNothing(src: seq<byte>)
    ensures Encode(src[..0]) == []
  {
  }

  lemma GroupIndices(c1: byte, c2: byte, c3: byte)
    ensures EncodeGroup(c1, c2, c3)
         == [EncMap(c1 / 4 % 64), EncMap((c1 % 4 * 16 + c2 / 16) % 64),
             EncMap((c2 % 16 * 4 + c3 / 64) % 64), EncMap(c3 % 64)]
  {
    hide EncMap;
  }

  lemma TailIndices(s: seq<byte>)
    requires 1 <= |s| <= 2
    ensures var c2 := if |s| == 2 then s[1] else 0;
            EncodeTail(s) == [EncMap(s[0] / 4 % 64), EncMap((s[0] % 4 * 16 + c2 / 16) % 64),
                              if |s| == 2 then EncMap(c2 % 16 * 4 % 64) else EQUALS, EQUALS]
  {
  }

  lemma AppendGroup(src: seq<byte>, i: nat)
    requires i % 3 == 0 && i + 3 <= |src|
    ensures Encode(src[..i + 3]) == Encode(src[..i]) + EncodeGroup(src[i], src[i + 1], src[i + 2])
  {
    var g := src[i..i + 3];
    assert src[..i + 3] == src[..i] + g;
    EncodeSplits(src[..i], g);
    assert g[3..] == [];
    assert Encode(g) == EncodeGroup(g[0], g[1], g[2]) + Encode([]);
  }

  // ----- decoder -----

  /** A symbol other than a blank, after j padding characters. */
  method CheckSymbol(c: byte, j: nat) returns (ok: bool, j': nat)
    ensures j' == j + (if c == EQUALS then 1 else 0)
    ensures ok <==> DecMap(c) != 127 && if c == EQUALS then j < 2 else j == 0
  {
    j' := j;
    if c == EQUALS {
      j' := j + 1;
      if j' > 2 {
        return false, j';
      }
    }
    if DecMap(c) == 127 {
      return false, j';
    }
    ok := !(DecMap(c) < 64 && j' != 0);
  }

  method SkipSpaces(src: seq<byte>, start: nat) returns (i: nat)
    requires start <= |src|
    ensures start <= i <= |src| && (i < |src| ==> src[i] != SPACE)
    ensures forall k :: start <= k < i ==> src[k] == SPACE
    ensures Symbols(src[..i]) == Symbols(src[..start])
  {
    hide Symbols;
    i := start;
    while i < |src| && src[i] == SPACE
      invariant start <= i <= |src|
      invariant forall k :: start <= k < i ==> src[k] == SPACE
      invariant Symbols(src[..i]) == Symbols(src[..start])
    {
      SymbolsSnoc(src, i);
      i := i + 1;
    }
  }

  /** The first i characters are acceptable, with n symbols and j of them padding. */
  ghost predicate Scanned(src: seq<byte>, i: nat, n: nat, j: nat) {
    && i <= |src|
    && (forall k :: 0 <= k < i ==> LocalOk(src, k))
    && PadOk(Symbols(src[..i]))
    && n == |Symbols(src[..i])| && j == PadCount(Symbols(src[..i]))
  }

  lemma ScanStarts(src: seq<byte>)
    ensures Scanned(src, 0, 0, 0)
  {
    NoSymbols(src);
  }

  lemma ScanEnds(src: seq<byte>, i: nat, n: nat, j: nat)
    requires Scanned(src, i, n, j)
    requires forall k :: i <= k < |src| ==> src[k] == SPACE
    requires Symbols(src) == Symbols(src[..i])
    ensures WellFormed(src) && n == |Symbols(src)| && j == PadCount(Symbols(src))
  {
    hide PadOk, PadCount, DecMap, Symbols;
  }

  /** A line feed, or the carriage return before it, possibly after spaces. */
  lemma ScanBreak(src: seq<byte>, start: nat, i: nat, n: nat, j: nat)
    requires start <= i < |src| && Scanned(src, start, n, j)
    requires forall k :: start <= k < i ==> src[k] == SPACE
    requires Symbols(src[..i]) == Symbols(src[..start])
    requires src[i] == LF || LineBreakAt(src, i)
    ensures Scanned(src, i + 1, n, j)
  {
    hide PadOk, PadCount, DecMap, Symbols;
    SymbolsSnoc(src, i);
  }

  lemma ScanSymbol(src: seq<byte>, i: nat, n: nat, j: nat)
    requires i < |src| && Scanned(src, i, n, j)
    requires src[i] != SPACE && src[i] != LF && !LineBreakAt(src, i)
    ensures if DecMap(src[i]) != 127 && (if src[i] == EQUALS then j < 2 else j == 0)
            then Scanned(src, i + 1, n + 1, j + (if src[i] == EQUALS then 1 else 0))
            else !WellFormed(src)
  {
    hide PadOk, PadCount, DecMap, Symbols, LocalOk;
    SymbolStep(src, i);
  }

  /** First pass: validity, the number of symbols n and of padding characters j. */
  method Scan(src: seq<byte>) returns (ok: bool, n: nat, j: nat)
    ensures ok <==> WellFormed(src)
    ensures ok ==> n == |Symbols(src)| && j == PadCount(Symbols(src))
  {
    hide PadOk, PadCount, DecMap, Symbols, Scanned;
    var i := 0;
    n, j := 0, 0;
    ScanStarts(src);
    while i < |src|
      invariant 0 <= i <= |src| && Scanned(src, i, n, j)
    {
      var start := i;
      i := SkipSpaces(src, start);
      if i == |src| {
        assert src[..i] == src;
        ScanEnds(src, start, n, j);
        return true, n, j;
      }
      if (|src| - i >= 2 && src[i] == CR && src[i + 1] == LF) || src[i] == LF {
        ScanBreak(src, start, i, n, j);
        i := i + 1;
        continue;
      }
      if i != start {
        assert !LocalOk(src, i - 1);
        return false, n, j;
      }
      ScanSymbol(src, i, n, j);
      ok, j := CheckSymbol(src[i], j);
      if !ok {
        return;
      }
      n := n + 1;
      i := i + 1;
    }
    assert src[..i] == src;
    ScanEnds(src, i, n, j);
    ok := true;
  }

  lemma NoSymbols(src: seq<byte>)
    ensures Symbols(src[..0]) == [] && PadOk([]) && PadCount([]) == 0
  {
  }

  lemma CarriageReturn()
    ensures DecMap(CR) == 127 && DecMap(SPACE) == 127 && DecMap(LF) == 127
  {
  }

  lemma SymbolsSnoc(src: seq<byte>, i: nat)
    requires i < |src|
    ensures Symbols(src[..i + 1]) == if IsBlank(src[i]) then Symbols(src[..i]) else Symbols(src[..i]) + [src[i]]
  {
    assert src[..i + 1][..i] == src[..i];
  }

  /** The symbol at i, not part of a line break, after an acceptable prefix. */
  lemma SymbolStep(src: seq<byte>, i: nat)
    requires i < |src| && src[i] != SPACE && src[i] != LF && !LineBreakAt(src, i)
    requires PadOk(Symbols(src[..i]))
    ensures var t, c := Symbols(src[..i]), src[i];
            if DecMap(c) != 127 && (if c == EQUALS then PadCount(t) < 2 else PadCount(t) == 0) then
              && Symbols(src[..i + 1]) == t + [c]
              && PadCount(t + [c]) == PadCount(t) + (if c == EQUALS then 1 else 0)
              && LocalOk(src, i) && PadOk(t + [c])
            else !WellFormed(src)
  {
    CarriageReturn();
    if DecMap(src[i]) == 127 {
      assert !LocalOk(src, i);
    } else {
      SymbolsSnoc(src, i);
      PadOkSnoc(Symbols(src[..i]), src[i]);
      if !PadOk(Symbols(src[..i + 1])) {
        Doomed(src, i);
      }
    }
  }

  lemma DoomedText(a: seq<byte>, b: seq<byte>)
    requires !PadOk(Symbols(a))
    ensures !PadOk(Symbols(a + b))
  {
    hide Symbols, PadOk;
    SymbolsConcat(a, b);
    if PadOk(Symbols(a + b)) {
      PadOkPrefix(Symbols(a), Symbols(b));
    }
  }

  lemma Doomed(src: seq<byte>, i: nat)
    requires i < |src| && !PadOk(Symbols(src[..i + 1]))
    ensures !PadOk(Symbols(src))
  {
    hide Symbols, PadOk;
    DoomedText(src[..i + 1], src[i + 1..]);
    assert src == src[..i + 1] + src[i + 1..];
  }

  /** x << 6 | v in 32 bits. */
  function Shift(x: uint32, v: int): uint32
    requires 0 <= v < 64
  {
    (x * 64 + v) % TWO_TO_THE_32
  }

  /** The accumulator's low bits are the symbols of the group being read. */
  ghost predicate Holding(x: uint32, t: seq<byte>) {
    var m := |t|;
    match m % 4
    case 0 => true
    case 1 => x % 64 == Sextet(t[m - 1])
    case 2 => x % 4096 == Sextet(t[m - 2]) * 64 + Sextet(t[m - 1])
    case _ => x % 262144 == Sextet(t[m - 3]) * 4096 + Sextet(t[m - 2]) * 64 + Sextet(t[m - 1])
  }

  lemma ShiftedMod(x: int, v: int)
    requires 0 <= v < 64
    ensures (x * 64 + v) % 64 == v && (x * 64 + v) % 4096 == x % 64 * 64 + v
    ensures (x * 64 + v) % 262144 == x % 4096 * 64 + v
    ensures (x * 64 + v) % 16777216 == x % 262144 * 64 + v
  {
    UniqueRemainder(64, x, v);
    UniqueRemainder(4096, x / 64, x % 64 * 64 + v);
    UniqueRemainder(262144, x / 4096, x % 4096 * 64 + v);
    UniqueRemainder(16777216, x / 262144, x % 262144 * 64 + v);
  }

  /** Shifting a sextet in keeps the low bits: nothing the 32-bit overflow drops is ever read. */
  lemma ShiftKeeps(x: uint32, v: int)
    requires 0 <= v < 64
    ensures var y := Shift(x, v);
            && y % 64 == v && y % 4096 == x % 64 * 64 + v
            && y % 262144 == x % 4096 * 64 + v && y % 16777216 == x % 262144 * 64 + v
  {
    var a := x * 64 + v;
    NestedMod(a, 64, 0x400_0000);
    NestedMod(a, 4096, 0x10_0000);
    NestedMod(a, 262144, 0x4000);
    NestedMod(a, 16777216, 0x100);
    ShiftedMod(x, v);
  }

  /** The low three bytes of the accumulator. */
  lemma LowBytes(x: uint32, g: int)
    requires x % 16777216 == g
    ensures x / 65536 % 256 == g / 65536 && x / 256 % 256 == g / 256 % 256 && x % 256 == g % 256
  {
    var h := x / 16777216;
    assert x == h * 16777216 + g;
    UniqueRemainder(256, h * 65536 + g / 256, g % 256);
    UniqueRemainder(256, h * 256 + g / 65536, g / 256 % 256);
    UniqueRemainder(256, h, g / 65536);
    assert x / 256 == h * 65536 + g / 256;
    assert x / 65536 == h * 256 + g / 65536;
    assert g / 256 == g / 65536 * 256 + g / 256 % 256;
  }

  /** y is x with the sextet v shifted in, as far as the low bits go. */
  predicate ShiftedIn(x: int, v: int, y: int) {
    && y % 64 == v && y % 4096 == x % 64 * 64 + v
    && y % 262144 == x % 4096 * 64 + v && y % 16777216 == x % 262144 * 64 + v
  }

  lemma HoldingShifted(x: uint32, t: seq<byte>, c: byte, y: uint32)
    requires Holding(x, t) && ShiftedIn(x, Sextet(c), y)
    ensures Holding(y, t + [c])
  {
    hide Sextet;
    var u, m := t + [c], |t|;
    assert u[m] == c && (m > 0 ==> u[m - 1] == t[m - 1]) && (m > 1 ==> u[m - 2] == t[m - 2]);
    if m % 4 == 0 {
      assert (m + 1) % 4 == 1;
    } else if m % 4 == 1 {
      assert (m + 1) % 4 == 2;
    } else if m % 4 == 2 {
      assert (m + 1) % 4 == 3;
    } else {
      assert (m + 1) % 4 == 0;
    }
  }

  lemma GroupShifted(x: uint32, t: seq<byte>, c: byte, y: uint32)
    requires Holding(x, t) && |t| % 4 == 3 && ShiftedIn(x, Sextet(c), y)
    ensures y % 16777216 == QuadValue(t[|t| - 3], t[|t| - 2], t[|t| - 1], c)
  {
    hide Sextet;
  }

  lemma HoldingStep(x: uint32, t: seq<byte>, c: byte)
    requires Holding(x, t)
    ensures Holding(Shift(x, Sextet(c)), t + [c])
    ensures |t| % 4 == 3 ==>
              Shift(x, Sextet(c)) % 16777216 == QuadValue(t[|t| - 3], t[|t| - 2], t[|t| - 1], c)
  {
    hide Shift, Holding, QuadValue;
    var y := Shift(x, Sextet(c));
    ShiftKeeps(x, Sextet(c));
    HoldingShifted(x, t, c, y);
    if |t| % 4 == 3 {
      GroupShifted(x, t, c, y);
    }
  }

  /** Up to three stores, as many as there are bytes in the group. */
  method StoreBytes(dst: array<byte>, p: nat, x: uint32, j: nat) returns (p': nat)
    requires j <= 3 && p + j <= dst.Length
    modifies dst
    ensures p' == p + j
    ensures dst[..] == Patch(old(dst[..]), p, [x / 65536 % 256, x / 256 % 256, x % 256][..j])
  {
    p' := p;
    if j > 0 {
      dst[p'] := x / 65536 % 256;
      p' := p' + 1;
    }
    if j > 1 {
      dst[p'] := x / 256 % 256;
      p' := p' + 1;
    }
    if j > 2 {
      dst[p'] := x % 256;
      p' := p' + 1;
    }
  }

  /** Only the last whole group can be padded. */
  lemma EarlierGroupsUnpadded(t: seq<byte>)
    requires PadOk(t) && |t| >= 4
    ensures PadCount(t[|t| - 4..]) == PadCount(t)
  {
    var w, q := t[..|t| - 4], t[|t| - 4..];
    assert t == w + q;
    PadCountConcat(w, q);
    PadCountZero(w);
  }

  /** An incomplete group decodes to nothing yet. */
  lemma DecodeShort(w: seq<byte>, r: seq<byte>)
    requires |w| % 4 == 0 && |r| < 4
    ensures DecodeSymbols(w + r) == DecodeSymbols(w)
  {
    DecodeSymbolsSplits(w, r);
  }

  lemma DecodePartial(t: seq<byte>, c: byte)
    requires |t| % 4 != 3
    ensures DecodeSymbols(t + [c]) == DecodeSymbols(t)
  {
    hide DecodeSymbols;
    var w, r := t[..|t| - |t| % 4], t[|t| - |t| % 4..];
    assert t == w + r && t + [c] == w + (r + [c]);
    DecodeShort(w, r);
    DecodeShort(w, r + [c]);
  }

  lemma DecodeOneGroup(q: seq<byte>)
    requires |q| == 4
    ensures DecodeSymbols(q) == DecodeQuad(q)
  {
    hide DecodeQuad;
    assert q[..4] == q && q[4..] == [];
    assert DecodeSymbols(q) == DecodeQuad(q) + DecodeSymbols([]);
  }

  lemma LastGroup(t: seq<byte>)
    requires |t| % 4 == 0 && |t| > 0
    ensures |t| >= 4 && (|t| - 4) % 4 == 0
    ensures t == t[..|t| - 4] + t[|t| - 4..] && t[..|t| - 1] == t[..|t| - 4] + t[|t| - 4..][..3]
  {
  }

  lemma DecodeWhole(t: seq<byte>)
    requires |t| % 4 == 0 && |t| > 0
    ensures DecodeSymbols(t) == DecodeSymbols(t[..|t| - 1]) + DecodeQuad(t[|t| - 4..])
  {
    hide DecodeSymbols, DecodeQuad, PadCount;
    var w, q := t[..|t| - 4], t[|t| - 4..];
    LastGroup(t);
    DecodeSymbolsSplits(w, q);
    DecodeShort(w, q[..3]);
    DecodeOneGroup(q);
  }

  lemma DecodeGrows(t: seq<byte>, u: seq<byte>)
    ensures |DecodeSymbols(t)| <= |DecodeSymbols(t + u)|
  {
    hide DecodeSymbols;
    var w, r := t[..|t| - |t| % 4], t[|t| - |t| % 4..];
    assert t == w + r && t + u == w + (r + u);
    DecodeShort(w, r);
    DecodeSymbolsSplits(w, r + u);
  }

  /** What one character does to the decoded prefix. */
  lemma SecondPassStep(src: seq<byte>, i: nat, x: uint32)
    requires i < |src| && WellFormed(src) && !IsBlank(src[i])
    requires Holding(x, Symbols(src[..i]))
    ensures var t, u := Symbols(src[..i]), Symbols(src[..i + 1]);
            var y := Shift(x, Sextet(src[i]));
            && |u| == |t| + 1
            && PadCount(u) == PadCount(t) + (if src[i] == EQUALS then 1 else 0) <= 2
            && Holding(y, u)
            && |DecodeSymbols(u)| <= |DecodeSymbols(Symbols(src))|
            && DecodeSymbols(u) == DecodeSymbols(t) +
                 (if |u| % 4 == 0 then [y / 65536 % 256, y / 256 % 256, y % 256][..3 - PadCount(u)] else [])
  {
    hide Holding, Shift, Sextet, PadOk, DecodeQuad, DecodeSymbols, Symbols, QuadValue;
    var t, c := Symbols(src[..i]), src[i];
    var u := t + [c];
    SymbolsSnoc(src, i);
    assert src == src[..i + 1] + src[i + 1..];
    SymbolsConcat(src[..i + 1], src[i + 1..]);
    PadOkPrefix(u, Symbols(src[i + 1..]));
    PadOkPrefix(t, [c]);
    PadOkSnoc(t, c);
    PadBound(u);
    HoldingStep(x, t, c);
    DecodeGrows(u, Symbols(src[i + 1..]));
    if |u| % 4 == 0 {
      GroupBytes(t, c, Shift(x, Sextet(c)));
    } else {
      DecodePartial(t, c);
    }
  }

  lemma PadBound(u: seq<byte>)
    requires PadOk(u)
    ensures PadCount(u) <= 2
  {
  }

  /** The bytes of a group are the accumulator's, less the padding. */
  lemma QuadBytes(q: seq<byte>, y: uint32)
    requires |q| == 4 && PadCount(q) <= 2 && y % 16777216 == QuadValue(q[0], q[1], q[2], q[3])
    ensures DecodeQuad(q) == [y / 65536 % 256, y / 256 % 256, y % 256][..3 - PadCount(q)]
  {
    hide QuadValue, PadCount;
    LowBytes(y, QuadValue(q[0], q[1], q[2], q[3]));
  }

  lemma GroupBytes(t: seq<byte>, c: byte, y: uint32)
    requires |t| % 4 == 3 && PadOk(t + [c])
    requires y % 16777216 == QuadValue(t[|t| - 3], t[|t| - 2], t[|t| - 1], c)
    ensures PadCount(t + [c]) <= 2
    ensures DecodeSymbols(t + [c]) == DecodeSymbols(t) +
              [y / 65536 % 256, y / 256 % 256, y % 256][..3 - PadCount(t + [c])]
  {
    hide DecodeSymbols, DecodeQuad, QuadValue, PadCount, PadOk;
    var u := t + [c];
    PadBound(u);
    EarlierGroupsUnpadded(u);
    DecodeWhole(u);
    assert u[..|u| - 1] == t;
    QuadBytes(u[|u| - 4..], y);
  }

  /** The decoder's registers once the first i characters are read. */
  ghost predicate Reading(src: seq<byte>, i: nat, at: nat, n: nat, j: nat, x: uint32, p: nat)
    requires i <= |src|
  {
    var t := Symbols(src[..i]);
    n == |t| % 4 && j == 3 - PadCount(t) && Holding(x, t) && p == at + |DecodeSymbols(t)|
  }

  /** One symbol of the second pass. */
  method EmitSymbol(dst: array<byte>, ghost f: seq<byte>, at: nat, src: seq<byte>, i: nat,
                    n: nat, j: nat, x: uint32, p: nat)
    returns (n': nat, j': nat, x': uint32, p': nat)
    requires WellFormed(src) && i < |src| && !IsBlank(src[i])
    requires Reading(src, i, at, n, j, x, p)
    requires |f| == dst.Length && at + |DecodeSymbols(Symbols(src))| <= |f| && p <= |f|
    requires dst[..] == Patch(f, at, DecodeSymbols(Symbols(src[..i])))
    modifies dst
    ensures Reading(src, i + 1, at, n', j', x', p')
    ensures p' == at + |DecodeSymbols(Symbols(src[..i + 1]))| <= |f|
    ensures dst[..] == Patch(f, at, DecodeSymbols(Symbols(src[..i + 1])))
  {
    hide WellFormed, Holding, Shift, Sextet, DecodeSymbols, Symbols, PadCount, Patch, DecMap;
    n', j', p' := n, j, p;
    SecondPassStep(src, i, x);
    PaddingSymbol(src[i]);
    if DecMap(src[i]) == 64 {
      j' := j' - 1;
    }
    x' := Shift(x, Sextet(src[i]));
    n' := n' + 1;
    if n' == 4 {
      n' := 0;
      p' := StoreBytes(dst, p', x', j');
      PatchTwice(f, at, DecodeSymbols(Symbols(src[..i])), [x' / 65536 % 256, x' / 256 % 256, x' % 256][..j']);
    }
  }

  lemma ReadingStarts(src: seq<byte>, at: nat)
    ensures Reading(src, 0, at, 0, 3, 0, at)
    ensures DecodeSymbols(Symbols(src[..0])) == []
  {
    NoSymbols(src);
    EmptyText(Symbols(src[..0]));
  }

  lemma ReadingBlank(src: seq<byte>, i: nat, at: nat, n: nat, j: nat, x: uint32, p: nat)
    requires i < |src| && IsBlank(src[i]) && Reading(src, i, at, n, j, x, p)
    ensures Reading(src, i + 1, at, n, j, x, p)
    ensures Symbols(src[..i + 1]) == Symbols(src[..i])
  {
    hide Holding, PadCount, DecodeSymbols, Symbols;
    SymbolsSnoc(src, i);
  }

  lemma ReadingEnds(src: seq<byte>, at: nat, n: nat, j: nat, x: uint32, p: nat)
    requires Reading(src, |src|, at, n, j, x, p)
    ensures p == at + |DecodeSymbols(Symbols(src))|
    ensures src[..|src|] == src
  {
    hide Holding, PadCount, DecodeSymbols, Symbols;
    assert src[..|src|] == src;
  }

  /** Second pass, over a text the first pass accepted. */
  method Emit(dst: array<byte>, at: nat, src: seq<byte>) returns (olen: nat)
    requires WellFormed(src) && at + |DecodeSymbols(Symbols(src))| <= dst.Length
    modifies dst
    ensures olen == |DecodeSymbols(Symbols(src))|
    ensures dst[..] == Patch(old(dst[..]), at, DecodeSymbols(Symbols(src)))
  {
    hide WellFormed, DecodeSymbols, Symbols, Reading, Patch;
    ghost var f := dst[..];
    var i, n := 0, 0;
    var p: nat := at;
    var j: nat := 3;
    var x: uint32 := 0;
    ReadingStarts(src, at);
    PatchNothing(f, at);
    while i < |src|
      invariant 0 <= i <= |src|
      invariant Reading(src, i, at, n, j, x, p)
      invariant p == at + |DecodeSymbols(Symbols(src[..i]))| <= |f|
      invariant dst[..] == Patch(f, at, DecodeSymbols(Symbols(src[..i])))
    {
      if src[i] == CR || src[i] == LF || src[i] == SPACE {
        ReadingBlank(src, i, at, n, j, x, p);
      } else {
        n, j, x, p := EmitSymbol(dst, f, at, src, i, n, j, x, p);
      }
      i := i + 1;
    }
    ReadingEnds(src, at, n, j, x, p);
    olen := p - at;
  }

  lemma PaddingSymbol(c: byte)
    ensures DecMap(c) == 64 <==> c == EQUALS
  {
  }

  /** _base64_decode, storing into dst[at..at + dlen]. When the text is invalid olen is left alone. */
  method DecodeTo(dst: array<byte>, at: nat, dlen: nat, src: seq<byte>, olen0: int) returns (ret: int, olen: int)
    requires at + dlen <= dst.Length
    modifies dst
    ensures ret == if WellFormed(src) && (Symbols(src) == [] || DecodedLen(Symbols(src)) <= dlen) then 0 else -1
    ensures ret == 0 ==>
              && Decode(src).Some? && olen == |Decode(src).value| <= dlen
              && dst[..] == Patch(old(dst[..]), at, Decode(src).value)
    ensures ret != 0 ==>
              && dst[..] == old(dst[..])
              && olen == if WellFormed(src) then DecodedLen(Symbols(src)) else olen0
  {
    hide WellFormed, Symbols, PadCount, Patch, DecodeSymbols;
    ghost var f := dst[..];
    var ok, n, j := Scan(src);
    if !ok {
      return -1, olen0;
    }
    if n == 0 {
      EmptyText(Symbols(src));
      PatchNothing(f, at);
      return 0, 0;
    }
    // n = ((n * 6) + 7) >> 3, computed without overflow
    var len := 6 * (n / 8) + (6 * (n % 8) + 7) / 8 - j as int;
    assert len == DecodedLen(Symbols(src));
    if dlen < len {
      return -1, len;
    }
    EmitFits(src);
    olen := Emit(dst, at, src);
    ret := 0;
  }

  lemma EmptyText(t: seq<byte>)
    requires |t| == 0
    ensures DecodeSymbols(t) == [] && DecodedLen(t) == 0
  {
  }

  lemma EmitFits(src: seq<byte>)
    requires WellFormed(src)
    ensures |DecodeSymbols(Symbols(src))| <= DecodedLen(Symbols(src))
  {
    hide DecodeSymbols, Symbols, DecodedLen, PadCount;
    PadBound(Symbols(src));
    PassesAgree(Symbols(src));
  }

  // ----- the public functions -----

  /** iot_security_base64_encode into dst[at..at + dstLen]. */
  method SecurityEncode(src: seq<byte>, dst: array<byte>, at: nat, dstLen: nat) returns (err: Error, outLen: int)
    requires at + dstLen <= dst.Length && dstLen <= SIZE_T_MAX && |src| <= SIZE_T_MAX
    modifies dst
    ensures err == if |src| == 0 || dstLen == 0 then InvalidArgs
                   else if EncodedLen(|src|) + 1 <= dstLen then NoError else EncodeError
    ensures err == NoError ==> outLen == |Encode(src)| == EncodedLen(|src|)
    ensures err == NoError ==> dst[..] == Patch(old(dst[..]), at, Encode(src) + [0])
    ensures err != NoError ==> dst[..] == old(dst[..])
  {
    hide Encode, Patch;
    if |src| == 0 || dstLen == 0 {
      return InvalidArgs, 0;
    }
    var ret;
    ret, outLen := EncodeTo(dst, at, dstLen, src);
    err := if ret != 0 then EncodeError else NoError;
  }

  /** iot_security_base64_decode into dst[at..at + dstLen]: what a correct text decodes to, if it fits. */
  method SecurityDecode(src: seq<byte>, dst: array<byte>, at: nat, dstLen: nat) returns (err: Error, outLen: int)
    requires at + dstLen <= dst.Length
    modifies dst
    ensures err == InvalidArgs <==> |src| == 0 || dstLen == 0
    ensures err == NoError <==> |src| > 0 && dstLen > 0 && WellFormed(src)
                                && (Symbols(src) == [] || DecodedLen(Symbols(src)) <= dstLen)
    ensures err == NoError ==>
              && Decode(src).Some? && outLen == |Decode(src).value| <= dstLen
              && dst[..] == Patch(old(dst[..]), at, Decode(src).value)
    ensures err != NoError ==> dst[..] == old(dst[..])
  {
    hide Decode, Patch, WellFormed, Symbols, DecodedLen;
    if |src| == 0 || dstLen == 0 {
      return InvalidArgs, 0;
    }
    var ret;
    ret, outLen := DecodeTo(dst, at, dstLen, src, 0);
    err := if ret != 0 then DecodeError else NoError;
  }

  /** _iot_security_url_encode: '+' and '/' become '-' and '_' in place. */
  method UrlEncodeInPlace(buf: array<byte>, at: nat, len: nat) returns (err: Error)
    requires at + len <= buf.Length
    modifies buf
    ensures err == if len == 0 then InvalidArgs else NoError
    ensures buf[..] == Patch(old(buf[..]), at, ToUrl(old(buf[at..at + len])))
  {
    if len == 0 {
      return InvalidArgs;
    }
    var i := 0;
    while i < len
      invariant 0 <= i <= len
      invariant forall k :: 0 <= k < buf.Length ==>
                  buf[k] == if at <= k < at + i then ToUrlChar(old(buf[k])) else old(buf[k])
    {
      if buf[at + i] == 43 {
        buf[at + i] := 45;
      } else if buf[at + i] == 47 {
        buf[at + i] := 95;
      }
      i := i + 1;
    }
    err := NoError;
  }

  /** _iot_security_url_decode: '-' and '_' become '+' and '/' in place. */
  method UrlDecodeInPlace(buf: array<byte>, len: nat) returns (err: Error)
    requires len <= buf.Length
    modifies buf
    ensures err == if len == 0 then InvalidArgs else NoError
    ensures buf[..] == Patch(old(buf[..]), 0, FromUrl(old(buf[..len])))
  {
    if len == 0 {
      return InvalidArgs;
    }
    var i := 0;
    while i < len
      invariant 0 <= i <= len
      invariant forall k :: 0 <= k < buf.Length ==>
                  buf[k] == if k < i then FromUrlChar(old(buf[k])) else old(buf[k])
    {
      if buf[i] == 45 {
        buf[i] := 43;
      } else if buf[i] == 95 {
        buf[i] := 47;
      }
      i := i + 1;
    }
    err := NoError;
  }

  /** iot_security_base64_encode_urlsafe into dst[at..at + dstLen]. */
  method SecurityEncodeUrlsafe(src: seq<byte>, dst: array<byte>, at: nat, dstLen: nat) returns (err: Error, outLen: int)
    requires at + dstLen <= dst.Length && dstLen <= SIZE_T_MAX && |src| <= SIZE_T_MAX
    modifies dst
    ensures err == if |src| == 0 || dstLen == 0 then InvalidArgs
                   else if EncodedLen(|src|) + 1 <= dstLen then NoError else UrlEncodeError
    ensures err == NoError ==> outLen == |EncodeUrl(src)| == EncodedLen(|src|)
    ensures err == NoError ==> dst[..] == Patch(old(dst[..]), at, EncodeUrl(src) + [0])
    ensures err != NoError ==> dst[..] == old(dst[..])
  {
    hide Encode, Patch, ToUrl;
    if |src| == 0 || dstLen == 0 {
      return InvalidArgs, 0;
    }
    ghost var f := dst[..];
    var ret;
    ret, outLen := EncodeTo(dst, at, dstLen, src);
    if ret != 0 {
      return UrlEncodeError, outLen;
    }
    TextAt(f, at, Encode(src), dst[..]);
    err := UrlEncodeInPlace(dst, at, outLen);
    PatchOver(f, at, Encode(src), ToUrl(Encode(src)), [0]);
  }

  lemma TextAt(f: seq<byte>, at: nat, t: seq<byte>, g: seq<byte>)
    requires at + |t| < |f| && g == Patch(f, at, t + [0])
    ensures g[at..at + |t|] == t
  {
  }

  /** iot_security_base64_decode_urlsafe: the text is copied, padded to whole groups and translated first. */
  method SecurityDecodeUrlsafe(src: seq<byte>, dst: array<byte>, at: nat, dstLen: nat) returns (err: Error, outLen: int)
    requires at + dstLen <= dst.Length
    modifies dst
    ensures err == InvalidArgs <==> |src| == 0 || dstLen == 0
    ensures err == NoError <==> |src| > 0 && dstLen > 0 && WellFormed(FromUrl(Aligned(src)))
                                && (Symbols(FromUrl(Aligned(src))) == []
                                    || DecodedLen(Symbols(FromUrl(Aligned(src)))) <= dstLen)
    ensures err == NoError ==>
              && DecodeUrl(src).Some? && outLen == |DecodeUrl(src).value| <= dstLen
              && dst[..] == Patch(old(dst[..]), at, DecodeUrl(src).value)
    ensures err != NoError ==> dst[..] == old(dst[..])
  {
    hide Decode, WellFormed, Symbols, DecodedLen;
    if |src| == 0 || dstLen == 0 {
      return InvalidArgs, 0;
    }
    var alignLen := AlignLen(|src|);
    var dup := new byte[alignLen + 1];
    forall k | 0 <= k < |src| {
      dup[k] := src[k];
    }
    var i := |src|;
    while i < alignLen
      invariant |src| <= i <= alignLen
      invariant dup[..i] == src + Padding(i - |src|)
      invariant dst[..] == old(dst[..])
    {
      dup[i] := EQUALS;
      i := i + 1;
      assert dup[..i] == dup[..i - 1] + [EQUALS];
    }
    dup[alignLen] := 0;
    assert dup[..alignLen] == Aligned(src);
    err := UrlDecodeInPlace(dup, alignLen);
    assert dup[..alignLen] == FromUrl(Aligned(src));
    var ret;
    ret, outLen := DecodeTo(dst, at, dstLen, dup[..alignLen], 0);
    err := if ret != 0 then UrlDecodeError else NoError;
  }
}
