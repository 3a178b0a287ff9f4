/** Base64 as a relation between byte strings: sections 4 and 5 of RFC 4648,
    with the line breaks and blanks the decoder tolerates. */
module Base64 {
  import opened Bytes

  const EQUALS: byte := 61
  const SPACE: byte := 32
  const CR: byte := 13
  const LF: byte := 10

  /** base64_enc_map. */
  function EncMap(v: int): (c: byte)
    requires 0 <= v < 64
  {
    if v < 26 then 65 + v
    else if v < 52 then 97 + (v - 26)
    else if v < 62 then 48 + (v - 52)
    else if v == 62 then 43
    else 47
  }

  /** base64_dec_map, extended by 127 (not a symbol) above 127. */
  function DecMap(c: byte): (v: int)
    ensures 0 <= v <= 127
  {
    if 65 <= c <= 90 then c - 65
    else if 97 <= c <= 122 then c - 97 + 26
    else if 48 <= c <= 57 then c - 48 + 52
    else if c == 43 then 62
    else if c == 47 then 63
    else if c == EQUALS then 64
    else 127
  }

  /** The six bits a symbol stands for; padding stands for zeros. */
  function Sextet(c: byte): (v: int)
    ensures 0 <= v < 64
  {
    DecMap(c) % 64
  }

  lemma DecEncMap(v: int)
    requires 0 <= v < 64
    ensures DecMap(EncMap(v)) == v && EncMap(v) != EQUALS
  {
  }

  // ----- encoding -----

  function EncodeGroup(a: byte, b: byte, c: byte): (s: seq<byte>)
    ensures |s| == 4
  {
    [EncMap(a / 4), EncMap(a % 4 * 16 + b / 16), EncMap(b % 16 * 4 + c / 64), EncMap(c % 64)]
  }

  function EncodeTail(s: seq<byte>): (t: seq<byte>)
    requires 1 <= |s| <= 2
    ensures |t| == 4
  {
    if |s| == 1 then [EncMap(s[0] / 4), EncMap(s[0] % 4 * 16), EQUALS, EQUALS]
    else [EncMap(s[0] / 4), EncMap(s[0] % 4 * 16 + s[1] / 16), EncMap(s[1] % 16 * 4), EQUALS]
  }

  function Encode(s: seq<byte>): (t: seq<byte>) {
    if |s| == 0 then []
    else if |s| < 3 then EncodeTail(s)
    else EncodeGroup(s[0], s[1], s[2]) + Encode(s[3..])
  }

  /** 4 * ceil(n / 3). */
  function EncodedLen(n: nat): nat {
    (n + 2) / 3 * 4
  }

  lemma {:induction false} EncodeLength(s: seq<byte>)
    ensures |Encode(s)| == EncodedLen(|s|)
  {
    if |s| >= 3 {
      EncodeLength(s[3..]);
    }
  }

  /** Encoding splits at multiples of three bytes: what lets the dump encode in a stream. */
  lemma {:induction false} EncodeSplits(a: seq<byte>, b: seq<byte>)
    requires |a| % 3 == 0
    ensures Encode(a + b) == Encode(a) + Encode(b)
  {
    if |a| == 0 {
      assert a + b == b;
    } else {
      assert (a + b)[3..] == a[3..] + b;
      EncodeSplits(a[3..], b);
    }
  }

  // ----- decoding -----

  predicate IsBlank(c: byte) {
    c == SPACE || c == CR || c == LF
  }

  /** The characters of s that are not blanks. */
  function Symbols(s: seq<byte>): (t: seq<byte>)
    ensures |t| <= |s|
  {
    if |s| == 0 then []
    else
      var t := Symbols(s[..|s| - 1]);
      if IsBlank(s[|s| - 1]) then t else t + [s[|s| - 1]]
  }

  lemma {:induction false} SymbolsConcat(a: seq<byte>, b: seq<byte>)
    ensures Symbols(a + b) == Symbols(a) + Symbols(b)
  {
    if |b| == 0 {
      assert a + b == a;
    } else {
      assert (a + b)[..|a + b| - 1] == a + b[..|b| - 1];
      SymbolsConcat(a, b[..|b| - 1]);
    }
  }

  /** Every symbol is a character of the text. */
  lemma {:induction false} SymbolsFrom(s: seq<byte>, k: nat) returns (m: nat)
    requires k < |Symbols(s)|
    ensures m < |s| && s[m] == Symbols(s)[k] && !IsBlank(s[m])
  {
    var t := Symbols(s[..|s| - 1]);
    if k < |t| {
      m := SymbolsFrom(s[..|s| - 1], k);
    } else {
      m := |s| - 1;
    }
  }

  lemma {:induction false} SymbolsIdentity(s: seq<byte>)
    requires forall k :: 0 <= k < |s| ==> !IsBlank(s[k])
    ensures Symbols(s) == s
  {
    if |s| > 0 {
      SymbolsIdentity(s[..|s| - 1]);
      assert s == s[..|s| - 1] + [s[|s| - 1]];
    }
  }

  function PadCount(t: seq<byte>): (n: nat)
    ensures n <= |t|
  {
    if |t| == 0 then 0
    else PadCount(t[..|t| - 1]) + (if t[|t| - 1] == EQUALS then 1 else 0)
  }

  lemma {:induction false} PadCountConcat(a: seq<byte>, b: seq<byte>)
    ensures PadCount(a + b) == PadCount(a) + PadCount(b)
  {
    if |b| == 0 {
      assert a + b == a;
    } else {
      assert (a + b)[..|a + b| - 1] == a + b[..|b| - 1];
      PadCountConcat(a, b[..|b| - 1]);
    }
  }

  lemma {:induction false} PadCountZero(t: seq<byte>)
    ensures PadCount(t) == 0 <==> EQUALS !in t
  {
    if |t| > 0 {
      PadCountZero(t[..|t| - 1]);
      assert t == t[..|t| - 1] + [t[|t| - 1]];
    }
  }

  /** At most two padding characters, and nothing but padding after the first. */
  predicate PadOk(t: seq<byte>) {
    PadCount(t) <= 2 && forall i, k :: 0 <= i < k < |t| && t[i] == EQUALS ==> t[k] == EQUALS
  }

  lemma {:induction false} AllPadding(t: seq<byte>)
    requires forall k :: 0 <= k < |t| ==> t[k] == EQUALS
    ensures PadCount(t) == |t|
  {
    if |t| > 0 {
      AllPadding(t[..|t| - 1]);
    }
  }

  /** Adding one symbol to an acceptable string. */
  lemma PadOkSnoc(t: seq<byte>, c: byte)
    requires PadOk(t)
    ensures PadCount(t + [c]) == PadCount(t) + (if c == EQUALS then 1 else 0)
    ensures PadOk(t + [c]) <==> if c == EQUALS then PadCount(t) < 2 else PadCount(t) == 0
  {
    var u := t + [c];
    assert u[..|u| - 1] == t;
    PadCountZero(t);
    if c != EQUALS && EQUALS in t {
      var i :| 0 <= i < |t| && t[i] == EQUALS;
      assert u[i] == EQUALS && u[|t|] == c;
    }
  }

  /** An unacceptable string stays unacceptable however it is continued. */
  lemma PadOkPrefix(a: seq<byte>, b: seq<byte>)
    requires PadOk(a + b)
    ensures PadOk(a)
  {
    PadCountConcat(a, b);
    forall i, k | 0 <= i < k < |a| && a[i] == EQUALS ensures a[k] == EQUALS {
      assert (a + b)[i] == EQUALS && (a + b)[k] == a[k];
    }
  }

  /** Character k may stand where it stands: a carriage return opens a line break, a
      blank is followed by a blank, a line break or the end, and all else is a symbol. */
  predicate LocalOk(s: seq<byte>, k: nat)
    requires k < |s|
  {
    if s[k] == SPACE then k + 1 == |s| || s[k + 1] == SPACE || s[k + 1] == LF || LineBreakAt(s, k + 1)
    else if s[k] == CR then LineBreakAt(s, k)
    else s[k] == LF || DecMap(s[k]) != 127
  }

  predicate LineBreakAt(s: seq<byte>, k: nat) {
    k + 1 < |s| && s[k] == CR && s[k + 1] == LF
  }

  /** What the decoder's first pass accepts. */
  predicate WellFormed(s: seq<byte>) {
    (forall k :: 0 <= k < |s| ==> LocalOk(s, k)) && PadOk(Symbols(s))
  }

  /** The three bytes of four symbols, less one for each padding character. */
  function QuadValue(a: byte, b: byte, c: byte, d: byte): (x: int)
    ensures 0 <= x < 0x100_0000
  {
    Sextet(a) * 262144 + Sextet(b) * 4096 + Sextet(c) * 64 + Sextet(d)
  }

  function DecodeQuad(q: seq<byte>): (s: seq<byte>)
    requires |q| == 4
    ensures |s| == if PadCount(q) <= 3 then 3 - PadCount(q) else 0
  {
    var x := QuadValue(q[0], q[1], q[2], q[3]);
    var all: seq<byte> := [x / 65536, x / 256 % 256, x % 256];
    if PadCount(q) <= 3 then all[..3 - PadCount(q)] else []
  }

  function DecodeSymbols(t: seq<byte>): (s: seq<byte>) {
    if |t| < 4 then [] else DecodeQuad(t[..4]) + DecodeSymbols(t[4..])
  }

  lemma {:induction false} DecodeSymbolsSplits(t: seq<byte>, u: seq<byte>)
    requires |t| % 4 == 0
    ensures DecodeSymbols(t + u) == DecodeSymbols(t) + DecodeSymbols(u)
  {
    if |t| == 0 {
      assert t + u == u;
    } else {
      assert (t + u)[..4] == t[..4];
      assert (t + u)[4..] == t[4..] + u;
      DecodeSymbolsSplits(t[4..], u);
    }
  }

  /** The length the first pass computes. */
  function DecodedLen(t: seq<byte>): int {
    (6 * |t| + 7) / 8 - PadCount(t)
  }

  /** The symbols of an incomplete last group that are not padding: the second pass drops them. */
  function Dropped(t: seq<byte>): nat {
    var rest := t[|t| / 4 * 4..];
    |rest| - PadCount(rest)
  }

  lemma DroppedStep(t: seq<byte>)
    requires |t| >= 4
    ensures Dropped(t) == Dropped(t[4..])
  {
    var u := t[4..];
    assert |t| / 4 * 4 == |u| / 4 * 4 + 4;
    assert t[|t| / 4 * 4..] == u[|u| / 4 * 4..];
  }

  /** The two passes agree: the second writes the length the first computed, less the
      symbols of an incomplete last group. */
  lemma {:induction false} PassesAgree(t: seq<byte>)
    requires PadCount(t) <= 2
    ensures |DecodeSymbols(t)| + Dropped(t) == DecodedLen(t)
  {
    if |t| >= 4 {
      hide PadCount, Dropped;
      var q, u := t[..4], t[4..];
      assert t == q + u;
      PadCountConcat(q, u);
      PassesAgree(u);
      DroppedStep(t);
    } else {
      assert t[0..] == t;
    }
  }

  // ----- what the codec promises -----

  datatype Option<+T> = None | Some(value: T)

  function Decode(s: seq<byte>): Option<seq<byte>> {
    if WellFormed(s) then Some(DecodeSymbols(Symbols(s))) else None
  }

  lemma Regroup(a: int, b: int, c: int)
    requires 0 <= a < 256 && 0 <= b < 256 && 0 <= c < 256
    ensures a / 4 * 262144 + (a % 4 * 16 + b / 16) * 4096 + (b % 16 * 4 + c / 64) * 64 + c % 64
         == a * 65536 + b * 256 + c
  {
    assert a == a / 4 * 4 + a % 4 && b == b / 16 * 16 + b % 16 && c == c / 64 * 64 + c % 64;
  }

  lemma SplitValue(a: int, b: int, c: int)
    requires 0 <= a < 256 && 0 <= b < 256 && 0 <= c < 256
    ensures var x := a * 65536 + b * 256 + c;
            x / 65536 == a && x / 256 % 256 == b && x % 256 == c
  {
  }

  /** A group of four symbols whose sextets regroup to three bytes decodes to those bytes. */
  lemma DecodeGroup(q: seq<byte>, a: byte, b: byte, c: byte)
    requires |q| == 4 && PadCount(q) <= 2
    requires Sextet(q[0]) == a / 4 && Sextet(q[1]) == a % 4 * 16 + b / 16
    requires Sextet(q[2]) == b % 16 * 4 + c / 64 && Sextet(q[3]) == c % 64
    ensures DecodeQuad(q) == [a, b, c][..3 - PadCount(q)]
  {
    Regroup(a, b, c);
    SplitValue(a, b, c);
  }

  /** Four encoded characters decode to the three bytes they were made from. */
  lemma GroupRoundTrip(a: byte, b: byte, c: byte)
    ensures var q := EncodeGroup(a, b, c);
            && (forall k :: 0 <= k < 4 ==> DecMap(q[k]) < 64)
            && PadCount(q) == 0 && DecodeQuad(q) == [a, b, c]
  {
    var q := EncodeGroup(a, b, c);
    DecEncMap(a / 4);
    DecEncMap(a % 4 * 16 + b / 16);
    DecEncMap(b % 16 * 4 + c / 64);
    DecEncMap(c % 64);
    assert EQUALS !in q;
    PadCountZero(q);
    DecodeGroup(q, a, b, c);
  }

  lemma TailPadding(q: seq<byte>, n: nat)
    requires |q| == 4 && 2 <= n <= 3
    requires EQUALS !in q[..n]
    requires forall k :: n <= k < 4 ==> q[k] == EQUALS
    ensures PadCount(q) == 4 - n && PadOk(q)
  {
    PadCountZero(q[..n]);
    AllPadding(q[n..]);
    PadCountConcat(q[..n], q[n..]);
    assert q == q[..n] + q[n..];
    forall i, k | 0 <= i < k < 4 && q[i] == EQUALS ensures q[k] == EQUALS {
      assert q[i] !in q[..n];
    }
  }

  lemma TailRoundTrip(s: seq<byte>)
    requires 1 <= |s| <= 2
    ensures var q := EncodeTail(s);
            && (forall k :: 0 <= k < 4 ==> DecMap(q[k]) <= 64)
            && PadOk(q) && DecodeQuad(q) == s
  {
    var q := EncodeTail(s);
    var b := if |s| == 1 then 0 else s[1];
    DecEncMap(s[0] / 4);
    DecEncMap(s[0] % 4 * 16 + b / 16);
    DecEncMap(b % 16 * 4);
    TailPadding(q, |s| + 1);
    DecodeGroup(q, s[0], b, 0);
  }

  lemma PrependGroup(q: seq<byte>, u: seq<byte>)
    requires |q| == 4 && PadCount(q) == 0 && PadOk(u)
    ensures PadOk(q + u) && PadCount(q + u) == PadCount(u)
    ensures DecodeSymbols(q + u) == DecodeQuad(q) + DecodeSymbols(u)
  {
    PadCountConcat(q, u);
    PadCountZero(q);
    var t := q + u;
    forall i, k | 0 <= i < k < |t| && t[i] == EQUALS ensures t[k] == EQUALS {
      assert i >= 4 && t[i] == u[i - 4] && t[k] == u[k - 4];
    }
    assert t[..4] == q && t[4..] == u;
  }

  /** Whole groups of symbols, padded at most at the end, that decode to s. */
  predicate Canonical(t: seq<byte>, s: seq<byte>) {
    && |t| % 4 == 0
    && (forall k :: 0 <= k < |t| ==> DecMap(t[k]) <= 64)
    && PadOk(t)
    && DecodeSymbols(t) == s
  }

  lemma CanonicalTail(s: seq<byte>)
    requires 1 <= |s| <= 2
    ensures Canonical(EncodeTail(s), s)
  {
    hide EncodeTail, DecMap, PadOk, DecodeQuad;
    var t := EncodeTail(s);
    TailRoundTrip(s);
    assert t[..4] == t && t[4..] == [];
    assert DecodeSymbols(t) == DecodeQuad(t) + DecodeSymbols([]);
  }

  lemma CanonicalGroup(a: byte, b: byte, c: byte, u: seq<byte>, s: seq<byte>)
    requires Canonical(u, s)
    ensures Canonical(EncodeGroup(a, b, c) + u, [a, b, c] + s)
  {
    hide EncodeGroup, DecMap, PadOk, DecodeSymbols, PadCount;
    GroupRoundTrip(a, b, c);
    PrependGroup(EncodeGroup(a, b, c), u);
  }

  lemma {:induction false} EncodeShape(s: seq<byte>)
    ensures Canonical(Encode(s), s)
  {
    hide Canonical;
    if |s| == 0 {
      CanonicalEmpty();
    } else if |s| < 3 {
      CanonicalTail(s);
    } else {
      EncodeShape(s[3..]);
      CanonicalGroup(s[0], s[1], s[2], Encode(s[3..]), s[3..]);
      assert s == [s[0], s[1], s[2]] + s[3..];
    }
  }

  lemma CanonicalEmpty()
    ensures Canonical([], [])
  {
  }

  /** Text without blanks. */
  lemma PlainText(t: seq<byte>)
    requires forall k :: 0 <= k < |t| ==> DecMap(t[k]) <= 64
    ensures Symbols(t) == t
    ensures WellFormed(t) <==> PadOk(t)
  {
    hide Symbols, PadCount;
    forall k | 0 <= k < |t| ensures !IsBlank(t[k]) && LocalOk(t, k) {
    }
    SymbolsIdentity(t);
  }

  /** Decoding undoes encoding, and a buffer of the original length is exactly enough. */
  lemma RoundTrip(s: seq<byte>)
    ensures Decode(Encode(s)) == Some(s)
    ensures Symbols(Encode(s)) == Encode(s)
    ensures DecodedLen(Encode(s)) == |s|
  {
    EncodeShape(s);
    PlainText(Encode(s));
    PassesAgree(Encode(s));
    var t := Encode(s);
    assert t[|t| / 4 * 4..] == [];
  }

  /** Blanks do not matter: an accepted text decodes to what its symbols alone decode to. */
  lemma BlanksDoNotMatter(s: seq<byte>)
    requires WellFormed(s)
    ensures Decode(Symbols(s)) == Decode(s)
  {
    var t := Symbols(s);
    forall k | 0 <= k < |t| ensures DecMap(t[k]) <= 64 {
      var m := SymbolsFrom(s, k);
      assert LocalOk(s, m);
    }
    PlainText(t);
  }

  // ----- the URL-safe alphabet -----

  function ToUrlChar(c: byte): byte {
    if c == 43 then 45 else if c == 47 then 95 else c
  }

  function FromUrlChar(c: byte): byte {
    if c == 45 then 43 else if c == 95 then 47 else c
  }

  function ToUrl(s: seq<byte>): (t: seq<byte>)
    ensures |t| == |s|
  {
    seq(|s|, i requires 0 <= i < |s| => ToUrlChar(s[i]))
  }

  function FromUrl(s: seq<byte>): (t: seq<byte>)
    ensures |t| == |s|
  {
    seq(|s|, i requires 0 <= i < |s| => FromUrlChar(s[i]))
  }

  /** IOT_SECURITY_B64_ALIGN_LEN. */
  function AlignLen(n: nat): nat {
    (n + 3) / 4 * 4
  }

  function Padding(n: nat): (p: seq<byte>)
    ensures |p| == n
  {
    seq(n, i => EQUALS)
  }

  function Aligned(s: seq<byte>): (t: seq<byte>)
    ensures |t| == AlignLen(|s|)
  {
    s + Padding(AlignLen(|s|) - |s|)
  }

  function EncodeUrl(s: seq<byte>): seq<byte> {
    ToUrl(Encode(s))
  }

  function DecodeUrl(s: seq<byte>): Option<seq<byte>> {
    Decode(FromUrl(Aligned(s)))
  }

  /** The text with its trailing padding removed, as senders of URL-safe text do. */
  function StripPadding(s: seq<byte>): (t: seq<byte>)
    ensures |t| <= |s|
  {
    if |s| > 0 && s[|s| - 1] == EQUALS then StripPadding(s[..|s| - 1]) else s
  }

  lemma {:induction false} StripIsPrefix(s: seq<byte>)
    ensures StripPadding(s) == s[..|StripPadding(s)|]
    ensures forall k :: |StripPadding(s)| <= k < |s| ==> s[k] == EQUALS
    ensures StripPadding(s) == [] || StripPadding(s)[|StripPadding(s)| - 1] != EQUALS
  {
    if |s| > 0 && s[|s| - 1] == EQUALS {
      StripIsPrefix(s[..|s| - 1]);
    }
  }

  /** Translating back gives the standard alphabet. */
  lemma UrlTranslation(s: seq<byte>)
    ensures FromUrl(EncodeUrl(s)) == Encode(s)
  {
    EncodeShape(s);
    var t := Encode(s);
    forall k | 0 <= k < |t| ensures FromUrlChar(ToUrlChar(t[k])) == t[k] {
      assert DecMap(t[k]) <= 64;
    }
  }

  /** Stripping removes no more than the padding the text ends with. */
  lemma StripLength(s: seq<byte>)
    ensures var e, u := Encode(s), StripPadding(EncodeUrl(s));
            |e| - |u| <= 2
  {
    hide Encode, PadCount, StripPadding, DecodeSymbols;
    var e, t := Encode(s), EncodeUrl(s);
    var u := StripPadding(t);
    EncodeShape(s);
    StripIsPrefix(t);
    forall k | 0 <= k < |e| - |u| ensures e[|u|..][k] == EQUALS {
      assert t[|u| + k] == EQUALS;
    }
    AllPadding(e[|u|..]);
    PadCountConcat(e[..|u|], e[|u|..]);
    assert e == e[..|u|] + e[|u|..];
  }

  lemma AlignedRestores(t: seq<byte>, u: seq<byte>)
    requires |t| % 4 == 0 && |u| <= |t| <= |u| + 3 && u == t[..|u|]
    requires forall k :: |u| <= k < |t| ==> t[k] == EQUALS
    ensures Aligned(u) == t
  {
    assert AlignLen(|u|) == |t|;
  }

  /** URL-safe decoding undoes URL-safe encoding, whether or not the padding was stripped. */
  lemma UrlRoundTrip(s: seq<byte>)
    ensures DecodeUrl(EncodeUrl(s)) == Some(s)
    ensures DecodeUrl(StripPadding(EncodeUrl(s))) == Some(s)
  {
    hide Encode, Decode, PadCount, StripPadding, DecodeSymbols, ToUrl;
    var t := EncodeUrl(s);
    EncodeShape(s);
    UrlTranslation(s);
    RoundTrip(s);
    AlignedRestores(t, t);
    StripIsPrefix(t);
    StripLength(s);
    AlignedRestores(t, StripPadding(t));
  }
}
