/** What the specification of base64 comes to, bit by bit: the alphabets of sections 4 and 5 of RFC 4648
    and the order of the bits, without the tables of the code. */
module Base64Alphabet {
  import opened Bytes
  import opened Base64
  import Arithmetic

  const LETTERS: seq<string> :=
    ["ABCDEFGH", "IJKLMNOP", "QRSTUVWX", "YZabcdef", "ghijklmn", "opqrstuv", "wxyz0123", "456789+/"]
  const URL_LETTERS: seq<string> :=
    ["ABCDEFGH", "IJKLMNOP", "QRSTUVWX", "YZabcdef", "ghijklmn", "opqrstuv", "wxyz0123", "456789-_"]

  /** Character v of an alphabet, given in rows of eight. */
  function Char(rows: seq<string>, v: nat): (c: byte)
    requires |rows| == 8 && v < 64 && forall r <- rows :: |r| == 8
  {
    rows[v / 8][v % 8] as int % 256
  }

  lemma Rows()
    ensures |LETTERS| == |URL_LETTERS| == 8
    ensures (forall r <- LETTERS :: |r| == 8) && forall r <- URL_LETTERS :: |r| == 8
  {
  }

  /** Digit v of the alphabet of section 4, and of section 5. */
  function Letter(url: bool, v: nat): (c: byte)
    requires v < 64
  {
    Rows();
    Char(if url then URL_LETTERS else LETTERS, v)
  }

  /** The place values of the eight bits of a byte, least significant first. */
  function Weight(k: nat): (w: nat)
    requires k < 8
    ensures w > 0
  {
    [1, 2, 4, 8, 16, 32, 64, 128][k]
  }

  /** Bit i of a byte string, most significant first, with zeros behind it. */
  function Bit(s: seq<byte>, i: nat): (b: nat)
    ensures b < 2
  {
    if i / 8 < |s| then s[i / 8] as int / Weight(7 - i % 8) % 2 else 0
  }

  /** Bits 6k to 6k + 5 as a number. */
  function SixBits(s: seq<byte>, k: nat): (v: nat)
    ensures v < 64
  {
    32 * Bit(s, 6 * k) + 16 * Bit(s, 6 * k + 1) + 8 * Bit(s, 6 * k + 2)
    + 4 * Bit(s, 6 * k + 3) + 2 * Bit(s, 6 * k + 4) + Bit(s, 6 * k + 5)
  }

  /** The code's table, row by row. */
  predicate RowOfTable(row: string, urlRow: string, q: nat)
    requires q < 8 && |row| == |urlRow| == 8
  {
    forall r :: 0 <= r < 8 ==>
      row[r] as int == EncMap(8 * q + r) as int && urlRow[r] as int == ToUrlChar(EncMap(8 * q + r)) as int
  }

  lemma FirstRow()
    ensures RowOfTable("ABCDEFGH", "ABCDEFGH", 0)
  {
  }

  lemma SecondRow()
    ensures RowOfTable("IJKLMNOP", "IJKLMNOP", 1)
  {
  }

  lemma ThirdRow()
    ensures RowOfTable("QRSTUVWX", "QRSTUVWX", 2)
  {
  }

  lemma FourthRow()
    ensures RowOfTable("YZabcdef", "YZabcdef", 3)
  {
  }

  lemma FifthRow()
    ensures RowOfTable("ghijklmn", "ghijklmn", 4)
  {
  }

  lemma SixthRow()
    ensures RowOfTable("opqrstuv", "opqrstuv", 5)
  {
  }

  lemma SeventhRow()
    ensures RowOfTable("wxyz0123", "wxyz0123", 6)
  {
  }

  lemma EighthRow()
    ensures RowOfTable("456789+/", "456789-_", 7)
  {
  }

  /** The code's tables are the alphabets. */
  lemma TableIsAlphabet(v: nat)
    requires v < 64
    ensures EncMap(v) == Letter(false, v) && ToUrlChar(EncMap(v)) == Letter(true, v)
  {
    hide EncMap, ToUrlChar, RowOfTable, Char;
    Rows();
    RowsOfTable();
    FromRows(LETTERS, URL_LETTERS, v);
  }

  lemma FromRows(rows: seq<string>, urlRows: seq<string>, v: nat)
    requires |rows| == |urlRows| == 8 && v < 64
    requires (forall r <- rows :: |r| == 8) && forall r <- urlRows :: |r| == 8
    requires forall q :: 0 <= q < 8 ==> RowOfTable(rows[q], urlRows[q], q)
    ensures EncMap(v) == Char(rows, v) && ToUrlChar(EncMap(v)) == Char(urlRows, v)
  {
    hide EncMap, ToUrlChar;
    var q, r := v / 8, v % 8;
    assert 8 * q + r == v;
    assert RowOfTable(rows[q], urlRows[q], q);
  }

  lemma RowsOfTable()
    ensures forall q :: 0 <= q < 8 ==>
              |LETTERS[q]| == |URL_LETTERS[q]| == 8 && RowOfTable(LETTERS[q], URL_LETTERS[q], q)
  {
    hide RowOfTable;
    FirstRow();
    SecondRow();
    ThirdRow();
    FourthRow();
    FifthRow();
    SixthRow();
    SeventhRow();
    EighthRow();
    forall q | 0 <= q < 8
      ensures |LETTERS[q]| == |URL_LETTERS[q]| == 8 && RowOfTable(LETTERS[q], URL_LETTERS[q], q)
    {
      match q
      case 0 =>
      case 1 =>
      case 2 =>
      case 3 =>
      case 4 =>
      case 5 =>
      case 6 =>
      case _ =>
    }
  }

  /** Halving twice is dividing by four. */
  lemma Halving(a: nat, k: nat)
    requires k > 0
    ensures a / k == 2 * (a / (2 * k)) + a / k % 2
  {
    var q, r := a / (2 * k), a % (2 * k);
    assert a == q * (2 * k) + r == (2 * q) * k + r;
    if r < k {
      Arithmetic.UniqueDivision(a, k, 2 * q, r);
    } else {
      Arithmetic.UniqueDivision(a, k, 2 * q + 1, r - k);
    }
  }

  /** The bits of a byte make up its parts. */
  lemma HighParts(a: byte)
    ensures a / 4 == 32 * (a / 128 % 2) + 16 * (a / 64 % 2) + 8 * (a / 32 % 2)
                     + 4 * (a / 16 % 2) + 2 * (a / 8 % 2) + a / 4 % 2
    ensures a / 16 == 8 * (a / 128 % 2) + 4 * (a / 64 % 2) + 2 * (a / 32 % 2) + a / 16 % 2
    ensures a / 64 == 2 * (a / 128 % 2) + a / 64 % 2
  {
    Halving(a, 4);
    Halving(a, 8);
    Halving(a, 16);
    Halving(a, 32);
    Halving(a, 64);
    Halving(a, 128);
  }

  lemma LowParts(a: byte)
    ensures a % 4 == 2 * (a / 2 % 2) + a % 2
    ensures a % 16 == 8 * (a / 8 % 2) + 4 * (a / 4 % 2) + 2 * (a / 2 % 2) + a % 2
    ensures a % 64 == 32 * (a / 32 % 2) + 16 * (a / 16 % 2) + 8 * (a / 8 % 2)
                      + 4 * (a / 4 % 2) + 2 * (a / 2 % 2) + a % 2
  {
    Halving(a, 1);
    Halving(a, 2);
    Halving(a, 4);
    Halving(a, 8);
    Halving(a, 16);
    Halving(a, 32);
  }

  // ----- encoding -----

  /** Character k of the encoding: the digit of the k-th six bits while there are any, then padding. */
  function EncodedChar(url: bool, s: seq<byte>, k: nat): (c: byte) {
    if 6 * k < 8 * |s| then Letter(url, SixBits(s, k)) else 61
  }

  /** Dropping three bytes drops 24 bits, which are four characters. */
  lemma BitLater(s: seq<byte>, i: nat)
    requires |s| >= 3
    ensures Bit(s, i + 24) == Bit(s[3..], i)
  {
    assert (i + 24) / 8 == i / 8 + 3 && (i + 24) % 8 == i % 8;
  }

  lemma SixBitsLater(s: seq<byte>, k: nat)
    requires |s| >= 3
    ensures SixBits(s, k + 4) == SixBits(s[3..], k)
  {
    hide Bit;
    BitLater(s, 6 * k);
    BitLater(s, 6 * k + 1);
    BitLater(s, 6 * k + 2);
    BitLater(s, 6 * k + 3);
    BitLater(s, 6 * k + 4);
    BitLater(s, 6 * k + 5);
  }

  /** Byte j, or zero behind the end. */
  function At(s: seq<byte>, j: nat): byte {
    if j < |s| then s[j] else 0
  }

  /** The four numbers of six bits in three bytes. */
  lemma FirstSix(s: seq<byte>)
    ensures SixBits(s, 0) == At(s, 0) / 4
  {
    hide Bit, At;
    HighParts(At(s, 0));
    BitsOfByte(s, 0);
  }

  lemma SecondSix(s: seq<byte>)
    ensures SixBits(s, 1) == At(s, 0) % 4 * 16 + At(s, 1) / 16
  {
    hide Bit, At;
    LowParts(At(s, 0));
    HighParts(At(s, 1));
    BitsOfByte(s, 0);
    BitsOfByte(s, 1);
  }

  lemma ThirdSix(s: seq<byte>)
    ensures SixBits(s, 2) == At(s, 1) % 16 * 4 + At(s, 2) / 64
  {
    hide Bit, At;
    LowParts(At(s, 1));
    HighParts(At(s, 2));
    BitsOfByte(s, 1);
    BitsOfByte(s, 2);
  }

  lemma FourthSix(s: seq<byte>)
    ensures SixBits(s, 3) == At(s, 2) % 64
  {
    hide Bit, At;
    LowParts(At(s, 2));
    BitsOfByte(s, 2);
  }

  lemma BitOfByte(s: seq<byte>, j: nat, i: nat)
    requires i < 8
    ensures Bit(s, 8 * j + i) == At(s, j) as int / Weight(7 - i) % 2
  {
    hide Weight;
    Arithmetic.UniqueDivision(8 * j + i, 8, j, i);
  }

  lemma BitsOfByte(s: seq<byte>, j: nat)
    ensures var a := At(s, j);
            && Bit(s, 8 * j) == a / 128 % 2 && Bit(s, 8 * j + 1) == a / 64 % 2 && Bit(s, 8 * j + 2) == a / 32 % 2
            && Bit(s, 8 * j + 3) == a / 16 % 2 && Bit(s, 8 * j + 4) == a / 8 % 2 && Bit(s, 8 * j + 5) == a / 4 % 2
            && Bit(s, 8 * j + 6) == a / 2 % 2 && Bit(s, 8 * j + 7) == a % 2
  {
    hide Bit, At;
    Weights();
    BitOfByte(s, j, 0);
    BitOfByte(s, j, 1);
    BitOfByte(s, j, 2);
    BitOfByte(s, j, 3);
    BitOfByte(s, j, 4);
    BitOfByte(s, j, 5);
    BitOfByte(s, j, 6);
    BitOfByte(s, j, 7);
  }

  lemma Weights()
    ensures Weight(7) == 128 && Weight(6) == 64 && Weight(5) == 32 && Weight(4) == 16
    ensures Weight(3) == 8 && Weight(2) == 4 && Weight(1) == 2 && Weight(0) == 1
  {
  }

  /** A group of up to three bytes. */
  lemma GroupIs(s: seq<byte>, k: nat)
    requires 0 < |s| <= 3 && k < 4
    ensures |Encode(s)| == 4 && Encode(s)[k] == EncodedChar(false, s, k)
  {
    hide SixBits, Letter, Encode, EncMap, At;
    EncodedGroup(s);
    TableIsAlphabet(SixBits(s, k));
    match k
    case 0 => FirstSix(s);
    case 1 => SecondSix(s);
    case 2 => ThirdSix(s);
    case _ => FourthSix(s);
  }

  /** The encoder's own four characters. */
  lemma EncodedGroup(s: seq<byte>)
    requires 0 < |s| <= 3
    ensures Encode(s) == Four(At(s, 0), At(s, 1), At(s, 2), |s|)
  {
    hide EncMap, Four;
    if |s| == 3 {
      WholeGroup(s);
    } else {
      assert Encode(s) == EncodeTail(s);
      TailGroup(s);
    }
  }

  function Four(a: byte, b: byte, c: byte, n: nat): (t: seq<byte>)
    ensures |t| == 4
  {
    [EncMap(a / 4), EncMap(a % 4 * 16 + b / 16),
     if n < 2 then 61 else EncMap(b % 16 * 4 + c / 64), if n < 3 then 61 else EncMap(c % 64)]
  }

  lemma TailGroup(s: seq<byte>)
    requires 1 <= |s| <= 2
    ensures EncodeTail(s) == Four(At(s, 0), At(s, 1), 0, |s|) && At(s, 2) == 0
  {
    hide EncMap;
  }

  lemma WholeGroup(s: seq<byte>)
    requires |s| == 3
    ensures Encode(s) == Four(At(s, 0), At(s, 1), At(s, 2), 3)
  {
    hide EncMap;
    assert s[3..] == [];
    assert Encode(s) == EncodeGroup(s[0], s[1], s[2]) + [] by {
      hide EncodeGroup;
      assert Encode([]) == [];
    }
  }

  /** The encoding is what section 4 says: each character is the digit of the next six bits, the most
      significant first, with zeros behind the last byte, and '=' fills up to a multiple of four. */
  lemma {:induction false} EncodeIs(s: seq<byte>, k: nat)
    requires k < |Encode(s)|
    ensures |Encode(s)| == (|s| + 2) / 3 * 4
    ensures Encode(s)[k] == EncodedChar(false, s, k)
    decreases |s|
  {
    hide SixBits, Letter, Encode;
    EncodeLength(s);
    if |s| <= 3 {
      GroupIs(s, k);
    } else {
      EncodeSplits(s[..3], s[3..]);
      assert s[..3] + s[3..] == s;
      GroupIs(s[..3], 0);
      if k < 4 {
        GroupIs(s[..3], k);
        SamePrefix(s, k);
      } else {
        EncodeIs(s[3..], k - 4);
        SixBitsLater(s, k - 4);
      }
    }
  }

  /** The first four numbers depend on the first three bytes. */
  lemma SamePrefix(s: seq<byte>, k: nat)
    requires |s| >= 3 && k < 4
    ensures SixBits(s, k) == SixBits(s[..3], k)
  {
    hide SixBits;
    match k
    case 0 =>
      FirstSix(s);
      FirstSix(s[..3]);
    case 1 =>
      SecondSix(s);
      SecondSix(s[..3]);
    case 2 =>
      ThirdSix(s);
      ThirdSix(s[..3]);
    case _ =>
      FourthSix(s);
      FourthSix(s[..3]);
  }

  /** The URL-safe encoding is the same over the alphabet of section 5. */
  lemma EncodeUrlIs(s: seq<byte>, k: nat)
    requires k < |EncodeUrl(s)|
    ensures |EncodeUrl(s)| == (|s| + 2) / 3 * 4
    ensures EncodeUrl(s)[k] == EncodedChar(true, s, k)
  {
    hide SixBits, Letter, EncMap, Encode;
    EncodeIs(s, k);
    TableIsAlphabet(SixBits(s, k));
  }

  // ----- decoding -----

  /** Every symbol the decoder accepts is '=' or a digit of the alphabet, and stands for its place there. */
  lemma SymbolIs(c: byte, v: nat)
    requires v < 64
    ensures DecMap(c) == 64 <==> c == 61
    ensures c == Letter(false, v) <==> DecMap(c) == v
  {
    hide Letter;
    TableIsAlphabet(v);
    DecEncMap(v);
    if DecMap(c) == v {
      TableInverse(c);
    }
  }

  lemma TableInverse(c: byte)
    requires DecMap(c) < 64
    ensures EncMap(DecMap(c)) == c
  {
  }

  /** The bits of a number of six bits. */
  lemma BitOfSix(s: seq<byte>, k: nat, j: nat)
    requires j < 6
    ensures Bit(s, 6 * k + j) == SixBits(s, k) / Weight(5 - j) % 2
  {
    hide Bit, Weight;
    Weights();
    var b0, b1, b2 := Bit(s, 6 * k), Bit(s, 6 * k + 1), Bit(s, 6 * k + 2);
    var b3, b4, b5 := Bit(s, 6 * k + 3), Bit(s, 6 * k + 4), Bit(s, 6 * k + 5);
    SixParts(b0, b1, b2, b3, b4, b5);
    match j
    case 0 =>
    case 1 =>
    case 2 =>
    case 3 =>
    case 4 =>
    case _ =>
  }

  lemma SixParts(a: nat, b: nat, c: nat, d: nat, e: nat, f: nat)
    requires a < 2 && b < 2 && c < 2 && d < 2 && e < 2 && f < 2
    ensures var x := 32 * a + 16 * b + 8 * c + 4 * d + 2 * e + f;
            && x / 32 % 2 == a && x / 16 % 2 == b && x / 8 % 2 == c && x / 4 % 2 == d && x / 2 % 2 == e && x % 2 == f
  {
    var x := 32 * a + 16 * b + 8 * c + 4 * d + 2 * e + f;
    LowBit(x, 32, 0, a, 16 * b + 8 * c + 4 * d + 2 * e + f);
    LowBit(x, 16, a, b, 8 * c + 4 * d + 2 * e + f);
    LowBit(x, 8, 2 * a + b, c, 4 * d + 2 * e + f);
    LowBit(x, 4, 4 * a + 2 * b + c, d, 2 * e + f);
    LowBit(x, 2, 8 * a + 4 * b + 2 * c + d, e, f);
    LowBit(x, 1, 16 * a + 8 * b + 4 * c + 2 * d + e, f, 0);
  }

  lemma LowBit(x: nat, k: nat, q: nat, b: nat, r: nat)
    requires b < 2 && r < k && x == (2 * q + b) * k + r
    ensures x / k % 2 == b
  {
    Arithmetic.UniqueDivision(x, k, 2 * q + b, r);
  }

  /** The three bytes of four symbols are the symbols' numbers of six bits, one after the other. */
  lemma QuadIs(q: seq<byte>, k: nat)
    requires |q| == 4 && k < 4
    ensures SixBits(QuadBytes(q), k) == Sextet(q[k])
  {
    hide SixBits, Sextet, QuadBytes;
    QuadParts(q);
    match k
    case 0 => FirstSix(QuadBytes(q));
    case 1 => SecondSix(QuadBytes(q));
    case 2 => ThirdSix(QuadBytes(q));
    case _ => FourthSix(QuadBytes(q));
  }

  function QuadBytes(q: seq<byte>): (s: seq<byte>)
    requires |q| == 4
    ensures |s| == 3
  {
    var x := QuadValue(q[0], q[1], q[2], q[3]);
    [x / 65536, x / 256 % 256, x % 256]
  }

  lemma QuadParts(q: seq<byte>)
    requires |q| == 4
    ensures var s := QuadBytes(q);
            && s[0] / 4 == Sextet(q[0]) && s[0] % 4 * 16 + s[1] / 16 == Sextet(q[1])
            && s[1] % 16 * 4 + s[2] / 64 == Sextet(q[2]) && s[2] % 64 == Sextet(q[3])
  {
    hide Sextet;
    SplitQuad(Sextet(q[0]), Sextet(q[1]), Sextet(q[2]), Sextet(q[3]));
  }

  lemma SplitQuad(a: int, b: int, c: int, d: int)
    requires 0 <= a < 64 && 0 <= b < 64 && 0 <= c < 64 && 0 <= d < 64
    ensures var x := a * 262144 + b * 4096 + c * 64 + d;
            && x / 65536 / 4 == a && x / 65536 % 4 * 16 + x / 256 % 256 / 16 == b
            && x / 256 % 256 % 16 * 4 + x % 256 / 64 == c && x % 256 % 64 == d
  {
    var x := a * 262144 + b * 4096 + c * 64 + d;
    Arithmetic.UniqueDivision(x, 65536, a * 4 + b / 16, b % 16 * 4096 + c * 64 + d);
    Arithmetic.UniqueDivision(x, 256, a * 1024 + b * 16 + c / 4, c % 4 * 64 + d);
    Arithmetic.UniqueDivision(a * 1024 + b * 16 + c / 4, 256, a * 4 + b / 16, b % 16 * 16 + c / 4);
    Nibbles(a, b / 16, 4);
    Nibbles(b % 16, c / 4, 16);
    Nibbles(c % 4, d, 64);
  }

  /** Two parts of a byte. */
  lemma Nibbles(a: int, b: int, k: int)
    requires k > 0 && 0 <= b < k
    ensures (a * k + b) / k == a && (a * k + b) % k == b
  {
    Arithmetic.UniqueDivision(a * k + b, k, a, b);
  }

  /** The bits of a decoded group. */
  lemma BitOfQuad(q: seq<byte>, i: nat)
    requires |q| == 4 && i < 8 * |DecodeQuad(q)|
    ensures Bit(DecodeQuad(q), i) == Sextet(q[i / 6]) / Weight(5 - i % 6) % 2
  {
    hide Weight, Sextet, SixBits;
    QuadIs(q, i / 6);
    BitOfSix(QuadBytes(q), i / 6, i % 6);
    assert i / 6 * 6 + i % 6 == i;
    assert DecodeQuad(q) == QuadBytes(q)[..|DecodeQuad(q)|];
  }

  /** A symbol whose bits are decoded is not padding. */
  lemma NotPadding(q: seq<byte>, i: nat)
    requires |q| == 4 && PadOk(q) && i < 8 * |DecodeQuad(q)|
    ensures q[i / 6] != 61
  {
    if q[i / 6] == 61 {
      PadsFrom(q, i / 6);
    }
  }

  /** Padding goes on to the end. */
  lemma PadsFrom(q: seq<byte>, j: nat)
    requires PadOk(q) && j < |q| && q[j] == 61
    ensures PadCount(q) >= |q| - j
  {
    hide PadCount;
    forall k | 0 <= k < |q| - j ensures q[j..][k] == 61 {
      assert k == 0 || q[j + k] == 61;
    }
    AllPadding(q[j..]);
    PadCountConcat(q[..j], q[j..]);
    assert q == q[..j] + q[j..];
  }

  /** What is behind a group of symbols. */
  lemma Behind(t: seq<byte>)
    requires |t| >= 4 && PadOk(t)
    ensures PadOk(t[..4]) && PadOk(t[4..])
    ensures |DecodeQuad(t[..4])| == 3 || |t| < 8
  {
    hide DecodeQuad;
    PadCountConcat(t[..4], t[4..]);
    assert t == t[..4] + t[4..];
    PadCountZero(t[..4]);
    if 61 in t[..4] {
      forall k | 0 <= k < |t| - 4 ensures t[4..][k] == 61 {
        assert t[4..][k] == t[4 + k];
      }
      AllPadding(t[4..]);
    }
  }

  /** Bit i of the decoded bytes is bit i % 6 of symbol i / 6, the most significant first. */
  lemma {:induction false} BitOfDecoded(t: seq<byte>, i: nat)
    requires PadOk(t) && i < 8 * |DecodeSymbols(t)|
    ensures i / 6 < |t| && t[i / 6] != 61
    ensures Bit(DecodeSymbols(t), i) == Sextet(t[i / 6]) / Weight(5 - i % 6) % 2
  {
    hide Weight, Sextet, DecodeQuad, PadOk, Bit;
    var q, u := t[..4], t[4..];
    Behind(t);
    if i < 8 * |DecodeQuad(q)| {
      BitOfQuad(q, i);
      NotPadding(q, i);
      BitBefore(DecodeQuad(q), DecodeSymbols(u), i);
    } else {
      assert DecodeSymbols(t)[3..] == DecodeSymbols(u);
      BitOfDecoded(u, i - 24);
      BitLater(DecodeSymbols(t), i - 24);
      assert (i - 24) / 6 + 4 == i / 6 && (i - 24) % 6 == i % 6;
    }
  }

  lemma BitBefore(a: seq<byte>, b: seq<byte>, i: nat)
    requires i < 8 * |a|
    ensures Bit(a + b, i) == Bit(a, i)
  {
  }

  /** The decoder reads an accepted text as section 4 says: bit i of the bytes is bit i % 6, the most
      significant first, of the place in the alphabet of symbol i / 6, blanks not counted. */
  lemma DecodedBit(s: seq<byte>, i: nat) returns (v: nat)
    requires WellFormed(s) && i < 8 * |Decode(s).value|
    ensures v < 64 && i / 6 < |Symbols(s)|
    ensures Symbols(s)[i / 6] == Letter(false, v)
    ensures Bit(Decode(s).value, i) == v / [32, 16, 8, 4, 2, 1][i % 6] % 2
  {
    hide Letter, Bit, DecodeSymbols, PadOk, Weight;
    var t := Symbols(s);
    BitOfDecoded(t, i);
    var m := SymbolsFrom(s, i / 6);
    assert LocalOk(s, m);
    v := DecMap(t[i / 6]);
    SymbolIs(t[i / 6], v);
    Weights();
  }

  /** The decoder of URL-safe text reads each digit of section 5 as the digit of section 4. */
  lemma UrlSymbolIs(v: nat)
    requires v < 64
    ensures FromUrlChar(Letter(true, v)) == Letter(false, v)
  {
    hide Letter, EncMap;
    TableIsAlphabet(v);
    DecEncMap(v);
    TableCharacter(v);
  }

  lemma TableCharacter(v: nat)
    requires v < 64
    ensures FromUrlChar(ToUrlChar(EncMap(v))) == EncMap(v)
  {
  }

  // ----- which texts are accepted -----

  /** The symbols are the characters but spaces, carriage returns and line feeds, in their order. */
  lemma SymbolsOf(a: seq<byte>, c: byte)
    ensures Symbols(a + [c]) == Symbols(a) + if c in {32, 13, 10} then [] else [c]
  {
    assert (a + [c])[..|a|] == a;
  }

  /** Padding comes last, blanks aside. */
  ghost predicate PadsLast(s: seq<byte>) {
    forall i, j :: 0 <= i < j < |s| && s[i] == 61 && s[j] !in {32, 13, 10} ==> s[j] == 61
  }

  lemma PadsLastSnoc(s: seq<byte>, c: byte)
    ensures PadsLast(s + [c]) <==> PadsLast(s) && (c !in {32, 13, 10, 61} ==> 61 !in s)
  {
    var u := s + [c];
    assert forall i :: 0 <= i < |s| ==> u[i] == s[i];
    if 61 in s {
      var i :| 0 <= i < |s| && s[i] == 61;
      assert u[i] == 61 && u[|s|] == c;
    }
  }

  lemma {:induction false} PadCountIs(s: seq<byte>)
    ensures PadCount(Symbols(s)) == multiset(s)[61] && (multiset(s)[61] == 0 <==> 61 !in s)
    decreases |s|
  {
    if s != [] {
      var a, c := s[..|s| - 1], s[|s| - 1];
      assert s == a + [c];
      PadCountIs(a);
      SymbolsOf(a, c);
      assert (Symbols(a) + [c])[..|Symbols(a)|] == Symbols(a);
    }
  }

  lemma {:induction false} PadsIff(s: seq<byte>)
    ensures PadOk(Symbols(s)) <==> multiset(s)[61] <= 2 && PadsLast(s)
    decreases |s|
  {
    hide PadOk, PadsLast, PadCount, Symbols;
    if s == [] {
      NoPads();
    } else {
      var a, c := s[..|s| - 1], s[|s| - 1];
      assert s == a + [c];
      PadsIff(a);
      PadCountIs(a);
      SymbolsOf(a, c);
      PadsLastSnoc(a, c);
      if PadOk(Symbols(a)) {
        PadOkSnoc(Symbols(a), c);
      } else if PadOk(Symbols(a) + [c]) {
        PadOkPrefix(Symbols(a), [c]);
      }
      assert Symbols(a) + [] == Symbols(a);
    }
  }

  lemma NoPads()
    ensures PadOk(Symbols([])) && PadsLast([])
  {
  }

  /** A digit, padding or a blank, with a line feed behind a carriage return and only blanks and line
      breaks behind a space. */
  ghost predicate Allowed(s: seq<byte>, k: nat)
    requires k < |s|
  {
    && (InAlphabet(s[k]) || s[k] in {61, 32, 13, 10})
    && (s[k] == 13 ==> k + 1 < |s| && s[k + 1] == 10)
    && (s[k] == 32 && k + 1 < |s| ==> s[k + 1] in {32, 13, 10})
  }

  /** The decoder accepts exactly the texts of allowed characters with at most two '=', nothing but blanks
      and '=' behind the first. */
  lemma Accepted(s: seq<byte>)
    ensures WellFormed(s)
            <==> (forall k :: 0 <= k < |s| ==> Allowed(s, k)) && multiset(s)[61] <= 2 && PadsLast(s)
  {
    hide PadOk, PadsLast, Symbols, Allowed, LocalOk;
    PadsIff(s);
    if forall k :: 0 <= k < |s| ==> LocalOk(s, k) {
      forall k | 0 <= k < |s| ensures Allowed(s, k) {
        LocalIsAllowed(s, k);
      }
    }
    if forall k :: 0 <= k < |s| ==> Allowed(s, k) {
      forall k | 0 <= k < |s| ensures LocalOk(s, k) {
        AllowedIsLocal(s, k);
      }
    }
  }

  lemma LocalIsAllowed(s: seq<byte>, k: nat)
    requires k < |s| && LocalOk(s, k)
    ensures Allowed(s, k)
  {
    hide InAlphabet;
    AlphabetIs(s[k]);
    assert DecMap(s[k]) == 64 <==> s[k] == 61;
    assert DecMap(s[k]) <= 64 || DecMap(s[k]) == 127;
  }

  lemma AllowedIsLocal(s: seq<byte>, k: nat)
    requires k < |s| && Allowed(s, k) && (k + 1 < |s| ==> Allowed(s, k + 1))
    ensures LocalOk(s, k)
  {
    hide InAlphabet;
    AlphabetIs(s[k]);
  }

  /** One of the 64 digits of section 4. */
  ghost predicate InAlphabet(c: byte) {
    exists v: nat :: v < 64 && Letter(false, v) == c
  }

  lemma AlphabetIs(c: byte)
    ensures InAlphabet(c) <==> DecMap(c) < 64
  {
    hide Letter, DecMap;
    if DecMap(c) < 64 {
      SymbolIs(c, DecMap(c));
    }
    forall v: nat | v < 64 && Letter(false, v) == c ensures DecMap(c) < 64 {
      SymbolIs(c, v);
    }
  }

  /** How many bytes an accepted text decodes to: three for every whole group of symbols, less its padding. */
  lemma DecodedLength(s: seq<byte>)
    requires WellFormed(s)
    ensures var t := Symbols(s);
            |Decode(s).value| == |t| / 4 * 3 - multiset(t[..|t| / 4 * 4])[61]
  {
    hide DecodeSymbols, PadOk, Symbols, LocalOk;
    PadOkCount(Symbols(s));
    LengthOfDecoded(Symbols(s));
  }

  lemma PadOkCount(t: seq<byte>)
    requires PadOk(t)
    ensures PadCount(t) <= 2
  {
  }

  lemma {:induction false} LengthOfDecoded(t: seq<byte>)
    requires PadCount(t) <= 2
    ensures |DecodeSymbols(t)| == |t| / 4 * 3 - multiset(t[..|t| / 4 * 4])[61]
    decreases |t|
  {
    hide PadCount, DecodeQuad;
    if |t| >= 4 {
      var q, u := t[..4], t[4..];
      assert t == q + u;
      PadCountConcat(q, u);
      LengthOfDecoded(u);
      PadsOfGroup(q);
      WholeGroups(t);
    } else {
      assert t[..0] == [];
    }
  }

  lemma PadsOfGroup(q: seq<byte>)
    requires |q| == 4 && PadCount(q) <= 2
    ensures |DecodeQuad(q)| + multiset(q)[61] == 3
  {
    CountPads(q);
  }

  lemma WholeGroups(t: seq<byte>)
    requires |t| >= 4
    ensures var u := t[4..];
            && |t| / 4 == |u| / 4 + 1
            && multiset(t[..|t| / 4 * 4])[61] == multiset(t[..4])[61] + multiset(u[..|u| / 4 * 4])[61]
  {
    var u := t[4..];
    assert |t| / 4 == |u| / 4 + 1;
    assert t[..|t| / 4 * 4] == t[..4] + u[..|u| / 4 * 4];
  }

  lemma {:induction false} CountPads(q: seq<byte>)
    ensures PadCount(q) == multiset(q)[61]
    decreases |q|
  {
    if q != [] {
      var a := q[..|q| - 1];
      assert q == a + [q[|q| - 1]];
      CountPads(a);
    }
  }
}
