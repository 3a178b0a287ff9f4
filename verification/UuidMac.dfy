/** UUID and MAC address texts (iot_util.c, iot_uuid.c; section 3 of RFC 4122). Strings are their
    characters without the final NUL. */
module UuidMac {
  import opened Bytes
  import opened Text

  const DASH: byte := 45
  const COLON: byte := 58

  // ----- characters -----

  function HexDigit(n: nat): (c: byte)
    requires n < 16
  {
    if n < 10 then 48 + n else 87 + n
  }

  const LOWER_DIGITS: seq<string> := ["01234567", "89abcdef"]
  const UPPER_DIGITS: seq<string> := ["01234567", "89ABCDEF"]

  /** The hexadecimal digits as they are printed, and as they may be written. */
  function HexChar(upper: bool, n: nat): (c: byte)
    requires n < 16
  {
    assert |LOWER_DIGITS[n / 8]| == |UPPER_DIGITS[n / 8]| == 8;
    (if upper then UPPER_DIGITS else LOWER_DIGITS)[n / 8][n % 8] as int % 256
  }

  /** A digit prints as its character, and reads back in either case of letters. */
  lemma HexDigitIs(n: nat)
    requires n < 16
    ensures HexDigit(n) == HexChar(false, n)
    ensures Digit(HexChar(false, n)) == n && Digit(HexChar(true, n)) == n
  {
    hide HexDigit, HexChar, Digit;
    if n < 8 {
      LowDigit(n);
    } else {
      HighDigit(n);
    }
  }

  lemma LowDigit(n: nat)
    requires n < 8
    ensures HexDigit(n) == HexChar(false, n) == HexChar(true, n) && Digit(HexDigit(n)) == n
  {
    var row := "01234567";
    assert LOWER_DIGITS[n / 8] == UPPER_DIGITS[n / 8] == row && row[n] as int == 48 + n;
  }

  lemma HighDigit(n: nat)
    requires 8 <= n < 16
    ensures HexDigit(n) == HexChar(false, n) && Digit(HexChar(false, n)) == n && Digit(HexChar(true, n)) == n
  {
  }

  /** Two digits a byte. */
  function HexText(b: seq<byte>): (s: seq<byte>)
    ensures |s| == 2 * |b|
  {
    seq(2 * |b|, k requires 0 <= k < 2 * |b| => HexChar(false, if k % 2 == 0 then b[k / 2] / 16 else b[k / 2] % 16))
  }

  predicate IsAlpha(c: byte) {
    65 <= c <= 90 || 97 <= c <= 122
  }

  /** _ishex takes every capital letter. */
  predicate IsHexLoosely(c: byte) {
    48 <= c <= 57 || 97 <= c <= 102 || 65 <= c <= 90
  }

  predicate IsHex(c: byte) {
    48 <= c <= 57 || 97 <= c <= 102 || 65 <= c <= 70
  }

  /** Bitwise or. */
  function Or(a: nat, b: nat): (r: nat) {
    if a == 0 then b else if b == 0 then a
    else 2 * Or(a / 2, b / 2) + (if a % 2 == 1 || b % 2 == 1 then 1 else 0)
  }

  lemma OrHalves(a: nat, b: nat)
    ensures Or(2 * a, b) == 2 * Or(a, b / 2) + b % 2
  {
  }

  /** Nothing overlaps when a digit is put below a shifted one. */
  lemma OrOfNibbles(h: nat, d: nat)
    requires d < 16
    ensures Or(16 * h, d) == 16 * h + d
  {
    hide Or;
    OrHalves(8 * h, d);
    OrHalves(4 * h, d / 2);
    OrHalves(2 * h, d / 4);
    OrHalves(h, d / 8);
    OrZero(h);
    assert d / 2 / 2 == d / 4 && d / 4 / 2 == d / 8 && d / 8 / 2 == 0;
  }

  lemma OrZero(h: nat)
    ensures Or(h, 0) == h == Or(0, h)
  {
  }

  /** What a character contributes when it is read as a digit. */
  function Digit(c: byte): (d: byte) {
    if IsAlpha(c) then
      (if 97 <= c <= 102 then c - 87 else if 65 <= c <= 70 then c - 55 else 0)
    else (c as int - 48) % 256
  }

  /** Two digits read one after the other into a byte. */
  function Pair(a: byte, b: byte): (r: byte) {
    Or(Digit(a) as int * 16 % 256, Digit(b)) % 256
  }

  lemma PairOfDigits(a: byte, b: byte)
    requires Digit(a) < 16 && Digit(b) < 16
    ensures Pair(a, b) == Digit(a) as int * 16 + Digit(b) as int
  {
    hide Or, Digit;
    OrOfNibbles(Digit(a), Digit(b));
  }

  lemma PairOfHex(v: byte)
    ensures Pair(HexDigit(v / 16), HexDigit(v % 16)) == v
  {
    PairOfDigits(HexDigit(v / 16), HexDigit(v % 16));
  }

  lemma HexOfPair(a: byte, b: byte)
    requires IsHex(a) && IsHex(b)
    ensures HexDigit(Pair(a, b) / 16) == LowerChar(a) && HexDigit(Pair(a, b) % 16) == LowerChar(b)
  {
    hide Pair;
    PairOfDigits(a, b);
  }

  // ----- UUIDs -----

  predicate UuidDash(p: int) {
    p in {8, 13, 18, 23}
  }

  /** How many digits stand before position p. */
  function UuidDigits(p: nat): (k: int) {
    if p <= 8 then p else if p <= 13 then p - 1 else if p <= 18 then p - 2 else if p <= 23 then p - 3 else p - 4
  }

  /** The position of digit k. */
  function UuidPos(k: nat): (p: nat) {
    if k < 8 then k else if k < 12 then k + 1 else if k < 16 then k + 2 else if k < 20 then k + 3 else k + 4
  }

  /** Digits and their positions correspond. */
  lemma UuidPlaces(k: nat, p: nat)
    ensures k < 32 ==> UuidPos(k) < 36 && !UuidDash(UuidPos(k)) && UuidDigits(UuidPos(k)) == k
    ensures p < 36 && !UuidDash(p) ==> 0 <= UuidDigits(p) < 32 && UuidPos(UuidDigits(p)) == p
  {
  }

  /** Half a byte: the upper one for an even number. */
  function HalfOf(id: seq<byte>, k: nat): (n: nat)
    requires k / 2 < |id|
    ensures n < 16
  {
    if k % 2 == 0 then id[k / 2] / 16 else id[k / 2] % 16
  }

  function UuidText(id: seq<byte>): (s: seq<byte>)
    requires |id| == 16
    ensures |s| == 36
  {
    seq(36, p requires 0 <= p < 36 => if UuidDash(p) then DASH else HexDigit(HalfOf(id, UuidDigits(p))))
  }

  /** A field of the text, whose digits begin at position at. */
  lemma UuidField(id: seq<byte>, from: nat, to: nat, at: nat)
    requires |id| == 16 && from <= to <= 16 && at + 2 * (to - from) <= 36
    requires forall p :: at <= p < at + 2 * (to - from) ==> !UuidDash(p) && UuidDigits(p) == 2 * from + (p - at)
    ensures UuidText(id)[at..at + 2 * (to - from)] == HexText(id[from..to])
  {
    hide HexDigit, HexChar, UuidDigits, UuidDash;
    forall k | 0 <= k < 2 * (to - from)
      ensures UuidText(id)[at + k] == HexText(id[from..to])[k]
    {
      var d := 2 * from + k;
      assert UuidDigits(at + k) == d && d / 2 == from + k / 2 && d % 2 == k % 2;
      HexDigitIs(HalfOf(id, d));
    }
  }

  /** The text of section 3 of RFC 4122: four, two, two, two and six bytes in hexadecimal, with dashes. */
  lemma UuidLayout(id: seq<byte>)
    requires |id| == 16
    ensures var s := UuidText(id);
            && s[..8] == HexText(id[..4]) && s[9..13] == HexText(id[4..6]) && s[14..18] == HexText(id[6..8])
            && s[19..23] == HexText(id[8..10]) && s[24..] == HexText(id[10..])
            && s[8] == s[13] == s[18] == s[23] == 45
  {
    UuidField(id, 0, 4, 0);
    UuidField(id, 4, 6, 9);
    UuidField(id, 6, 8, 14);
    UuidField(id, 8, 10, 19);
    UuidField(id, 10, 16, 24);
    assert id[0..4] == id[..4] && id[10..16] == id[10..];
  }

  /** validate_uuid_format */
  predicate ValidUuid(s: seq<byte>) {
    && |s| == 36
    && (forall p :: 0 <= p < 36 ==> if UuidDash(p) then s[p] == DASH else IsHexLoosely(s[p]))
    && 49 <= s[14] <= 53
  }

  function UuidValue(s: seq<byte>): (id: seq<byte>)
    requires |s| == 36
    ensures |id| == 16
  {
    seq(16, j requires 0 <= j < 16 => Pair(s[UuidPos(2 * j)], s[UuidPos(2 * j + 1)]))
  }

  /** _ishex_len */
  method IsHexLen(s: seq<byte>, from: nat, len: nat) returns (ok: bool)
    requires from + len <= |s|
    ensures ok == forall p :: from <= p < from + len ==> IsHexLoosely(s[p])
  {
    for i := 0 to len
      invariant forall p :: from <= p < from + i ==> IsHexLoosely(s[p])
    {
      if !IsHexLoosely(s[from + i]) {
        return false;
      }
    }
    ok := true;
  }

  /** validate_uuid_format, field by field. */
  method ValidateUuidFormat(s: seq<byte>) returns (ok: bool)
    ensures ok == ValidUuid(s)
  {
    if |s| != 36 {
      return false;
    }
    ok := IsHexLen(s, 0, 8);
    if !ok || s[8] != DASH {
      return false;
    }
    ok := IsHexLen(s, 9, 4);
    if !ok || s[13] != DASH {
      return false;
    }
    if s[14] < 49 || s[14] > 53 {
      return false;
    }
    ok := IsHexLen(s, 15, 3);
    if !ok || s[18] != DASH {
      return false;
    }
    ok := IsHexLen(s, 19, 4);
    if !ok || s[23] != DASH {
      return false;
    }
    ok := IsHexLen(s, 24, 12);
  }

  /** The first i characters are read: j bytes are complete, c holds the upper half of the next. */
  ghost predicate UuidSoFar(s: seq<byte>, bytes: seq<byte>, i: nat, j: nat, k: nat, c: byte) {
    && i <= 36 == |s| && |bytes| == 16
    && k == UuidDigits(i) + 1 && j == (k - 1) / 2 <= 16
    && (forall b :: 0 <= b < j ==> bytes[b] == Pair(s[UuidPos(2 * b)], s[UuidPos(2 * b + 1)]))
    && c as int == if k % 2 == 1 then 0 else Digit(s[UuidPos(k - 2)]) as int * 16 % 256
  }

  lemma UuidDashRead(s: seq<byte>, bytes: seq<byte>, i: nat, j: nat, k: nat, c: byte)
    requires UuidSoFar(s, bytes, i, j, k, c) && i < 36 && UuidDash(i)
    ensures UuidSoFar(s, bytes, i + 1, j, k, c)
  {
    hide Digit, Pair;
  }

  lemma UuidDigitRead(s: seq<byte>, bytes: seq<byte>, i: nat, j: nat, k: nat, c: byte)
    requires UuidSoFar(s, bytes, i, j, k, c) && i < 36 && !UuidDash(i)
    ensures var d := Or(c, Digit(s[i])) % 256;
            if (j + 1) * 2 == k then j < 16 && UuidSoFar(s, bytes[j := d], i + 1, j + 1, k + 1, 0)
            else UuidSoFar(s, bytes, i + 1, j, k + 1, d * 16 % 256)
  {
    hide Or, Digit;
    UuidPlaces(0, i);
    OrZero(Digit(s[i]));
  }

  lemma UuidRead(s: seq<byte>, bytes: seq<byte>, j: nat, k: nat, c: byte)
    requires UuidSoFar(s, bytes, 36, j, k, c)
    ensures bytes == UuidValue(s)
  {
    hide Digit, Pair;
  }

  lemma DashesOnly(s: seq<byte>, p: nat)
    requires ValidUuid(s) && p < 36
    ensures s[p] == DASH <==> UuidDash(p)
  {
  }

  /** iot_util_convert_str_uuid */
  method ConvertStrUuid(str: seq<byte>, uuid: array<byte>) returns (ok: bool)
    requires uuid.Length == 16
    modifies uuid
    ensures ok == ValidUuid(str)
    ensures ok ==> uuid[..] == UuidValue(str)
    ensures !ok ==> uuid[..] == old(uuid[..])
  {
    hide Or, Digit, UuidDash;
    ok := ValidateUuidFormat(str);
    if !ok {
      return;
    }
    var j: nat, k: nat, c: byte := 0, 1, 0;
    for i := 0 to 36
      invariant UuidSoFar(str, uuid[..], i, j, k, c)
    {
      hide UuidSoFar, ValidUuid;
      DashesOnly(str, i);
      if str[i] == DASH {
        UuidDashRead(str, uuid[..], i, j, k, c);
        continue;
      }
      UuidDigitRead(str, uuid[..], i, j, k, c);
      ghost var bytes := uuid[..];
      c := Or(c, Digit(str[i])) % 256;
      if (j + 1) * 2 == k {
        uuid[j] := c;
        assert uuid[..] == bytes[j := c];
        j := j + 1;
        c := 0;
      } else {
        c := c as int * 16 % 256;
      }
      k := k + 1;
    }
    UuidRead(str, uuid[..], j, k, c);
  }

  /** iot_util_convert_uuid_str */
  method ConvertUuidStr(id: seq<byte>, str: array<byte>, maxSz: nat) returns (ok: bool)
    requires |id| == 16 && maxSz <= str.Length
    modifies str
    ensures ok == (maxSz >= 37)
    ensures ok ==> str[..] == UuidText(id) + [0] + old(str[37..])
    ensures !ok ==> str[..] == old(str[..])
  {
    hide HexDigit;
    if maxSz < 37 {
      return false;
    }
    var written := 0;
    for i := 0 to 16
      invariant written == UuidPos(2 * i)
      invariant forall p :: 0 <= p < written ==> str[p] == UuidText(id)[p]
      invariant forall p :: 37 <= p < str.Length ==> str[p] == old(str[p])
    {
      str[written], str[written + 1] := HexDigit(id[i] / 16), HexDigit(id[i] % 16);
      written := written + 2;
      if UuidDash(written) {
        str[written] := DASH;
        written := written + 1;
      }
    }
    str[written] := 0;
    assert str[..] == UuidText(id) + [0] + old(str[37..]);
    ok := true;
  }

  /** The printed text of an id is accepted exactly when its version is 1 to 5 (section 4.1.3 of RFC
      4122), and then reads back as the id. */
  lemma ParsePrintUuid(id: seq<byte>)
    requires |id| == 16
    ensures ValidUuid(UuidText(id)) <==> 1 <= id[6] / 16 <= 5
    ensures UuidValue(UuidText(id)) == id
  {
    var s := UuidText(id);
    hide HexDigit, Pair, UuidPos, UuidDigits, HalfOf;
    forall p | 0 <= p < 36 && !UuidDash(p) ensures IsHexLoosely(s[p]) {
      UuidPlaces(0, p);
      DigitsAreHex(HalfOf(id, UuidDigits(p)));
    }
    Version(id);
    forall j | 0 <= j < 16 ensures UuidValue(s)[j] == id[j] {
      UuidPlaces(2 * j, 0);
      UuidPlaces(2 * j + 1, 0);
      Halves(id, j);
      PairOfHex(id[j]);
    }
  }

  lemma Halves(id: seq<byte>, j: nat)
    requires j < |id|
    ensures HalfOf(id, 2 * j) == id[j] / 16 && HalfOf(id, 2 * j + 1) == id[j] % 16
  {
  }

  lemma Version(id: seq<byte>)
    requires |id| == 16
    ensures 49 <= UuidText(id)[14] <= 53 <==> 1 <= id[6] / 16 <= 5
  {
    VersionDigit(id[6] / 16);
  }

  lemma DigitsAreHex(n: nat)
    requires n < 16
    ensures IsHex(HexDigit(n)) && IsHexLoosely(HexDigit(n))
  {
  }

  lemma VersionDigit(n: nat)
    requires n < 16
    ensures 49 <= HexDigit(n) <= 53 <==> 1 <= n <= 5
  {
  }

  /** Printing what was read gives the lower-case text exactly when every digit is a hexadecimal
      one: the capital letters past F are accepted but read as 0. */
  lemma PrintParseUuid(s: seq<byte>)
    requires ValidUuid(s)
    ensures UuidText(UuidValue(s)) == Lower(s) <==> forall p :: 0 <= p < 36 && !UuidDash(p) ==> IsHex(s[p])
  {
    hide HexDigit, Pair, LowerChar, IsHex, UuidText, IsHexLoosely;
    forall p | 0 <= p < 36 ensures UuidText(UuidValue(s))[p] == LowerChar(s[p]) ==> UuidDash(p) || IsHex(s[p]) {
      if UuidText(UuidValue(s))[p] == LowerChar(s[p]) {
        UuidCharBack(s, p);
      }
    }
    if forall p :: 0 <= p < 36 && !UuidDash(p) ==> IsHex(s[p]) {
      forall p | 0 <= p < 36 ensures UuidText(UuidValue(s))[p] == Lower(s)[p] {
        UuidCharThere(s, p);
      }
    }
  }

  /** Any character but a dash or the version may be replaced by a digit, a small letter up to f or any
      capital letter, and by nothing else; a capital letter past F reads as zero. */
  lemma ReplacedUuid(id: seq<byte>, p: nat, c: byte)
    requires |id| == 16 && 1 <= id[6] / 16 <= 5 && p < 36 && p !in {8, 13, 14, 18, 23}
    ensures var s := UuidText(id)[p := c];
            && (ValidUuid(s) <==> 48 <= c <= 57 || 97 <= c <= 102 || 65 <= c <= 90)
            && (71 <= c <= 90 ==> HalfOf(UuidValue(s), UuidDigits(p)) == 0)
  {
    hide Pair, UuidText, UuidPos, UuidDigits, HalfOf;
    ParsePrintUuid(id);
    var s := UuidText(id)[p := c];
    assert s[p] == c && forall q :: 0 <= q < 36 && q != p ==> s[q] == UuidText(id)[q];
    if 71 <= c <= 90 {
      UuidPlaces(0, p);
      var k := UuidDigits(p);
      UuidPlaces(k / 2 * 2, 0);
      UuidPlaces(k / 2 * 2 + 1, 0);
      Halves(UuidValue(s), k / 2);
      ReadsAsZero(s[UuidPos(k / 2 * 2)], s[UuidPos(k / 2 * 2 + 1)]);
    }
  }

  lemma ReadsAsZero(a: byte, b: byte)
    requires IsHexLoosely(a) && IsHexLoosely(b)
    ensures 71 <= a <= 90 ==> Pair(a, b) / 16 == 0
    ensures 71 <= b <= 90 ==> Pair(a, b) % 16 == 0
  {
    hide Pair;
    PairOfDigits(a, b);
  }

  lemma UuidCharThere(s: seq<byte>, p: nat)
    requires ValidUuid(s) && p < 36 && forall q :: 0 <= q < 36 && !UuidDash(q) ==> IsHex(s[q])
    ensures UuidText(UuidValue(s))[p] == LowerChar(s[p])
  {
    hide HexDigit, Pair, IsHex, UuidPos, UuidDigits, HalfOf;
    if !UuidDash(p) {
      var k := UuidDigits(p);
      UuidPlaces(0, p);
      UuidPlaces(k / 2 * 2, 0);
      UuidPlaces(k / 2 * 2 + 1, 0);
      Halves(UuidValue(s), k / 2);
      HexOfPair(s[UuidPos(k / 2 * 2)], s[UuidPos(k / 2 * 2 + 1)]);
    }
  }

  lemma UuidCharBack(s: seq<byte>, p: nat)
    requires ValidUuid(s) && p < 36 && UuidText(UuidValue(s))[p] == LowerChar(s[p])
    ensures UuidDash(p) || IsHex(s[p])
  {
    hide HexDigit, Pair, LowerChar, IsHex, IsHexLoosely, UuidPos, UuidDigits, HalfOf;
    if !UuidDash(p) {
      UuidPlaces(0, p);
      IsHexIfPrinted(s[p], HalfOf(UuidValue(s), UuidDigits(p)));
    }
  }

  lemma IsHexIfPrinted(c: byte, n: nat)
    requires n < 16 && LowerChar(c) == HexDigit(n)
    ensures IsHex(c)
  {
  }

  /** iot_get_random_uuid, from the four numbers that iot_bsp_random returns. */
  method GetRandomUuid(randoms: seq<uint32>) returns (id: seq<byte>)
    requires |randoms| == 4
    ensures |id| == 16 && ValidUuid(UuidText(id)) && UuidValue(UuidText(id)) == id
    ensures id[6] / 16 == 4 && id[8] / 64 == 2
    ensures id[6] == randoms[1] / 65536 % 16 + 64 && id[8] == randoms[2] % 64 + 128
    ensures forall i :: 0 <= i < 16 && i != 6 && i != 8 ==> id[i] == RandomByte(randoms, i)
  {
    id := [];
    for i := 0 to 4
      invariant |id| == 4 * i
      invariant forall k :: 0 <= k < 4 * i ==> id[k] == RandomByte(randoms, k)
    {
      hide RandomByte;
      ghost var before := id;
      id := id + Le32(randoms[i]);
      BytesOfNumber(randoms, i);
      forall k | 4 * i <= k < 4 * i + 4 ensures id[k] == RandomByte(randoms, k) {
        assert RandomByte(randoms, 4 * i + (k - 4 * i)) == Le32(randoms[i])[k - 4 * i];
      }
      assert forall k :: 0 <= k < 4 * i ==> id[k] == before[k];
    }
    SpecialBytes(randoms);
    id := id[8 := id[8] % 64 + 128];
    id := id[6 := id[6] % 16 + 64];
    ParsePrintUuid(id);
  }

  /** Byte k of the random numbers in memory, least significant byte first. */
  function RandomByte(randoms: seq<uint32>, k: nat): byte
    requires |randoms| == 4 && k < 16
  {
    randoms[k / 4] / [1, 256, 65536, 16777216][k % 4] % 256
  }

  lemma BytesOfNumber(randoms: seq<uint32>, i: nat)
    requires |randoms| == 4 && i < 4
    ensures forall j :: 0 <= j < 4 ==> RandomByte(randoms, 4 * i + j) == Le32(randoms[i])[j]
  {
    hide RandomByte, Le32;
    forall j | 0 <= j < 4 ensures RandomByte(randoms, 4 * i + j) == Le32(randoms[i])[j] {
      ByteOfNumber(randoms, i, j);
    }
  }

  lemma ByteOfNumber(randoms: seq<uint32>, i: nat, j: nat)
    requires |randoms| == 4 && i < 4 && j < 4
    ensures RandomByte(randoms, 4 * i + j) == Le32(randoms[i])[j]
  {
    assert (4 * i + j) / 4 == i && (4 * i + j) % 4 == j;
    match j
    case 0 =>
    case 1 =>
    case 2 =>
    case _ =>
  }

  lemma SpecialBytes(randoms: seq<uint32>)
    requires |randoms| == 4
    ensures RandomByte(randoms, 6) as int % 16 == randoms[1] / 65536 % 16
    ensures RandomByte(randoms, 8) as int % 64 == randoms[2] % 64
  {
  }

  // ----- MAC addresses -----

  predicate MacColon(p: int) {
    p % 3 == 2
  }

  function MacDigits(p: nat): (k: nat) {
    p / 3 * 2 + p % 3
  }

  lemma MacPlaces(p: nat)
    requires p < 17 && !MacColon(p)
    ensures MacDigits(p) / 2 == p / 3 < 6 && MacDigits(p) % 2 == p % 3
  {
  }

  function MacText(mac: seq<byte>): (s: seq<byte>)
    requires |mac| == 6
    ensures |s| == 17
  {
    assert forall p :: 0 <= p < 17 && !MacColon(p) ==> MacDigits(p) / 2 < 6;
    seq(17, p requires 0 <= p < 17 =>
      if MacColon(p) then COLON else HexDigit(HalfOf(mac, MacDigits(p))))
  }

  /** The text of an address: two hexadecimal digits a byte, with colons between. */
  lemma MacLayout(mac: seq<byte>, j: nat)
    requires |mac| == 6 && j < 6
    ensures MacText(mac)[3 * j..3 * j + 2] == HexText([mac[j]])
    ensures j < 5 ==> MacText(mac)[3 * j + 2] == 58
  {
    hide HexDigit, HexChar;
    HexDigitIs(mac[j] / 16);
    HexDigitIs(mac[j] % 16);
    Halves(mac, j);
    assert MacDigits(3 * j) == 2 * j && MacDigits(3 * j + 1) == 2 * j + 1;
  }

  /** What iot_util_convert_str_mac accepts: letters must be hexadecimal, any other character goes. */
  predicate ValidMac(s: seq<byte>) {
    && |s| == 17
    && forall p :: 0 <= p < 17 ==> if MacColon(p) then s[p] == COLON else IsAlpha(s[p]) ==> IsHex(s[p])
  }

  function MacValue(s: seq<byte>): (mac: seq<byte>)
    requires |s| == 17
    ensures |mac| == 6
  {
    seq(6, j requires 0 <= j < 6 => Pair(s[3 * j], s[3 * j + 1]))
  }

  predicate MacCharOk(s: seq<byte>, p: nat)
    requires p < |s|
  {
    if MacColon(p) then s[p] == COLON else IsAlpha(s[p]) ==> IsHex(s[p])
  }

  /** The first i characters are read: j bytes are complete, c holds the upper half of the next. */
  ghost predicate MacSoFar(s: seq<byte>, bytes: seq<byte>, i: nat, j: nat, k: nat, c: byte) {
    && i <= 17 == |s| && |bytes| == 6
    && k == i / 3 * 2 + i % 3 + 1 && j == (k - 1) / 2 <= 6
    && (forall b :: 0 <= b < j ==> bytes[b] == Pair(s[3 * b], s[3 * b + 1]))
    && c as int == (if k % 2 == 1 then 0 else Digit(s[i - 1]) as int * 16 % 256)
    && forall p :: 0 <= p < i ==> MacCharOk(s, p)
  }

  lemma MacColonRead(s: seq<byte>, bytes: seq<byte>, i: nat, j: nat, k: nat, c: byte)
    requires MacSoFar(s, bytes, i, j, k, c) && i < 17 && MacColon(i) && s[i] == COLON
    ensures MacSoFar(s, bytes, i + 1, j, k, c)
  {
    hide Digit, Pair;
  }

  lemma MacDigitRead(s: seq<byte>, bytes: seq<byte>, i: nat, j: nat, k: nat, c: byte)
    requires MacSoFar(s, bytes, i, j, k, c) && i < 17 && !MacColon(i) && MacCharOk(s, i)
    ensures var d := Or(c, Digit(s[i])) % 256;
            if (j + 1) * 2 == k then j < 6 && MacSoFar(s, bytes[j := d], i + 1, j + 1, k + 1, 0)
            else MacSoFar(s, bytes, i + 1, j, k + 1, d * 16 % 256)
  {
    hide Or, Digit, MacCharOk;
    OrZero(Digit(s[i]));
  }

  lemma MacRead(s: seq<byte>, bytes: seq<byte>, j: nat, k: nat, c: byte)
    requires MacSoFar(s, bytes, 17, j, k, c)
    ensures ValidMac(s) && bytes == MacValue(s)
  {
    hide Digit, Pair, IsAlpha, IsHex;
    forall p | 0 <= p < 17 ensures if MacColon(p) then s[p] == COLON else IsAlpha(s[p]) ==> IsHex(s[p]) {
      assert MacCharOk(s, p);
    }
  }

  lemma NotMac(s: seq<byte>, p: nat)
    requires |s| == 17 && p < 17 && !MacCharOk(s, p)
    ensures !ValidMac(s)
  {
  }

  /** iot_util_convert_str_mac. A refused string may leave the first bytes overwritten. */
  method ConvertStrMac(str: seq<byte>, mac: array<byte>) returns (ok: bool)
    requires mac.Length == 6
    modifies mac
    ensures ok == ValidMac(str)
    ensures ok ==> mac[..] == MacValue(str)
  {
    hide Or, Digit, ValidMac;
    if |str| != 17 {
      OtherLength(str);
      return false;
    }
    var j: nat, k: nat, c: byte := 0, 1, 0;
    for i := 0 to 17
      invariant MacSoFar(str, mac[..], i, j, k, c)
    {
      hide MacSoFar, IsAlpha, IsHex;
      if i % 3 == 2 {
        if str[i] == COLON {
          MacColonRead(str, mac[..], i, j, k, c);
          continue;
        } else {
          NotMac(str, i);
          return false;
        }
      }
      if IsAlpha(str[i]) && !IsHex(str[i]) {
        NotMac(str, i);
        return false;
      }
      MacDigitRead(str, mac[..], i, j, k, c);
      ghost var bytes := mac[..];
      c := Or(c, Digit(str[i])) % 256;
      if (j + 1) * 2 == k {
        mac[j] := c;
        assert mac[..] == bytes[j := c];
        j := j + 1;
        c := 0;
      } else {
        c := c as int * 16 % 256;
      }
      k := k + 1;
    }
    MacRead(str, mac[..], j, k, c);
    ok := true;
  }

  lemma OtherLength(s: seq<byte>)
    requires |s| != 17
    ensures !ValidMac(s)
  {
  }

  /** iot_util_convert_mac_str */
  method ConvertMacStr(mac: seq<byte>, str: array<byte>, maxSz: int) returns (ok: bool)
    requires |mac| == 6 && maxSz <= str.Length
    modifies str
    ensures ok == (maxSz >= 18)
    ensures ok ==> str[..] == MacText(mac) + [0] + old(str[18..])
    ensures !ok ==> str[..] == old(str[..])
  {
    hide HexDigit;
    if maxSz < 18 {
      return false;
    }
    var written := 0;
    for i := 0 to 6
      invariant written == if i == 6 then 17 else 3 * i
      invariant forall p :: 0 <= p < written ==> str[p] == MacText(mac)[p]
      invariant forall p :: 18 <= p < str.Length ==> str[p] == old(str[p])
    {
      str[written], str[written + 1] := HexDigit(mac[i] / 16), HexDigit(mac[i] % 16);
      written := written + 2;
      if written < 17 && MacColon(written) {
        str[written] := COLON;
        written := written + 1;
      }
    }
    str[written] := 0;
    assert str[..] == MacText(mac) + [0] + old(str[18..]);
    ok := true;
  }

  /** Every address reads back from its text. */
  lemma ParsePrintMac(mac: seq<byte>)
    requires |mac| == 6
    ensures ValidMac(MacText(mac)) && MacValue(MacText(mac)) == mac
  {
    hide HexDigit, Pair, HalfOf, IsHex, MacText, MacColon, MacValue;
    MacTextIsValid(mac);
    forall j | 0 <= j < 6 ensures MacValue(MacText(mac))[j] == mac[j] {
      MacByte(mac, j);
    }
  }

  lemma MacTextIsValid(mac: seq<byte>)
    requires |mac| == 6
    ensures ValidMac(MacText(mac))
  {
    hide HexDigit, HalfOf, IsHex;
    forall p | 0 <= p < 17 && !MacColon(p) ensures IsHex(MacText(mac)[p]) {
      MacPlaces(p);
      DigitsAreHex(HalfOf(mac, MacDigits(p)));
    }
  }

  lemma MacByte(mac: seq<byte>, j: nat)
    requires |mac| == 6 && j < 6
    ensures MacValue(MacText(mac))[j] == mac[j]
  {
    hide HexDigit, Pair, HalfOf;
    Halves(mac, j);
    PairOfHex(mac[j]);
  }

  lemma PrintParseMac(s: seq<byte>)
    requires ValidMac(s)
    ensures MacText(MacValue(s)) == Lower(s) <==> forall p :: 0 <= p < 17 && !MacColon(p) ==> IsHex(s[p])
  {
    hide HexDigit, Pair, LowerChar, IsHex, MacText, IsAlpha;
    forall p | 0 <= p < 17 ensures MacText(MacValue(s))[p] == LowerChar(s[p]) ==> MacColon(p) || IsHex(s[p]) {
      if MacText(MacValue(s))[p] == LowerChar(s[p]) {
        MacCharBack(s, p);
      }
    }
    if forall p :: 0 <= p < 17 && !MacColon(p) ==> IsHex(s[p]) {
      forall p | 0 <= p < 17 ensures MacText(MacValue(s))[p] == Lower(s)[p] {
        MacCharThere(s, p);
      }
    }
  }

  /** Any character of an address but a colon may be replaced by anything that is no letter, or by a letter
      up to f; a colon by nothing else. */
  lemma ReplacedMac(mac: seq<byte>, p: nat, c: byte)
    requires |mac| == 6 && p < 17
    ensures var s := MacText(mac)[p := c];
            ValidMac(s) <==> if p % 3 == 2 then c == 58
                             else 65 <= c <= 90 || 97 <= c <= 122 ==> 65 <= c <= 70 || 97 <= c <= 102
  {
    hide MacText;
    MacTextIsValid(mac);
    var s := MacText(mac)[p := c];
    assert s[p] == c && forall q :: 0 <= q < 17 && q != p ==> s[q] == MacText(mac)[q];
  }

  lemma MacCharThere(s: seq<byte>, p: nat)
    requires ValidMac(s) && p < 17 && forall q :: 0 <= q < 17 && !MacColon(q) ==> IsHex(s[q])
    ensures MacText(MacValue(s))[p] == LowerChar(s[p])
  {
    hide HexDigit, Pair, IsHex, IsAlpha, HalfOf;
    if !MacColon(p) {
      Halves(MacValue(s), p / 3);
      HexOfPair(s[3 * (p / 3)], s[3 * (p / 3) + 1]);
    }
  }

  lemma MacCharBack(s: seq<byte>, p: nat)
    requires ValidMac(s) && p < 17 && MacText(MacValue(s))[p] == LowerChar(s[p])
    ensures MacColon(p) || IsHex(s[p])
  {
    hide HexDigit, Pair, LowerChar, IsHex, IsAlpha, HalfOf;
    if !MacColon(p) {
      MacPlaces(p);
      IsHexIfPrinted(s[p], HalfOf(MacValue(s), MacDigits(p)));
    }
  }
}
