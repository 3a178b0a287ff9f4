/** The in-place parser of HTTP requests (iot_easysetup_http_parser.c). The receive buffer is an
    array that ends, as a C string, at its first NUL; pointers into it are indices. */
module HttpParser {
  import opened Bytes
  import opened Text
  import EasySetup

  const CR: byte := 13
  const LF: byte := 10
  const SP: byte := 32
  const TAB: byte := 9
  const COLON: byte := 58

  const BLANK: set<byte> := {SP, TAB}
  const WHITE: set<byte> := {SP, TAB, CR, LF}
  const LINE_END: set<byte> := {CR, LF}
  const NAME_END: set<byte> := {CR, LF, COLON, SP, TAB}

  const MAX_HEADERS: nat := 16

  // ----- strtok -----

  /** The first position from i on that holds no delimiter: strspn. */
  function SkipFrom(b: seq<byte>, i: nat, delims: set<byte>): (p: nat)
    requires i <= |b|
    ensures i <= p <= |b|
    decreases |b| - i
  {
    if i < |b| && b[i] in delims && b[i] != 0 then SkipFrom(b, i + 1, delims) else i
  }

  /** The first position from i on that holds a delimiter or the NUL: strcspn. */
  function StopFrom(b: seq<byte>, i: nat, delims: set<byte>): (p: nat)
    requires i <= |b|
    ensures i <= p <= |b|
    ensures p < |b| ==> b[p] == 0 || b[p] in delims
    decreases |b| - i
  {
    if i < |b| && b[i] !in delims && b[i] != 0 then StopFrom(b, i + 1, delims) else i
  }

  lemma {:induction false} SkipIs(b: seq<byte>, i: nat, n: nat, delims: set<byte>)
    requires i <= n < |b| && (forall k :: i <= k < n ==> b[k] in delims && b[k] != 0) && b[n] !in delims
    ensures SkipFrom(b, i, delims) == n
    decreases n - i
  {
    if i < n {
      SkipIs(b, i + 1, n, delims);
    }
  }

  lemma {:induction false} StopIs(b: seq<byte>, i: nat, n: nat, delims: set<byte>)
    requires i <= n < |b| && (forall k :: i <= k < n ==> b[k] !in delims && b[k] != 0) && (b[n] in delims || b[n] == 0)
    ensures StopFrom(b, i, delims) == n
    decreases n - i
  {
    if i < n {
      StopIs(b, i + 1, n, delims);
    }
  }

  lemma {:induction false} StopBefore(b: seq<byte>, i: nat, n: nat, delims: set<byte>)
    requires i <= n < |b| && b[n] == 0
    ensures SkipFrom(b, i, delims) <= n && StopFrom(b, i, delims) <= n
    decreases n - i
  {
    if i < n {
      StopBefore(b, i + 1, n, delims);
    }
  }

  /** strtok, continuing at from: the token found, or None, and where to continue. The delimiter
      that ends the token is overwritten. */
  method StrTok(buf: array<byte>, from: nat, delims: set<byte>, ghost end: nat) returns (token: Option<nat>, save: nat)
    requires from <= end < buf.Length && buf[end] == 0
    modifies buf
    ensures var b := old(buf[..]);
            var p := SkipFrom(b, from, delims);
            && p <= end && from <= save <= end
            && if b[p] == 0 then token == None && save == p && buf[..] == b
               else
                 var e := StopFrom(b, p, delims);
                 && token == Some(p) && e <= end
                 && if b[e] == 0 then save == e && buf[..] == b else save == e + 1 && buf[..] == b[e := 0]
    ensures buf[end] == 0
  {
    ghost var b := buf[..];
    StopBefore(b, from, end, delims);
    var p := from;
    while buf[p] != 0 && buf[p] in delims
      invariant from <= p <= end && SkipFrom(b, p, delims) == SkipFrom(b, from, delims)
      decreases end - p
    {
      p := p + 1;
    }
    if buf[p] == 0 {
      return None, p;
    }
    StopBefore(b, p, end, delims);
    var e := p;
    while buf[e] != 0 && buf[e] !in delims
      invariant p <= e <= end && StopFrom(b, e, delims) == StopFrom(b, p, delims)
      decreases end - e
    {
      e := e + 1;
    }
    token := Some(p);
    if buf[e] == 0 {
      save := e;
    } else {
      buf[e] := 0;
      save := e + 1;
    }
  }

  /** strlen at an index. */
  method LengthAt(buf: array<byte>, at: nat, ghost end: nat) returns (n: nat)
    requires at <= end < buf.Length && buf[end] == 0
    ensures at + n == StopFrom(buf[..], at, {}) <= end
  {
    StopBefore(buf[..], at, end, {});
    n := 0;
    while buf[at + n] != 0
      invariant at + n <= end && StopFrom(buf[..], at + n, {}) == StopFrom(buf[..], at, {})
      decreases end - at - n
    {
      n := n + 1;
    }
  }

  /** strcmp(&buf[at], text) == 0 */
  method Equals(buf: array<byte>, at: nat, text: seq<byte>, ghost end: nat) returns (same: bool)
    requires at <= end < buf.Length && buf[end] == 0 && 0 !in text
    ensures same <==> at + |text| < buf.Length && buf[at..at + |text|] == text && buf[at + |text|] == 0
  {
    var i := 0;
    while i < |text|
      invariant 0 <= i <= |text| && at + i <= end && buf[at..at + i] == text[..i]
    {
      assert text[i] in text;
      if buf[at + i] != text[i] {
        assert at + |text| < buf.Length ==> buf[at..at + |text|][i] != text[i];
        return false;
      }
      assert buf[at..at + i + 1] == buf[at..at + i] + [buf[at + i]];
      i := i + 1;
    }
    same := buf[at + i] == 0;
  }

  // ----- requests as they should be -----

  /** A header field; raw is all between the colon and the end of the line. */
  datatype Header = Header(name: seq<byte>, raw: seq<byte>)

  /** Not empty, without NUL and without the delimiters. */
  predicate Word(w: seq<byte>, delims: set<byte>) {
    w != [] && forall c <- w :: c != 0 && c !in delims
  }

  predicate HeaderOk(h: Header) {
    Word(h.name, NAME_END) && Word(h.raw, LINE_END)
  }

  /** From the end of a line on: the line feed, the remaining fields, the empty line. */
  function Tail(hs: seq<Header>): (s: seq<byte>)
    ensures |s| >= 3 && s[0] == LF
  {
    if hs == [] then [LF, CR, LF]
    else [LF] + hs[0].name + [COLON] + hs[0].raw + [CR] + Tail(hs[1..])
  }

  const POST: seq<byte> := [80, 79, 83, 84]
  const GET: seq<byte> := [71, 69, 84]

  /** The first line without its line feed. */
  function Line(verb: seq<byte>, uri: seq<byte>, prot: seq<byte>): seq<byte> {
    verb + [SP] + uri + [SP] + prot + [CR]
  }

  predicate LineOk(uri: seq<byte>, prot: seq<byte>) {
    Word(uri, BLANK) && Word(prot, WHITE)
  }

  function DropSpaces(s: seq<byte>): (r: seq<byte>)
    ensures |r| <= |s| && r == s[|s| - |r|..]
  {
    if s != [] && s[0] == SP then DropSpaces(s[1..]) else s
  }

  const CONTENT_LENGTH: seq<byte> := [99, 111, 110, 116, 101, 110, 116, 45, 108, 101, 110, 103, 116, 104]

  /** is_header_content_length */
  predicate IsContentLength(name: seq<byte>) {
    Lower(name) == CONTENT_LENGTH
  }

  const LONG_MAX: int := 0x7fff_ffff

  /** A request of at most 16 fields whose Content-Length, wherever given, is n. */
  predicate FieldsOk(uri: seq<byte>, prot: seq<byte>, hs: seq<Header>, n: int) {
    && LineOk(uri, prot) && 0 < |hs| <= 16 && -0x8000_0000 < n < 0x7fff_ffff
    && (forall h <- hs :: HeaderOk(h))
    && (forall h <- hs :: IsContentLength(h.name) ==> StrToL(DropSpaces(h.raw)) == Some(n))
  }

  /** ... and is given, and no less than zero. */
  predicate RequestOk(uri: seq<byte>, prot: seq<byte>, hs: seq<Header>, n: int) {
    FieldsOk(uri, prot, hs, n) && n >= 0 && exists h <- hs :: IsContentLength(h.name)
  }

  /** The request that clients send: a single Content-Length field in decimal. */
  lemma UsualRequest(uri: seq<byte>, prot: seq<byte>, n: nat)
    requires LineOk(uri, prot) && n < LONG_MAX
    ensures RequestOk(uri, prot, [Header(Ascii("Content-Length"), [SP] + Decimal(n))], n)
  {
    hide Decimal, HeaderOk, DropSpaces, StrToL, Ascii, LineOk, IsContentLength;
    var h := Header(Ascii("Content-Length"), [SP] + Decimal(n));
    NumberReadsBack(n);
    UsualField(n);
    UsualName();
    assert h in [h];
  }

  /** The name of the field in any case of letters. */
  lemma ContentLengthIs(name: seq<byte>)
    ensures IsContentLength(name)
            <==> |name| == 14 && forall k :: 0 <= k < 14 ==>
                   name[k] == Ascii("content-length")[k] || name[k] == Ascii("CONTENT-LENGTH")[k]
  {
    var l, u := Ascii("content-length"), Ascii("CONTENT-LENGTH");
    assert l == CONTENT_LENGTH;
    forall k | 0 <= k < 14 && |name| == 14
      ensures LowerChar(name[k]) == CONTENT_LENGTH[k] <==> name[k] == l[k] || name[k] == u[k]
    {
      LetterPair(k, name[k]);
    }
  }

  lemma LetterPair(k: nat, c: byte)
    requires k < 14
    ensures LowerChar(c) == CONTENT_LENGTH[k] <==>
            c == Ascii("content-length")[k] || c == Ascii("CONTENT-LENGTH")[k]
  {
  }

  lemma UsualName()
    ensures IsContentLength(Ascii("Content-Length"))
  {
    assert Lower(Ascii("Content-Length")) == CONTENT_LENGTH;
  }

  lemma UsualField(n: nat)
    ensures HeaderOk(Header(Ascii("Content-Length"), [SP] + Decimal(n)))
    ensures DropSpaces([SP] + Decimal(n)) == Decimal(n)
  {
    hide Ascii, Word, Decimal, DropSpaces;
    NameWord("Content-Length");
    NumberWord(n);
    SpaceDropped(n);
  }

  lemma NameWord(t: string)
    requires t != [] && forall i :: 0 <= i < |t| ==> '!' <= t[i] <= '~' && t[i] != ':'
    ensures Word(Ascii(t), NAME_END)
  {
    forall i | 0 <= i < |t| ensures Ascii(t)[i] != 0 && Ascii(t)[i] !in NAME_END {
    }
  }

  lemma NumberWord(n: nat)
    ensures Word([SP] + Decimal(n), LINE_END)
  {
    hide Digits;
    var s := [SP] + Decimal(n);
    forall i | 0 <= i < |s| ensures s[i] != 0 && s[i] !in LINE_END {
      assert i > 0 ==> IsDigit(Digits(n)[i - 1]);
    }
  }

  lemma SpaceDropped(n: nat)
    ensures DropSpaces([SP] + Decimal(n)) == Decimal(n)
  {
    hide Digits;
    var d := Decimal(n);
    assert ([SP] + d)[1..] == d && IsDigit(d[0]);
    assert DropSpaces(d) == d;
  }

  /** Everything before the body. */
  function Head(uri: seq<byte>, prot: seq<byte>, hs: seq<Header>): seq<byte> {
    Line(POST, uri, prot) + Tail(hs)
  }

  function PostStep(uri: seq<byte>): EasySetup.Step {
    if uri == Ascii("/keyinfo") then EasySetup.KEYINFO
    else if uri == Ascii("/confirminfo") then EasySetup.CONFIRMINFO
    else if uri == Ascii("/confirm") then EasySetup.CONFIRM
    else if uri == Ascii("/wifiprovisioninginfo") then EasySetup.WIFIPROVISIONING
    else if uri == Ascii("/setupcomplete") then EasySetup.SETUPCOMPLETE
    else if uri == Ascii("/logs/dump") then EasySetup.LOG_CREATE_DUMP
    else EasySetup.INVALID_STEP
  }

  function GetStep(uri: seq<byte>): EasySetup.Step {
    if uri == Ascii("/deviceinfo") then EasySetup.DEVICEINFO
    else if uri == Ascii("/wifiscaninfo") then EasySetup.WIFISCANINFO
    else if uri == Ascii("/logs/systeminfo") then EasySetup.LOG_SYSTEMINFO
    else if uri == Ascii("/logs/dump") then EasySetup.LOG_GET_DUMP
    else EasySetup.INVALID_STEP
  }

  /** Which address means which step, for POST. */
  lemma PostAddresses(uri: seq<byte>)
    ensures uri == Ascii("/keyinfo") <==> PostStep(uri) == EasySetup.KEYINFO
    ensures uri == Ascii("/confirminfo") <==> PostStep(uri) == EasySetup.CONFIRMINFO
    ensures uri == Ascii("/confirm") <==> PostStep(uri) == EasySetup.CONFIRM
    ensures uri == Ascii("/wifiprovisioninginfo") <==> PostStep(uri) == EasySetup.WIFIPROVISIONING
    ensures uri == Ascii("/setupcomplete") <==> PostStep(uri) == EasySetup.SETUPCOMPLETE
    ensures uri == Ascii("/logs/dump") <==> PostStep(uri) == EasySetup.LOG_CREATE_DUMP
    ensures PostStep(uri) !in {EasySetup.KEYINFO, EasySetup.CONFIRMINFO, EasySetup.CONFIRM,
                               EasySetup.WIFIPROVISIONING, EasySetup.SETUPCOMPLETE, EasySetup.LOG_CREATE_DUMP}
            <==> PostStep(uri) == EasySetup.INVALID_STEP
  {
    hide Ascii;
    assert Ascii("/keyinfo")[1] == 107 && Ascii("/confirm")[1] == 99;
  }

  /** Which address means which step, for GET. */
  lemma GetAddresses(uri: seq<byte>)
    ensures uri == Ascii("/deviceinfo") <==> GetStep(uri) == EasySetup.DEVICEINFO
    ensures uri == Ascii("/wifiscaninfo") <==> GetStep(uri) == EasySetup.WIFISCANINFO
    ensures uri == Ascii("/logs/systeminfo") <==> GetStep(uri) == EasySetup.LOG_SYSTEMINFO
    ensures uri == Ascii("/logs/dump") <==> GetStep(uri) == EasySetup.LOG_GET_DUMP
    ensures GetStep(uri) !in {EasySetup.DEVICEINFO, EasySetup.WIFISCANINFO, EasySetup.LOG_SYSTEMINFO,
                              EasySetup.LOG_GET_DUMP}
            <==> GetStep(uri) == EasySetup.INVALID_STEP
  {
    hide Ascii;
  }

  // ----- tokens of a well-formed request -----

  /** The bytes w stand in b at index i. */
  predicate At(b: seq<byte>, i: nat, w: seq<byte>) {
    i + |w| <= |b| && forall k :: 0 <= k < |w| ==> b[i + k] == w[k]
  }

  lemma AtAppend(b: seq<byte>, i: nat, v: seq<byte>, w: seq<byte>)
    ensures At(b, i, v + w) <==> At(b, i, v) && At(b, i + |v|, w)
  {
    if At(b, i, v + w) {
      forall k | 0 <= k < |v| ensures b[i + k] == v[k] {
        assert (v + w)[k] == v[k];
      }
      forall k | 0 <= k < |w| ensures b[i + |v| + k] == w[k] {
        assert b[i + (|v| + k)] == (v + w)[|v| + k];
      }
    }
    if At(b, i, v) && At(b, i + |v|, w) {
      forall k | 0 <= k < |v + w| ensures b[i + k] == (v + w)[k] {
        if k >= |v| {
          assert b[i + |v| + (k - |v|)] == w[k - |v|];
        }
      }
    }
  }

  /** strtok finds a word that follows delimiters and ends with one. */
  lemma TokenIs(b: seq<byte>, i: nat, lead: nat, w: seq<byte>, d: byte, delims: set<byte>)
    requires i + lead + |w| < |b| && Word(w, delims) && At(b, i + lead, w) && b[i + lead + |w|] == d
    requires d in delims && d != 0 && forall k :: i <= k < i + lead ==> b[k] in delims && b[k] != 0
    ensures SkipFrom(b, i, delims) == i + lead && StopFrom(b, i + lead, delims) == i + lead + |w|
    ensures b[i + lead] != 0
  {
    assert w[0] in w && b[i + lead + 0] == w[0];
    SkipIs(b, i, i + lead, delims);
    forall k | i + lead <= k < i + lead + |w| ensures b[k] !in delims && b[k] != 0 {
      assert w[k - i - lead] in w && b[i + lead + (k - i - lead)] == w[k - i - lead];
    }
    StopIs(b, i + lead, i + lead + |w|, delims);
  }

  /** Where the line of h ends when it begins after i. */
  function EndOf(i: nat, h: Header): nat {
    i + 2 + |h.name| + |h.raw|
  }

  lemma FieldAt(b: seq<byte>, i: nat, h: Header, hs: seq<Header>)
    requires At(b, i, Tail([h] + hs))
    ensures EndOf(i, h) < |b| && b[i] == LF && At(b, i + 1, h.name) && b[i + 1 + |h.name|] == COLON
    ensures At(b, i + 2 + |h.name|, h.raw) && b[EndOf(i, h)] == CR && At(b, EndOf(i, h) + 1, Tail(hs))
  {
    hide At;
    assert ([h] + hs)[1..] == hs;
    var tail := Tail(hs);
    AtAppend(b, i, [LF] + h.name + [COLON] + h.raw + [CR], tail);
    AtAppend(b, i, [LF] + h.name + [COLON] + h.raw, [CR]);
    AtAppend(b, i, [LF] + h.name + [COLON], h.raw);
    AtAppend(b, i, [LF] + h.name, [COLON]);
    AtAppend(b, i, [LF], h.name);
    AtOne(b, i, LF);
    AtOne(b, i + 1 + |h.name|, COLON);
    AtOne(b, EndOf(i, h), CR);
  }

  lemma AtOne(b: seq<byte>, i: nat, c: byte)
    ensures At(b, i, [c]) <==> i < |b| && b[i] == c
  {
    assert [c][0] == c;
    if i < |b| && b[i] == c {
      forall k | 0 <= k < 1 ensures b[i + k] == [c][k] {
      }
    }
    if At(b, i, [c]) {
      assert b[i + 0] == [c][0];
    }
  }

  /** The first call of strtok on a field finds its name. */
  lemma NameToken(b: seq<byte>, i: nat, h: Header, hs: seq<Header>)
    requires HeaderOk(h) && At(b, i, Tail([h] + hs))
    ensures var m := i + 1 + |h.name|;
            && m + 1 + |h.raw| < |b|
            && SkipFrom(b, i, NAME_END) == i + 1 && b[i + 1] != 0 && StopFrom(b, i + 1, NAME_END) == m && b[m] != 0
  {
    hide At, Word, SkipFrom, StopFrom;
    FieldAt(b, i, h, hs);
    TokenIs(b, i, 1, h.name, COLON, NAME_END);
  }

  /** The second one finds its value. */
  lemma ValueToken(b: seq<byte>, i: nat, h: Header, hs: seq<Header>)
    requires HeaderOk(h) && At(b, i, Tail([h] + hs))
    ensures var m := i + 1 + |h.name|;
            && m + 1 + |h.raw| < |b|
            && SkipFrom(b[m := 0], m + 1, LINE_END) == m + 1 && b[m := 0][m + 1] != 0
            && StopFrom(b[m := 0], m + 1, LINE_END) == EndOf(i, h) && b[EndOf(i, h)] != 0
  {
    hide At, Word, SkipFrom, StopFrom;
    FieldAt(b, i, h, hs);
    var m := i + 1 + |h.name|;
    AtLater(b, m, m + 1, h.raw);
    TokenIs(b[m := 0], m + 1, 0, h.raw, CR, LINE_END);
  }

  lemma AtLater(b: seq<byte>, m: nat, i: nat, w: seq<byte>)
    requires m < |b| && At(b, i, w) && (m < i || i + |w| <= m)
    ensures At(b[m := 0], i, w)
  {
  }

  /** Leading spaces of the value are passed over. */
  lemma {:induction false} SpacesDropped(b: seq<byte>, i: nat, raw: seq<byte>)
    requires At(b, i, raw) && i + |raw| < |b| && b[i + |raw|] == 0 && 0 !in raw
    ensures SkipFrom(b, i, {SP}) == i + |raw| - |DropSpaces(raw)|
    ensures At(b, SkipFrom(b, i, {SP}), DropSpaces(raw))
    decreases |raw|
  {
    hide At;
    if raw != [] {
      AtFirst(b, i, raw);
      assert raw[0] in raw;
      if raw[0] == SP {
        SpacesDropped(b, i + 1, raw[1..]);
      }
    }
  }

  lemma AtFirst(b: seq<byte>, i: nat, w: seq<byte>)
    requires At(b, i, w) && w != []
    ensures i < |b| && b[i] == w[0] && At(b, i + 1, w[1..])
  {
    hide At;
    assert w == [w[0]] + w[1..];
    AtAppend(b, i, [w[0]], w[1..]);
    AtOne(b, i, w[0]);
  }

  /** A header as the loop sees it: the places of its name and value and where its line ended. */
  datatype Field = Field(name: nat, value: nat)

  /** Both calls of strtok of one round of the header loop. */
  method NextTokens(buf: array<byte>, from: nat, ghost end: nat, ghost h: Header, ghost hs: seq<Header>)
      returns (key: Option<nat>, value: Option<nat>, save: nat)
    requires from <= end < buf.Length && buf[end] == 0
    modifies buf
    ensures buf[end] == 0 && from <= save <= end
    ensures (key.Some? ==> key.value <= end) && (value.Some? ==> key.Some? && value.value <= end)
    ensures HeaderOk(h) && At(old(buf[..]), from, Tail([h] + hs)) ==>
              && EndOf(from, h) < buf.Length
              && key == Some(from + 1) && value == Some(from + 2 + |h.name|) && save == EndOf(from, h) + 1
              && buf[..] == Cut(old(buf[..]), from, h)
  {
    hide HeaderOk, At, SkipFrom, StopFrom, Tail;
    ghost var b := buf[..];
    value := None;
    if HeaderOk(h) && At(b, from, Tail([h] + hs)) {
      NameToken(b, from, h, hs);
      ValueToken(b, from, h, hs);
    }
    key, save := StrTok(buf, from, NAME_END, end);
    if key.Some? {
      value, save := StrTok(buf, save, LINE_END, end);
    }
  }

  /** ... and the skipped spaces. */
  method NextField(buf: array<byte>, from: nat, ghost end: nat, ghost h: Header, ghost hs: seq<Header>)
      returns (field: Option<Field>, save: nat)
    requires from <= end < buf.Length && buf[end] == 0
    modifies buf
    ensures buf[end] == 0 && from <= save <= end
            && (field.Some? ==> field.value.name <= end && field.value.value <= end)
    ensures HeaderOk(h) && At(old(buf[..]), from, Tail([h] + hs)) ==>
              && EndOf(from, h) < buf.Length
              && field == Some(Field(from + 1, EndOf(from, h) - |DropSpaces(h.raw)|)) && save == EndOf(from, h) + 1
              && buf[..] == Cut(old(buf[..]), from, h)
  {
    hide HeaderOk, At, SkipFrom, Tail, Cut, DropSpaces;
    ghost var b := buf[..];
    var key, value;
    key, value, save := NextTokens(buf, from, end, h, hs);
    if value.None? {
      return None, save;
    }
    if HeaderOk(h) && At(b, from, Tail([h] + hs)) {
      ValueAfterTokens(b, from, h, hs);
    }
    var v := SkipSpaces(buf, value.value, end);
    field := Some(Field(key.value, v));
  }

  method SkipSpaces(buf: array<byte>, at: nat, ghost end: nat) returns (v: nat)
    requires at <= end < buf.Length && buf[end] == 0
    ensures v == SkipFrom(buf[..], at, {SP}) <= end
  {
    StopBefore(buf[..], at, end, {SP});
    v := at;
    while buf[v] == SP
      invariant at <= v <= end && SkipFrom(buf[..], v, {SP}) == SkipFrom(buf[..], at, {SP})
      decreases end - v
    {
      v := v + 1;
    }
  }

  /** The buffer once the name and the line of a field have been ended. */
  function Cut(b: seq<byte>, i: nat, h: Header): (c: seq<byte>)
    requires EndOf(i, h) < |b|
    ensures |c| == |b|
  {
    b[i + 1 + |h.name| := 0][EndOf(i, h) := 0]
  }

  lemma AtBoth(b: seq<byte>, i: nat, h: Header, j: nat, w: seq<byte>)
    requires EndOf(i, h) < |b| && At(b, j, w)
    requires j + |w| <= i + 1 + |h.name| || (i + 1 + |h.name| < j && j + |w| <= EndOf(i, h)) || EndOf(i, h) < j
    ensures At(Cut(b, i, h), j, w)
  {
    AtLater(b, i + 1 + |h.name|, j, w);
    AtLater(b[i + 1 + |h.name| := 0], EndOf(i, h), j, w);
  }

  /** The name and the rest of the request are still there. */
  lemma AfterTokens(b: seq<byte>, i: nat, h: Header, hs: seq<Header>)
    requires At(b, i, Tail([h] + hs))
    ensures EndOf(i, h) < |b|
    ensures At(Cut(b, i, h), i + 1, h.name) && At(Cut(b, i, h), EndOf(i, h) + 1, Tail(hs))
  {
    hide At;
    FieldAt(b, i, h, hs);
    AtBoth(b, i, h, i + 1, h.name);
    AtBoth(b, i, h, EndOf(i, h) + 1, Tail(hs));
  }

  /** So is the value, with its spaces passed over. */
  lemma ValueAfterTokens(b: seq<byte>, i: nat, h: Header, hs: seq<Header>)
    requires HeaderOk(h) && At(b, i, Tail([h] + hs))
    ensures EndOf(i, h) < |b|
    ensures var c, v := Cut(b, i, h), EndOf(i, h) - |DropSpaces(h.raw)|;
            SkipFrom(c, i + 2 + |h.name|, {SP}) == v && At(c, v, DropSpaces(h.raw))
  {
    hide At;
    FieldAt(b, i, h, hs);
    AtBoth(b, i, h, i + 2 + |h.name|, h.raw);
    SpacesDropped(Cut(b, i, h), i + 2 + |h.name|, h.raw);
  }

  // ----- the header loop -----

  /** A string that stands at i and ends there with a NUL. */
  lemma StringIs(b: seq<byte>, i: nat, w: seq<byte>)
    requires At(b, i, w) && i + |w| < |b| && b[i + |w|] == 0 && 0 !in w
    ensures StopFrom(b, i, {}) == i + |w| && b[i..i + |w|] == w
  {
    forall k | i <= k < i + |w| ensures b[k] != 0 && b[k] == w[k - i] {
      assert b[i + (k - i)] == w[k - i] && w[k - i] in w;
    }
    StopIs(b, i, i + |w|, {});
  }

  /** is_header_content_length */
  method NameIsContentLength(buf: array<byte>, at: nat, ghost end: nat) returns (yes: bool)
    requires at <= end < buf.Length && buf[end] == 0
    ensures StopFrom(buf[..], at, {}) <= end
    ensures yes == IsContentLength(buf[at..StopFrom(buf[..], at, {})])
  {
    StopBefore(buf[..], at, end, {});
    var n := LengthAt(buf, at, end);
    ghost var name := buf[at..at + n];
    if n != |CONTENT_LENGTH| {
      return false;
    }
    for i := 0 to n
      invariant forall k :: 0 <= k < i ==> Lower(name)[k] == CONTENT_LENGTH[k]
    {
      if CONTENT_LENGTH[i] != LowerChar(buf[at + i]) {
        assert Lower(name)[i] != CONTENT_LENGTH[i];
        return false;
      }
    }
    assert Lower(name) == CONTENT_LENGTH;
    yes := true;
  }

  /** strtol on the string at an index. */
  method NumberAt(buf: array<byte>, at: nat, ghost end: nat) returns (v: Option<int>)
    requires at <= end < buf.Length && buf[end] == 0
    ensures StopFrom(buf[..], at, {}) <= end && v == StrToL(buf[at..StopFrom(buf[..], at, {})])
  {
    StopBefore(buf[..], at, end, {});
    var n := LengthAt(buf, at, end);
    v := StrToL(buf[at..at + n]);
  }

  /** The body's length after a field, or a number that cannot be read. */
  method FieldLength(buf: array<byte>, field: Field, postLen: int, ghost end: nat) returns (ok: bool, newLen: int)
    requires field.name <= end < buf.Length && field.value <= end && buf[end] == 0
    ensures StopFrom(buf[..], field.name, {}) <= end && StopFrom(buf[..], field.value, {}) <= end
    ensures var isLength := IsContentLength(buf[field.name..StopFrom(buf[..], field.name, {})]);
            var v := StrToL(buf[field.value..StopFrom(buf[..], field.value, {})]);
            && ok == (!isLength || (v.Some? && -LONG_MAX - 1 < v.value < LONG_MAX))
            && newLen == if isLength && ok then v.value else postLen
  {
    hide StopFrom, IsContentLength, StrToL;
    StopBefore(buf[..], field.value, end, {});
    ok, newLen := true, postLen;
    var isLength := NameIsContentLength(buf, field.name, end);
    if isLength {
      var v := NumberAt(buf, field.value, end);
      if v.None? || v.value >= LONG_MAX || v.value <= -LONG_MAX - 1 {
        return false, postLen;
      }
      newLen := v.value;
    }
  }

  /** What one field says about the body's length. */
  ghost predicate Says(h: Header, n: int) {
    IsContentLength(h.name) ==> StrToL(DropSpaces(h.raw)) == Some(n) && -LONG_MAX - 1 < n < LONG_MAX
  }

  /** The field h and then the fields hs stand in the buffer. */
  ghost predicate Next(b: seq<byte>, from: nat, h: Header, hs: seq<Header>, n: int) {
    HeaderOk(h) && At(b, from, Tail([h] + hs)) && Says(h, n) && (hs != [] ==> HeaderOk(hs[0]))
  }

  /** The length a field gives, and where its value ends. */
  method Measure(buf: array<byte>, field: Field, postLen: int, ghost end: nat, ghost h: Header, ghost n: int)
      returns (ok: bool, newLen: int, body: nat)
    requires field.name <= end < buf.Length && field.value <= end && buf[end] == 0
    ensures body <= end && body == StopFrom(buf[..], field.value, {})
    ensures StopFrom(buf[..], field.name, {}) <= end
    ensures buf[field.name..StopFrom(buf[..], field.name, {})] == h.name
            && buf[field.value..body] == DropSpaces(h.raw) && Says(h, n) ==>
              ok && newLen == if IsContentLength(h.name) then n else postLen
  {
    hide StopFrom, IsContentLength, StrToL, DropSpaces;
    ok, newLen := FieldLength(buf, field, postLen, end);
    var len := LengthAt(buf, field.value, end);
    body := field.value + len;
  }

  /** One round of the header loop. No field means that the loop ends without one. */
  method Round(buf: array<byte>, from: nat, postLen: int, ghost end: nat,
               ghost h: Header, ghost hs: seq<Header>, ghost n: int)
      returns (field: Option<Field>, save: nat, newLen: int, body: nat, last: bool)
    requires from <= end < buf.Length - 3 && buf[end] == 0
    modifies buf
    ensures buf[end] == 0 && from <= save <= end && body <= end + 3
    ensures Next(old(buf[..]), from, h, hs, n) ==>
              && EndOf(from, h) < buf.Length && save == EndOf(from, h) + 1
              && field.Some? && newLen == (if IsContentLength(h.name) then n else postLen)
              && last == (hs == []) && (last ==> body == save + 2)
              && buf[..] == Cut(old(buf[..]), from, h)
  {
    hide At, SkipFrom, StopFrom, HeaderOk, IsContentLength, Tail, DropSpaces, Cut, Says;
    newLen, body, last := postLen, 0, false;
    ghost var b := buf[..];
    field, save := NextField(buf, from, end, h, hs);
    if field.None? {
      return;
    }
    if Next(b, from, h, hs, n) {
      ReadsField(b, from, h, hs);
    }
    var ok;
    ok, newLen, body := Measure(buf, field.value, postLen, end, h, n);
    if !ok {
      return None, save, postLen, 0, false;
    }
    if Next(b, from, h, hs, n) {
      EndOrNot(buf[..], body + 1, hs);
    }
    if buf[body + 1] == LF && buf[body + 2] == CR && buf[body + 3] == LF {
      body := body + 3;
      last := true;
    }
  }

  /** Name and value can be read as strings from the cut buffer. */
  lemma ReadsField(b: seq<byte>, i: nat, h: Header, hs: seq<Header>)
    requires HeaderOk(h) && At(b, i, Tail([h] + hs))
    ensures EndOf(i, h) < |b|
    ensures var c, v := Cut(b, i, h), EndOf(i, h) - |DropSpaces(h.raw)|;
            && StopFrom(c, i + 1, {}) == i + 1 + |h.name| && c[i + 1..i + 1 + |h.name|] == h.name
            && StopFrom(c, v, {}) == EndOf(i, h) && c[v..EndOf(i, h)] == DropSpaces(h.raw)
            && At(c, EndOf(i, h) + 1, Tail(hs))
  {
    hide At, StopFrom, SkipFrom, Tail, Cut, HeaderOk, DropSpaces;
    AfterTokens(b, i, h, hs);
    ValueAfterTokens(b, i, h, hs);
    NoNul(h);
    CutNuls(b, i, h);
    StringIs(Cut(b, i, h), i + 1, h.name);
    StringIs(Cut(b, i, h), EndOf(i, h) - |DropSpaces(h.raw)|, DropSpaces(h.raw));
  }

  lemma CutNuls(b: seq<byte>, i: nat, h: Header)
    requires EndOf(i, h) < |b|
    ensures Cut(b, i, h)[i + 1 + |h.name|] == 0 && Cut(b, i, h)[EndOf(i, h)] == 0
  {
  }

  lemma NoNul(h: Header)
    requires HeaderOk(h)
    ensures 0 !in h.name && 0 !in DropSpaces(h.raw)
  {
    WordHasNoNul(h.name, NAME_END);
    WordHasNoNul(h.raw, LINE_END);
  }

  lemma WordHasNoNul(w: seq<byte>, delims: set<byte>)
    requires Word(w, delims)
    ensures 0 !in w
  {
  }

  /** The empty line can be told from another field. */
  lemma EndOrNot(b: seq<byte>, i: nat, hs: seq<Header>)
    requires At(b, i, Tail(hs)) && (hs != [] ==> HeaderOk(hs[0]))
    ensures i + 2 < |b| && (b[i] == LF && b[i + 1] == CR && b[i + 2] == LF <==> hs == [])
  {
    if hs != [] {
      var h := hs[0];
      assert hs == [h] + hs[1..];
      FieldAt(b, i, h, hs[1..]);
      AtFirst(b, i + 1, h.name);
      assert h.name[0] in h.name;
    } else {
      AtFirst(b, i, Tail(hs));
      AtFirst(b, i + 1, Tail(hs)[1..]);
      AtFirst(b, i + 2, Tail(hs)[1..][1..]);
    }
  }

  ghost predicate Seen(hs: seq<Header>) {
    exists h <- hs :: IsContentLength(h.name)
  }

  ghost predicate AllSay(hs: seq<Header>, n: int) {
    forall h <- hs :: HeaderOk(h) && Says(h, n)
  }

  /** The loop has taken the first k fields and stands before the others. */
  ghost predicate Going(b: seq<byte>, from: nat, save: nat, hs: seq<Header>, k: nat, n: int, postLen: int) {
    && k < |hs| && AllSay(hs, n)
    && At(b, save, Tail(hs[k..])) && save + |Tail(hs[k..])| == from + |Tail(hs)|
    && postLen == if Seen(hs[..k]) then n else -1
  }

  lemma SeenOneMore(hs: seq<Header>, k: nat)
    requires k < |hs|
    ensures Seen(hs[..k + 1]) <==> Seen(hs[..k]) || IsContentLength(hs[k].name)
  {
    var a, z := hs[..k], hs[..k + 1];
    assert z == a + [hs[k]];
    if Seen(a) {
      var h :| h in a && IsContentLength(h.name);
      assert h in z;
    }
    if IsContentLength(hs[k].name) {
      assert hs[k] in z;
    }
  }

  lemma GoingIsNext(b: seq<byte>, from: nat, save: nat, hs: seq<Header>, k: nat, n: int, postLen: int)
    requires Going(b, from, save, hs, k, n, postLen)
    ensures Next(b, save, hs[k], hs[k + 1..], n)
  {
    hide At, Tail, HeaderOk, Says;
    assert hs[k..] == [hs[k]] + hs[k + 1..];
    assert hs[k] in hs;
    if hs[k + 1..] != [] {
      assert hs[k + 1..][0] == hs[k + 1] && hs[k + 1] in hs;
    }
  }

  lemma TailLength(hs: seq<Header>, k: nat)
    requires k < |hs|
    ensures Tail(hs[k..]) == Tail([hs[k]] + hs[k + 1..])
    ensures |Tail(hs[k..])| == EndOf(0, hs[k]) + 1 + |Tail(hs[k + 1..])|
    ensures k + 1 == |hs| ==> |Tail(hs[k + 1..])| == 3
  {
    assert hs[k..] == [hs[k]] + hs[k + 1..] && hs[k..][1..] == hs[k + 1..];
  }

  /** One round on. */
  lemma GoesOn(b: seq<byte>, from: nat, save: nat, hs: seq<Header>, k: nat, n: int, postLen: int)
    requires Going(b, from, save, hs, k, n, postLen)
    ensures EndOf(save, hs[k]) < |b|
    ensures var len := if IsContentLength(hs[k].name) then n else postLen;
            && len == (if Seen(hs[..k + 1]) then n else -1)
            && (k + 1 < |hs| ==> Going(Cut(b, save, hs[k]), from, EndOf(save, hs[k]) + 1, hs, k + 1, n, len))
    ensures k + 1 == |hs| ==> EndOf(save, hs[k]) + 4 == from + |Tail(hs)|
  {
    hide At, Seen, Cut, Tail, AllSay, IsContentLength;
    TailLength(hs, k);
    AfterTokens(b, save, hs[k], hs[k + 1..]);
    SeenOneMore(hs, k);
  }

  /** The header loop of es_msg_parser: the body's length, or -1, and the last character before the
      body, if any field was found. */
  method ParseHeaders(buf: array<byte>, from: nat, ghost end: nat, ghost hs: seq<Header>, ghost n: int)
      returns (postLen: int, body: Option<nat>)
    requires from <= end < buf.Length - 3 && buf[end] == 0
    modifies buf
    ensures buf[end] == 0 && (body.Some? ==> body.value <= end + 3)
    ensures 0 < |hs| <= MAX_HEADERS && AllSay(hs, n) && At(old(buf[..]), from, Tail(hs)) ==>
              && postLen == (if Seen(hs) then n else -1) && body == Some(from + |Tail(hs)| - 1)
              && from + |Tail(hs)| < buf.Length
              && buf[from + |Tail(hs)|..] == old(buf[from + |Tail(hs)|..]) && buf[..from] == old(buf[..from])
  {
    hide At, Tail, AllSay, Seen, Cut, Going, Next, IsContentLength;
    ghost var good := 0 < |hs| <= MAX_HEADERS && AllSay(hs, n) && At(buf[..], from, Tail(hs));
    var count: nat, save: nat, last := 0, from, false;
    postLen, body := -1, None;
    if good {
      Sets(buf[..], from, hs, n);
    }
    ghost var b0 := buf[..];
    while count < MAX_HEADERS
      invariant count <= MAX_HEADERS && from <= save <= end && buf[end] == 0 && (body.Some? ==> body.value <= end + 3)
      invariant good ==> count < |hs| && Going(buf[..], from, save, hs, count, n, postLen)
                         && Around(b0, buf[..], from, save)
    {
      ghost var b, s := buf[..], save;
      ghost var h, rest := if good then hs[count] else Header([], []), if good then hs[count + 1..] else [];
      if good {
        GoingIsNext(b, from, save, hs, count, n, postLen);
        GoesOn(b, from, save, hs, count, n, postLen);
        Uncut(b0, b, from, s, h);
      }
      var field, p;
      field, save, postLen, p, last := Round(buf, save, postLen, end, h, rest, n);
      if field.None? {
        break;
      }
      count := count + 1;
      body := Some(p);
      if last {
        break;
      }
    }
    if good {
      assert hs[..|hs|] == hs;
    }
  }

  /** Nothing is changed before lo and from hi on. */
  ghost predicate Around(b: seq<byte>, c: seq<byte>, lo: nat, hi: nat) {
    |b| == |c| && lo <= hi <= |b| && b[..lo] == c[..lo] && b[hi..] == c[hi..]
  }

  lemma Uncut(b: seq<byte>, c: seq<byte>, lo: nat, i: nat, h: Header)
    requires Around(b, c, lo, i) && EndOf(i, h) < |c|
    ensures Around(b, Cut(c, i, h), lo, EndOf(i, h) + 1)
    ensures EndOf(i, h) + 4 <= |b| ==> Around(b, Cut(c, i, h), lo, EndOf(i, h) + 4)
  {
    var d := Cut(c, i, h);
    forall j | i <= j < |b| ensures b[j] == c[j] {
      assert b[i..][j - i] == c[i..][j - i];
    }
    assert d[..lo] == c[..lo];
    assert d[EndOf(i, h) + 1..] == b[EndOf(i, h) + 1..];
    if EndOf(i, h) + 4 <= |b| {
      assert d[EndOf(i, h) + 4..] == b[EndOf(i, h) + 4..];
    }
  }

  lemma Sets(b: seq<byte>, from: nat, hs: seq<Header>, n: int)
    requires 0 < |hs| && AllSay(hs, n) && At(b, from, Tail(hs))
    ensures Going(b, from, from, hs, 0, n, -1)
  {
    assert hs[0..] == hs;
  }

  // ----- the request line -----

  /** w is the C string at i. */
  ghost predicate StringAt(b: seq<byte>, i: nat, w: seq<byte>) {
    At(b, i, w) && i + |w| < |b| && b[i + |w|] == 0 && 0 !in w
  }

  lemma EqualsIff(b: seq<byte>, i: nat, w: seq<byte>, text: seq<byte>)
    requires StringAt(b, i, w) && 0 !in text
    ensures (i + |text| < |b| && b[i..i + |text|] == text && b[i + |text|] == 0) <==> w == text
  {
    StringIs(b, i, w);
    if i + |text| < |b| && b[i..i + |text|] == text && b[i + |text|] == 0 {
      forall k | 0 <= k < |text| ensures b[i + k] == text[k] {
        assert b[i..i + |text|][k] == text[k];
      }
      StringIs(b, i, text);
    }
  }

  /** strcmp with a string that is known to stand there. */
  method Compare(buf: array<byte>, at: nat, text: seq<byte>, ghost end: nat, ghost w: seq<byte>) returns (same: bool)
    requires at <= end < buf.Length && buf[end] == 0 && 0 !in text
    ensures StringAt(buf[..], at, w) ==> same == (w == text)
  {
    same := Equals(buf, at, text, end);
    if StringAt(buf[..], at, w) {
      EqualsIff(buf[..], at, w, text);
    }
  }

  method PostCommand(buf: array<byte>, at: nat, ghost end: nat, ghost uri: seq<byte>) returns (cmd: EasySetup.Step)
    requires at <= end < buf.Length && buf[end] == 0
    ensures StringAt(buf[..], at, uri) ==> cmd == PostStep(uri)
  {
    hide StringAt, Ascii;
    NoNulInUris();
    var yes := Compare(buf, at, Ascii("/keyinfo"), end, uri);
    if yes {
      return EasySetup.KEYINFO;
    }
    yes := Compare(buf, at, Ascii("/confirminfo"), end, uri);
    if yes {
      return EasySetup.CONFIRMINFO;
    }
    yes := Compare(buf, at, Ascii("/confirm"), end, uri);
    if yes {
      return EasySetup.CONFIRM;
    }
    yes := Compare(buf, at, Ascii("/wifiprovisioninginfo"), end, uri);
    if yes {
      return EasySetup.WIFIPROVISIONING;
    }
    yes := Compare(buf, at, Ascii("/setupcomplete"), end, uri);
    if yes {
      return EasySetup.SETUPCOMPLETE;
    }
    yes := Compare(buf, at, Ascii("/logs/dump"), end, uri);
    return if yes then EasySetup.LOG_CREATE_DUMP else EasySetup.INVALID_STEP;
  }

  method GetCommand(buf: array<byte>, at: nat, ghost end: nat, ghost uri: seq<byte>) returns (cmd: EasySetup.Step)
    requires at <= end < buf.Length && buf[end] == 0
    ensures StringAt(buf[..], at, uri) ==> cmd == GetStep(uri)
  {
    hide StringAt, Ascii;
    NoNulInUris();
    var yes := Compare(buf, at, Ascii("/deviceinfo"), end, uri);
    if yes {
      return EasySetup.DEVICEINFO;
    }
    yes := Compare(buf, at, Ascii("/wifiscaninfo"), end, uri);
    if yes {
      return EasySetup.WIFISCANINFO;
    }
    yes := Compare(buf, at, Ascii("/logs/systeminfo"), end, uri);
    if yes {
      return EasySetup.LOG_SYSTEMINFO;
    }
    yes := Compare(buf, at, Ascii("/logs/dump"), end, uri);
    return if yes then EasySetup.LOG_GET_DUMP else EasySetup.INVALID_STEP;
  }

  lemma Printable(t: string)
    requires forall i :: 0 <= i < |t| ==> '!' <= t[i] <= '~'
    ensures 0 !in Ascii(t)
  {
  }

  lemma NoNulInUris()
    ensures 0 !in Ascii("/keyinfo") && 0 !in Ascii("/confirminfo") && 0 !in Ascii("/confirm")
    ensures 0 !in Ascii("/wifiprovisioninginfo") && 0 !in Ascii("/setupcomplete") && 0 !in Ascii("/logs/dump")
    ensures 0 !in Ascii("/deviceinfo") && 0 !in Ascii("/wifiscaninfo") && 0 !in Ascii("/logs/systeminfo")
  {
    hide Ascii;
    Printable("/keyinfo");
    Printable("/confirminfo");
    Printable("/confirm");
    Printable("/wifiprovisioninginfo");
    Printable("/setupcomplete");
    Printable("/logs/dump");
    Printable("/deviceinfo");
    Printable("/wifiscaninfo");
    Printable("/logs/systeminfo");
  }

  /** The three tokens of the first line. */
  lemma LineAt(b: seq<byte>, verb: seq<byte>, uri: seq<byte>, prot: seq<byte>)
    requires At(b, 0, Line(verb, uri, prot))
    ensures var u, p := |verb| + 1, |verb| + |uri| + 2;
            && p + |prot| < |b| && At(b, 0, verb) && b[|verb|] == SP && At(b, u, uri) && b[u + |uri|] == SP
            && At(b, p, prot) && b[p + |prot|] == CR
  {
    hide At;
    AtAppend(b, 0, verb + [SP] + uri + [SP] + prot, [CR]);
    AtAppend(b, 0, verb + [SP] + uri + [SP], prot);
    AtAppend(b, 0, verb + [SP] + uri, [SP]);
    AtAppend(b, 0, verb + [SP], uri);
    AtAppend(b, 0, verb, [SP]);
    AtOne(b, |verb|, SP);
    AtOne(b, |verb| + 1 + |uri|, SP);
    AtOne(b, |verb| + |uri| + 2 + |prot|, CR);
  }

  /** One strtok for a word that is at hand. */
  method NextWord(buf: array<byte>, from: nat, delims: set<byte>, ghost end: nat, ghost w: seq<byte>, ghost d: byte)
      returns (token: Option<nat>, save: nat)
    requires from <= end < buf.Length && buf[end] == 0
    modifies buf
    ensures buf[end] == 0 && from <= save <= end && (token.Some? ==> token.value <= end)
    ensures Word(w, delims) && d in delims && d != 0 && At(old(buf[..]), from, w)
            && from + |w| < buf.Length && old(buf[from + |w|]) == d ==>
              token == Some(from) && save == from + |w| + 1 && buf[..] == old(buf[..])[from + |w| := 0]
  {
    hide At, Word, SkipFrom, StopFrom;
    if Word(w, delims) && d in delims && d != 0 && At(buf[..], from, w)
       && from + |w| < buf.Length && buf[from + |w|] == d {
      TokenIs(buf[..], from, 0, w, d, delims);
    }
    token, save := StrTok(buf, from, delims, end);
  }

  /** The buffer once the first line has been split. */
  function Split(b: seq<byte>, verb: seq<byte>, uri: seq<byte>, prot: seq<byte>): (c: seq<byte>)
    requires |Line(verb, uri, prot)| <= |b|
    ensures |c| == |b|
  {
    b[|verb| := 0][|verb| + 1 + |uri| := 0][|verb| + |uri| + 2 + |prot| := 0]
  }

  /** The three calls of strtok on the first line. */
  method SplitLine(buf: array<byte>, ghost end: nat, ghost verb: seq<byte>, ghost uri: seq<byte>, ghost prot: seq<byte>)
      returns (v: Option<nat>, u: Option<nat>, p: Option<nat>, save: nat)
    requires end < buf.Length && buf[end] == 0
    modifies buf
    ensures buf[end] == 0 && save <= end
    ensures (v.Some? ==> v.value <= end) && (u.Some? ==> u.value <= end)
    ensures Word(verb, WHITE) && LineOk(uri, prot) && At(old(buf[..]), 0, Line(verb, uri, prot)) ==>
              && v == Some(0) && u == Some(|verb| + 1) && p.Some? && save == |Line(verb, uri, prot)| <= buf.Length
              && buf[..] == Split(old(buf[..]), verb, uri, prot)
  {
    hide At, Word;
    ghost var b := buf[..];
    if LineOk(uri, prot) && At(b, 0, Line(verb, uri, prot)) {
      LineAt(b, verb, uri, prot);
      LineSplit(b, verb, uri, prot);
    }
    v, save := NextWord(buf, 0, WHITE, end, verb, SP);
    u, save := NextWord(buf, save, BLANK, end, uri, SP);
    p, save := NextWord(buf, save, WHITE, end, prot, CR);
  }

  lemma LineSplit(b: seq<byte>, verb: seq<byte>, uri: seq<byte>, prot: seq<byte>)
    requires At(b, 0, Line(verb, uri, prot))
    ensures var u, p := |verb| + 1, |verb| + |uri| + 2;
            && p + |prot| < |b|
            && At(b[|verb| := 0], u, uri) && At(b[|verb| := 0][u + |uri| := 0], p, prot)
  {
    hide At;
    LineAt(b, verb, uri, prot);
    AtLater(b, |verb|, |verb| + 1, uri);
    AtLater(b, |verb|, |verb| + |uri| + 2, prot);
    AtLater(b[|verb| := 0], |verb| + 1 + |uri|, |verb| + |uri| + 2, prot);
  }

  /** What of the first line can be read afterwards. */
  lemma SplitReads(b: seq<byte>, verb: seq<byte>, uri: seq<byte>, prot: seq<byte>)
    requires Word(verb, WHITE) && LineOk(uri, prot) && At(b, 0, Line(verb, uri, prot))
    ensures |Line(verb, uri, prot)| <= |b|
    ensures StringAt(Split(b, verb, uri, prot), 0, verb) && StringAt(Split(b, verb, uri, prot), |verb| + 1, uri)
  {
    hide At, Word;
    LineAt(b, verb, uri, prot);
    WordHasNoNul(verb, WHITE);
    WordHasNoNul(uri, BLANK);
    var i, j, k := |verb|, |verb| + 1 + |uri|, |verb| + |uri| + 2 + |prot|;
    AtLater(b, i, 0, verb);
    AtLater(b[i := 0], j, 0, verb);
    AtLater(b[i := 0][j := 0], k, 0, verb);
    AtLater(b, i, i + 1, uri);
    AtLater(b[i := 0], j, i + 1, uri);
    AtLater(b[i := 0][j := 0], k, i + 1, uri);
  }

  lemma SplitKeeps(b: seq<byte>, verb: seq<byte>, uri: seq<byte>, prot: seq<byte>, w: seq<byte>)
    requires At(b, 0, Line(verb, uri, prot) + w)
    ensures At(b, 0, Line(verb, uri, prot)) && |Line(verb, uri, prot) + w| <= |b|
    ensures At(Split(b, verb, uri, prot), |Line(verb, uri, prot)|, w)
  {
    hide At;
    var n := |Line(verb, uri, prot)|;
    Within(b, 0, Line(verb, uri, prot) + w);
    AtAppend(b, 0, Line(verb, uri, prot), w);
    LineAt(b, verb, uri, prot);
    AtLater(b, |verb|, n, w);
    AtLater(b[|verb| := 0], |verb| + 1 + |uri|, n, w);
    AtLater(b[|verb| := 0][|verb| + 1 + |uri| := 0], n - 1, n, w);
  }

  lemma StringKept(b: seq<byte>, c: seq<byte>, n: nat, i: nat, w: seq<byte>)
    requires StringAt(b, i, w) && i + |w| < n <= |b| == |c| && b[..n] == c[..n]
    ensures StringAt(c, i, w)
  {
    forall k | i <= k < n ensures c[k] == b[k] {
      assert c[..n][k] == b[..n][k];
    }
  }

  lemma Within(b: seq<byte>, i: nat, w: seq<byte>)
    requires At(b, i, w)
    ensures i + |w| <= |b|
  {
  }

  lemma SplitSuffix(b: seq<byte>, verb: seq<byte>, uri: seq<byte>, prot: seq<byte>, j: nat)
    requires |Line(verb, uri, prot)| <= j <= |b|
    ensures Split(b, verb, uri, prot)[j..] == b[j..]
  {
  }

  /** A buffer begins with one first line at most: its verb ends at the first blank. */
  lemma OneVerb(b: seq<byte>, v: seq<byte>, w: seq<byte>)
    requires Word(v, WHITE) && Word(w, WHITE) && |v| <= |w|
    requires At(b, 0, v + [SP]) && At(b, 0, w + [SP])
    ensures v == w
  {
    UpToBlank(b, v);
    UpToBlank(b, w);
  }

  lemma UpToBlank(b: seq<byte>, w: seq<byte>)
    requires Word(w, WHITE) && At(b, 0, w + [SP])
    ensures |w| < |b| && b[|w|] == SP && forall k :: 0 <= k < |w| ==> b[k] == w[k] && b[k] != SP
  {
    assert b[0 + |w|] == (w + [SP])[|w|];
    forall k | 0 <= k < |w| ensures b[k] == w[k] && b[k] != SP {
      assert b[0 + k] == (w + [SP])[k] && w[k] in w;
    }
  }

  lemma SameVerb(b: seq<byte>, v: seq<byte>, w: seq<byte>, uri: seq<byte>, prot: seq<byte>)
    requires Word(v, WHITE) && Word(w, WHITE)
    requires At(b, 0, Line(v, uri, prot)) && At(b, 0, Line(w, uri, prot))
    ensures v == w
  {
    hide At, Word;
    VerbAt(b, v, uri, prot);
    VerbAt(b, w, uri, prot);
    if |v| <= |w| {
      OneVerb(b, v, w);
    } else {
      OneVerb(b, w, v);
    }
  }

  lemma VerbAt(b: seq<byte>, v: seq<byte>, uri: seq<byte>, prot: seq<byte>)
    requires At(b, 0, Line(v, uri, prot))
    ensures At(b, 0, v + [SP])
  {
    hide At;
    AtAppend(b, 0, v + [SP], uri + [SP] + prot + [CR]);
    assert Line(v, uri, prot) == (v + [SP]) + (uri + [SP] + prot + [CR]);
  }

  datatype Parsed =
    | Failed                                                              // IOT_ERROR_EASYSETUP_HTTP_PARSE_FAIL
    | Get(cmd: EasySetup.Step)
    | Post(cmd: EasySetup.Step, payload: Option<nat>, length: nat)        // payload NULL when the length is 0
    | Unsupported                                                         // D2D_ERROR

  lemma Verbs()
    ensures Word(POST, WHITE) && Word(GET, WHITE) && POST[0] != GET[0] && 0 !in POST && 0 !in GET
  {
  }

  /** es_msg_parser. The ghost arguments stand for any request that may be in the buffer: for a
      well-formed POST the result is the step for its address, its Content-Length and the place of
      the first byte of the body, which is untouched; for any other verb, the step for the address
      of a GET, and no request at all otherwise. */
  method Parse(buf: array<byte>, ghost end: nat, ghost verb: seq<byte>, ghost uri: seq<byte>, ghost prot: seq<byte>,
               ghost hs: seq<Header>, ghost n: int)
      returns (r: Parsed)
    requires end < buf.Length - 3 && buf[end] == 0
    modifies buf
    ensures FieldsOk(uri, prot, hs, n) && At(old(buf[..]), 0, Head(uri, prot, hs)) ==>
              if !RequestOk(uri, prot, hs, n) then r == Failed
              else
                && |Head(uri, prot, hs)| < buf.Length
                && r == Post(PostStep(uri), if n == 0 then None else Some(|Head(uri, prot, hs)|), n)
                && buf[|Head(uri, prot, hs)|..] == old(buf[|Head(uri, prot, hs)|..])
    ensures Word(verb, WHITE) && verb != POST && LineOk(uri, prot) && At(old(buf[..]), 0, Line(verb, uri, prot)) ==>
              r == if verb == GET then Get(GetStep(uri)) else Unsupported
  {
    hide At, Word, Tail, Seen, AllSay, StringAt, PostStep, GetStep, Split, LineOk, FieldsOk, RequestOk;
    ghost var b := buf[..];
    ghost var posted := FieldsOk(uri, prot, hs, n) && At(b, 0, Head(uri, prot, hs));
    ghost var other := Word(verb, WHITE) && verb != POST && LineOk(uri, prot) && At(b, 0, Line(verb, uri, prot));
    ghost var word := if posted then POST else verb;
    Verbs();
    if posted || other {
      Beginning(b, verb, uri, prot, hs, n);
    }
    var v, u, p, save := SplitLine(buf, end, word, uri, prot);
    if v.None? || u.None? || p.None? {
      return Failed;
    }
    var isGet := Compare(buf, v.value, GET, end, word);
    if isGet {
      var cmd := GetCommand(buf, u.value, end, uri);
      return Get(cmd);
    }
    var isPost := Compare(buf, v.value, POST, end, word);
    if !isPost {
      return Unsupported;
    }
    r := ParsePost(buf, save, u.value, end, uri, hs, n);
  }

  /** What the first line becomes, of a well-formed POST or of another request. */
  lemma Beginning(b: seq<byte>, verb: seq<byte>, uri: seq<byte>, prot: seq<byte>, hs: seq<Header>, n: int)
    requires
      || (FieldsOk(uri, prot, hs, n) && At(b, 0, Head(uri, prot, hs)))
      || (Word(verb, WHITE) && verb != POST && LineOk(uri, prot) && At(b, 0, Line(verb, uri, prot)))
    ensures var posted := FieldsOk(uri, prot, hs, n) && At(b, 0, Head(uri, prot, hs));
            var word := if posted then POST else verb;
            && (posted ==> !(Word(verb, WHITE) && verb != POST && At(b, 0, Line(verb, uri, prot))))
            && Word(word, WHITE) && LineOk(uri, prot) && At(b, 0, Line(word, uri, prot))
            && |Line(word, uri, prot)| <= |b|
            && StringAt(Split(b, word, uri, prot), 0, word)
            && StringAt(Split(b, word, uri, prot), |word| + 1, uri)
            && (posted ==>
                  && 0 < |hs| <= MAX_HEADERS && AllSay(hs, n) && |Head(uri, prot, hs)| <= |b|
                  && (RequestOk(uri, prot, hs, n) <==> Seen(hs) && n >= 0)
                  && At(Split(b, word, uri, prot), |Line(word, uri, prot)|, Tail(hs))
                  && Split(b, word, uri, prot)[|Head(uri, prot, hs)|..] == b[|Head(uri, prot, hs)|..])
  {
    hide At, Word, Tail, Seen, AllSay, StringAt, Split, LineOk, FieldsOk, RequestOk, Line;
    Verbs();
    if FieldsOk(uri, prot, hs, n) && At(b, 0, Head(uri, prot, hs)) {
      RequestSays(uri, prot, hs, n);
      SplitKeeps(b, POST, uri, prot, Tail(hs));
      SplitReads(b, POST, uri, prot);
      SplitSuffix(b, POST, uri, prot, |Head(uri, prot, hs)|);
      if Word(verb, WHITE) && verb != POST && At(b, 0, Line(verb, uri, prot)) {
        SameVerb(b, POST, verb, uri, prot);
      }
    } else {
      SplitReads(b, verb, uri, prot);
    }
  }

  /** The POST branch of es_msg_parser. */
  method ParsePost(buf: array<byte>, from: nat, at: nat, ghost end: nat, ghost uri: seq<byte>,
                   ghost hs: seq<Header>, ghost n: int)
      returns (r: Parsed)
    requires from <= end < buf.Length - 3 && buf[end] == 0 && at <= end
    modifies buf
    ensures !r.Get?
    ensures 0 < |hs| <= MAX_HEADERS && AllSay(hs, n) && At(old(buf[..]), from, Tail(hs))
            && StringAt(old(buf[..]), at, uri) && at + |uri| < from ==>
              if !Seen(hs) || n < 0 then r == Failed
              else
                && from + |Tail(hs)| < buf.Length
                && r == Post(PostStep(uri), if n == 0 then None else Some(from + |Tail(hs)|), n)
                && buf[from + |Tail(hs)|..] == old(buf[from + |Tail(hs)|..])
  {
    hide At, Tail, Seen, AllSay, StringAt, PostStep;
    ghost var b := buf[..];
    var postLen, body := ParseHeaders(buf, from, end, hs, n);
    if body.None? || postLen < 0 {
      return Failed;
    }
    var payload: Option<nat> := None;
    if postLen != 0 {
      if body.value + 1 < buf.Length {
        payload := Some(body.value + 1);
      } else {
        return Failed;
      }
    }
    if StringAt(b, at, uri) && at + |uri| < from && b[..from] == buf[..from] {
      StringKept(b, buf[..], from, at, uri);
    }
    var cmd := PostCommand(buf, at, end, uri);
    r := Post(cmd, payload, postLen);
  }

  lemma RequestSays(uri: seq<byte>, prot: seq<byte>, hs: seq<Header>, n: int)
    requires FieldsOk(uri, prot, hs, n)
    ensures LineOk(uri, prot) && 0 < |hs| <= MAX_HEADERS && AllSay(hs, n)
    ensures RequestOk(uri, prot, hs, n) <==> Seen(hs) && n >= 0
  {
  }
}
