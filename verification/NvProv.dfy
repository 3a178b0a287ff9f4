/** The provisioning records in non-volatile memory (iot_nv_data.c): several keys guarded by a
    status key. Every operation on one key is atomic; it may fail, and power may be lost before it. */
module NvProv {
  import opened Bytes
  import opened UuidMac
  import opened Text

  datatype Key = WifiStatus | ApSsid | ApPass | ApBssid | ApAuthType
               | CloudStatus | ServerUrl | ServerPort | DeviceLabel

  type Store = map<Key, seq<byte>>

  const DONE: seq<byte> := [68, 79, 78, 69]
  const NONE: seq<byte> := [78, 79, 78, 69]

  // ----- records -----

  /** struct iot_wifi_prov_data; the arrays are one longer than the strings they hold. */
  datatype WifiProv = WifiProv(ssid: seq<byte>, password: seq<byte>, macStr: seq<byte>, securityType: int)

  predicate WifiStruct(w: WifiProv) {
    |w.ssid| == 33 && |w.password| == 65 && |w.macStr| == 18
  }

  /** What such a structure says. */
  datatype WifiRecord = WifiRecord(ssid: seq<byte>, password: seq<byte>, mac: seq<byte>, bssid: seq<byte>, auth: int)

  /** struct iot_cloud_prov_data, as far as it is stored; strings without their NUL. */
  datatype CloudProv = CloudProv(url: Option<seq<byte>>, port: int, name: Option<seq<byte>>)

  const NO_MAC: seq<byte> := [0, 0, 0, 0, 0, 0]

  /** A MAC text with its value, or empty when it is no MAC. */
  function MacOf(text: seq<byte>): (seq<byte>, seq<byte>) {
    if ValidMac(text) then (text, MacValue(text)) else ([], NO_MAC)
  }

  function Meaning(w: WifiProv): WifiRecord
    requires WifiStruct(w)
  {
    var (mac, bssid) := MacOf(CString(w.macStr[..17]));
    WifiRecord(CString(w.ssid[..32]), CString(w.password[..64]), mac, bssid,
               if 0 <= w.securityType <= 8 then w.securityType else -1)
  }

  // ----- writing -----

  datatype Op = Write(key: Key, value: seq<byte>) | Remove(key: Key)

  /** What becomes of an operation. */
  datatype Fate = Succeeds | Fails | PowerLoss

  datatype Ending = Completed | Refused | Lost

  function FateOf(fates: seq<Fate>, i: nat): Fate {
    if i < |fates| then fates[i] else Succeeds
  }

  /** The operations one after the other. A failed write ends the sequence, and so does an empty
      value, which is refused before it reaches the storage; a failed removal goes unnoticed. */
  function Commit(s: Store, ops: seq<Op>, fates: seq<Fate>): (Store, Ending)
    decreases |ops|
  {
    if ops == [] then (s, Completed)
    else
      var rest := if fates == [] then [] else fates[1..];
      match FateOf(fates, 0)
      case PowerLoss => (s, Lost)
      case Fails => if ops[0].Write? then (s, Refused) else Commit(s, ops[1..], rest)
      case Succeeds =>
        match ops[0]
        case Write(k, v) => if v == [] then (s, Refused) else Commit(s[k := v], ops[1..], rest)
        case Remove(k) => Commit(s - {k}, ops[1..], rest)
  }

  /** A field: removed when its string is empty. */
  function Field(k: Key, v: seq<byte>): Op {
    if v == [] || v[0] == 0 then Remove(k) else Write(k, v)
  }

  function WifiOps(w: WifiProv): (ops: seq<Op>)
    requires WifiStruct(w)
    ensures |ops| == 6
  {
    [Write(WifiStatus, NONE), Field(ApSsid, w.ssid[..32]),
     Field(ApPass, w.password[..64]), Field(ApBssid, w.macStr[..17]),
     if 0 <= w.securityType <= 8 then Write(ApAuthType, Decimal(w.securityType)) else Remove(ApAuthType),
     Write(WifiStatus, DONE)]
  }

  function Optional(k: Key, v: Option<seq<byte>>): Op {
    match v
    case None => Remove(k)
    case Some(s) => Write(k, s)
  }

  function CloudOps(c: CloudProv): (ops: seq<Op>)
    ensures |ops| == 5
  {
    [Write(CloudStatus, NONE), Optional(ServerUrl, c.url), Write(ServerPort, Decimal(c.port)),
     Optional(DeviceLabel, c.name), Write(CloudStatus, DONE)]
  }

  const ERASE_OPS: seq<Op> := [Write(WifiStatus, NONE), Write(CloudStatus, NONE)]

  // ----- reading -----

  const WIFI_SIZE: nat := 65    // IOT_WIFI_PROV_PASSWORD_STR_LEN + 1
  const CLOUD_SIZE: nat := 1025 // IOT_NVD_MAX_DATA_LEN / 2 + 1

  predicate Readable(s: Store, k: Key, size: nat) {
    k in s ==> |s[k]| <= size
  }

  /** The string at k, empty when there is none. */
  function StringAt(s: Store, k: Key): seq<byte> {
    if k in s then CString(s[k]) else []
  }

  predicate IsDone(s: Store, k: Key, size: nat) {
    k in s && |s[k]| <= size && DONE <= s[k]
  }

  function Clip(t: seq<byte>, n: nat): seq<byte> {
    t[..Min(n, |t|)]
  }

  function Bssid(s: Store): (seq<byte>, seq<byte>) {
    if ApBssid !in s then ([], NO_MAC)
    else
      var v := s[ApBssid];
      if |v| >= 17 then MacOf(CString(v[..17])) else if |v| >= 6 then (MacText(v[..6]), v[..6]) else ([], NO_MAC)
  }

  function AuthIn(s: Store): int {
    if ApAuthType in s then Atoi(CString(s[ApAuthType])) else -1
  }

  /** What iot_nv_get_wifi_prov_data finds. */
  function WifiIn(s: Store): Option<WifiRecord> {
    if !IsDone(s, WifiStatus, WIFI_SIZE) then None
    else if !(Readable(s, ApSsid, WIFI_SIZE) && Readable(s, ApPass, WIFI_SIZE) && Readable(s, ApBssid, WIFI_SIZE)
              && Readable(s, ApAuthType, WIFI_SIZE)) then None
    else
      Some(WifiRecord(Clip(StringAt(s, ApSsid), 32), Clip(StringAt(s, ApPass), 64), Bssid(s).0, Bssid(s).1, AuthIn(s)))
  }

  function OptionalAt(s: Store, k: Key): Option<seq<byte>> {
    if k in s then Some(CString(s[k])) else None
  }

  /** What iot_nv_get_cloud_prov_data finds, where every string it reads ends inside its buffer. */
  function CloudIn(s: Store): Option<CloudProv> {
    if !IsDone(s, CloudStatus, CLOUD_SIZE) then None
    else if !(Readable(s, ServerUrl, CLOUD_SIZE) && Readable(s, ServerPort, CLOUD_SIZE)
              && Readable(s, DeviceLabel, CLOUD_SIZE)) then None
    else
      Some(CloudProv(OptionalAt(s, ServerUrl), if ServerPort in s then Atoi(CString(s[ServerPort])) else -1,
                     OptionalAt(s, DeviceLabel)))
  }

  // ----- all or nothing -----

  /** The removals take effect. */
  predicate RemovalsWork(ops: seq<Op>, fates: seq<Fate>) {
    forall i :: 0 <= i < |ops| && ops[i].Remove? ==> FateOf(fates, i) != Fails
  }

  predicate Same(s: Store, t: Store, k: Key) {
    (k in s <==> k in t) && (k in s ==> s[k] == t[k])
  }

  predicate Untouched(ops: seq<Op>, k: Key) {
    forall i :: 0 <= i < |ops| ==> ops[i].key != k
  }

  lemma {:induction false} CommitLeaves(s: Store, ops: seq<Op>, fates: seq<Fate>, k: Key)
    requires Untouched(ops, k)
    ensures Same(s, Commit(s, ops, fates).0, k)
    decreases |ops|
  {
    if ops != [] {
      var rest := if fates == [] then [] else fates[1..];
      assert ops[0].key != k;
      CommitLeaves(s, ops[1..], rest, k);
      match ops[0]
      case Write(j, v) => CommitLeaves(s[j := v], ops[1..], rest, k);
      case Remove(j) => CommitLeaves(s - {j}, ops[1..], rest, k);
    }
  }

  /** A transaction under a status key. */
  predicate Guarded(ops: seq<Op>, status: Key) {
    && |ops| >= 2
    && ops[0] == Write(status, NONE) && ops[|ops| - 1] == Write(status, DONE)
    && Untouched(ops[1..|ops| - 1], status)
  }

  /** Once the status says NONE, only completion changes it. */
  lemma {:induction false} StatusUntilDone(s: Store, ops: seq<Op>, fates: seq<Fate>, k: Key)
    requires |ops| >= 1 && Untouched(ops[..|ops| - 1], k) && ops[|ops| - 1] == Write(k, DONE)
    requires Commit(s, ops, fates).1 != Completed
    ensures Same(s, Commit(s, ops, fates).0, k)
    decreases |ops|
  {
    var rest := if fates == [] then [] else fates[1..];
    if |ops| == 1 {
      assert Commit(s[k := DONE], ops[1..], rest) == (s[k := DONE], Completed);
    } else {
      assert ops[..|ops| - 1][0] == ops[0];
      assert ops[1..][..|ops| - 2] == ops[..|ops| - 1][1..];
      var t := if ops[0].Write? then s[ops[0].key := ops[0].value] else s - {ops[0].key};
      if FateOf(fates, 0) == Fails && ops[0].Remove? {
        StatusUntilDone(s, ops[1..], rest, k);
      } else if FateOf(fates, 0) == Succeeds && (ops[0].Remove? || ops[0].value != []) {
        StatusUntilDone(t, ops[1..], rest, k);
      }
    }
  }

  /** A transaction that does not complete has changed nothing or has left the status at NONE. */
  lemma NothingOrNone(s: Store, ops: seq<Op>, fates: seq<Fate>, k: Key)
    requires Guarded(ops, k) && Commit(s, ops, fates).1 != Completed
    ensures var t := Commit(s, ops, fates).0;
            if FateOf(fates, 0) == Succeeds then k in t && t[k] == NONE else t == s
  {
    if FateOf(fates, 0) == Succeeds {
      assert ops[1..][..|ops| - 2] == ops[1..|ops| - 1];
      StatusUntilDone(s[k := NONE], ops[1..], if fates == [] then [] else fates[1..], k);
    }
  }

  predicate Short(v: Option<seq<byte>>) {
    v.Some? ==> |v.value| <= CLOUD_SIZE
  }

  /** The string fills the reader's buffer. */
  predicate Full(v: Option<seq<byte>>) {
    v.Some? && |v.value| == CLOUD_SIZE
  }

  /** C strings hold no NUL, and the port is an int. */
  predicate CloudStruct(c: CloudProv) {
    && -0x8000_0000 <= c.port < 0x8000_0000
    && (c.url.Some? ==> 0 !in c.url.value)
    && (c.name.Some? ==> 0 !in c.name.value)
  }

  lemma WifiIsGuarded(w: WifiProv)
    requires WifiStruct(w)
    ensures Guarded(WifiOps(w), WifiStatus) && Untouched(WifiOps(w), CloudStatus)
    ensures Untouched(WifiOps(w), ServerUrl) && Untouched(WifiOps(w), ServerPort) && Untouched(WifiOps(w), DeviceLabel)
  {
  }

  lemma CloudIsGuarded(c: CloudProv)
    ensures Guarded(CloudOps(c), CloudStatus) && Untouched(CloudOps(c), WifiStatus)
    ensures Untouched(CloudOps(c), ApSsid) && Untouched(CloudOps(c), ApPass) && Untouched(CloudOps(c), ApBssid)
    ensures Untouched(CloudOps(c), ApAuthType)
  {
  }

  lemma DigitsAreFew(n: nat)
    requires n < 10
    ensures |Decimal(n)| == 1
  {
  }

  /** The text read back from a field that was written from the first n characters of an array. */
  lemma FieldText(t: Store, k: Key, v: seq<byte>)
    requires |v| > 0
    requires match Field(k, v) case Write(_, u) => k in t && t[k] == u case Remove(_) => k !in t
    ensures StringAt(t, k) == CString(v) && |StringAt(t, k)| <= |v| && Readable(t, k, |v|)
  {
  }

  lemma BssidField(t: Store, v: seq<byte>)
    requires |v| == 17
    requires match Field(ApBssid, v) case Write(_, u) => ApBssid in t && t[ApBssid] == u case Remove(_) => ApBssid !in t
    ensures Bssid(t) == MacOf(CString(v))
  {
    assert v[..17] == v;
  }

  /** A completed set is read back exactly. */
  lemma SetWifiThenGet(s: Store, w: WifiProv, fates: seq<Fate>)
    requires WifiStruct(w) && RemovalsWork(WifiOps(w), fates) && Commit(s, WifiOps(w), fates).1 == Completed
    ensures WifiIn(Commit(s, WifiOps(w), fates).0) == Some(Meaning(w))
    ensures var r, m := WifiIn(Commit(s, WifiOps(w), fates).0).value, CString(w.macStr[..17]);
            && r.ssid == CString(w.ssid[..32]) && r.password == CString(w.password[..64])
            && (if ValidMac(m) then r.mac == m && r.bssid == MacValue(m)
                else r.mac == [] && r.bssid == [0, 0, 0, 0, 0, 0])
            && r.auth == if 0 <= w.securityType <= 8 then w.securityType else -1
  {
    hide WifiIn, Commit, ValidMac, MacValue, CString;
    WifiReadsBackIff(s, w, fates);
    assert forall i :: 1 <= i < 5 ==> !Lingers(WifiOps(w), fates, i);
  }

  lemma FieldKeys(w: WifiProv)
    requires WifiStruct(w)
    ensures Field(ApSsid, w.ssid[..32]).key == ApSsid && Field(ApPass, w.password[..64]).key == ApPass
    ensures Field(ApBssid, w.macStr[..17]).key == ApBssid
  {
  }

  lemma PortIsShort(port: int)
    requires -0x8000_0000 <= port < 0x8000_0000
    ensures |Decimal(port)| <= 11
  {
    assert Pow10(2) == 100;
    assert Pow10(4) == 10000;
    assert Pow10(6) == 1000000;
    assert Pow10(8) == 100000000;
    assert Pow10(10) == 10000000000;
    DigitsLength(if port < 0 then -port else port, 10);
  }

  /** An optional string that was written or removed, or whose removal failed. */
  lemma OptionalField(s: Store, t: Store, k: Key, v: Option<seq<byte>>, lingers: bool)
    requires (v.Some? ==> 0 !in v.value && !lingers) && if lingers then Same(s, t, k) else Holds(t, k, v)
    ensures !lingers ==> (Readable(t, k, CLOUD_SIZE) <==> Short(v))
    ensures (Readable(t, k, CLOUD_SIZE) && OptionalAt(t, k) == v) <==> Short(v) && (lingers ==> k !in s)
  {
    if v.Some? {
      WholeString(v.value);
    }
  }

  /** The key has the string, or nothing when there is none. */
  predicate Holds(t: Store, k: Key, v: Option<seq<byte>>) {
    match v
    case Some(u) => k in t && t[k] == u
    case None => k !in t
  }

  /** What a completed set leaves in the store, field by field. */
  lemma CloudFields(s: Store, c: CloudProv, fates: seq<Fate>)
    requires CloudStruct(c) && Commit(s, CloudOps(c), fates).1 == Completed
    ensures var ops, t := CloudOps(c), Commit(s, CloudOps(c), fates).0;
            && (if Lingers(ops, fates, 1) then c.url == None && Same(s, t, ServerUrl) else Holds(t, ServerUrl, c.url))
            && (if Lingers(ops, fates, 3) then c.name == None && Same(s, t, DeviceLabel)
                else Holds(t, DeviceLabel, c.name))
            && ServerPort in t && t[ServerPort] == Decimal(c.port) && CloudStatus in t && t[CloudStatus] == DONE
  {
    hide Commit, Decimal;
    var ops := CloudOps(c);
    CommitLast(s, ops, fates, 1);
    CommitLast(s, ops, fates, 2);
    CommitLast(s, ops, fates, 3);
    CommitLast(s, ops, fates, 4);
    assert Untouched(ops[..1], ServerUrl) && Untouched(ops[..3], DeviceLabel);
  }

  /** The removals of the address and the label, where they failed, had nothing to remove. */
  predicate CloudLingersUnseen(s: Store, c: CloudProv, fates: seq<Fate>) {
    && (Lingers(CloudOps(c), fates, 1) ==> ServerUrl !in s)
    && (Lingers(CloudOps(c), fates, 3) ==> DeviceLabel !in s)
  }

  /** A completed set reads back exactly if and only if its strings fit the reader's buffer and no removal
      that failed left anything behind. */
  lemma CloudReadsBackIff(s: Store, c: CloudProv, fates: seq<Fate>)
    requires CloudStruct(c) && Commit(s, CloudOps(c), fates).1 == Completed
    ensures CloudIn(Commit(s, CloudOps(c), fates).0) == Some(c)
            <==> Short(c.url) && Short(c.name) && CloudLingersUnseen(s, c, fates)
    ensures CloudLingersUnseen(s, c, fates) && !(Short(c.url) && Short(c.name)) ==>
              CloudIn(Commit(s, CloudOps(c), fates).0) == None
  {
    hide CString, Commit, Decimal, Atoi, Readable, Lingers, OptionalAt;
    var ops, t := CloudOps(c), Commit(s, CloudOps(c), fates).0;
    CloudFields(s, c, fates);
    OptionalField(s, t, ServerUrl, c.url, Lingers(ops, fates, 1));
    OptionalField(s, t, DeviceLabel, c.name, Lingers(ops, fates, 3));
    AbsentIsReadable(s, t);
    PortReads(t, c.port);
    assert IsDone(t, CloudStatus, CLOUD_SIZE);
  }

  lemma AbsentIsReadable(s: Store, t: Store)
    ensures forall k :: Same(s, t, k) && k !in s ==> Readable(t, k, CLOUD_SIZE)
  {
  }

  lemma PortReads(t: Store, port: int)
    requires -0x8000_0000 <= port < 0x8000_0000 && ServerPort in t && t[ServerPort] == Decimal(port)
    ensures Readable(t, ServerPort, CLOUD_SIZE) && Atoi(CString(t[ServerPort])) == port
  {
    PortIsShort(port);
    DecimalReadsBack(port);
    WholeString(Decimal(port));
  }

  /** As read from a store of strings that end. */
  lemma CloudAfterSet(s: Store, c: CloudProv, fates: seq<Fate>)
    requires CloudStruct(c)
    requires RemovalsWork(CloudOps(c), fates) && Commit(s, CloudOps(c), fates).1 == Completed
    ensures CloudIn(Commit(s, CloudOps(c), fates).0) == if Short(c.url) && Short(c.name) then Some(c) else None
  {
    hide CloudIn, Commit;
    CloudReadsBackIff(s, c, fates);
    assert !Lingers(CloudOps(c), fates, 1) && !Lingers(CloudOps(c), fates, 3);
  }

  /** A completed set can be read exactly if neither string is as long as the reader's buffer, which
      then has no room for the NUL; and it is read back exactly if they are shorter, and not at all if
      one is longer. */
  lemma SetCloudThenGet(s: Store, c: CloudProv, fates: seq<Fate>)
    requires Clean(s) && CloudStruct(c)
    requires RemovalsWork(CloudOps(c), fates) && Commit(s, CloudOps(c), fates).1 == Completed
    ensures var t := Commit(s, CloudOps(c), fates).0;
            && (Clean(t) <==> !Full(c.url) && !Full(c.name))
            && (Clean(t) ==> CloudIn(t) == if Short(c.url) && Short(c.name) then Some(c) else None)
  {
    hide CloudIn, Commit, Clean;
    CleanAfterSetIff(s, c, fates);
    CloudAfterSet(s, c, fates);
  }

  // ----- histories -----

  datatype Action =
    | SetWifi(wifi: WifiProv, fates: seq<Fate>)
    | SetCloud(cloud: CloudProv, fates: seq<Fate>)
    | EraseAll(fates: seq<Fate>)

  /** The store, with the records of the latest completed sets. */
  datatype History = History(store: Store, wifi: Option<WifiRecord>, cloud: Option<CloudProv>)

  predicate Proper(a: Action) {
    match a
    case SetWifi(w, f) => WifiStruct(w) && RemovalsWork(WifiOps(w), f)
    case SetCloud(c, f) => CloudStruct(c) && RemovalsWork(CloudOps(c), f)
    case EraseAll(_) => true
  }

  function After(h: History, a: Action): History
    requires Proper(a)
  {
    match a
    case SetWifi(w, f) =>
      var (t, e) := Commit(h.store, WifiOps(w), f);
      History(t, if e == Completed then Some(Meaning(w)) else h.wifi, h.cloud)
    case SetCloud(c, f) =>
      var (t, e) := Commit(h.store, CloudOps(c), f);
      History(t, h.wifi, if e == Completed then Some(c) else h.cloud)
    case EraseAll(f) => h.(store := Commit(h.store, ERASE_OPS, f).0)
  }

  /** Reading gives nothing or the latest completed set. */
  predicate Honest(h: History) {
    (WifiIn(h.store) == None || WifiIn(h.store) == h.wifi) && (CloudIn(h.store) == None || CloudIn(h.store) == h.cloud)
  }

  /** The wifi record depends on its own keys only. */
  lemma WifiFrame(s: Store, t: Store)
    requires Same(s, t, WifiStatus) && Same(s, t, ApSsid) && Same(s, t, ApPass)
             && Same(s, t, ApBssid) && Same(s, t, ApAuthType)
    ensures WifiIn(s) == WifiIn(t)
  {
    hide MacOf, CString, Atoi;
  }

  lemma CloudFrame(s: Store, t: Store)
    requires Same(s, t, CloudStatus) && Same(s, t, ServerUrl) && Same(s, t, ServerPort) && Same(s, t, DeviceLabel)
    ensures CloudIn(s) == CloudIn(t)
  {
    hide CString, Atoi;
  }

  lemma WifiKeeps(s: Store, w: WifiProv, fates: seq<Fate>)
    requires WifiStruct(w)
    ensures CloudIn(Commit(s, WifiOps(w), fates).0) == CloudIn(s)
  {
    hide Commit, CloudIn, WifiOps;
    var t := Commit(s, WifiOps(w), fates).0;
    WifiIsGuarded(w);
    CommitLeaves(s, WifiOps(w), fates, CloudStatus);
    CommitLeaves(s, WifiOps(w), fates, ServerUrl);
    CommitLeaves(s, WifiOps(w), fates, ServerPort);
    CommitLeaves(s, WifiOps(w), fates, DeviceLabel);
    CloudFrame(s, t);
  }

  lemma CloudKeeps(s: Store, c: CloudProv, fates: seq<Fate>)
    ensures WifiIn(Commit(s, CloudOps(c), fates).0) == WifiIn(s)
  {
    hide Commit, WifiIn, CloudOps;
    var t := Commit(s, CloudOps(c), fates).0;
    CloudIsGuarded(c);
    CommitLeaves(s, CloudOps(c), fates, WifiStatus);
    CommitLeaves(s, CloudOps(c), fates, ApSsid);
    CommitLeaves(s, CloudOps(c), fates, ApPass);
    CommitLeaves(s, CloudOps(c), fates, ApBssid);
    CommitLeaves(s, CloudOps(c), fates, ApAuthType);
    WifiFrame(s, t);
  }

  lemma NoneIsNotDone(s: Store, k: Key, size: nat)
    requires k in s && s[k] == NONE
    ensures !IsDone(s, k, size)
  {
    assert NONE[0] != DONE[0];
  }

  /** A set that is refused or cut short leaves the old record or none. */
  lemma SetWifiFails(s: Store, w: WifiProv, fates: seq<Fate>)
    requires WifiStruct(w) && Commit(s, WifiOps(w), fates).1 != Completed
    ensures var t := Commit(s, WifiOps(w), fates).0;
            if FateOf(fates, 0) == Succeeds then WifiIn(t) == None else t == s
  {
    hide Commit, WifiOps;
    WifiIsGuarded(w);
    NothingOrNone(s, WifiOps(w), fates, WifiStatus);
    if FateOf(fates, 0) == Succeeds {
      NoneIsNotDone(Commit(s, WifiOps(w), fates).0, WifiStatus, WIFI_SIZE);
    }
  }

  lemma SetCloudFails(s: Store, c: CloudProv, fates: seq<Fate>)
    requires Commit(s, CloudOps(c), fates).1 != Completed
    ensures var t := Commit(s, CloudOps(c), fates).0;
            if FateOf(fates, 0) == Succeeds then CloudIn(t) == None else t == s
  {
    hide Commit, CloudOps;
    CloudIsGuarded(c);
    NothingOrNone(s, CloudOps(c), fates, CloudStatus);
    if FateOf(fates, 0) == Succeeds {
      NoneIsNotDone(Commit(s, CloudOps(c), fates).0, CloudStatus, CLOUD_SIZE);
    }
  }

  /** iot_nv_erase_prov_data takes the records away one after the other. */
  lemma EraseResult(s: Store, fates: seq<Fate>)
    ensures var t := Commit(s, ERASE_OPS, fates).0;
            && (FateOf(fates, 0) == Succeeds ==> WifiStatus in t && t[WifiStatus] == Ascii("NONE"))
            && (FateOf(fates, 0) == Succeeds && FateOf(fates, 1) == Succeeds ==>
                  CloudStatus in t && t[CloudStatus] == Ascii("NONE"))
            && WifiIn(t) == (if FateOf(fates, 0) == Succeeds then None else WifiIn(s))
            && CloudIn(t) == (if FateOf(fates, 0) == Succeeds && FateOf(fates, 1) == Succeeds then None else CloudIn(s))
  {
    var s1 := s[WifiStatus := NONE];
    var s2 := s1[CloudStatus := NONE];
    var rest := if fates == [] then [] else fates[1..];
    assert FateOf(rest, 0) == FateOf(fates, 1);
    assert ERASE_OPS[1..] == [Write(CloudStatus, NONE)] && ERASE_OPS[1..][1..] == [];
    assert Commit(s1, ERASE_OPS[1..], rest).0 == if FateOf(rest, 0) == Succeeds then s2 else s1;
    NoneIsNotDone(s1, WifiStatus, WIFI_SIZE);
    NoneIsNotDone(s2, WifiStatus, WIFI_SIZE);
    NoneIsNotDone(s2, CloudStatus, CLOUD_SIZE);
    CloudFrame(s, s1);
  }

  lemma ActionKeepsHonest(h: History, a: Action)
    requires Honest(h) && Proper(a)
    ensures Honest(After(h, a))
  {
    hide Commit, WifiIn, CloudIn, Meaning, WifiOps, CloudOps, RemovalsWork;
    match a
    case SetWifi(w, f) =>
      WifiKeeps(h.store, w, f);
      if Commit(h.store, WifiOps(w), f).1 == Completed {
        SetWifiThenGet(h.store, w, f);
      } else {
        SetWifiFails(h.store, w, f);
      }
    case SetCloud(c, f) =>
      CloudKeeps(h.store, c, f);
      if Commit(h.store, CloudOps(c), f).1 == Completed {
        CloudAfterSet(h.store, c, f);
      } else {
        SetCloudFails(h.store, c, f);
      }
    case EraseAll(f) =>
      EraseResult(h.store, f);
  }

  function Run(h: History, actions: seq<Action>): History
    requires forall a :: a in actions ==> Proper(a)
    decreases |actions|
  {
    if actions == [] then h else Run(After(h, actions[0]), actions[1..])
  }

  /** No string of the action fills the reader's buffer. */
  predicate Ends(a: Action) {
    a.SetCloud? ==> !Full(a.cloud.url) && !Full(a.cloud.name)
  }

  lemma ActionKeepsClean(h: History, a: Action)
    requires Clean(h.store) && Proper(a) && Ends(a)
    ensures Clean(After(h, a).store)
  {
    hide Clean, Commit, WifiOps, CloudOps, CleanOps;
    match a
    case SetWifi(w, f) =>
      WifiOpsAreClean(w);
      CommitKeepsClean(h.store, WifiOps(w), f);
    case SetCloud(c, f) =>
      CloudOpsAreClean(c);
      CommitKeepsClean(h.store, CloudOps(c), f);
    case EraseAll(f) =>
      EraseOpsAreClean();
      CommitKeepsClean(h.store, ERASE_OPS, f);
  }

  /** After any history of sets and erases with failed writes and power losses, a successful get
      returns exactly the record of the latest completed set; and the store can be read, as long as no
      string of exactly the size of the reader's buffer was set. */
  lemma {:induction false} NeverAMix(h: History, actions: seq<Action>)
    requires Clean(h.store) && Honest(h) && forall a :: a in actions ==> Proper(a)
    ensures Honest(Run(h, actions))
    ensures (forall a :: a in actions ==> Ends(a)) ==> Clean(Run(h, actions).store)
    decreases |actions|
  {
    if actions != [] {
      assert Proper(actions[0]);
      ActionKeepsHonest(h, actions[0]);
      if Ends(actions[0]) {
        ActionKeepsClean(h, actions[0]);
        NeverAMix(After(h, actions[0]), actions[1..]);
      } else {
        RunKeepsHonest(After(h, actions[0]), actions[1..]);
        assert actions[0] in actions;
      }
    }
  }

  lemma {:induction false} RunKeepsHonest(h: History, actions: seq<Action>)
    requires Honest(h) && forall a :: a in actions ==> Proper(a)
    ensures Honest(Run(h, actions))
    decreases |actions|
  {
    if actions != [] {
      assert Proper(actions[0]);
      ActionKeepsHonest(h, actions[0]);
      RunKeepsHonest(After(h, actions[0]), actions[1..]);
    }
  }

  /** From an empty store on: what a get finds is what the latest completed set wrote. */
  lemma FromEmptyStore(actions: seq<Action>)
    requires forall a :: a in actions ==> Proper(a) && Ends(a)
    ensures var h := Run(History(map[], None, None), actions);
            && Clean(h.store)
            && (WifiIn(h.store) != None ==> WifiIn(h.store) == h.wifi)
            && (CloudIn(h.store) != None ==> CloudIn(h.store) == h.cloud)
  {
    NeverAMix(History(map[], None, None), actions);
  }

  // ----- both records together -----

  /** iot_nv_set_prov_data */
  function SetBoth(s: Store, w: WifiProv, c: CloudProv, f: seq<Fate>, g: seq<Fate>): (Store, Ending)
    requires WifiStruct(w)
  {
    var (t, e) := Commit(s, WifiOps(w), f);
    if e == Completed then Commit(t, CloudOps(c), g) else (t, e)
  }

  /** The pair of records is not all-or-nothing: after an interrupted joint set, both records can be
      read and disagree about the set they come from exactly when it stopped between the two. */
  lemma JointSetMixesIff(s: Store, w: WifiProv, c: CloudProv, f: seq<Fate>, g: seq<Fate>)
    requires WifiStruct(w) && CloudStruct(c) && Short(c.url) && Short(c.name)
    requires RemovalsWork(WifiOps(w), f) && RemovalsWork(CloudOps(c), g)
    requires WifiIn(s).Some? && CloudIn(s).Some? && WifiIn(s) != Some(Meaning(w)) && CloudIn(s) != Some(c)
    ensures var t := SetBoth(s, w, c, f, g).0;
            && (WifiIn(t) == Some(Meaning(w)) && CloudIn(t) == CloudIn(s)
                <==> Commit(s, WifiOps(w), f).1 == Completed && FateOf(g, 0) != Succeeds)
            && !(WifiIn(t) == WifiIn(s) && CloudIn(t) == Some(c))
  {
    hide Commit, WifiIn, CloudIn, Meaning, WifiOps, CloudOps, RemovalsWork;
    var (t, e) := Commit(s, WifiOps(w), f);
    WifiKeeps(s, w, f);
    if e == Completed {
      SetWifiThenGet(s, w, f);
      CloudKeeps(t, c, g);
      if Commit(t, CloudOps(c), g).1 == Completed {
        CloudAfterSet(t, c, g);
        CompletedBegan(t, c, g);
      } else {
        SetCloudFails(t, c, g);
      }
    } else {
      SetWifiFails(s, w, f);
    }
  }

  lemma CompletedBegan(s: Store, c: CloudProv, g: seq<Fate>)
    requires Commit(s, CloudOps(c), g).1 == Completed
    ensures FateOf(g, 0) == Succeeds
  {
  }

  // ----- removals that fail -----

  /** The removal of op i was asked for and failed. */
  predicate Lingers(ops: seq<Op>, fates: seq<Fate>, i: nat)
    requires i < |ops|
  {
    ops[i].Remove? && FateOf(fates, i) == Fails
  }

  /** After a completed sequence a key has what the last operation on it left, or, when a removal
      failed that was the only one, what it had before. */
  lemma {:induction false} CommitLast(s: Store, ops: seq<Op>, fates: seq<Fate>, i: nat)
    requires i < |ops| && Commit(s, ops, fates).1 == Completed
    requires forall j :: i < j < |ops| ==> ops[j].key != ops[i].key
    ensures var t, k := Commit(s, ops, fates).0, ops[i].key;
            && (ops[i].Write? ==> k in t && t[k] == ops[i].value)
            && (ops[i].Remove? && !Lingers(ops, fates, i) ==> k !in t)
            && (Lingers(ops, fates, i) && Untouched(ops[..i], k) ==> Same(s, t, k))
    decreases |ops|
  {
    var rest := if fates == [] then [] else fates[1..];
    var t := if FateOf(fates, 0) == Fails then s
             else if ops[0].Write? then s[ops[0].key := ops[0].value] else s - {ops[0].key};
    assert Commit(s, ops, fates) == Commit(t, ops[1..], rest);
    if i == 0 {
      CommitLeaves(t, ops[1..], rest, ops[0].key);
    } else {
      assert FateOf(rest, i - 1) == FateOf(fates, i);
      assert ops[..i][0] == ops[0] && ops[1..][..i - 1] == ops[..i][1..];
      CommitLast(t, ops[1..], rest, i - 1);
    }
  }

  /** The old value of a field that lingers reads as if there were none. */
  ghost predicate WifiLooksRemoved(s: Store, k: Key) {
    match k
    case ApSsid => Readable(s, k, WIFI_SIZE) && StringAt(s, k) == []
    case ApPass => Readable(s, k, WIFI_SIZE) && StringAt(s, k) == []
    case ApBssid => Readable(s, k, WIFI_SIZE) && Bssid(s) == ([], NO_MAC)
    case ApAuthType => Readable(s, k, WIFI_SIZE) && AuthIn(s) == -1
    case _ => true
  }

  /** Every removal that failed left something that reads as if there were nothing. */
  ghost predicate WifiLingersUnseen(s: Store, w: WifiProv, fates: seq<Fate>)
    requires WifiStruct(w)
  {
    forall i :: 1 <= i < 5 && Lingers(WifiOps(w), fates, i) ==> WifiLooksRemoved(s, WifiOps(w)[i].key)
  }

  lemma TextFieldIff(s: Store, t: Store, k: Key, v: seq<byte>, lingers: bool)
    requires 0 < |v| < WIFI_SIZE && (lingers ==> Field(k, v).Remove?)
    requires if lingers then Same(s, t, k)
             else match Field(k, v) case Write(_, u) => k in t && t[k] == u case Remove(_) => k !in t
    ensures (Readable(t, k, WIFI_SIZE) && Clip(StringAt(t, k), |v|) == CString(v))
            <==> (lingers ==> Readable(s, k, WIFI_SIZE) && StringAt(s, k) == [])
  {
    if !lingers {
      FieldText(t, k, v);
    }
  }

  lemma BssidFieldIff(s: Store, t: Store, v: seq<byte>, lingers: bool)
    requires |v| == 17 && (lingers ==> Field(ApBssid, v).Remove?)
    requires if lingers then Same(s, t, ApBssid)
             else match Field(ApBssid, v) case Write(_, u) => ApBssid in t && t[ApBssid] == u
                  case Remove(_) => ApBssid !in t
    ensures (Readable(t, ApBssid, WIFI_SIZE) && Bssid(t) == MacOf(CString(v)))
            <==> (lingers ==> Readable(s, ApBssid, WIFI_SIZE) && Bssid(s) == ([], NO_MAC))
  {
    if !lingers {
      FieldText(t, ApBssid, v);
      BssidField(t, v);
    }
  }

  lemma AuthFieldIff(s: Store, t: Store, auth: int, lingers: bool)
    requires lingers ==> !(0 <= auth <= 8)
    requires if lingers then Same(s, t, ApAuthType)
             else if 0 <= auth <= 8 then ApAuthType in t && t[ApAuthType] == Decimal(auth) else ApAuthType !in t
    ensures (Readable(t, ApAuthType, WIFI_SIZE) && AuthIn(t) == if 0 <= auth <= 8 then auth else -1)
            <==> (lingers ==> Readable(s, ApAuthType, WIFI_SIZE) && AuthIn(s) == -1)
  {
    if !lingers && 0 <= auth <= 8 {
      DecimalReadsBack(auth);
      WholeString(Decimal(auth));
      DigitsAreFew(auth);
    }
  }

  /** What is in which key after a completed set. */
  lemma StoredWifi(s: Store, w: WifiProv, fates: seq<Fate>)
    requires WifiStruct(w) && RemovalsWork(WifiOps(w), fates) && Commit(s, WifiOps(w), fates).1 == Completed
    ensures var t := Commit(s, WifiOps(w), fates).0;
            && WifiStatus in t && t[WifiStatus] == Ascii("DONE")
            && (if w.ssid[0] == 0 then ApSsid !in t else ApSsid in t && t[ApSsid] == w.ssid[..32])
            && (if w.password[0] == 0 then ApPass !in t else ApPass in t && t[ApPass] == w.password[..64])
            && (if w.macStr[0] == 0 then ApBssid !in t else ApBssid in t && t[ApBssid] == w.macStr[..17])
            && (if 0 <= w.securityType <= 8 then ApAuthType in t && t[ApAuthType] == [48 + w.securityType]
                else ApAuthType !in t)
  {
    hide Commit, Lingers;
    var ops, t := WifiOps(w), Commit(s, WifiOps(w), fates).0;
    FieldKeys(w);
    CommitLast(s, ops, fates, 1);
    CommitLast(s, ops, fates, 2);
    CommitLast(s, ops, fates, 3);
    CommitLast(s, ops, fates, 4);
    CommitLast(s, ops, fates, 5);
    NoneLingers(ops, fates);
  }

  lemma NoneLingers(ops: seq<Op>, fates: seq<Fate>)
    requires RemovalsWork(ops, fates)
    ensures forall i :: 0 <= i < |ops| ==> !Lingers(ops, fates, i)
  {
  }

  lemma StoredCloud(s: Store, c: CloudProv, fates: seq<Fate>)
    requires CloudStruct(c) && RemovalsWork(CloudOps(c), fates) && Commit(s, CloudOps(c), fates).1 == Completed
    ensures var t := Commit(s, CloudOps(c), fates).0;
            && CloudStatus in t && t[CloudStatus] == Ascii("DONE")
            && (if c.url == None then ServerUrl !in t else ServerUrl in t && t[ServerUrl] == c.url.value)
            && (if c.name == None then DeviceLabel !in t else DeviceLabel in t && t[DeviceLabel] == c.name.value)
            && ServerPort in t && t[ServerPort] == Decimal(c.port)
  {
    hide Commit, Lingers, Decimal;
    CloudFields(s, c, fates);
    NoneLingers(CloudOps(c), fates);
  }

  /** The address that is read: the text stored, when it is one, or the six bytes of an older record with
      their text; otherwise none. */
  lemma AddressRead(s: Store, r: WifiRecord)
    requires WifiIn(s) == Some(r)
    ensures ApBssid !in s ==> r.mac == [] && r.bssid == [0, 0, 0, 0, 0, 0]
    ensures ApBssid in s ==>
              var v := s[ApBssid];
              if |v| >= 17 then
                if 0 !in v[..17] && ValidMac(v[..17]) then r.mac == v[..17] && r.bssid == MacValue(v[..17])
                else r.mac == [] && r.bssid == [0, 0, 0, 0, 0, 0]
              else if |v| >= 6 then r.bssid == v[..6] && ValidMac(r.mac) && MacValue(r.mac) == v[..6]
              else r.mac == [] && r.bssid == [0, 0, 0, 0, 0, 0]
  {
    hide CString, ValidMac, MacValue, MacText;
    if ApBssid in s && |s[ApBssid]| >= 17 {
      TextOfAddress(s[ApBssid][..17]);
    } else if ApBssid in s && |s[ApBssid]| >= 6 {
      ParsePrintMac(s[ApBssid][..6]);
    }
  }

  lemma TextOfAddress(v: seq<byte>)
    requires |v| == 17
    ensures if 0 !in v then CString(v) == v else !ValidMac(CString(v))
  {
    if 0 !in v {
      WholeString(v);
    }
  }

  /** A removal that fails is not noticed. A completed set reads back exactly if and only if whatever
      such removals left behind reads as if it were not there. */
  lemma WifiReadsBackIff(s: Store, w: WifiProv, fates: seq<Fate>)
    requires WifiStruct(w) && Commit(s, WifiOps(w), fates).1 == Completed
    ensures WifiIn(Commit(s, WifiOps(w), fates).0) == Some(Meaning(w)) <==> WifiLingersUnseen(s, w, fates)
  {
    hide CString, StringAt, Commit, Field, Bssid, MacOf, Decimal, AuthIn, Readable, Lingers, Clip;
    var ops, t := WifiOps(w), Commit(s, WifiOps(w), fates).0;
    FieldKeys(w);
    WifiKeyOnce(w);
    CommitLast(s, ops, fates, 1);
    CommitLast(s, ops, fates, 2);
    CommitLast(s, ops, fates, 3);
    CommitLast(s, ops, fates, 4);
    CommitLast(s, ops, fates, 5);
    LingersIsRemoval(ops, fates);
    TextFieldIff(s, t, ApSsid, w.ssid[..32], Lingers(ops, fates, 1));
    TextFieldIff(s, t, ApPass, w.password[..64], Lingers(ops, fates, 2));
    BssidFieldIff(s, t, w.macStr[..17], Lingers(ops, fates, 3));
    AuthFieldIff(s, t, w.securityType, Lingers(ops, fates, 4));
    assert IsDone(t, WifiStatus, WIFI_SIZE);
    WifiReads(t, Meaning(w));
  }

  /** What a get returns when the removal of the SSID fails: the new record with the old SSID. */
  lemma FailedRemovalMixes(s: Store, w: WifiProv, fates: seq<Fate>)
    requires WifiStruct(w) && Commit(s, WifiOps(w), fates).1 == Completed
    requires Lingers(WifiOps(w), fates, 1) && Readable(s, ApSsid, WIFI_SIZE)
    requires forall i :: 2 <= i < 5 ==> !Lingers(WifiOps(w), fates, i)
    ensures WifiIn(Commit(s, WifiOps(w), fates).0) == Some(Meaning(w).(ssid := Clip(StringAt(s, ApSsid), 32)))
  {
    hide CString, StringAt, Commit, Field, Bssid, MacOf, Decimal, AuthIn, Readable, Lingers, Clip;
    var ops, t := WifiOps(w), Commit(s, WifiOps(w), fates).0;
    FieldKeys(w);
    WifiKeyOnce(w);
    CommitLast(s, ops, fates, 1);
    CommitLast(s, ops, fates, 2);
    CommitLast(s, ops, fates, 3);
    CommitLast(s, ops, fates, 4);
    CommitLast(s, ops, fates, 5);
    SameReads(s, t, ApSsid);
    TextFieldIff(s, t, ApPass, w.password[..64], false);
    BssidFieldIff(s, t, w.macStr[..17], false);
    AuthFieldIff(s, t, w.securityType, false);
    assert IsDone(t, WifiStatus, WIFI_SIZE);
    WifiReads(t, Meaning(w).(ssid := Clip(StringAt(s, ApSsid), 32)));
  }

  lemma SameReads(s: Store, t: Store, k: Key)
    requires Same(s, t, k)
    ensures StringAt(s, k) == StringAt(t, k) && (Readable(s, k, WIFI_SIZE) <==> Readable(t, k, WIFI_SIZE))
  {
  }

  /** A store and a set that completes and reads back as a mix. */
  lemma MixedRecord()
    ensures var s: Store := map[ApSsid := [65]];
            var w := WifiProv(seq(33, i => 0), [66] + seq(64, i => 0), seq(18, i => 0), 0);
            var (t, e) := Commit(s, WifiOps(w), [Succeeds, Fails]);
            && e == Completed && Meaning(w).ssid == []
            && WifiIn(t) == Some(Meaning(w).(ssid := [65])) && WifiIn(t) != Some(Meaning(w))
  {
    hide Commit, Decimal;
    var s: Store := map[ApSsid := [65]];
    var w := WifiProv(seq(33, i => 0), [66] + seq(64, i => 0), seq(18, i => 0), 0);
    var ops, fates := WifiOps(w), [Succeeds, Fails];
    AllSucceed(s, ops, fates);
    assert CString([65]) == [65] by {
      WholeString([65]);
    }
    FailedRemovalMixes(s, w, fates);
  }

  lemma {:induction false} AllSucceed(s: Store, ops: seq<Op>, fates: seq<Fate>)
    requires forall i :: 0 <= i < |ops| ==> FateOf(fates, i) != PowerLoss
    requires forall i :: 0 <= i < |ops| && ops[i].Write? ==> FateOf(fates, i) == Succeeds && ops[i].value != []
    ensures Commit(s, ops, fates).1 == Completed
    decreases |ops|
  {
    if ops != [] {
      var rest := if fates == [] then [] else fates[1..];
      forall i | 0 <= i < |ops[1..]| ensures ops[1..][i] == ops[i + 1] && FateOf(rest, i) == FateOf(fates, i + 1) {
      }
      assert FateOf(fates, 0) != PowerLoss && (ops[0].Write? ==> FateOf(fates, 0) == Succeeds && ops[0].value != []);
      AllSucceed(s, ops[1..], rest);
      match ops[0]
      case Write(k, v) => AllSucceed(s[k := v], ops[1..], rest);
      case Remove(k) => AllSucceed(s - {k}, ops[1..], rest);
    }
  }

  lemma LingersIsRemoval(ops: seq<Op>, fates: seq<Fate>)
    ensures forall i :: 0 <= i < |ops| && Lingers(ops, fates, i) ==> ops[i].Remove?
  {
  }

  lemma WifiKeyOnce(w: WifiProv)
    requires WifiStruct(w)
    ensures var ops := WifiOps(w);
            forall i :: 1 <= i < 5 ==> Untouched(ops[..i], ops[i].key)
  {
  }

  /** A record is read exactly if each of its fields is. */
  lemma WifiReads(t: Store, r: WifiRecord)
    requires IsDone(t, WifiStatus, WIFI_SIZE)
    ensures WifiIn(t) == Some(r) <==>
              && Readable(t, ApSsid, WIFI_SIZE) && Clip(StringAt(t, ApSsid), 32) == r.ssid
              && Readable(t, ApPass, WIFI_SIZE) && Clip(StringAt(t, ApPass), 64) == r.password
              && Readable(t, ApBssid, WIFI_SIZE) && Bssid(t) == (r.mac, r.bssid)
              && Readable(t, ApAuthType, WIFI_SIZE) && AuthIn(t) == r.auth
  {
  }

  // ----- the code -----

  datatype Error = Ok | DataError | NotExist | InvalidArgs | BufferError | PowerOff

  function EndingOf(err: Error): Ending {
    if err == Ok then Completed else if err == PowerOff then Lost else Refused
  }

  /** A value that fills the reader's buffer has no room for the NUL after it. */
  predicate Terminated(s: Store, k: Key, size: nat) {
    k in s && |s[k]| == size ==> 0 in s[k]
  }

  /** The strings in the store can be read as C strings. */
  predicate Clean(s: Store) {
    && Terminated(s, ApSsid, WIFI_SIZE) && Terminated(s, ApPass, WIFI_SIZE) && Terminated(s, ApAuthType, WIFI_SIZE)
    && Terminated(s, ServerUrl, CLOUD_SIZE) && Terminated(s, ServerPort, CLOUD_SIZE)
    && Terminated(s, DeviceLabel, CLOUD_SIZE)
  }

  predicate CleanOps(ops: seq<Op>) {
    forall i :: 0 <= i < |ops| ==> ops[i].Write? ==>
      |ops[i].value| < WIFI_SIZE
      || (ops[i].key in {ServerUrl, ServerPort, DeviceLabel} && (|ops[i].value| != CLOUD_SIZE || 0 in ops[i].value))
  }

  lemma {:induction false} CommitKeepsClean(s: Store, ops: seq<Op>, fates: seq<Fate>)
    requires Clean(s) && CleanOps(ops)
    ensures Clean(Commit(s, ops, fates).0)
    decreases |ops|
  {
    if ops != [] {
      var rest := if fates == [] then [] else fates[1..];
      assert ops[0].Write? ==> |ops[0].value| < WIFI_SIZE || ops[0].key in {ServerUrl, ServerPort, DeviceLabel};
      var t := if ops[0].Write? then s[ops[0].key := ops[0].value] else s - {ops[0].key};
      CommitKeepsClean(t, ops[1..], rest);
      CommitKeepsClean(s, ops[1..], rest);
    }
  }

  lemma WifiOpsAreClean(w: WifiProv)
    requires WifiStruct(w)
    ensures CleanOps(WifiOps(w))
  {
    hide Decimal;
    if 0 <= w.securityType <= 8 {
      DigitsAreFew(w.securityType);
    }
  }

  lemma CloudOpsAreClean(c: CloudProv)
    requires CloudStruct(c) && !Full(c.url) && !Full(c.name)
    ensures CleanOps(CloudOps(c))
  {
    hide Decimal;
    PortIsShort(c.port);
  }

  lemma EraseOpsAreClean()
    ensures CleanOps(ERASE_OPS)
  {
  }

  /** After a completed set the store can be read exactly if neither string fills the reader's buffer. */
  lemma CleanAfterSetIff(s: Store, c: CloudProv, fates: seq<Fate>)
    requires Clean(s) && CloudStruct(c) && Commit(s, CloudOps(c), fates).1 == Completed
    ensures Clean(Commit(s, CloudOps(c), fates).0) <==> !Full(c.url) && !Full(c.name)
  {
    hide Commit, Decimal, CloudOps;
    if !Full(c.url) && !Full(c.name) {
      CloudOpsAreClean(c);
      CommitKeepsClean(s, CloudOps(c), fates);
    } else {
      CloudFields(s, c, fates);
    }
  }

  /** The storage with what is in store for its next operations. */
  class Storage {
    var store: Store
    var script: seq<Fate>

    /** The next fate. */
    method NextFate() returns (f: Fate)
      modifies this`script
      ensures f == FateOf(old(script), 0)
      ensures script == if old(script) == [] then [] else old(script)[1..]
    {
      f := Succeeds;
      if script != [] {
        f, script := script[0], script[1..];
      }
    }

    /** _iot_nv_write_data */
    method WriteData(k: Key, data: seq<byte>) returns (err: Error)
      modifies this
      ensures forall rest :: Commit(old(store), [Write(k, data)] + rest, old(script)) ==
                if err == Ok then Commit(store, rest, script) else (store, if err == PowerOff then Lost else Refused)
    {
      ghost var s0, f0 := store, script;
      var f := NextFate();
      match f {
        case PowerLoss => err := PowerOff;
        case Fails => err := DataError;
        case Succeeds =>
          if data == [] {
            err := InvalidArgs;
          } else {
            store := store[k := data];
            err := Ok;
          }
      }
      forall rest ensures Commit(s0, [Write(k, data)] + rest, f0) ==
          if err == Ok then Commit(store, rest, script) else (store, if err == PowerOff then Lost else Refused)
      {
        assert ([Write(k, data)] + rest)[1..] == rest;
      }
    }

    /** iot_nv_erase */
    method Erase(k: Key) returns (err: Error)
      modifies this
      ensures forall rest :: Commit(old(store), [Remove(k)] + rest, old(script)) ==
                if err == PowerOff then (store, Lost) else Commit(store, rest, script)
    {
      ghost var s0, f0 := store, script;
      var f := NextFate();
      match f {
        case PowerLoss => err := PowerOff;
        case Fails => err := DataError;
        case Succeeds =>
          err := if k in store then Ok else NotExist;
          store := store - {k};
      }
      forall rest ensures Commit(s0, [Remove(k)] + rest, f0) ==
          if err == PowerOff then (store, Lost) else Commit(store, rest, script)
      {
        assert ([Remove(k)] + rest)[1..] == rest;
      }
    }

    /** Write a string field, or erase it when it is empty. */
    method WriteField(k: Key, v: seq<byte>) returns (err: Error)
      modifies this
      ensures forall rest :: Commit(old(store), [Field(k, v)] + rest, old(script)) ==
                if err == Ok then Commit(store, rest, script) else (store, EndingOf(err))
    {
      if v == [] || v[0] == 0 {
        err := Erase(k);
        err := if err == PowerOff then PowerOff else Ok;
      } else {
        err := WriteData(k, v);
      }
    }

    /** iot_nv_set_wifi_prov_data */
    method SetWifi(w: WifiProv) returns (err: Error)
      requires WifiStruct(w)
      modifies this
      ensures Commit(old(store), WifiOps(w), old(script)) == (store, EndingOf(err))
    {
      hide Commit, Field, Decimal;
      ghost var ops := WifiOps(w);
      assert ops == [ops[0]] + ops[1..];
      err := WriteData(WifiStatus, NONE);
      if err != Ok {
        return;
      }
      assert ops[1..] == [ops[1]] + ops[2..];
      err := WriteField(ApSsid, w.ssid[..32]);
      if err != Ok {
        return;
      }
      assert ops[2..] == [ops[2]] + ops[3..];
      err := WriteField(ApPass, w.password[..64]);
      if err != Ok {
        return;
      }
      assert ops[3..] == [ops[3]] + ops[4..];
      err := WriteField(ApBssid, w.macStr[..17]);
      if err != Ok {
        return;
      }
      assert ops[4..] == [ops[4]] + ops[5..];
      if w.securityType < 0 || w.securityType > 8 {
        err := Erase(ApAuthType);
        if err == PowerOff {
          return;
        }
      } else {
        err := WriteData(ApAuthType, Decimal(w.securityType));
        if err != Ok {
          return;
        }
      }
      assert ops[5..] == [ops[5]] + [];
      err := WriteData(WifiStatus, DONE);
      NothingLeft(store, script);
    }

    lemma NothingLeft(s: Store, fates: seq<Fate>)
      ensures Commit(s, [], fates) == (s, Completed)
    {
    }

    method WriteOptional(k: Key, v: Option<seq<byte>>) returns (err: Error)
      modifies this
      ensures forall rest :: Commit(old(store), [Optional(k, v)] + rest, old(script)) ==
                if err == Ok then Commit(store, rest, script) else (store, EndingOf(err))
    {
      match v {
        case None =>
          err := Erase(k);
          err := if err == PowerOff then PowerOff else Ok;
        case Some(s) =>
          err := WriteData(k, s);
      }
    }

    /** iot_nv_set_cloud_prov_data */
    method SetCloud(c: CloudProv) returns (err: Error)
      modifies this
      ensures Commit(old(store), CloudOps(c), old(script)) == (store, EndingOf(err))
    {
      hide Commit, Optional, Decimal;
      ghost var ops := CloudOps(c);
      assert ops == [ops[0]] + ops[1..];
      err := WriteData(CloudStatus, NONE);
      if err != Ok {
        return;
      }
      assert ops[1..] == [ops[1]] + ops[2..];
      err := WriteOptional(ServerUrl, c.url);
      if err != Ok {
        return;
      }
      assert ops[2..] == [ops[2]] + ops[3..];
      err := WriteData(ServerPort, Decimal(c.port));
      if err != Ok {
        return;
      }
      assert ops[3..] == [ops[3]] + ops[4..];
      err := WriteOptional(DeviceLabel, c.name);
      if err != Ok {
        return;
      }
      assert ops[4..] == [ops[4]] + [];
      err := WriteData(CloudStatus, DONE);
      NothingLeft(store, script);
    }

    /** iot_nv_set_prov_data */
    method SetProv(w: WifiProv, c: CloudProv) returns (err: Error, ghost used: seq<Fate>)
      requires WifiStruct(w)
      modifies this
      ensures SetBoth(old(store), w, c, old(script), used) == (store, EndingOf(err))
    {
      hide Commit;
      err := SetWifi(w);
      used := script;
      if err == Ok {
        err := SetCloud(c);
      }
    }

    /** iot_nv_erase_prov_data */
    method EraseProv() returns (err: Error)
      modifies this
      ensures Commit(old(store), ERASE_OPS, old(script)) == (store, EndingOf(err))
    {
      hide Commit;
      assert ERASE_OPS == [ERASE_OPS[0]] + ERASE_OPS[1..];
      err := WriteData(WifiStatus, NONE);
      if err != Ok {
        return;
      }
      assert ERASE_OPS[1..] == [ERASE_OPS[1]] + [];
      err := WriteData(CloudStatus, NONE);
      NothingLeft(store, script);
    }

    /** _iot_nv_read_data: copy the value and, where there is room, put a NUL after it. */
    method ReadData(k: Key, data: array<byte>) returns (err: Error, len: nat)
      modifies this`script, data
      ensures err in {Ok, DataError, NotExist, BufferError}
      ensures err == Ok ==> k in store && len == |store[k]| <= data.Length && data[..len] == store[k]
      ensures err == Ok && len < data.Length ==> data[len] == 0
      ensures err == NotExist ==> k !in store
      ensures err == BufferError ==> !Readable(store, k, data.Length)
      ensures err == DataError ==> Succeeds != FateOf(old(script), 0)
      ensures script == if old(script) == [] then [] else old(script)[1..]
    {
      len := 0;
      var f := NextFate();
      if f != Succeeds {
        return DataError, 0;
      }
      if k !in store {
        return NotExist, 0;
      }
      var v := store[k];
      if data.Length < |v| {
        return BufferError, 0;
      }
      forall i | 0 <= i < |v| {
        data[i] := v[i];
      }
      if |v| < data.Length {
        data[|v|] := 0;
      }
      return Ok, |v|;
    }

    /** strlen */
    method StringLength(data: array<byte>) returns (n: nat)
      requires 0 in data[..]
      ensures n < data.Length && data[..n] == CString(data[..])
    {
      n := 0;
      while data[n] != 0
        invariant n < data.Length && 0 !in data[..n] && 0 in data[n..]
        decreases data.Length - n
      {
        assert data[n..] == [data[n]] + data[n + 1..];
        assert data[..n + 1] == data[..n] + [data[n]];
        n := n + 1;
      }
      CStringIs(data[..], n);
    }

    /** Read the value of k into the buffer and take it as a C string; None when there is none. */
    method ReadText(k: Key, data: array<byte>) returns (err: Error, text: Option<seq<byte>>)
      requires data.Length > 0 && Terminated(store, k, data.Length)
      modifies this`script, data
      ensures err == Ok ==> Readable(store, k, data.Length)
                            && text == if k in store then Some(CString(store[k])) else None
      ensures err != Ok ==> Failing(old(script)) || !Readable(store, k, data.Length)
      ensures Failing(script) ==> Failing(old(script))
    {
      var len;
      err, len := ReadData(k, data);
      if err == NotExist {
        return Ok, None;
      }
      if err != Ok {
        return err, None;
      }
      Ends(data[..], store[k]);
      var n := StringLength(data);
      text := Some(data[..n]);
    }

    lemma Ends(data: seq<byte>, v: seq<byte>)
      requires v <= data && (if |v| < |data| then data[|v|] == 0 else 0 in v)
      ensures 0 in data && CString(data) == CString(v)
    {
      var n := |CString(v)|;
      CStringIs(data, n);
    }

    ghost predicate Failing(fates: seq<Fate>) {
      exists i :: 0 <= i < |fates| && fates[i] != Succeeds
    }

    /** Read a status key and compare its first four characters with DONE. */
    method CheckDone(k: Key, data: array<byte>) returns (ok: bool)
      requires data.Length > 4
      modifies this`script, data
      ensures ok ==> IsDone(store, k, data.Length)
      ensures !ok ==> Failing(old(script)) || !IsDone(store, k, data.Length)
      ensures Failing(script) ==> Failing(old(script))
    {
      var err, len := ReadData(k, data);
      if err != Ok {
        return false;
      }
      ok := data[..4] == DONE;
      assert len >= 4 ==> store[k][..4] == data[..4];
      assert len < 4 ==> data[..4][len] == 0;
    }

    /** iot_nv_get_wifi_prov_data */
    method GetWifi() returns (err: Error, r: WifiRecord)
      requires Clean(store)
      modifies this`script
      ensures err == Ok ==> WifiIn(store) == Some(r)
      ensures err == Ok ==> forall h :: Honest(h) && h.store == store ==> h.wifi == Some(r)
      ensures err != Ok ==> Failing(old(script)) || WifiIn(store) == None
    {
      var data := new byte[WIFI_SIZE];
      var zero := WifiRecord([], [], [], NO_MAC, 0);
      var done := CheckDone(WifiStatus, data);
      if !done {
        return DataError, zero;
      }
      var text;
      err, text := ReadText(ApSsid, data);
      if err != Ok {
        return DataError, zero;
      }
      var ssid := Shortened(text, 32);
      err, text := ReadText(ApPass, data);
      if err != Ok {
        return DataError, zero;
      }
      var password := Shortened(text, 64);
      var mac, bssid;
      err, mac, bssid := ReadBssid(data);
      if err != Ok {
        return DataError, zero;
      }
      err, text := ReadText(ApAuthType, data);
      if err != Ok {
        return DataError, zero;
      }
      r := WifiRecord(ssid, password, mac, bssid, if text.None? then -1 else Atoi(text.value));
    }

    function Shortened(text: Option<seq<byte>>, n: nat): (r: seq<byte>)
      ensures r == Clip(if text.None? then [] else text.value, n)
    {
      match text
      case None => []
      case Some(t) => if |t| < n then t else t[..n]
    }

    /** The AP_BSSID branch of iot_nv_get_wifi_prov_data: a text of 17 characters, or six bytes. */
    method ReadBssid(data: array<byte>) returns (err: Error, mac: seq<byte>, bssid: seq<byte>)
      requires data.Length == WIFI_SIZE
      modifies this`script, data
      ensures err == Ok ==> Readable(store, ApBssid, data.Length) && (mac, bssid) == Bssid(store)
      ensures err != Ok ==> Failing(old(script)) || !Readable(store, ApBssid, data.Length)
      ensures Failing(script) ==> Failing(old(script))
    {
      mac, bssid := [], NO_MAC;
      var len;
      err, len := ReadData(ApBssid, data);
      if err == NotExist {
        return Ok, [], NO_MAC;
      }
      if err != Ok {
        return;
      }
      assert store[ApBssid] == data[..len];
      if len >= 17 {
        assert store[ApBssid][..17] == data[..17];
        var text := CString(data[..17]);
        var addr := new byte[6];
        var ok := ConvertStrMac(text, addr);
        if ok {
          mac, bssid := text, addr[..];
        }
      } else if len >= 6 {
        assert store[ApBssid][..6] == data[..6];
        var str := new byte[18];
        var ok := ConvertMacStr(data[..6], str, 18);
        assert str[..17] == MacText(data[..6]);
        mac, bssid := str[..17], data[..6];
      }
    }

    /** iot_nv_get_cloud_prov_data */
    method GetCloud() returns (err: Error, r: CloudProv)
      requires Clean(store)
      modifies this`script
      ensures err == Ok ==> CloudIn(store) == Some(r)
      ensures err == Ok ==> forall h :: Honest(h) && h.store == store ==> h.cloud == Some(r)
      ensures err != Ok ==> Failing(old(script)) || CloudIn(store) == None
    {
      var data := new byte[CLOUD_SIZE];
      r := CloudProv(None, 0, None);
      var done := CheckDone(CloudStatus, data);
      if !done {
        return DataError, r;
      }
      var url, port, name;
      err, url := ReadText(ServerUrl, data);
      if err != Ok {
        return DataError, r;
      }
      err, port := ReadText(ServerPort, data);
      if err != Ok {
        return DataError, r;
      }
      err, name := ReadText(DeviceLabel, data);
      if err != Ok {
        return DataError, r;
      }
      r := CloudProv(url, if port.None? then -1 else Atoi(port.value), name);
    }

    /** iot_nv_prov_data_exist: both statuses are exactly DONE. */
    method ProvDataExist() returns (exist: bool)
      modifies this`script
      ensures exist ==> WifiStatus in store && store[WifiStatus] == DONE
                        && CloudStatus in store && store[CloudStatus] == DONE
      ensures !exist ==> Failing(old(script)) || !(WifiStatus in store && store[WifiStatus] == DONE
                                                   && CloudStatus in store && store[CloudStatus] == DONE)
    {
      var data := new byte[4];
      var err, len := ReadData(WifiStatus, data);
      if err != Ok || len < 4 || data[..] != DONE {
        return false;
      }
      err, len := ReadData(CloudStatus, data);
      return err == Ok && len == 4 && data[..] == DONE;
    }
  }
}
