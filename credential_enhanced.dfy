/**
 * The enhanced credential store: validated Wi-Fi credential records kept in
 * a bounded list, with add-or-update, lookup, removal, a most-recent-first
 * SSID listing, conversion to and from the legacy station_config layout and
 * a JSON export that leaves the passwords out.
 */
module CredentialEnhanced {
  import opened ArduinoTypes
  import opened Wrappers
  import opened Errors
  import InputSanitizer
  import RAII

  // ---------------------------------------------------------------------
  // EnhancedCredential

  /** The SecureString capacities of a record: ssid(33) and password(64). */
  const SsidCapacity: nat := 33
  const PasswordCapacity: nat := 64

  /** The default lastRSSI, and the default argument of updateStats. */
  const UnknownRssi: i32 := -120

  /** What an ssid SecureString can hold: fewer characters than its capacity, no terminator. */
  type SsidText = s: string | |s| < SsidCapacity && Nul !in s

  /** What a password SecureString can hold. */
  type PasswordText = s: string | |s| < PasswordCapacity && Nul !in s

  type Bssid = b: seq<u8> | |b| == 6 witness [0, 0, 0, 0, 0, 0]

  /**
   * One saved network. The struct is copied by value wherever the store
   * hands it out or takes it in, so it is a value here.
   */
  datatype EnhancedCredential = EnhancedCredential(
    ssid: SsidText,
    password: PasswordText,
    bssid: Bssid,
    staticIP: IPv4,
    gateway: IPv4,
    subnet: IPv4,
    dns1: IPv4,
    dns2: IPv4,
    useStatic: bool,
    timestamp: u32,
    connectionCount: u32,
    lastRSSI: i32)

  /** The default constructor: empty strings, zero BSSID and addresses, DHCP, RSSI -120. */
  function NewCredential(): (c: EnhancedCredential)
    ensures c.ssid == [] && c.password == [] && !c.useStatic
    ensures c.timestamp == 0 && c.connectionCount == 0 && c.lastRSSI == UnknownRssi
    ensures forall i :: 0 <= i < 6 ==> c.bssid[i] == 0
    ensures c.staticIP == c.gateway == c.subnet == c.dns1 == c.dns2 == AnyAddress
  {
    EnhancedCredential([], [], [0, 0, 0, 0, 0, 0],
      AnyAddress, AnyAddress, AnyAddress, AnyAddress, AnyAddress,
      false, 0, 0, UnknownRssi)
  }

  /**
   * validate(): the four checks in order. The two "too long" checks can
   * never fire on a record, since the SecureString capacities already
   * bound the lengths to 32 and 63.
   */
  function Validate(c: EnhancedCredential): (r: ACResult)
    ensures r.IsSuccess() <==> InputSanitizer.IsValidSSID(c.ssid) && InputSanitizer.IsValidPassword(c.password)
    ensures r.IsError() ==> r.error == InvalidParameter
    ensures r.IsSuccess() ==> r.message == ""
    ensures c.ssid == [] ==> r.message == "SSID cannot be empty"
    ensures c.ssid != [] && 0 < |c.password| < InputSanitizer.MinPassphraseLength ==>
      r.message == "Password too short"
  {
    if |c.ssid| == 0 then ACResult(InvalidParameter, "SSID cannot be empty")
    else if |c.ssid| > 32 then ACResult(InvalidParameter, "SSID too long")
    else if |c.password| > 0 && |c.password| < 8 then ACResult(InvalidParameter, "Password too short")
    else if |c.password| > 63 then ACResult(InvalidParameter, "Password too long")
    else Of(Success)
  }

  /** The boundaries of validate(): open networks pass, 7 characters fail, 8 pass. */
  lemma ValidateBoundaries(c: EnhancedCredential)
    requires |c.ssid| == 1
    ensures |c.password| == 0 ==> Validate(c).IsSuccess()
    ensures |c.password| == 7 ==> Validate(c) == ACResult(InvalidParameter, "Password too short")
    ensures |c.password| == 8 ==> Validate(c).IsSuccess()
    ensures |c.password| == 63 ==> Validate(c).IsSuccess()
  {
  }

  /**
   * updateStats(rssi): stamps the record with the current millis() value
   * `now`, counts one more connection (uint32_t, so it wraps) and records
   * the signal strength.
   */
  function UpdateStats(c: EnhancedCredential, now: u32, rssi: i32): (r: EnhancedCredential)
    ensures r.timestamp == now && r.lastRSSI == rssi
    ensures (c.connectionCount + 1) % U32_LIMIT == r.connectionCount
    ensures c.connectionCount < U32_LIMIT - 1 ==> r.connectionCount == c.connectionCount + 1
    ensures r.(timestamp := c.timestamp, connectionCount := c.connectionCount, lastRSSI := c.lastRSSI) == c
  {
    var count := if c.connectionCount == U32_LIMIT - 1 then 0 else c.connectionCount + 1;
    c.(timestamp := now, connectionCount := count, lastRSSI := rssi)
  }

  /** updateStats keeps what validate() looks at, so a valid record stays valid. */
  lemma UpdateStatsKeepsValidity(c: EnhancedCredential, now: u32, rssi: i32)
    ensures Validate(UpdateStats(c, now, rssi)) == Validate(c)
  {
  }

  // ---------------------------------------------------------------------
  // Legacy station_config

  const LegacySsidSize: nat := 32
  const LegacyPasswordSize: nat := 64

  type SsidField = s: seq<char> | |s| == LegacySsidSize witness Zeros(32)
  type PasswordField = s: seq<char> | |s| == LegacyPasswordSize witness Zeros(64)

  datatype DhcpMode = StaDhcp | StaStatic

  /** The fields of the legacy station_config that the conversions touch. */
  datatype StationConfig = StationConfig(
    ssid: SsidField,
    password: PasswordField,
    bssid: Bssid,
    dhcp: DhcpMode,
    ip: IPv4,
    gateway: IPv4,
    netmask: IPv4,
    dns1: IPv4,
    dns2: IPv4)

  /**
   * toLegacy: zero the whole structure, strncpy the strings into their
   * fixed fields, copy the BSSID and mode, and the addresses only when the
   * record uses a static configuration.
   */
  function ToLegacy(c: EnhancedCredential): (legacy: StationConfig)
    ensures legacy.bssid == c.bssid
    ensures legacy.dhcp == StaStatic <==> c.useStatic
    ensures !c.useStatic ==> legacy.ip == legacy.gateway == legacy.netmask == legacy.dns1 == legacy.dns2 == AnyAddress
    ensures c.useStatic ==> legacy.ip == c.staticIP && legacy.gateway == c.gateway && legacy.netmask == c.subnet
    ensures c.useStatic ==> legacy.dns1 == c.dns1 && legacy.dns2 == c.dns2
  {
    var isStatic := c.useStatic;
    StationConfig(
      Strncpy(c.ssid, LegacySsidSize),
      Strncpy(c.password, LegacyPasswordSize),
      c.bssid,
      if isStatic then StaStatic else StaDhcp,
      if isStatic then c.staticIP else AnyAddress,
      if isStatic then c.gateway else AnyAddress,
      if isStatic then c.subnet else AnyAddress,
      if isStatic then c.dns1 else AnyAddress,
      if isStatic then c.dns2 else AnyAddress)
  }

  /**
   * Read back with c_str() within their fields, the legacy fields give the
   * record's strings; a 32-character SSID is the whole field.
   */
  lemma LegacyStringsReadBack(c: EnhancedCredential)
    ensures CString(ToLegacy(c).ssid) == c.ssid
    ensures CString(ToLegacy(c).password) == c.password
  {
    StrncpyRoundTrip(c.password, LegacyPasswordSize);
    if |c.ssid| < LegacySsidSize {
      StrncpyRoundTrip(c.ssid, LegacySsidSize);
    } else {
      StrncpyFillsField(c.ssid, LegacySsidSize);
    }
  }

  /**
   * fromLegacy, applied to the record `c`, with the SSID read bounded by
   * its 32-byte field (see FromLegacyAsWritten for the unbounded read of
   * the source): the strings are read as C strings and stored with SecureString::set, which refuses (and keeps the
   * old value) when a string does not fit its capacity; the addresses are
   * copied only for a static configuration, so the record keeps its own
   * otherwise.
   */
  function FromLegacy(c: EnhancedCredential, legacy: StationConfig): (r: EnhancedCredential)
    ensures r.ssid == CString(legacy.ssid)
    ensures |CString(legacy.password)| < PasswordCapacity ==> r.password == CString(legacy.password)
    ensures |CString(legacy.password)| >= PasswordCapacity ==> r.password == c.password
    ensures r.bssid == legacy.bssid
    ensures r.useStatic <==> legacy.dhcp == StaStatic
    ensures !r.useStatic ==> (r.staticIP, r.gateway, r.subnet, r.dns1, r.dns2) == (c.staticIP, c.gateway, c.subnet, c.dns1, c.dns2)
    ensures r.useStatic ==> (r.staticIP, r.gateway, r.subnet, r.dns1, r.dns2) == (legacy.ip, legacy.gateway, legacy.netmask, legacy.dns1, legacy.dns2)
    ensures (r.timestamp, r.connectionCount, r.lastRSSI) == (c.timestamp, c.connectionCount, c.lastRSSI)
  {
    var ssid: SsidText := CString(legacy.ssid);
    var pw := CString(legacy.password);
    var password: PasswordText := if |pw| < PasswordCapacity then pw else c.password;
    var isStatic := legacy.dhcp == StaStatic;
    c.(ssid := ssid, password := password, bssid := legacy.bssid, useStatic := isStatic,
       staticIP := if isStatic then legacy.ip else c.staticIP,
       gateway := if isStatic then legacy.gateway else c.gateway,
       subnet := if isStatic then legacy.netmask else c.subnet,
       dns1 := if isStatic then legacy.dns1 else c.dns1,
       dns2 := if isStatic then legacy.dns2 else c.dns2)
  }

  /** Converting to the legacy layout and back restores the record. */
  lemma LegacyRoundTrip(c: EnhancedCredential)
    ensures FromLegacy(c, ToLegacy(c)) == c
  {
    LegacyStringsReadBack(c);
  }

  /**
   * Loaded into any other record, the legacy form carries the strings, the
   * BSSID and the mode across, and the addresses when they are static.
   */
  lemma LegacyTransfer(c: EnhancedCredential, into: EnhancedCredential)
    ensures var r := FromLegacy(into, ToLegacy(c));
      r.ssid == c.ssid && r.password == c.password && r.bssid == c.bssid && r.useStatic == c.useStatic
      && (c.useStatic ==> (r.staticIP, r.gateway, r.subnet, r.dns1, r.dns2) == (c.staticIP, c.gateway, c.subnet, c.dns1, c.dns2))
  {
    LegacyStringsReadBack(c);
  }

  /** A 32-character SSID fills its legacy field and leaves no terminator there. */
  lemma LegacyFullSsidIsUnterminated(c: EnhancedCredential)
    requires |c.ssid| == LegacySsidSize
    ensures ToLegacy(c).ssid == c.ssid
    ensures Nul !in ToLegacy(c).ssid
  {
    StrncpyFillsField(c.ssid, LegacySsidSize);
  }

  /**
   * fromLegacy as written: `String(const char*)` reads the SSID up to the
   * first terminator in memory, and in station_config the 64-byte password
   * field directly follows the 32-byte SSID field. An unterminated SSID
   * field therefore runs on into the password, and SecureString::set
   * refuses the longer string whenever the password is non-empty. (When
   * the password field is unterminated too the read goes further still,
   * but it is refused all the same.)
   */
  function FromLegacyAsWritten(c: EnhancedCredential, legacy: StationConfig): (r: EnhancedCredential)
    ensures Nul in legacy.ssid ==> r == FromLegacy(c, legacy)
    ensures Nul !in legacy.ssid && CString(legacy.password) == [] ==> r == FromLegacy(c, legacy)
    ensures Nul !in legacy.ssid && CString(legacy.password) != [] ==> r == FromLegacy(c, legacy).(ssid := c.ssid)
  {
    CStringOfConcat(legacy.ssid, legacy.password);
    CStringOfNulFree(legacy.password[..|CString(legacy.password)|]);
    var read := CString(legacy.ssid + legacy.password);
    var ssid: SsidText := if |read| < SsidCapacity then read else c.ssid;
    FromLegacy(c, legacy).(ssid := ssid)
  }

  /**
   * As written, a 32-character SSID saved with a non-empty password is not
   * loaded back: the record keeps the SSID it had before the call.
   */
  lemma LegacyFullSsidLost(c: EnhancedCredential, into: EnhancedCredential)
    requires |c.ssid| == LegacySsidSize && c.password != []
    ensures FromLegacyAsWritten(into, ToLegacy(c)).ssid == into.ssid
    ensures into.ssid != c.ssid ==> FromLegacyAsWritten(into, ToLegacy(c)).ssid != FromLegacy(into, ToLegacy(c)).ssid
  {
    LegacyFullSsidIsUnterminated(c);
    LegacyStringsReadBack(c);
  }

  /**
   * As written, reloading a record's legacy form into the record itself
   * restores it: a refused 32-character SSID leaves the record's own SSID.
   */
  lemma LegacyRoundTripAsWritten(c: EnhancedCredential)
    ensures FromLegacyAsWritten(c, ToLegacy(c)) == c
  {
    LegacyRoundTrip(c);
    LegacyStringsReadBack(c);
    if |c.ssid| < LegacySsidSize {
      assert ToLegacy(c).ssid[LegacySsidSize - 1] == Nul;
    }
  }

  /**
   * As written, loading into another record carries the SSID across when it
   * is shorter than its field or the password is empty.
   */
  lemma LegacyTransferAsWritten(c: EnhancedCredential, into: EnhancedCredential)
    requires |c.ssid| < LegacySsidSize || c.password == []
    ensures FromLegacyAsWritten(into, ToLegacy(c)).ssid == c.ssid
  {
    LegacyTransfer(c, into);
    LegacyStringsReadBack(c);
    if |c.ssid| < LegacySsidSize {
      assert ToLegacy(c).ssid[LegacySsidSize - 1] == Nul;
    }
  }

  // ---------------------------------------------------------------------
  // The list the store keeps, as values

  /** A credential with this SSID is in the list. */
  predicate HasSsid(creds: seq<EnhancedCredential>, key: string)
  {
    exists k :: 0 <= k < |creds| && creds[k].ssid == key
  }

  /** std::find_if on the SSID: the position of the first record whose SSID equals `key`. */
  function IndexOfSsid(creds: seq<EnhancedCredential>, key: string): (r: Option<nat>)
    ensures r.Some? ==> r.value < |creds| && creds[r.value].ssid == key
    ensures r.Some? ==> forall j :: 0 <= j < r.value ==> creds[j].ssid != key
    ensures r.None? <==> !HasSsid(creds, key)
  {
    if creds == [] then None
    else if creds[0].ssid == key then Some(0)
    else
      match IndexOfSsid(creds[1..], key)
      case None =>
        assert forall k :: 1 <= k < |creds| ==> creds[k] == creds[1..][k - 1];
        None
      case Some(i) => Some(i + 1)
  }

  /**
   * std::min_element by timestamp: the position of the first record with
   * the smallest timestamp.
   */
  function IndexOfOldest(creds: seq<EnhancedCredential>): (r: nat)
    requires |creds| > 0
    ensures r < |creds|
    ensures forall j :: 0 <= j < |creds| ==> creds[r].timestamp <= creds[j].timestamp
    ensures forall j :: 0 <= j < r ==> creds[r].timestamp < creds[j].timestamp
  {
    if |creds| == 1 then 0
    else
      var best := IndexOfOldest(creds[..|creds| - 1]);
      assert forall j :: 0 <= j < |creds| - 1 ==> creds[..|creds| - 1][j] == creds[j];
      if creds[|creds| - 1].timestamp < creds[best].timestamp then |creds| - 1 else best
  }

  /** vector::erase at one position. */
  function RemoveAt(creds: seq<EnhancedCredential>, k: nat): (r: seq<EnhancedCredential>)
    requires k < |creds|
    ensures |r| == |creds| - 1
    ensures forall j :: 0 <= j < k ==> r[j] == creds[j]
    ensures forall j :: k <= j < |r| ==> r[j] == creds[j + 1]
  {
    creds[..k] + creds[k + 1..]
  }

  /** No two records share an SSID. */
  predicate UniqueSsids(creds: seq<EnhancedCredential>)
  {
    forall i, j :: 0 <= i < j < |creds| ==> creds[i].ssid != creds[j].ssid
  }

  predicate AllValid(creds: seq<EnhancedCredential>)
  {
    forall i :: 0 <= i < |creds| ==> Validate(creds[i]).IsSuccess()
  }

  /** What the store keeps true of its list: bounded, keyed by SSID, every record valid. */
  predicate StoreInvariant(creds: seq<EnhancedCredential>, maxCredentials: nat)
  {
    |creds| <= maxCredentials && UniqueSsids(creds) && AllValid(creds)
  }

  /**
   * The list after addCredential has accepted `c`: overwrite the record
   * with the same SSID in place; otherwise, when the list is full, erase the
   * oldest record first, then append.
   */
  function Upsert(creds: seq<EnhancedCredential>, c: EnhancedCredential, maxCredentials: nat): seq<EnhancedCredential>
    requires maxCredentials >= 1
  {
    match IndexOfSsid(creds, c.ssid)
    case Some(i) => creds[i := c]
    case None =>
      if |creds| >= maxCredentials then RemoveAt(creds, IndexOfOldest(creds)) + [c]
      else creds + [c]
  }

  /** Adding a known SSID overwrites that record where it stands and touches nothing else. */
  lemma UpsertUpdatesInPlace(creds: seq<EnhancedCredential>, c: EnhancedCredential, maxCredentials: nat, i: nat)
    requires maxCredentials >= 1
    requires i < |creds| && creds[i].ssid == c.ssid && UniqueSsids(creds)
    ensures |Upsert(creds, c, maxCredentials)| == |creds|
    ensures Upsert(creds, c, maxCredentials)[i] == c
    ensures forall j :: 0 <= j < |creds| && j != i ==> Upsert(creds, c, maxCredentials)[j] == creds[j]
  {
    var found := IndexOfSsid(creds, c.ssid);
    assert found == Some(i) by {
      assert found.Some?;
      if found.value != i {
        assert creds[found.value].ssid == creds[i].ssid;
      }
    }
  }

  /**
   * Adding a new SSID to a full list drops exactly the oldest record (the
   * first with the smallest timestamp) and appends the new one at the end,
   * keeping the size.
   */
  lemma UpsertEvictsOldest(creds: seq<EnhancedCredential>, c: EnhancedCredential, maxCredentials: nat)
    requires maxCredentials >= 1
    requires !HasSsid(creds, c.ssid) && |creds| >= maxCredentials
    ensures var k := IndexOfOldest(creds);
      Upsert(creds, c, maxCredentials) == creds[..k] + creds[k + 1..] + [c]
      && (forall j :: 0 <= j < |creds| ==> creds[k].timestamp <= creds[j].timestamp)
    ensures |Upsert(creds, c, maxCredentials)| == |creds|
  {
  }

  /** Adding a new SSID to a list with room appends it and keeps the rest. */
  lemma UpsertAppends(creds: seq<EnhancedCredential>, c: EnhancedCredential, maxCredentials: nat)
    requires maxCredentials >= 1
    requires !HasSsid(creds, c.ssid) && |creds| < maxCredentials
    ensures Upsert(creds, c, maxCredentials) == creds + [c]
  {
  }

  /**
   * Accepting a valid record keeps the store's invariant, and the record is
   * then the one a lookup of its SSID finds.
   */
  lemma UpsertPreservesInvariant(creds: seq<EnhancedCredential>, c: EnhancedCredential, maxCredentials: nat)
    requires maxCredentials >= 1
    requires StoreInvariant(creds, maxCredentials) && Validate(c).IsSuccess()
    ensures StoreInvariant(Upsert(creds, c, maxCredentials), maxCredentials)
    ensures var r := Upsert(creds, c, maxCredentials);
      IndexOfSsid(r, c.ssid).Some? && r[IndexOfSsid(r, c.ssid).value] == c
  {
    var r := Upsert(creds, c, maxCredentials);
    match IndexOfSsid(creds, c.ssid)
    case Some(i) =>
      ReplaceKeepsKeys(creds, i, c);
      LookupFindsUnique(r, i);
    case None =>
      var kept := creds;
      if |creds| >= maxCredentials {
        kept := RemoveAt(creds, IndexOfOldest(creds));
        RemoveAtKeepsKeys(creds, IndexOfOldest(creds), c.ssid);
      }
      assert r == kept + [c];
      AppendNewKey(kept, c);
      LookupFindsUnique(r, |r| - 1);
  }

  /** Overwriting a record with one of the same SSID keeps the list keyed and valid. */
  lemma ReplaceKeepsKeys(creds: seq<EnhancedCredential>, i: nat, c: EnhancedCredential)
    requires i < |creds| && creds[i].ssid == c.ssid && Validate(c).IsSuccess()
    requires UniqueSsids(creds) && AllValid(creds)
    ensures UniqueSsids(creds[i := c]) && AllValid(creds[i := c])
  {
    var r := creds[i := c];
    forall a, b | 0 <= a < b < |r| ensures r[a].ssid != r[b].ssid {
      assert r[a].ssid == creds[a].ssid && r[b].ssid == creds[b].ssid;
    }
  }

  /** Erasing one record keeps the list keyed and valid, and brings in no SSID. */
  lemma RemoveAtKeepsKeys(creds: seq<EnhancedCredential>, k: nat, key: string)
    requires k < |creds| && UniqueSsids(creds) && AllValid(creds)
    ensures UniqueSsids(RemoveAt(creds, k)) && AllValid(RemoveAt(creds, k))
    ensures HasSsid(RemoveAt(creds, k), key) ==> HasSsid(creds, key)
  {
    var r := RemoveAt(creds, k);
    forall a, b | 0 <= a < b < |r| ensures r[a].ssid != r[b].ssid {
      var a', b' := if a < k then a else a + 1, if b < k then b else b + 1;
      assert r[a] == creds[a'] && r[b] == creds[b'];
    }
    forall a | 0 <= a < |r| ensures Validate(r[a]).IsSuccess() {
      var a' := if a < k then a else a + 1;
      assert r[a] == creds[a'];
    }
    if HasSsid(r, key) {
      var a :| 0 <= a < |r| && r[a].ssid == key;
      var a' := if a < k then a else a + 1;
      assert creds[a'].ssid == key;
    }
  }

  /** Appending a valid record under a new SSID keeps the list keyed and valid. */
  lemma AppendNewKey(creds: seq<EnhancedCredential>, c: EnhancedCredential)
    requires UniqueSsids(creds) && AllValid(creds) && Validate(c).IsSuccess()
    requires !HasSsid(creds, c.ssid)
    ensures UniqueSsids(creds + [c]) && AllValid(creds + [c])
  {
    var r := creds + [c];
    forall a, b | 0 <= a < b < |r| ensures r[a].ssid != r[b].ssid {
      assert r[a] == creds[a];
      if b < |creds| {
        assert r[b] == creds[b];
      }
    }
  }

  /** In a list keyed by SSID, looking up a record's SSID finds that record. */
  lemma LookupFindsUnique(creds: seq<EnhancedCredential>, i: nat)
    requires UniqueSsids(creds) && i < |creds|
    ensures IndexOfSsid(creds, creds[i].ssid) == Some(i)
  {
    assert HasSsid(creds, creds[i].ssid);
  }

  /** A valid open-network record for `ssid`, last used at `timestamp`. */
  function Sample(ssid: SsidText, timestamp: u32): (c: EnhancedCredential)
    ensures c.ssid == ssid && c.timestamp == timestamp
    ensures ssid != [] ==> Validate(c).IsSuccess()
  {
    NewCredential().(ssid := ssid, timestamp := timestamp)
  }

  /**
   * With room for two, A used at 100 and B at 200, adding C evicts A, the
   * least recently used, and leaves B then C.
   */
  lemma EvictionExample()
    ensures Upsert([Sample("A", 100), Sample("B", 200)], Sample("C", 300), 2) == [Sample("B", 200), Sample("C", 300)]
  {
    var creds := [Sample("A", 100), Sample("B", 200)];
    assert !HasSsid(creds, "C") by {
      assert creds[0].ssid == "A" && creds[1].ssid == "B";
    }
    assert IndexOfOldest(creds) == 0;
  }

  // ---------------------------------------------------------------------
  // getAvailableSSIDs

  /** The SSIDs of the list, in list order. */
  function SsidsOf(creds: seq<EnhancedCredential>): (names: seq<string>)
    ensures |names| == |creds|
    ensures forall i :: 0 <= i < |creds| ==> names[i] == creds[i].ssid
  {
    seq(|creds|, i requires 0 <= i < |creds| => creds[i].ssid)
  }

  /** The timestamp the sort comparator finds for `key`; a missing SSID never occurs in the listing. */
  function TimestampOf(creds: seq<EnhancedCredential>, key: string): (t: nat)
    ensures HasSsid(creds, key) ==> t == creds[IndexOfSsid(creds, key).value].timestamp
  {
    match IndexOfSsid(creds, key)
    case Some(k) => creds[k].timestamp
    case None => 0
  }

  /** Most recently used first. */
  predicate RecencyOrdered(creds: seq<EnhancedCredential>, names: seq<string>)
  {
    forall i, j :: 0 <= i < j < |names| ==> TimestampOf(creds, names[i]) >= TimestampOf(creds, names[j])
  }

  /** Non-increasing in `rank`: the order the sort comparator `rank(a) > rank(b)` asks for. */
  predicate OrderedBy(rank: string -> nat, names: seq<string>)
  {
    forall i, j :: 0 <= i < j < |names| ==> rank(names[i]) >= rank(names[j])
  }

  /** Places `key` before the first entry of lower rank: one step of the sort. */
  function InsertBy(rank: string -> nat, sorted: seq<string>, key: string): (r: seq<string>)
    ensures multiset(r) == multiset(sorted) + multiset{key}
  {
    if sorted == [] then [key]
    else if rank(sorted[0]) >= rank(key) then
      assert sorted == [sorted[0]] + sorted[1..];
      [sorted[0]] + InsertBy(rank, sorted[1..], key)
    else [key] + sorted
  }

  /** Inserting into an ordered list keeps it ordered. */
  lemma {:induction false} InsertByKeepsOrder(rank: string -> nat, sorted: seq<string>, key: string)
    requires OrderedBy(rank, sorted)
    ensures OrderedBy(rank, InsertBy(rank, sorted, key))
  {
    if sorted == [] {
    } else if rank(sorted[0]) >= rank(key) {
      var rest := InsertBy(rank, sorted[1..], key);
      InsertByKeepsOrder(rank, sorted[1..], key);
      HeadDominatesInsert(rank, sorted, key, rest);
      ConsKeepsOrder(rank, sorted[0], rest);
    } else {
      ConsKeepsOrder(rank, key, sorted);
    }
  }

  /** A head that ranks at least as high as the key ranks at least as high as the rest with the key inserted. */
  lemma HeadDominatesInsert(rank: string -> nat, sorted: seq<string>, key: string, rest: seq<string>)
    requires OrderedBy(rank, sorted) && sorted != [] && rank(sorted[0]) >= rank(key)
    requires rest == InsertBy(rank, sorted[1..], key)
    ensures forall j :: 0 <= j < |rest| ==> rank(sorted[0]) >= rank(rest[j])
  {
    var tail := sorted[1..];
    forall j | 0 <= j < |rest| ensures rank(sorted[0]) >= rank(rest[j]) {
      assert rest[j] in multiset(rest);
      if rest[j] != key {
        assert rest[j] in multiset(tail);
        var m :| 0 <= m < |tail| && tail[m] == rest[j];
        assert sorted[m + 1] == rest[j];
      }
    }
  }

  /** An ordered list stays ordered under a head that ranks at least as high as each of its elements. */
  lemma ConsKeepsOrder(rank: string -> nat, head: string, rest: seq<string>)
    requires OrderedBy(rank, rest)
    requires forall j :: 0 <= j < |rest| ==> rank(head) >= rank(rest[j])
    ensures OrderedBy(rank, [head] + rest)
  {
    var r := [head] + rest;
    forall i, j | 0 <= i < j < |r| ensures rank(r[i]) >= rank(r[j]) {
      assert r[j] == rest[j - 1];
      if i > 0 {
        assert r[i] == rest[i - 1];
      }
    }
  }

  // ---------------------------------------------------------------------
  // exportToJSON

  function BoolText(b: bool): string
  {
    if b then "true" else "false"
  }

  /** The four appendFormat pieces of one record, as their format strings produce them. */
  function SsidPiece(c: EnhancedCredential): string
  {
    "\"ssid\":\"" + InputSanitizer.SanitizeHTML(c.ssid) + "\","
  }

  function UseStaticPiece(c: EnhancedCredential): string
  {
    "\"useStatic\":" + BoolText(c.useStatic) + ","
  }

  function TimestampPiece(c: EnhancedCredential): string
  {
    "\"timestamp\":" + FormatUnsigned(c.timestamp) + ","
  }

  function CountPiece(c: EnhancedCredential): string
  {
    "\"connectionCount\":" + FormatUnsigned(c.connectionCount)
  }

  /** One exported record: its SSID (HTML-escaped), mode and statistics, and never its password. */
  function Entry(c: EnhancedCredential): string
  {
    "{" + SsidPiece(c) + UseStaticPiece(c) + TimestampPiece(c) + CountPiece(c) + "}"
  }

  /** The records' entries, comma-separated, in list order. */
  function Entries(creds: seq<EnhancedCredential>): string
  {
    if creds == [] then ""
    else Entries(creds[..|creds| - 1]) + (if |creds| > 1 then "," else "") + Entry(creds[|creds| - 1])
  }

  function ExportJson(creds: seq<EnhancedCredential>): string
  {
    "{\"credentials\":[" + Entries(creds) + "]}"
  }

  /**
   * No piece reaches the 256-byte formatting buffer, and none holds a
   * terminator, so appendFormat passes each through whole.
   */
  lemma PiecesFit(c: EnhancedCredential)
    ensures |SsidPiece(c)| < RAII.FormatBufferSize && CString(SsidPiece(c)) == SsidPiece(c)
    ensures |UseStaticPiece(c)| < RAII.FormatBufferSize && CString(UseStaticPiece(c)) == UseStaticPiece(c)
    ensures |TimestampPiece(c)| < RAII.FormatBufferSize && CString(TimestampPiece(c)) == TimestampPiece(c)
    ensures |CountPiece(c)| < RAII.FormatBufferSize && CString(CountPiece(c)) == CountPiece(c)
  {
    SsidPieceFits(c);
    UseStaticPieceFits(c);
    TimestampPieceFits(c);
    CountPieceFits(c);
  }

  lemma SsidPieceFits(c: EnhancedCredential)
    ensures |SsidPiece(c)| < RAII.FormatBufferSize && CString(SsidPiece(c)) == SsidPiece(c)
  {
    InputSanitizer.SanitizeHTMLProperties(c.ssid);
    PieceFits("\"ssid\":\"", InputSanitizer.SanitizeHTML(c.ssid), "\",");
  }

  lemma UseStaticPieceFits(c: EnhancedCredential)
    ensures |UseStaticPiece(c)| < RAII.FormatBufferSize && CString(UseStaticPiece(c)) == UseStaticPiece(c)
  {
    PieceFits("\"useStatic\":", BoolText(c.useStatic), ",");
  }

  lemma TimestampPieceFits(c: EnhancedCredential)
    ensures |TimestampPiece(c)| < RAII.FormatBufferSize && CString(TimestampPiece(c)) == TimestampPiece(c)
  {
    FormatUnsignedLength(c.timestamp);
    PieceFits("\"timestamp\":", FormatUnsigned(c.timestamp), ",");
  }

  lemma CountPieceFits(c: EnhancedCredential)
    ensures |CountPiece(c)| < RAII.FormatBufferSize && CString(CountPiece(c)) == CountPiece(c)
  {
    FormatUnsignedLength(c.connectionCount);
    PieceFits("\"connectionCount\":", FormatUnsigned(c.connectionCount), "");
  }

  /** A terminator-free piece that fits the formatting buffer is passed through whole. */
  lemma PieceFits(prefix: string, value: string, suffix: string)
    requires Nul !in prefix && Nul !in value && Nul !in suffix
    requires |prefix| + |value| + |suffix| < RAII.FormatBufferSize
    ensures |prefix + value + suffix| < RAII.FormatBufferSize
    ensures CString(prefix + value + suffix) == prefix + value + suffix
  {
    CStringOfNulFree(prefix + value + suffix);
  }

  /** An empty store exports an empty array. */
  lemma ExportEmpty()
    ensures ExportJson([]) == "{\"credentials\":[]}"
  {
  }

  /**
   * The export of a record "Home" on DHCP, last used at 123 with four
   * connections, written out piece by piece; its password, whatever it
   * is, does not appear.
   */
  lemma ExportExample(c: EnhancedCredential)
    requires c.ssid == "Home" && !c.useStatic && c.timestamp == 123 && c.connectionCount == 4
    ensures ExportJson([c]) ==
      "{\"credentials\":[" + "{" + "\"ssid\":\"Home\"," + "\"useStatic\":false," + "\"timestamp\":123,"
      + "\"connectionCount\":4" + "}" + "]}"
  {
    ExampleSsidPiece(c);
    ExampleStatisticsPieces(c);
    SingleEntry(c);
  }

  lemma ExampleSsidPiece(c: EnhancedCredential)
    requires c.ssid == "Home"
    ensures SsidPiece(c) == "\"ssid\":\"" + "Home" + "\","
  {
    InputSanitizer.SanitizeHTMLLeavesPlainText(c.ssid);
  }

  lemma ExampleStatisticsPieces(c: EnhancedCredential)
    requires !c.useStatic && c.timestamp == 123 && c.connectionCount == 4
    ensures UseStaticPiece(c) == "\"useStatic\":false,"
    ensures TimestampPiece(c) == "\"timestamp\":123,"
    ensures CountPiece(c) == "\"connectionCount\":4"
  {
    FormatExamples();
  }

  lemma FormatExamples()
    ensures FormatUnsigned(123) == "123" && FormatUnsigned(4) == "4"
  {
    assert FormatUnsigned(12) == "12" by {
      assert FormatUnsigned(1) == "1";
    }
  }

  lemma SingleEntry(c: EnhancedCredential)
    ensures Entries([c]) == Entry(c)
  {
    assert [c][..0] == [];
  }

  /** The parts of a record the export shows. */
  predicate SamePublicFields(a: EnhancedCredential, b: EnhancedCredential)
  {
    a.ssid == b.ssid && a.useStatic == b.useStatic && a.timestamp == b.timestamp && a.connectionCount == b.connectionCount
  }

  /**
   * The export depends only on each record's SSID, mode, timestamp and
   * count: passwords, BSSIDs, addresses and RSSI never reach it.
   */
  lemma {:induction false} ExportShowsOnlyPublicFields(a: seq<EnhancedCredential>, b: seq<EnhancedCredential>)
    requires |a| == |b|
    requires forall i :: 0 <= i < |a| ==> SamePublicFields(a[i], b[i])
    ensures ExportJson(a) == ExportJson(b)
  {
    EntriesShowOnlyPublicFields(a, b);
  }

  lemma {:induction false} EntriesShowOnlyPublicFields(a: seq<EnhancedCredential>, b: seq<EnhancedCredential>)
    requires |a| == |b|
    requires forall i :: 0 <= i < |a| ==> SamePublicFields(a[i], b[i])
    ensures Entries(a) == Entries(b)
  {
    if a != [] {
      EntriesShowOnlyPublicFields(a[..|a| - 1], b[..|b| - 1]);
      assert Entry(a[|a| - 1]) == Entry(b[|b| - 1]);
    }
  }

  /** In particular, changing any stored password leaves the export as it was. */
  lemma ExportIgnoresPasswords(creds: seq<EnhancedCredential>, i: nat, password: PasswordText)
    requires i < |creds|
    ensures ExportJson(creds[i := creds[i].(password := password)]) == ExportJson(creds)
  {
    ExportShowsOnlyPublicFields(creds[i := creds[i].(password := password)], creds);
  }

  /** Erasing the record found for `key` from a list keyed by SSID leaves no record with that SSID. */
  lemma RemoveDeletesKey(creds: seq<EnhancedCredential>, key: string)
    requires UniqueSsids(creds) && HasSsid(creds, key)
    ensures !HasSsid(RemoveAt(creds, IndexOfSsid(creds, key).value), key)
    ensures |RemoveAt(creds, IndexOfSsid(creds, key).value)| == |creds| - 1
  {
  }

  lemma EntriesSnoc(creds: seq<EnhancedCredential>, i: nat)
    requires i < |creds|
    ensures Entries(creds[..i + 1]) == Entries(creds[..i]) + (if i > 0 then "," else "") + Entry(creds[i])
  {
    assert creds[..i + 1][..i] == creds[..i];
  }

  /** The six appends that write one record, in order. */
  function EntryParts(c: EnhancedCredential): seq<string>
  {
    ["{", SsidPiece(c), UseStaticPiece(c), TimestampPiece(c), CountPiece(c), "}"]
  }

  lemma EntryPartsConcat(c: EnhancedCredential)
    ensures RAII.Concat(EntryParts(c)) == Entry(c)
  {
    ConcatSix("{", SsidPiece(c), UseStaticPiece(c), TimestampPiece(c), CountPiece(c), "}");
  }

  lemma ConcatSix(p0: string, p1: string, p2: string, p3: string, p4: string, p5: string)
    ensures RAII.Concat([p0, p1, p2, p3, p4, p5]) == p0 + p1 + p2 + p3 + p4 + p5
  {
    assert [p0, p1, p2, p3, p4, p5] == [p0, p1, p2] + [p3, p4, p5];
    RAII.ConcatAppend([p0, p1, p2], [p3, p4, p5]);
    ConcatThree(p0, p1, p2);
    ConcatThree(p3, p4, p5);
  }

  lemma ConcatThree(p0: string, p1: string, p2: string)
    ensures RAII.Concat([p0, p1, p2]) == p0 + p1 + p2
  {
    var one: seq<string> := [p0];
    var two := one + [p1];
    assert two + [p2] == [p0, p1, p2];
    RAII.ConcatSnoc([], p0);
    assert [] + [p0] == one;
    RAII.ConcatSnoc(one, p1);
    RAII.ConcatSnoc(two, p2);
  }

  /** One pass of exportToJSON's loop: the document so far gains the entry of record `i`. */
  method AppendNextEntry(sb: RAII.StringBuilder, creds: seq<EnhancedCredential>, i: nat, ghost header: string)
    requires i < |creds| && sb.Valid()
    requires RAII.Concat(sb.parts) == header + Entries(creds[..i])
    modifies sb
    ensures sb.Valid()
    ensures RAII.Concat(sb.parts) == header + Entries(creds[..i + 1])
  {
    AppendEntry(sb, creds[i], i > 0);
    EntriesSnoc(creds, i);
    Regroup(header, Entries(creds[..i]), if i > 0 then "," else "", Entry(creds[i]));
  }

  lemma Regroup(h: string, e: string, sep: string, x: string)
    ensures h + e + sep + x == h + (e + sep + x)
  {
  }

  /** The separator, then the record's entry. */
  method AppendEntry(sb: RAII.StringBuilder, cred: EnhancedCredential, separated: bool)
    requires sb.Valid()
    modifies sb
    ensures sb.Valid()
    ensures RAII.Concat(sb.parts) == RAII.Concat(old(sb.parts)) + (if separated then "," else "") + Entry(cred)
  {
    if separated {
      sb.Append(",");
    }
    ghost var before := sb.parts;
    AppendRecord(sb, cred);
    RAII.ConcatAppend(before, EntryParts(cred));
    EntryPartsConcat(cred);
  }

  /** The record's entry: its braces around the four formatted pieces. */
  method AppendRecord(sb: RAII.StringBuilder, cred: EnhancedCredential)
    requires sb.Valid()
    modifies sb
    ensures sb.Valid()
    ensures sb.parts == old(sb.parts) + EntryParts(cred)
  {
    PiecesFit(cred);
    AppendBraced(sb, SsidPiece(cred), UseStaticPiece(cred), TimestampPiece(cred), CountPiece(cred));
  }

  /** append("{"), four appendFormat calls whose output fits the buffer, append("}"). */
  method AppendBraced(sb: RAII.StringBuilder, p1: string, p2: string, p3: string, p4: string)
    requires sb.Valid()
    requires |p1| < RAII.FormatBufferSize && CString(p1) == p1
    requires |p2| < RAII.FormatBufferSize && CString(p2) == p2
    requires |p3| < RAII.FormatBufferSize && CString(p3) == p3
    requires |p4| < RAII.FormatBufferSize && CString(p4) == p4
    modifies sb
    ensures sb.Valid()
    ensures sb.parts == old(sb.parts) + ["{", p1, p2, p3, p4, "}"]
  {
    ghost var start := sb.parts;
    sb.Append("{");
    AppendTwoFormatted(sb, p1, p2);
    AppendTwoFormatted(sb, p3, p4);
    sb.Append("}");
    Regroup6(start, "{", p1, p2, p3, p4, "}");
  }

  lemma Regroup6<T>(s: seq<T>, a: T, b: T, c: T, d: T, e: T, f: T)
    ensures s + [a] + [b, c] + [d, e] + [f] == s + [a, b, c, d, e, f]
  {
  }

  /** Two appendFormat calls whose output fits the buffer. */
  method AppendTwoFormatted(sb: RAII.StringBuilder, p: string, q: string)
    requires sb.Valid()
    requires |p| < RAII.FormatBufferSize && CString(p) == p
    requires |q| < RAII.FormatBufferSize && CString(q) == q
    modifies sb
    ensures sb.Valid()
    ensures sb.parts == old(sb.parts) + [p, q]
  {
    sb.AppendFormatted(p);
    sb.AppendFormatted(q);
  }

  /**
   * std::sort with the comparator `rank(a) > rank(b)`: the result is a
   * permutation of `names` in non-increasing rank. Equal ranks come out in
   * an order the sort does not fix; this one inserts each name after those
   * of equal rank.
   */
  method SortByRank(rank: string -> nat, names: seq<string>) returns (sorted: seq<string>)
    ensures multiset(sorted) == multiset(names)
    ensures OrderedBy(rank, sorted)
  {
    sorted := [];
    var j := 0;
    while j < |names|
      invariant 0 <= j <= |names|
      invariant multiset(sorted) == multiset(names[..j])
      invariant OrderedBy(rank, sorted)
    {
      InsertByKeepsOrder(rank, sorted, names[j]);
      sorted := InsertBy(rank, sorted, names[j]);
      assert names[..j + 1] == names[..j] + [names[j]];
      j := j + 1;
    }
    assert names[..j] == names;
  }

  // ---------------------------------------------------------------------
  // The store

  /**
   * AutoConnectCredentialEnhanced: the records in insertion order (with
   * in-place updates), an initialization flag and a fixed capacity.
   */
  class AutoConnectCredentialEnhanced {
    var credentials: seq<EnhancedCredential>
    var initialized: bool
    const maxCredentials: u32

    ghost predicate Valid()
      reads this
    {
      maxCredentials >= 1 && StoreInvariant(credentials, maxCredentials)
    }

    /** The store starts empty and uninitialized; the capacity defaults to 10 in the source. */
    constructor (maxCredentials: u32)
      requires maxCredentials >= 1
      ensures Valid()
      ensures credentials == [] && !initialized && this.maxCredentials == maxCredentials
    {
      credentials := [];
      initialized := false;
      this.maxCredentials := maxCredentials;
    }

    /** The storage back end is not part of the model: loading always succeeds and loads nothing. */
    function LoadExistingCredentials(): (r: ACResult)
      ensures r.IsSuccess() && r.message == ""
    {
      Of(Success)
    }

    /** The storage back end is not part of the model: saving always succeeds. */
    function SaveCredentials(): (r: ACResult)
      ensures r.IsSuccess() && r.message == ""
    {
      Of(Success)
    }

    /** initialize(): idempotent; a failed load would only be logged. */
    method Initialize() returns (r: ACResult)
      requires Valid()
      modifies this
      ensures Valid() && initialized && credentials == old(credentials)
      ensures r.IsSuccess()
      ensures old(initialized) ==> r.message == "Already initialized"
      ensures !old(initialized) ==> r.message == "Credential system initialized"
    {
      if initialized {
        return ACResult(Success, "Already initialized");
      }
      var loaded := LoadExistingCredentials();
      initialized := true;
      r := ACResult(Success, "Credential system initialized");
    }

    /** std::find_if over the records, comparing SSIDs with strcmp. */
    method Find(key: string) returns (index: Option<nat>)
      ensures index == IndexOfSsid(credentials, key)
    {
      var i := 0;
      while i < |credentials|
        invariant 0 <= i <= |credentials|
        invariant forall j :: 0 <= j < i ==> credentials[j].ssid != key
      {
        if credentials[i].ssid == key {
          var expected := IndexOfSsid(credentials, key);
          assert expected.Some? && expected.value == i by {
            assert HasSsid(credentials, key);
          }
          return Some(i);
        }
        i := i + 1;
      }
      return None;
    }

    /** std::min_element by timestamp: a strictly smaller timestamp moves the choice. */
    method FindOldest() returns (index: nat)
      requires |credentials| > 0
      ensures index == IndexOfOldest(credentials)
    {
      index := 0;
      var i := 1;
      assert credentials[..1] == [credentials[0]];
      while i < |credentials|
        invariant 1 <= i <= |credentials|
        invariant index == IndexOfOldest(credentials[..i])
      {
        assert credentials[..i + 1][..i] == credentials[..i];
        if credentials[i].timestamp < credentials[index].timestamp {
          index := i;
        }
        i := i + 1;
      }
      assert credentials[..i] == credentials;
    }

    /**
     * addCredential: a record that fails validation is refused with
     * validate()'s result; an uninitialized store refuses the rest; an
     * accepted record is upserted and the list saved.
     */
    method AddCredential(credential: EnhancedCredential) returns (r: ACResult)
      requires Valid()
      modifies this
      ensures Valid() && initialized == old(initialized)
      ensures !Validate(credential).IsSuccess() ==> r == Validate(credential) && credentials == old(credentials)
      ensures Validate(credential).IsSuccess() && !old(initialized) ==>
        r == ACResult(InvalidState, "Credential system not initialized") && credentials == old(credentials)
      ensures Validate(credential).IsSuccess() && old(initialized) ==>
        r.IsSuccess() && credentials == Upsert(old(credentials), credential, maxCredentials)
    {
      var validation := Validate(credential);
      if !validation.AsBool() {
        return validation;
      }
      if !initialized {
        return ACResult(InvalidState, "Credential system not initialized");
      }
      UpsertPreservesInvariant(credentials, credential, maxCredentials);
      ghost var expected := Upsert(credentials, credential, maxCredentials);
      var found := Find(credential.ssid);
      if found.Some? {
        credentials := credentials[found.value := credential];
      } else {
        if |credentials| >= maxCredentials {
          var oldest := FindOldest();
          credentials := RemoveAt(credentials, oldest);
        }
        credentials := credentials + [credential];
      }
      assert credentials == expected;
      r := SaveCredentials();
    }

    /**
     * getCredential: the record whose SSID equals the query's C string is
     * copied out; on every failure the caller's record is left as it was.
     */
    method GetCredential(ssid: string, credential: EnhancedCredential) returns (r: ACResult, result: EnhancedCredential)
      ensures ssid == [] ==> r == ACResult(InvalidParameter, "SSID cannot be empty")
      ensures ssid != [] && !initialized ==> r == ACResult(InvalidState, "Credential system not initialized")
      ensures ssid != [] && initialized && !HasSsid(credentials, CString(ssid)) ==>
        r == ACResult(CredentialLoadError, "Credential not found for SSID: " + ssid)
      ensures r.IsSuccess() <==> ssid != [] && initialized && HasSsid(credentials, CString(ssid))
      ensures r.IsSuccess() ==> result in credentials && result.ssid == CString(ssid)
      ensures r.IsSuccess() ==> result == credentials[IndexOfSsid(credentials, CString(ssid)).value]
      ensures !r.IsSuccess() ==> result == credential
    {
      result := credential;
      if |ssid| == 0 {
        return ACResult(InvalidParameter, "SSID cannot be empty"), result;
      }
      if !initialized {
        return ACResult(InvalidState, "Credential system not initialized"), result;
      }
      var found := Find(CString(ssid));
      if found.None? {
        return ACResult(CredentialLoadError, "Credential not found for SSID: " + ssid), result;
      }
      result := credentials[found.value];
      r := Of(Success);
    }

    /** removeCredential: erases the record found for the query and saves the list. */
    method RemoveCredential(ssid: string) returns (r: ACResult)
      requires Valid()
      modifies this
      ensures Valid() && initialized == old(initialized)
      ensures ssid == [] ==> r == ACResult(InvalidParameter, "SSID cannot be empty")
      ensures ssid != [] && !initialized ==> r == ACResult(InvalidState, "Credential system not initialized")
      ensures ssid != [] && initialized && !HasSsid(old(credentials), CString(ssid)) ==>
        r == ACResult(CredentialLoadError, "Credential not found for SSID: " + ssid)
      ensures r.IsSuccess() <==> ssid != [] && initialized && HasSsid(old(credentials), CString(ssid))
      ensures !r.IsSuccess() ==> credentials == old(credentials)
      ensures r.IsSuccess() ==>
        credentials == RemoveAt(old(credentials), IndexOfSsid(old(credentials), CString(ssid)).value)
        && !HasSsid(credentials, CString(ssid))
    {
      if |ssid| == 0 {
        return ACResult(InvalidParameter, "SSID cannot be empty");
      }
      if !initialized {
        return ACResult(InvalidState, "Credential system not initialized");
      }
      var found := Find(CString(ssid));
      if found.None? {
        return ACResult(CredentialLoadError, "Credential not found for SSID: " + ssid);
      }
      RemoveDeletesKey(credentials, CString(ssid));
      RemoveAtKeepsKeys(credentials, found.value, CString(ssid));
      credentials := credentials[..found.value] + credentials[found.value + 1..];
      r := SaveCredentials();
    }

    /**
     * getAvailableSSIDs: every stored SSID, most recently used first. The
     * SSIDs are copied out, then sorted with the comparator "timestamp of a
     * greater than timestamp of b".
     */
    method GetAvailableSSIDs() returns (ssids: seq<string>)
      ensures multiset(ssids) == multiset(SsidsOf(credentials))
      ensures RecencyOrdered(credentials, ssids)
    {
      var names := CopySsids();
      var creds := credentials;
      ssids := SortByRank((key: string) => TimestampOf(creds, key), names);
    }

    /** The loop that copies each record's SSID, read through c_str(), into the result vector. */
    method CopySsids() returns (names: seq<string>)
      ensures names == SsidsOf(credentials)
    {
      names := [];
      var i := 0;
      while i < |credentials|
        invariant 0 <= i <= |credentials|
        invariant names == SsidsOf(credentials[..i])
      {
        CStringOfNulFree(credentials[i].ssid);
        names := names + [CString(credentials[i].ssid)];
        i := i + 1;
      }
      assert credentials[..i] == credentials;
    }

    /** clearAll: empties the list whether or not the store was initialized. */
    method ClearAll() returns (r: ACResult)
      requires Valid()
      modifies this
      ensures Valid() && credentials == [] && initialized == old(initialized)
      ensures r.IsSuccess()
    {
      credentials := [];
      r := SaveCredentials();
    }

    function GetCredentialCount(): (n: nat)
      requires Valid()
      reads this
      ensures n == |credentials| && n <= maxCredentials
    {
      |credentials|
    }

    /**
     * exportToJSON: builds the document with a StringBuilder, one entry per
     * record in list order; the passwords are never written.
     */
    method ExportToJSON() returns (r: ACResult, json: string)
      ensures r.IsSuccess()
      ensures json == ExportJson(credentials)
    {
      var creds := credentials;
      var sb := new RAII.StringBuilder();
      sb.Append("{\"credentials\":[");
      ghost var header := RAII.Concat(sb.parts);
      assert header == "{\"credentials\":[";
      var i := 0;
      while i < |creds|
        invariant 0 <= i <= |creds|
        invariant sb.Valid()
        invariant RAII.Concat(sb.parts) == header + Entries(creds[..i])
      {
        AppendNextEntry(sb, creds, i, header);
        i := i + 1;
      }
      assert creds[..i] == creds;
      sb.Append("]}");
      json := sb.ToString();
      r := Of(Success);
    }
  }
}
