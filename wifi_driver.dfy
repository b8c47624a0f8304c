/**
  The WiFi driver of the ESP32 target: the connection state kept in
  `globalWiFiState` (`isConnecting`, `reconnectCount`, `connected`,
  `fromAp`), the event handler that moves it on radio and IP events, the
  three entry points that start a connection, an access point or a scan, and
  the text form of the station MAC address.

  Calls into ESP-IDF (connect, start, stop, configure, scan, restart, the
  captive DNS server) and the events posted on the event bus are not
  performed: every operation returns them, in order, as a sequence of
  `Effect` values.
*/
module WiFiDriver {
  import opened Basics
  import opened Format

  /** `wifi_auth_mode_t`: `WIFI_AUTH_OPEN` is its first value. */
  const WIFI_AUTH_OPEN: nat := 0

  /** The fields of a `wifi_ap_record_t` the handler reads; the SSID is already cut at its NUL. */
  datatype AccessPoint = AccessPoint(ssid: string, rssi: int, authmode: nat)

  /** A record cleared by `memset`: empty SSID, rssi 0, auth mode 0 (open). */
  const ZeroRecord := AccessPoint([], 0, 0)

  /** The value stored per network in the `scan_done` map: `{"rssi", "open"}`. */
  datatype NetworkInfo = NetworkInfo(rssi: int, open: bool)

  /** The events `event_handler` is registered for, with the data it reads from them. */
  datatype WiFiEvent =
    | StaStart
    | ApStart
      /** SCAN_DONE: what `esp_wifi_scan_get_ap_records` and `esp_wifi_scan_get_ap_num` report. */
    | ScanDone(records: seq<AccessPoint>, apCount: nat)
    | StaDisconnected
      /** IP_EVENT_STA_GOT_IP, with the address as `esp_ip4addr_ntoa` prints it. */
    | GotIp(ip: string)
      /** Any other WiFi event: the handler ignores it. */
    | Unhandled

  datatype Mode = Station | StationAndAccessPoint
  datatype Interface = StationInterface | AccessPointInterface

  /** The parts of a `wifi_config_t` the driver fills in beyond the constant base. */
  datatype Config =
    | StationConfig(ssid: string, password: string)
    | AccessPointConfig(ssid: string, password: string, ssidLen: nat)

  /** A call into ESP-IDF, or an event posted on the event bus (`publishWiFiEvent`). */
  datatype Effect =
    | Connect
    | Publish(eventType: string, networks: map<string, NetworkInfo>, ipAddr: string)
    | StartCaptiveDns
      /** `BELL_SLEEP_MS(1000)` followed by `esp_restart`. */
    | Restart
    | RadioStop
    | RadioStart
    | SetMode(mode: Mode)
    | SetConfig(iface: Interface, config: Config)
    | StartScan

  /** `publishWiFiEvent(eventType)` with the default empty network map and address. */
  function Notify(eventType: string): Effect
  {
    Publish(eventType, map[], "")
  }

  /** The fields of `WiFiState` the driver reads and writes. */
  datatype Flags = Flags(isConnecting: bool, reconnectCount: int, connected: bool, fromAp: bool)

  /** `MAX_RECONNECT_COUNT` and `DEFAULT_SCAN_LIST_SIZE`, fixed at build time. */
  datatype Limits = Limits(maxReconnect: nat, scanListSize: nat)

  datatype Reaction = Reaction(next: Flags, effects: seq<Effect>)

  /** The retry counter stays between 0 and the maximum. */
  predicate Bounded(s: Flags, limits: Limits)
  {
    0 <= s.reconnectCount <= limits.maxReconnect
  }

  /**
    `ap_info` after the handler clears it and `esp_wifi_scan_get_ap_records`
    copies at most `size` records into it.
  */
  function ScanTable(records: seq<AccessPoint>, size: nat): (t: seq<AccessPoint>)
    ensures |t| == size
  {
    seq(size, i requires 0 <= i < size => if i < |records| then records[i] else ZeroRecord)
  }

  /**
    The `networks` map after inserting the first `n` entries of `apInfo`,
    keyed by SSID; like `std::map::insert`, an SSID already present keeps its
    first entry.
  */
  function Networks(apInfo: seq<AccessPoint>, n: nat): (m: map<string, NetworkInfo>)
    requires n <= |apInfo|
    ensures |m| <= n
    decreases n
  {
    if n == 0 then map[]
    else
      var m := Networks(apInfo, n - 1);
      var ap := apInfo[n - 1];
      if ap.ssid in m then m else m[ap.ssid := NetworkInfo(ap.rssi, ap.authmode == WIFI_AUTH_OPEN)]
  }

  /** The first index among the first `n` records whose SSID is `ssid`. */
  predicate FirstWith(apInfo: seq<AccessPoint>, n: nat, ssid: string, j: nat)
    requires n <= |apInfo|
  {
    j < n && apInfo[j].ssid == ssid && forall k :: 0 <= k < j ==> apInfo[k].ssid != ssid
  }

  /** The map holds exactly the SSIDs of the first `n` records. */
  lemma {:induction false} NetworksKeys(apInfo: seq<AccessPoint>, n: nat)
    requires n <= |apInfo|
    ensures forall ssid :: ssid in Networks(apInfo, n) <==> exists j :: 0 <= j < n && apInfo[j].ssid == ssid
  {
    if n > 0 {
      NetworksKeys(apInfo, n - 1);
      forall ssid | ssid in Networks(apInfo, n)
        ensures exists j :: 0 <= j < n && apInfo[j].ssid == ssid
      {
        if ssid !in Networks(apInfo, n - 1) {
          assert apInfo[n - 1].ssid == ssid;
        }
      }
    }
  }

  /** Each SSID carries the rssi and openness of its first record. */
  lemma {:induction false} NetworksFirstRecord(apInfo: seq<AccessPoint>, n: nat, j: nat)
    requires j < n <= |apInfo|
    requires FirstWith(apInfo, n, apInfo[j].ssid, j)
    ensures apInfo[j].ssid in Networks(apInfo, n)
    ensures Networks(apInfo, n)[apInfo[j].ssid] == NetworkInfo(apInfo[j].rssi, apInfo[j].authmode == WIFI_AUTH_OPEN)
  {
    NetworksKeys(apInfo, n - 1);
    if j < n - 1 {
      NetworksFirstRecord(apInfo, n - 1, j);
    } else {
      assert apInfo[j].ssid !in Networks(apInfo, n - 1);
    }
  }

  /**
    `event_handler` on the state it finds: the new state and the calls and
    events it makes, in order.
  */
  function React(s: Flags, e: WiFiEvent, limits: Limits): (r: Reaction)
    ensures r.next.isConnecting ==> s.isConnecting
    ensures r.next.fromAp == (s.fromAp || (e.ApStart? && !s.isConnecting))
    ensures e.Unhandled? ==> r == Reaction(s, [])
  {
    match e
    case StaStart =>
      Reaction(s, if s.isConnecting then [Connect, Notify("connecting")] else [])
    case ApStart =>
      if s.isConnecting then Reaction(s, [])
      else Reaction(s.(fromAp := true), [Notify("ap_ready"), StartCaptiveDns])
    case ScanDone(records, apCount) =>
      var n := Min(limits.scanListSize, apCount);
      Reaction(s, [Publish("scan_done", Networks(ScanTable(records, limits.scanListSize), n), "")])
    case StaDisconnected =>
      if !s.isConnecting then Reaction(s, [])
      else if s.reconnectCount < limits.maxReconnect then
        Reaction(s.(isConnecting := true, reconnectCount := s.reconnectCount + 1), [Connect])
      else
        Reaction(s.(isConnecting := false, reconnectCount := 0), [Notify("no_ap")])
    case GotIp(ip) =>
      Reaction(s.(connected := true), [Publish("connected", map[], ip)] + if s.fromAp then [Restart] else [])
    case Unhandled =>
      Reaction(s, [])
  }

  /** The handler applied to a sequence of events, collecting every effect in order. */
  function Replay(s: Flags, events: seq<WiFiEvent>, limits: Limits): Reaction
    decreases |events|
  {
    if events == [] then Reaction(s, [])
    else
      var r := React(s, events[0], limits);
      var rest := Replay(r.next, events[1..], limits);
      Reaction(rest.next, r.effects + rest.effects)
  }

  /** A disconnect while connecting, below the maximum: one more retry, one reconnect. */
  lemma DisconnectRetries(s: Flags, limits: Limits)
    requires s.isConnecting && s.reconnectCount < limits.maxReconnect
    ensures React(s, StaDisconnected, limits) == Reaction(s.(reconnectCount := s.reconnectCount + 1), [Connect])
  {
  }

  /** A disconnect while connecting, at the maximum: give up, reset the count, publish `no_ap` once. */
  lemma DisconnectGivesUp(s: Flags, limits: Limits)
    requires s.isConnecting && s.reconnectCount >= limits.maxReconnect
    ensures React(s, StaDisconnected, limits) == Reaction(s.(isConnecting := false, reconnectCount := 0), [Notify("no_ap")])
  {
  }

  /** A disconnect while not connecting changes nothing and does nothing. */
  lemma DisconnectWhileIdle(s: Flags, limits: Limits)
    requires !s.isConnecting
    ensures React(s, StaDisconnected, limits) == Reaction(s, [])
  {
  }

  /** STA_START changes no state; it connects and publishes `connecting` exactly when connecting. */
  lemma StationStart(s: Flags, limits: Limits)
    ensures React(s, StaStart, limits).next == s
    ensures Connect in React(s, StaStart, limits).effects <==> s.isConnecting
    ensures Notify("connecting") in React(s, StaStart, limits).effects <==> s.isConnecting
  {
  }

  /** AP_START marks the start from the access point and publishes `ap_ready` exactly when not connecting. */
  lemma AccessPointStart(s: Flags, limits: Limits)
    ensures React(s, ApStart, limits).next.fromAp == (s.fromAp || !s.isConnecting)
    ensures React(s, ApStart, limits).next.(fromAp := s.fromAp) == s
    ensures Notify("ap_ready") in React(s, ApStart, limits).effects <==> !s.isConnecting
  {
  }

  /**
    SCAN_DONE changes no state and publishes one `scan_done` map, with at most
    `min(DEFAULT_SCAN_LIST_SIZE, ap_count)` networks, all among the records read.
  */
  lemma ScanDoneBound(s: Flags, records: seq<AccessPoint>, apCount: nat, limits: Limits)
    ensures var r := React(s, ScanDone(records, apCount), limits);
      && r.next == s
      && |r.effects| == 1 && r.effects[0].Publish? && r.effects[0].eventType == "scan_done"
      && |r.effects[0].networks| <= Min(limits.scanListSize, apCount)
      && forall ssid :: ssid in r.effects[0].networks ==>
           exists j :: 0 <= j < Min(limits.scanListSize, apCount) && ScanTable(records, limits.scanListSize)[j].ssid == ssid
  {
    NetworksKeys(ScanTable(records, limits.scanListSize), Min(limits.scanListSize, apCount));
  }

  /** Every event keeps the retry counter within its bounds. */
  lemma ReactKeepsBound(s: Flags, e: WiFiEvent, limits: Limits)
    requires Bounded(s, limits)
    ensures Bounded(React(s, e, limits).next, limits)
  {
  }

  /** Only IP_EVENT_STA_GOT_IP touches `connected`; it sets it, and nothing clears it. */
  lemma ConnectedOnlyByGotIp(s: Flags, e: WiFiEvent, limits: Limits)
    ensures React(s, e, limits).next.connected == (s.connected || e.GotIp?)
  {
  }

  /** A restart is requested exactly when an address arrives after a start from the access point. */
  lemma RestartOnlyFromAccessPoint(s: Flags, e: WiFiEvent, limits: Limits)
    ensures Restart in React(s, e, limits).effects <==> e.GotIp? && s.fromAp
  {
  }

  /** Over any run of events the counter stays bounded and `connected`, once set, stays set. */
  lemma {:induction false} ReplayInvariants(s: Flags, events: seq<WiFiEvent>, limits: Limits)
    requires Bounded(s, limits)
    ensures Bounded(Replay(s, events, limits).next, limits)
    ensures s.connected ==> Replay(s, events, limits).next.connected
    decreases |events|
  {
    if events != [] {
      ReactKeepsBound(s, events[0], limits);
      ConnectedOnlyByGotIp(s, events[0], limits);
      ReplayInvariants(React(s, events[0], limits).next, events[1..], limits);
    }
  }

  /**
    From `reconnectCount == k` while connecting, `max - k + 1` disconnects
    give `max - k` reconnects followed by a single `no_ap`, and leave the
    driver idle with the counter reset.
  */
  lemma {:induction false} DisconnectsUntilGiveUp(s: Flags, limits: Limits)
    requires s.isConnecting && 0 <= s.reconnectCount <= limits.maxReconnect
    ensures var n := limits.maxReconnect - s.reconnectCount;
      Replay(s, seq(n + 1, i => StaDisconnected), limits) ==
        Reaction(s.(isConnecting := false, reconnectCount := 0), seq(n, i => Connect) + [Notify("no_ap")])
    decreases limits.maxReconnect - s.reconnectCount
  {
    var n := limits.maxReconnect - s.reconnectCount;
    var events := seq(n + 1, i => StaDisconnected);
    if n == 0 {
      assert events[1..] == [];
      assert seq(n, i => Connect) == [];
    } else {
      var t := s.(reconnectCount := s.reconnectCount + 1);
      DisconnectsUntilGiveUp(t, limits);
      assert events[1..] == seq(n, i => StaDisconnected);
      assert seq(n, i => Connect) == [Connect] + seq(n - 1, i => Connect);
    }
  }

  /** After `tryToConnect`, exactly `MAX_RECONNECT_COUNT` retries precede `no_ap`. */
  lemma RetriesThenNoAp(connected: bool, fromAp: bool, limits: Limits)
    ensures var s := Flags(true, 0, connected, fromAp);
      Replay(s, seq(limits.maxReconnect + 1, i => StaDisconnected), limits) ==
        Reaction(Flags(false, 0, connected, fromAp), seq(limits.maxReconnect, i => Connect) + [Notify("no_ap")])
  {
    DisconnectsUntilGiveUp(Flags(true, 0, connected, fromAp), limits);
  }

  /** The `%02x:%02x:%02x:%02x:%02x:%02x` format of `getMacAddress`. */
  const MacFormat: seq<Directive> := [
    Hex02, Lit(":"), Hex02, Lit(":"), Hex02, Lit(":"), Hex02, Lit(":"), Hex02, Lit(":"), Hex02
  ]

  /** `getMacAddress`, given the six bytes `esp_read_mac` reports. */
  function MacAddress(mac: seq<byte>): (text: string)
    requires |mac| == 6
    ensures text == Colons(mac)
  {
    assert HexPairsFormat(2) == [Hex02, Lit(":"), Hex02];
    assert HexPairsFormat(4) == [Hex02, Lit(":"), Hex02, Lit(":")] + HexPairsFormat(2);
    assert HexPairsFormat(6) == [Hex02, Lit(":"), Hex02, Lit(":")] + HexPairsFormat(4);
    assert HexPairsFormat(6) == MacFormat;
    assert HexArgs(mac) == [Hex(mac[0]), Hex(mac[1]), Hex(mac[2]), Hex(mac[3]), Hex(mac[4]), Hex(mac[5])];
    SprintfHexPairs(mac);
    Sprintf(MacFormat, [Hex(mac[0]), Hex(mac[1]), Hex(mac[2]), Hex(mac[3]), Hex(mac[4]), Hex(mac[5])])
  }

  /** `k` conversions `%02x` separated by `:`. */
  function HexPairsFormat(k: nat): seq<Directive>
    requires k >= 1
  {
    if k == 1 then [Hex02] else [Hex02, Lit(":")] + HexPairsFormat(k - 1)
  }

  function HexArgs(bytes: seq<byte>): (args: seq<Arg>)
    ensures |args| == |bytes|
  {
    seq(|bytes|, i requires 0 <= i < |bytes| => Hex(bytes[i]))
  }

  /** The bytes as two-digit hexadecimal pairs joined by colons. */
  function Colons(bytes: seq<byte>): string
    requires |bytes| >= 1
    decreases |bytes|
  {
    if |bytes| == 1 then Hex2(bytes[0]) else Hex2(bytes[0]) + ":" + Colons(bytes[1..])
  }

  /** One `%02x:` step of the format. */
  lemma SprintfHexColon(x: nat, fmt: seq<Directive>, args: seq<Arg>)
    ensures Sprintf([Hex02, Lit(":")] + fmt, [Hex(x)] + args) == Hex2(x) + ":" + Sprintf(fmt, args)
  {
    assert ([Hex02, Lit(":")] + fmt)[1..] == [Lit(":")] + fmt;
    assert ([Lit(":")] + fmt)[1..] == fmt;
    assert Drop1([Hex(x)] + args) == args;
  }

  /** Formatting `k` bytes with `k` colon-separated `%02x` gives their colon-joined pairs. */
  lemma {:induction false} SprintfHexPairs(bytes: seq<byte>)
    requires |bytes| >= 1
    ensures Sprintf(HexPairsFormat(|bytes|), HexArgs(bytes)) == Colons(bytes)
    decreases |bytes|
  {
    if |bytes| == 1 {
      assert HexPairsFormat(1)[1..] == [];
      assert HexArgs(bytes)[0] == Hex(bytes[0]);
    } else {
      SprintfHexPairs(bytes[1..]);
      assert HexArgs(bytes) == [Hex(bytes[0])] + HexArgs(bytes[1..]);
      SprintfHexColon(bytes[0], HexPairsFormat(|bytes| - 1), HexArgs(bytes[1..]));
    }
  }

  /**
    The joined text has three characters per byte less the last colon: each
    pair at offset `3 * i` is the byte's `%02x`, a colon follows every pair but
    the last.
  */
  lemma {:induction false} ColonsLayout(bytes: seq<byte>)
    requires |bytes| >= 1
    ensures |Colons(bytes)| == 3 * |bytes| - 1
    ensures forall i :: 0 <= i < |bytes| ==> Colons(bytes)[3 * i..3 * i + 2] == Hex2(bytes[i])
    ensures forall i :: 0 <= i < |bytes| - 1 ==> Colons(bytes)[3 * i + 2] == ':'
    decreases |bytes|
  {
    Hex2OfByte(bytes[0]);
    if |bytes| > 1 {
      ColonsLayout(bytes[1..]);
      var rest := Colons(bytes[1..]);
      var t := Colons(bytes);
      assert t == Hex2(bytes[0]) + ":" + rest;
      forall i | 1 <= i < |bytes|
        ensures t[3 * i..3 * i + 2] == Hex2(bytes[i])
      {
        assert t[3 * i..3 * i + 2] == rest[3 * (i - 1)..3 * (i - 1) + 2];
        assert bytes[1..][i - 1] == bytes[i];
      }
      forall i | 1 <= i < |bytes| - 1
        ensures t[3 * i + 2] == ':'
      {
        assert t[3 * i + 2] == rest[3 * (i - 1) + 2];
      }
    }
  }

  /** Reads the six bytes back from the `xx:xx:xx:xx:xx:xx` text. */
  function ParseMac(text: string): seq<nat>
    requires |text| == 17
  {
    seq(6, i requires 0 <= i < 6 => ParseDigits(text[3 * i..3 * i + 2], 16))
  }

  /** Each pair of the joined text is two hexadecimal digits that read back as its byte. */
  lemma ColonsDigits(bytes: seq<byte>, i: nat)
    requires i < |bytes|
    ensures |Colons(bytes)| == 3 * |bytes| - 1
    ensures IsDigitIn(Colons(bytes)[3 * i], 16) && IsDigitIn(Colons(bytes)[3 * i + 1], 16)
    ensures ParseDigits(Colons(bytes)[3 * i..3 * i + 2], 16) == bytes[i]
  {
    ColonsLayout(bytes);
    Hex2OfByte(bytes[i]);
    var t := Colons(bytes);
    assert t[3 * i..3 * i + 2] == Hex2(bytes[i]);
    assert t[3 * i] == Hex2(bytes[i])[0] && t[3 * i + 1] == Hex2(bytes[i])[1];
  }

  /**
    The MAC text has 17 characters (it fits `macStr[18]` with its NUL): lower-case
    hexadecimal digit pairs at offsets 0, 3, ..., 15, colons between them, and
    each pair reads back as its byte.
  */
  lemma MacAddressLayout(mac: seq<byte>)
    requires |mac| == 6
    ensures |MacAddress(mac)| == 17
    ensures forall i :: 0 <= i < 5 ==> MacAddress(mac)[3 * i + 2] == ':'
    ensures forall i :: 0 <= i < 6 ==>
      IsDigitIn(MacAddress(mac)[3 * i], 16) && IsDigitIn(MacAddress(mac)[3 * i + 1], 16)
    ensures ParseMac(MacAddress(mac)) == mac
  {
    ColonsLayout(mac);
    var t := Colons(mac);
    forall i | 0 <= i < 6
      ensures IsDigitIn(t[3 * i], 16) && IsDigitIn(t[3 * i + 1], 16)
      ensures ParseMac(t)[i] == mac[i]
    {
      ColonsDigits(mac, i);
    }
  }

  /**
    The driver's globals: `globalWiFiState` and the scan buffer `ap_info`,
    which holds `DEFAULT_SCAN_LIST_SIZE` records.
  */
  class Driver {
    const maxReconnectCount: nat
    const scanListSize: nat
    var isConnecting: bool
    var reconnectCount: int
    var connected: bool
    var fromAp: bool
    const apInfo: array<AccessPoint>

    function State(): Flags
      reads this
    {
      Flags(isConnecting, reconnectCount, connected, fromAp)
    }

    function Settings(): Limits
    {
      Limits(maxReconnectCount, scanListSize)
    }

    ghost predicate Valid()
      reads this
    {
      apInfo.Length == scanListSize && Bounded(State(), Settings())
    }

    /** Static storage: every flag false, the counter 0, `ap_info` cleared. */
    constructor (maxReconnectCount: nat, scanListSize: nat)
      ensures Valid()
      ensures this.maxReconnectCount == maxReconnectCount && this.scanListSize == scanListSize
      ensures State() == Flags(false, 0, false, false)
      ensures apInfo[..] == seq(scanListSize, i => ZeroRecord)
      ensures fresh(apInfo)
    {
      this.maxReconnectCount := maxReconnectCount;
      this.scanListSize := scanListSize;
      isConnecting := false;
      reconnectCount := 0;
      connected := false;
      fromAp := false;
      apInfo := new AccessPoint[scanListSize](i => ZeroRecord);
    }

    /** SCAN_DONE: clear `ap_info`, copy the reported records in, collect the networks. */
    method CollectNetworks(records: seq<AccessPoint>, apCount: nat) returns (networks: map<string, NetworkInfo>)
      requires Valid()
      modifies apInfo
      ensures apInfo[..] == ScanTable(records, scanListSize)
      ensures networks == Networks(apInfo[..], Min(scanListSize, apCount))
    {
      forall i | 0 <= i < apInfo.Length {
        apInfo[i] := ZeroRecord;
      }
      var number := Min(|records|, apInfo.Length);
      forall i | 0 <= i < number {
        apInfo[i] := records[i];
      }
      assert apInfo[..] == ScanTable(records, scanListSize);
      networks := map[];
      var i := 0;
      while i < scanListSize && i < apCount
        invariant 0 <= i <= Min(scanListSize, apCount)
        invariant networks == Networks(apInfo[..], i)
      {
        var ap := apInfo[i];
        if ap.ssid !in networks {
          networks := networks[ap.ssid := NetworkInfo(ap.rssi, ap.authmode == WIFI_AUTH_OPEN)];
        }
        i := i + 1;
      }
    }

    /** `event_handler`: moves the state as `React` says and returns its effects. */
    method EventHandler(e: WiFiEvent) returns (effects: seq<Effect>)
      requires Valid()
      modifies this, apInfo
      ensures Valid()
      ensures State() == React(old(State()), e, Settings()).next
      ensures effects == React(old(State()), e, Settings()).effects
      ensures apInfo[..] == if e.ScanDone? then ScanTable(e.records, scanListSize) else old(apInfo[..])
    {
      ReactKeepsBound(State(), e, Settings());
      match e
      case StaStart =>
        effects := [];
        if isConnecting {
          effects := [Connect, Notify("connecting")];
        }
      case ApStart =>
        effects := [];
        if !isConnecting {
          effects := [Notify("ap_ready")];
          fromAp := true;
          effects := effects + [StartCaptiveDns];
        }
      case ScanDone(records, apCount) =>
        var networks := CollectNetworks(records, apCount);
        effects := [Publish("scan_done", networks, "")];
      case StaDisconnected =>
        effects := [];
        if isConnecting {
          if reconnectCount < maxReconnectCount {
            isConnecting := true;
            reconnectCount := reconnectCount + 1;
            effects := [Connect];
          } else {
            isConnecting := false;
            reconnectCount := 0;
            effects := [Notify("no_ap")];
          }
        }
      case GotIp(ip) =>
        connected := true;
        effects := [Publish("connected", map[], ip)];
        if fromAp {
          effects := effects + [Restart];
        }
      case Unhandled =>
        effects := [];
    }

    /**
      `tryToConnect`: resets the retry counter and marks the driver connecting,
      then either restarts the radio in station mode (whose STA_START then
      connects) or, from the access point, reconfigures and connects directly.
    */
    method TryToConnect(ssid: string, password: string, fromAp: bool) returns (effects: seq<Effect>)
      requires Valid()
      modifies this
      ensures Valid()
      ensures State() == old(State()).(isConnecting := true, reconnectCount := 0)
      ensures var config := SetConfig(StationInterface, StationConfig(ssid, password));
        effects == if !fromAp then [RadioStop, SetMode(Station), config, RadioStart] else [config, Connect]
    {
      reconnectCount := 0;
      isConnecting := true;
      var config := SetConfig(StationInterface, StationConfig(ssid, password));
      if !fromAp {
        effects := [RadioStop, SetMode(Station), config, RadioStart];
      } else {
        effects := [config, Connect];
      }
    }

    /** `startFastScan`: starts a scan only when neither connected nor connecting; changes nothing. */
    method StartFastScan() returns (effects: seq<Effect>)
      ensures StartScan in effects <==> !connected && !isConnecting
      ensures forall i :: 0 <= i < |effects| ==> effects[i] == StartScan
      ensures |effects| <= 1
    {
      effects := [];
      if !connected && !isConnecting {
        effects := [StartScan];
      }
    }

    /**
      `setupAP`: clears `isConnecting` and restarts the radio as access point
      plus station, the access point named `ssid` with `ssid_len = ssid.size()`.
    */
    method SetupAP(ssid: string, password: string) returns (effects: seq<Effect>)
      requires Valid()
      modifies this
      ensures Valid()
      ensures State() == old(State()).(isConnecting := false)
      ensures effects == [
        RadioStop, SetMode(StationAndAccessPoint),
        SetConfig(AccessPointInterface, AccessPointConfig(ssid, password, |ssid|)),
        SetConfig(StationInterface, StationConfig([], [])),
        RadioStart]
    {
      isConnecting := false;
      effects := [
        RadioStop, SetMode(StationAndAccessPoint),
        SetConfig(AccessPointInterface, AccessPointConfig(ssid, password, |ssid|)),
        SetConfig(StationInterface, StationConfig([], [])),
        RadioStart];
    }
  }

  /** After `tryToConnect` outside the access point, the STA_START its radio start raises connects. */
  lemma ConnectThenStationStart(s: Flags, limits: Limits)
    ensures React(s.(isConnecting := true, reconnectCount := 0), StaStart, limits).effects ==
      [Connect, Notify("connecting")]
  {
  }

  /** After `setupAP`, AP_START publishes `ap_ready` and marks the start from the access point. */
  lemma SetupThenAccessPointStart(s: Flags, limits: Limits)
    ensures var r := React(s.(isConnecting := false), ApStart, limits);
      r.next.fromAp && r.effects == [Notify("ap_ready"), StartCaptiveDns]
  {
  }
}
