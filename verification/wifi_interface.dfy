/**
  The Wi-Fi station link controller. Its module statics (the retry counter,
  the connected flag, the last address and the power-on reset counter) are
  the fields of class WifiStation; the persisted counter lives in class
  NvsStorage, which outlives a boot. The radio calls `esp_wifi_connect` and
  `esp_wifi_restore` have no visible semantics and are recorded as ghost
  counters.

  Beside the class, the datatypes Link and Recovery and the functions Step,
  Run, Boot and TimerFires give the same behaviour as values, so that
  sequences of events and of boots can be reasoned about in lemmas.
 */
module WifiInterface {
  import opened LibC
  import opened NetworkInterface

  newtype uint8 = x: int | 0 <= x < 0x100

  newtype uint32 = x: int | 0 <= x < 0x1_0000_0000

  /** esp_netif_ip_info_t: address, netmask and gateway. */
  datatype IpInfo = IpInfo(ip: uint32, netmask: uint32, gw: uint32)

  const ZERO_IP_INFO: IpInfo := IpInfo(0, 0, 0)

  /** The payload of IP_EVENT_STA_GOT_IP and IP_EVENT_STA_LOST_IP, with the
      event's netif given by its descriptor. */
  datatype IpEvent = IpEvent(netifDesc: CString, ipInfo: IpInfo)

  datatype EventBase = WifiEventBase | IpEventBase

  datatype WifiEventId = StaStart | StaDisconnected | OtherWifiEvent(id: int)

  /** esp_reset_reason(): only a power-on reset is told apart. */
  datatype ResetReason = PowerOnReset | OtherReset(code: int)

  /** NVS key of the power-on reset counter (namespace "storage"). */
  const RESTART_COUNTER_KEY: string := "restart_counter"

  /** A counter above this value wipes the stored Wi-Fi credentials. */
  const RESET_COUNTER_LIMIT: uint8 := 3

  /** Delay of the one-shot timer that clears the counter, in microseconds. */
  const RESET_TIMER_TIMEOUT_US: nat := 5000000

  /** `uint8_t` increment: 255 wraps to 0. */
  function Increment(c: uint8): uint8 {
    ((c as int + 1) % 0x100) as uint8
  }

  function Min(a: int, b: int): int {
    if a <= b then a else b
  }

  // ---------------------------------------------------------------------
  // Link state as a value
  // ---------------------------------------------------------------------

  /** The link statics together with the number of connect calls issued. */
  datatype Link = Link(retryNum: int, connected: bool, ipInfo: IpInfo, connectCalls: nat)

  /** The retry gate of the disconnect handler; a maximum of 0 means no limit. */
  predicate RetryAllowed(retryNum: int, maxRetry: int) {
    retryNum < maxRetry || maxRetry == 0
  }

  /** The four events the station reacts to. */
  datatype LinkEvent = Started | Disconnected | GotIp(got: IpEvent) | LostIp(lost: IpEvent)

  /** The effect of one event on the link. */
  function Step(l: Link, maxRetry: int, e: LinkEvent): (r: Link)
    ensures e.Started? || e.Disconnected? ==> r.connected == l.connected && r.ipInfo == l.ipInfo
    ensures e.GotIp? || e.LostIp? ==> r.connectCalls == l.connectCalls
    ensures e.Disconnected? ==> r.connectCalls - l.connectCalls == r.retryNum - l.retryNum <= 1
  {
    match e
    case Started => l.(connectCalls := l.connectCalls + 1)
    case Disconnected =>
      if RetryAllowed(l.retryNum, maxRetry) then
        l.(retryNum := l.retryNum + 1, connectCalls := l.connectCalls + 1)
      else l
    case GotIp(ev) =>
      if IsOurNetif(DESC_STA, ev.netifDesc) then
        l.(ipInfo := ev.ipInfo, connected := true, retryNum := 0)
      else l
    case LostIp(ev) =>
      if IsOurNetif(DESC_STA, ev.netifDesc) then
        l.(ipInfo := ev.ipInfo, connected := false)
      else l
  }

  /** The effect of a sequence of events, first event first. */
  function Run(l: Link, maxRetry: int, events: seq<LinkEvent>): Link
    decreases |events|
  {
    if events == [] then l else Run(Step(l, maxRetry, events[0]), maxRetry, events[1..])
  }

  /** n copies of one event. */
  function Repeat(e: LinkEvent, n: nat): (es: seq<LinkEvent>)
    ensures |es| == n && forall i :: 0 <= i < n ==> es[i] == e
  {
    if n == 0 then [] else [e] + Repeat(e, n - 1)
  }

  /** The event the station's address was last set from, if any: the last
      got-IP or lost-IP event that passes the ownership filter. */
  function LastOwnIpEvent(events: seq<LinkEvent>): Option<LinkEvent>
    decreases |events|
  {
    if events == [] then None
    else
      var e := events[|events| - 1];
      if (e.GotIp? && IsOurNetif(DESC_STA, e.got.netifDesc))
         || (e.LostIp? && IsOurNetif(DESC_STA, e.lost.netifDesc))
      then Some(e)
      else LastOwnIpEvent(events[..|events| - 1])
  }

  /** Running a sequence and then one more event is one more step. */
  lemma {:induction false} RunSnoc(l: Link, maxRetry: int, events: seq<LinkEvent>, e: LinkEvent)
    ensures Run(l, maxRetry, events + [e]) == Step(Run(l, maxRetry, events), maxRetry, e)
    decreases |events|
  {
    if events == [] {
      assert [e][1..] == [];
    } else {
      assert (events + [e])[1..] == events[1..] + [e];
      RunSnoc(Step(l, maxRetry, events[0]), maxRetry, events[1..], e);
    }
  }

  /** With a positive maximum and a counter within it, n disconnects in a
      row raise the counter to min(counter + n, maximum) and issue one
      connect call per increment; nothing else changes. */
  lemma {:induction false} DisconnectsSaturate(l: Link, maxRetry: int, n: nat)
    requires maxRetry > 0 && 0 <= l.retryNum <= maxRetry
    decreases n
    ensures Run(l, maxRetry, Repeat(Disconnected, n)).retryNum == Min(l.retryNum + n, maxRetry)
    ensures Run(l, maxRetry, Repeat(Disconnected, n)).connectCalls
            == l.connectCalls + Min(l.retryNum + n, maxRetry) - l.retryNum
    ensures Run(l, maxRetry, Repeat(Disconnected, n)).connected == l.connected
    ensures Run(l, maxRetry, Repeat(Disconnected, n)).ipInfo == l.ipInfo
  {
    if n > 0 {
      var es := Repeat(Disconnected, n);
      assert es[1..] == Repeat(Disconnected, n - 1);
      DisconnectsSaturate(Step(l, maxRetry, Disconnected), maxRetry, n - 1);
    }
  }

  /** From a counter of 0, after n disconnects with a maximum M > 0 both the
      counter and the number of connect attempts are min(n, M). */
  lemma RetriesFromZero(l: Link, maxRetry: int, n: nat)
    requires maxRetry > 0 && l.retryNum == 0 && l.connectCalls == 0
    ensures Run(l, maxRetry, Repeat(Disconnected, n)).retryNum == Min(n, maxRetry)
    ensures Run(l, maxRetry, Repeat(Disconnected, n)).connectCalls == Min(n, maxRetry)
  {
    DisconnectsSaturate(l, maxRetry, n);
  }

  /** Once the counter has reached a positive maximum, disconnects issue no
      further connect attempt and change nothing. */
  lemma {:induction false} NoRetryAtLimit(l: Link, maxRetry: int, n: nat)
    requires maxRetry > 0 && l.retryNum >= maxRetry
    ensures Run(l, maxRetry, Repeat(Disconnected, n)) == l
  {
    if n > 0 {
      var es := Repeat(Disconnected, n);
      assert es[1..] == Repeat(Disconnected, n - 1);
      NoRetryAtLimit(l, maxRetry, n - 1);
    }
  }

  /** With a maximum of 0 every disconnect issues a connect attempt. */
  lemma {:induction false} UnlimitedRetries(l: Link, n: nat)
    decreases n
    ensures Run(l, 0, Repeat(Disconnected, n)).connectCalls == l.connectCalls + n
    ensures Run(l, 0, Repeat(Disconnected, n)).retryNum == l.retryNum + n
  {
    if n > 0 {
      var es := Repeat(Disconnected, n);
      assert es[1..] == Repeat(Disconnected, n - 1);
      UnlimitedRetries(Step(l, 0, Disconnected), n - 1);
    }
  }

  /** With a positive maximum, the counter stays between 0 and the maximum
      whatever events arrive. */
  lemma {:induction false} RetryNumBounded(l: Link, maxRetry: int, events: seq<LinkEvent>)
    requires maxRetry > 0 && 0 <= l.retryNum <= maxRetry
    ensures 0 <= Run(l, maxRetry, events).retryNum <= maxRetry
    decreases |events|
  {
    if events != [] {
      RetryNumBounded(Step(l, maxRetry, events[0]), maxRetry, events[1..]);
    }
  }

  /** After any sequence of events, the connected flag and the address are
      those of the last got-IP or lost-IP event for the station netif: true
      and its address after a got-IP, false and the event's address after a
      lost-IP, and as before when there was none. */
  lemma {:induction false} AddressFollowsLastOwnIpEvent(l: Link, maxRetry: int, events: seq<LinkEvent>)
    ensures var r := Run(l, maxRetry, events);
            match LastOwnIpEvent(events)
            case None => r.connected == l.connected && r.ipInfo == l.ipInfo
            case Some(e) =>
              && (e.GotIp? ==> r.connected && r.ipInfo == e.got.ipInfo)
              && (e.LostIp? ==> !r.connected && r.ipInfo == e.lost.ipInfo)
    decreases |events|
  {
    if events != [] {
      var init := events[..|events| - 1];
      var e := events[|events| - 1];
      assert events == init + [e];
      RunSnoc(l, maxRetry, init, e);
      AddressFollowsLastOwnIpEvent(l, maxRetry, init);
    }
  }

  /** Address events for the Ethernet netif never touch the station's state. */
  lemma EthernetEventsIgnored(l: Link, maxRetry: int, ev: IpEvent)
    requires IsOurNetif(DESC_ETH, ev.netifDesc)
    ensures Step(l, maxRetry, GotIp(ev)) == l
    ensures Step(l, maxRetry, LostIp(ev)) == l
  {
    StationAndEthernetDisjoint(ev.netifDesc);
  }

  // ---------------------------------------------------------------------
  // Power-on reset counter as a value
  // ---------------------------------------------------------------------

  /** The persisted entries, the RAM copy of the counter, whether the
      deferred reset timer is armed, and the credential wipes issued. */
  datatype Recovery = Recovery(stored: map<string, uint8>, counter: uint8, timerArmed: bool, restoreCalls: nat)

  /** `nvs_get_u8`: the stored value, or the RAM copy left as it was when the
      key is missing. */
  function NvsGetU8(stored: map<string, uint8>, current: uint8): uint8 {
    if RESTART_COUNTER_KEY in stored then stored[RESTART_COUNTER_KEY] else current
  }

  /** The counter as persisted, 0 when never written. */
  function StoredCounter(r: Recovery): uint8 {
    NvsGetU8(r.stored, 0)
  }

  /** The reset-counter part of a boot: arm the timer (it expires after
      RESET_TIMER_TIMEOUT_US), then for a power-on
      reset with NVS available count the boot, wiping the credentials and
      cancelling the timer once the count exceeds the limit. */
  function Boot(r: Recovery, reason: ResetReason, nvsOpens: bool): (b: Recovery)
    ensures reason == PowerOnReset && nvsOpens ==>
              RESTART_COUNTER_KEY in b.stored && StoredCounter(b) <= RESET_COUNTER_LIMIT
    ensures b.restoreCalls == r.restoreCalls || b.restoreCalls == r.restoreCalls + 1
    ensures b.restoreCalls == r.restoreCalls + 1 <==> !b.timerArmed
  {
    var armed := r.(timerArmed := true);
    if reason != PowerOnReset || !nvsOpens then armed
    else
      var c := Increment(NvsGetU8(r.stored, r.counter));
      if c > RESET_COUNTER_LIMIT then
        armed.(stored := r.stored[RESTART_COUNTER_KEY := 0], counter := 0,
               timerArmed := false, restoreCalls := r.restoreCalls + 1)
      else
        armed.(stored := r.stored[RESTART_COUNTER_KEY := c], counter := c)
  }

  /** The deferred reset: if armed, clear the counter when NVS opens and
      delete the timer either way. */
  function TimerFires(r: Recovery, nvsOpens: bool): (t: Recovery)
    ensures !t.timerArmed && t.restoreCalls == r.restoreCalls
    ensures r.timerArmed && nvsOpens ==> StoredCounter(t) == 0
    ensures !(r.timerArmed && nvsOpens) ==> t.stored == r.stored
  {
    if !r.timerArmed then r
    else if nvsOpens then
      r.(stored := r.stored[RESTART_COUNTER_KEY := 0], counter := 0, timerArmed := false)
    else r.(timerArmed := false)
  }

  /** Power goes away: RAM statics start again from their initial values,
      the persisted entries stay. */
  function PowerCycle(r: Recovery): Recovery {
    Recovery(r.stored, 0, false, r.restoreCalls)
  }

  /** n power-on boots in a row, each losing power before the timer fires. */
  function QuickPowerOnBoots(r: Recovery, n: nat): Recovery
    decreases n
  {
    if n == 0 then r else QuickPowerOnBoots(Boot(PowerCycle(r), PowerOnReset, true), n - 1)
  }

  /** A boot for any other reason leaves the counter, the persisted entries
      and the credentials alone, but still arms the timer. */
  lemma OtherResetKeepsCounter(r: Recovery, code: int, nvsOpens: bool)
    ensures Boot(r, OtherReset(code), nvsOpens).stored == r.stored
    ensures Boot(r, OtherReset(code), nvsOpens).counter == r.counter
    ensures Boot(r, OtherReset(code), nvsOpens).restoreCalls == r.restoreCalls
    ensures Boot(r, OtherReset(code), nvsOpens).timerArmed
  {
  }

  /** Quick power cycles count modulo 4: starting from a stored count c of
      at most 3, n such boots leave (c + n) mod 4 stored and wipe the
      credentials (c + n) / 4 times. */
  lemma {:induction false} QuickPowerCyclesCount(r: Recovery, n: nat)
    requires StoredCounter(r) <= RESET_COUNTER_LIMIT
    ensures StoredCounter(QuickPowerOnBoots(r, n)) as int == (StoredCounter(r) as int + n) % 4
    ensures QuickPowerOnBoots(r, n).restoreCalls == r.restoreCalls + (StoredCounter(r) as int + n) / 4
    decreases n
  {
    if n > 0 {
      var c := StoredCounter(r) as int;
      var next := Boot(PowerCycle(r), PowerOnReset, true);
      assert StoredCounter(next) as int == (c + 1) % 4;
      assert next.restoreCalls == r.restoreCalls + (c + 1) / 4;
      QuickPowerCyclesCount(next, n - 1);
      assert ((c + 1) % 4 + n - 1) % 4 == (c + n) % 4;
      assert (c + 1) / 4 + ((c + 1) % 4 + n - 1) / 4 == (c + n) / 4;
    }
  }

  /** From a cleared counter, three quick power-on boots store 1, 2 and 3
      without wiping anything; the fourth wipes the credentials once and
      stores 0. */
  lemma FourQuickPowerCycles(r: Recovery)
    requires StoredCounter(r) == 0
    ensures StoredCounter(QuickPowerOnBoots(r, 1)) == 1
    ensures StoredCounter(QuickPowerOnBoots(r, 2)) == 2
    ensures StoredCounter(QuickPowerOnBoots(r, 3)) == 3
    ensures QuickPowerOnBoots(r, 3).restoreCalls == r.restoreCalls
    ensures StoredCounter(QuickPowerOnBoots(r, 4)) == 0
    ensures QuickPowerOnBoots(r, 4).restoreCalls == r.restoreCalls + 1
  {
    QuickPowerCyclesCount(r, 1);
    QuickPowerCyclesCount(r, 2);
    QuickPowerCyclesCount(r, 3);
    QuickPowerCyclesCount(r, 4);
  }

  /** A boot that stays up until the timer fires, with NVS available then,
      ends with a stored counter of 0, whatever the reset reason and whether
      or not NVS opened during the boot. */
  lemma StayingUpClearsCounter(r: Recovery, reason: ResetReason, bootNvsOpens: bool)
    ensures RESTART_COUNTER_KEY in TimerFires(Boot(r, reason, bootNvsOpens), true).stored
    ensures StoredCounter(TimerFires(Boot(r, reason, bootNvsOpens), true)) == 0
  {
  }

  /** When the boot wipes the credentials it has cancelled the timer, so a
      later expiry changes nothing. */
  lemma WipeCancelsTimer(r: Recovery, nvsOpens: bool)
    requires Boot(r, PowerOnReset, true).restoreCalls == r.restoreCalls + 1
    ensures !Boot(r, PowerOnReset, true).timerArmed
    ensures TimerFires(Boot(r, PowerOnReset, true), nvsOpens) == Boot(r, PowerOnReset, true)
  {
  }

  /** A stored 255 wraps to 0 in the uint8_t increment: the boot stores 0
      and wipes nothing. */
  lemma CounterWraps(r: Recovery)
    requires RESTART_COUNTER_KEY in r.stored && r.stored[RESTART_COUNTER_KEY] == 255
    ensures StoredCounter(Boot(r, PowerOnReset, true)) == 0
    ensures Boot(r, PowerOnReset, true).restoreCalls == r.restoreCalls
  {
  }

  // ---------------------------------------------------------------------
  // The controller
  // ---------------------------------------------------------------------

  /** NVS namespace "storage": the entries survive a reboot. */
  class NvsStorage {
    var entries: map<string, uint8>

    constructor (entries: map<string, uint8>)
      ensures this.entries == entries
    {
      this.entries := entries;
    }
  }

  /** The caller's esp_netif_ip_info_t that wifi_get_ip copies into. */
  class IpInfoBox {
    var value: IpInfo

    constructor ()
      ensures value == ZERO_IP_INFO
    {
      value := ZERO_IP_INFO;
    }
  }

  /** The module statics of the Wi-Fi interface for one boot. */
  class WifiStation {
    /** WIFI_MAXIMUM_RETRY; 0 means retry without limit. */
    const maxRetry: int
    const nvs: NvsStorage

    var retryNum: int
    var connected: bool
    var ipInfo: IpInfo
    var resetReasonCounter: uint8
    var timerArmed: bool

    /** Calls of esp_wifi_connect issued so far. */
    ghost var connectCalls: nat
    /** Calls of esp_wifi_restore issued so far. */
    ghost var restoreCalls: nat

    ghost function LinkState(): Link
      reads this
    {
      Link(retryNum, connected, ipInfo, connectCalls)
    }

    ghost function RecoveryState(): Recovery
      reads this, nvs
    {
      Recovery(nvs.entries, resetReasonCounter, timerArmed, restoreCalls)
    }

    /** The statics as the image starts a boot. */
    constructor (maxRetry: int, nvs: NvsStorage)
      ensures this.maxRetry == maxRetry && this.nvs == nvs
      ensures retryNum == 0 && !connected && ipInfo == ZERO_IP_INFO
      ensures resetReasonCounter == 0 && !timerArmed
      ensures connectCalls == 0 && restoreCalls == 0
    {
      this.maxRetry := maxRetry;
      this.nvs := nvs;
      retryNum := 0;
      connected := false;
      ipInfo := ZERO_IP_INFO;
      resetReasonCounter := 0;
      timerArmed := false;
      connectCalls := 0;
      restoreCalls := 0;
    }

    /** event_handler: a station start issues one connect call; a disconnect
        issues one and counts it while the retry gate is open; any other
        event changes nothing. */
    method EventHandler(base: EventBase, id: WifiEventId)
      modifies this`retryNum, this`connectCalls
      ensures base == WifiEventBase && id == StaStart ==>
                connectCalls == old(connectCalls) + 1 && retryNum == old(retryNum)
      ensures base == WifiEventBase && id == StaDisconnected ==>
                if RetryAllowed(old(retryNum), maxRetry)
                then connectCalls == old(connectCalls) + 1 && retryNum == old(retryNum) + 1
                else connectCalls == old(connectCalls) && retryNum == old(retryNum)
      ensures base != WifiEventBase || id.OtherWifiEvent? ==>
                connectCalls == old(connectCalls) && retryNum == old(retryNum)
      ensures connected == old(connected) && ipInfo == old(ipInfo)
      ensures base == WifiEventBase && id == StaStart ==>
                LinkState() == Step(old(LinkState()), maxRetry, Started)
      ensures base == WifiEventBase && id == StaDisconnected ==>
                LinkState() == Step(old(LinkState()), maxRetry, Disconnected)
    {
      if base == WifiEventBase && id == StaStart {
        connectCalls := connectCalls + 1;
      } else if base == WifiEventBase && id == StaDisconnected {
        if retryNum < maxRetry || maxRetry == 0 {
          connectCalls := connectCalls + 1;
          retryNum := retryNum + 1;
        }
      }
    }

    /** got_ip_event_handler: for the station netif, take the event's address,
        mark the link connected and clear the retry counter; ignore any other
        netif. */
    method GotIpEventHandler(ev: IpEvent)
      modifies this`ipInfo, this`connected, this`retryNum
      ensures IsOurNetif(DESC_STA, ev.netifDesc) ==>
                ipInfo == ev.ipInfo && connected && retryNum == 0
      ensures !IsOurNetif(DESC_STA, ev.netifDesc) ==>
                ipInfo == old(ipInfo) && connected == old(connected) && retryNum == old(retryNum)
      ensures LinkState() == Step(old(LinkState()), maxRetry, GotIp(ev))
    {
      if !IsOurNetif(DESC_STA, ev.netifDesc) {
        return;
      }
      ipInfo := ev.ipInfo;
      connected := true;
      retryNum := 0;
    }

    /** lost_ip_event_handler: for the station netif, overwrite the address
        with the event's and mark the link down; the retry counter is left
        alone. */
    method LostIpEventHandler(ev: IpEvent)
      modifies this`ipInfo, this`connected
      ensures IsOurNetif(DESC_STA, ev.netifDesc) ==> ipInfo == ev.ipInfo && !connected
      ensures !IsOurNetif(DESC_STA, ev.netifDesc) ==>
                ipInfo == old(ipInfo) && connected == old(connected)
      ensures retryNum == old(retryNum)
      ensures LinkState() == Step(old(LinkState()), maxRetry, LostIp(ev))
    {
      if !IsOurNetif(DESC_STA, ev.netifDesc) {
        return;
      }
      ipInfo := ev.ipInfo;
      connected := false;
    }

    /** wifi_get_ip: copy the last address into the caller's structure when
        one is given, whether or not the link is up, and report the
        connected flag. */
    method WifiGetIp(dest: IpInfoBox?) returns (isConnected: bool)
      modifies dest
      ensures isConnected == connected
      ensures dest != null ==> dest.value == ipInfo
    {
      if dest != null {
        dest.value := ipInfo;
      }
      isConnected := connected;
    }

    /** The reset-counter block of wifi_start: arm the 5 s timer on every
        boot; on a power-on reset with NVS open, read the counter (keeping
        the RAM copy when the key is missing), add one in uint8_t, and
        above the limit wipe the credentials, stop and delete the timer and
        store 0, otherwise store the new count. */
    method BootResetCounter(reason: ResetReason, nvsOpens: bool)
      modifies this`resetReasonCounter, this`timerArmed, this`restoreCalls, nvs
      ensures reason != PowerOnReset || !nvsOpens ==>
                nvs.entries == old(nvs.entries) && resetReasonCounter == old(resetReasonCounter)
                && restoreCalls == old(restoreCalls) && timerArmed
      ensures reason == PowerOnReset && nvsOpens ==>
                var c := Increment(NvsGetU8(old(nvs.entries), old(resetReasonCounter)));
                if c > RESET_COUNTER_LIMIT then
                  nvs.entries == old(nvs.entries)[RESTART_COUNTER_KEY := 0] && resetReasonCounter == 0
                  && restoreCalls == old(restoreCalls) + 1 && !timerArmed
                else
                  nvs.entries == old(nvs.entries)[RESTART_COUNTER_KEY := c] && resetReasonCounter == c
                  && restoreCalls == old(restoreCalls) && timerArmed
      ensures RecoveryState() == Boot(old(RecoveryState()), reason, nvsOpens)
    {
      timerArmed := true;
      if reason == PowerOnReset {
        if nvsOpens {
          if RESTART_COUNTER_KEY in nvs.entries {
            resetReasonCounter := nvs.entries[RESTART_COUNTER_KEY];
          }
          resetReasonCounter := Increment(resetReasonCounter);
          if resetReasonCounter > RESET_COUNTER_LIMIT {
            resetReasonCounter := 0;
            restoreCalls := restoreCalls + 1;
            timerArmed := false;
          }
          nvs.entries := nvs.entries[RESTART_COUNTER_KEY := resetReasonCounter];
        }
      }
    }

    /** reset_reason_timer_counter_cb, run when the armed timer expires:
        clear the RAM and stored counter if NVS opens, and delete the timer
        either way. An unarmed timer never runs it. */
    method ResetTimerFires(nvsOpens: bool)
      modifies this`resetReasonCounter, this`timerArmed, nvs
      ensures !old(timerArmed) ==>
                nvs.entries == old(nvs.entries) && resetReasonCounter == old(resetReasonCounter)
                && !timerArmed
      ensures old(timerArmed) && nvsOpens ==>
                nvs.entries == old(nvs.entries)[RESTART_COUNTER_KEY := 0] && resetReasonCounter == 0
      ensures old(timerArmed) && !nvsOpens ==>
                nvs.entries == old(nvs.entries) && resetReasonCounter == old(resetReasonCounter)
      ensures !timerArmed
      ensures RecoveryState() == TimerFires(old(RecoveryState()), nvsOpens)
    {
      if timerArmed {
        if nvsOpens {
          resetReasonCounter := 0;
          nvs.entries := nvs.entries[RESTART_COUNTER_KEY := 0];
        }
        timerArmed := false;
      }
    }
  }

  /** wifi_get_ip changes nothing: two queries with no event in between give
      the same flag and the same address. */
  method QueryTwice(station: WifiStation) returns (first: bool, firstIp: IpInfo, second: bool, secondIp: IpInfo)
    ensures first == second == station.connected
    ensures firstIp == secondIp == station.ipInfo
  {
    var box1 := new IpInfoBox();
    first := station.WifiGetIp(box1);
    firstIp := box1.value;
    var box2 := new IpInfoBox();
    second := station.WifiGetIp(box2);
    secondIp := box2.value;
  }
}
