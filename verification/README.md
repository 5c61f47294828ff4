# Snapclient network interface and HTTP control surface, modelled in Dafny

This project models the connectivity core of an ESP32 Snapcast client. It
covers three parts of the firmware.

- **The Wi-Fi station controller** (`wifi_interface.c`):
  - the event handlers for station start, disconnect, got-IP and lost-IP;
  - the bounded retry-on-disconnect policy;
  - `wifi_get_ip`;
  - the power-on reset counter. It is kept in NVS under `restart_counter`. It wipes the Wi-Fi credentials after more than three quick power-on boots in a row. A one-shot 5-second timer clears it once the device stays up.
- **The netif ownership test** `network_is_our_netif` (`network_interface.c`). It calls `strncmp` over `strlen(prefix) - 1` characters. `size_t` is 32-bit, so for the empty prefix the length wraps to `SIZE_MAX`.
- **The string handling of the HTTP UI** (`ui_http_server.c`):
  - `find_key_value`;
  - the decision in `root_post_handler` whether a POST is queued to the HTTP task;
  - the line-end trimming loop of `Text2Html`.

Files:

- `libc.dfy` (module `LibC`) states the C string routines the code relies on: `strncmp(..) == 0`, `strstr`, `strlen` and reading a C string out of a buffer.
- `network_interface.dfy` (module `NetworkInterface`) holds the ownership test and its exact meaning.
- `wifi_interface.dfy` (module `WifiInterface`) models the module statics as the fields of class `WifiStation`:
  - `s_retry_num`, `connected`, `ip_info`, `resetReasonCounter`, and whether the reset timer is armed;
  - the NVS namespace `storage` as class `NvsStorage`, which outlives a boot;
  - the calls to `esp_wifi_connect` and `esp_wifi_restore` as ghost counters.

  Each handler is proved against a pure step function. `Step` and `Run` cover link events; `Boot` and `TimerFires` cover the reset counter. Lemmas about sequences of events and of boots are proved over those functions.
- `ui_http_server.dfy` (module `UiHttpServer`) models these as methods over `array<char>` buffers:
  - `find_key_value`;
  - the POST handler;
  - the in-place end-of-line loop and the line loop of `Text2Html`.

  They are proved against the pure functions `KeyValue`, `TrimEol` and `Chunks`.

Behaviours of the code the model keeps as written:

- **Reset timer after any boot.** `wifi_start` arms the 5 s timer on every boot. When it fires, it writes 0 to the stored counter whatever the reset reason was. `StayingUpClearsCounter` states this.
- **Address after a lost-IP event.** `lost_ip_event_handler` copies the event's address into `ip_info` rather than zeroing it. `wifi_get_ip` copies `ip_info` out whether or not the link is up.
- **Prefix comparison.** The ownership test keeps its `strlen(prefix) - 1` boundary as written. The last character of the prefix is never compared.
- **Missing NVS key.** `nvs_get_u8` on a missing key leaves the RAM copy of the counter as it was, rather than reading 0.

## Model

| member | source | states |
|---|---|---|
| LibC.StrNCmpZeroMeaning | components/network_interface/network_interface.c:43 | `strncmp(a, b, n) == 0` holds exactly when a and b agree on their first n characters (n within a), or, when n reaches past a's terminator, when a and b are equal |
| LibC.StrNCmpZero | components/network_interface/network_interface.c:43 | `strncmp(a, b, n) == 0` holds exactly when both strings read the same at each of the first n positions, a terminator counting as read past the end |
| LibC.StrStr | components/ui_http_server/ui_http_server.c:97-98 | `strstr` returns the first index where the needle occurs, and NULL exactly when it occurs nowhere |
| LibC.StrLen | components/ui_http_server/ui_http_server.c:115 | `strlen` of a buffer is the index of its first terminator: no terminator before it, and one at it unless the buffer ends there |
| NetworkInterface.IsOurNetif | components/network_interface/network_interface.c:42-44 | `network_is_our_netif` with the netif given by its descriptor: `strncmp` over `strlen(prefix) - 1` characters in 32-bit size_t; a one-character prefix owns every descriptor |
| NetworkInterface.IsOurNetifMeaning | components/network_interface/network_interface.c:42-44 | a non-empty prefix owns exactly the descriptors whose first \|prefix\|-1 characters equal the prefix's; the empty prefix, whose length wraps to SIZE_MAX, owns only the empty descriptor |
| NetworkInterface.LastCharacterIgnored | components/network_interface/network_interface.c:43 | the last character of the prefix is never compared: the prefix without it, or with it replaced, still matches |
| NetworkInterface.StationPrefixExamples | components/network_interface/network_interface.c:42-44 | "sta" owns "st", "stx" and "sta1" but not "s" or "eta" |
| NetworkInterface.IsOurNetifReflexive | components/network_interface/network_interface.c:42-44 | every descriptor is owned by itself used as the prefix |
| NetworkInterface.SuffixKeepsMatch | components/network_interface/network_interface.c:42-44 | for a non-empty prefix, appending characters to an owned descriptor keeps it owned (numbered adapters stay owned) |
| NetworkInterface.ShortDescriptorRejected | components/network_interface/network_interface.c:43 | a descriptor shorter than \|prefix\|-1 is never owned |
| NetworkInterface.StationAndEthernetDisjoint | components/network_interface/include/network_interface.h:15-16 | no descriptor is owned by both the "sta" and the "eth" prefix |
| WifiInterface.Step | components/network_interface/wifi_interface.c:75-131 | the four handlers as one function on the link state: start and disconnect never touch the flag or address; got-IP and lost-IP never connect; a disconnect adds as many connect calls as it adds retries, at most one |
| WifiInterface.DisconnectsSaturate | components/network_interface/wifi_interface.c:79-85 | with a positive maximum M, n disconnects raise the retry counter r to min(r+n, M) and issue exactly that many minus r connect calls; the address and flag are unchanged |
| WifiInterface.RetriesFromZero | components/network_interface/wifi_interface.c:79-85 | from a cleared counter, n disconnects give min(n, M) retries and min(n, M) connect calls |
| WifiInterface.NoRetryAtLimit | components/network_interface/wifi_interface.c:81 | once the counter has reached a positive maximum, further disconnects change nothing and connect no more |
| WifiInterface.UnlimitedRetries | components/network_interface/wifi_interface.c:81-83 | with WIFI_MAXIMUM_RETRY 0, every disconnect issues a connect call and counts it |
| WifiInterface.RetryNumBounded | components/network_interface/wifi_interface.c:79-85 | with a positive maximum, the retry counter stays between 0 and the maximum under any sequence of events |
| WifiInterface.AddressFollowsLastOwnIpEvent | components/network_interface/wifi_interface.c:92-131 | after any events, the flag and address come from the last got-IP (true, its address) or lost-IP (false, its address) for the station netif, or are unchanged if there was none |
| WifiInterface.EthernetEventsIgnored | components/network_interface/wifi_interface.c:95-97 | got-IP and lost-IP events for the Ethernet netif leave the station's state untouched |
| WifiInterface.Boot | components/network_interface/wifi_interface.c:162-202 | the boot block as a function: after a power-on boot with NVS open the counter is stored and at most 3; a boot wipes the credentials at most once, and exactly when it leaves the timer stopped |
| WifiInterface.TimerFires | components/network_interface/wifi_interface.c:48-67 | the timer callback as a function: the timer ends deleted and nothing is wiped; an armed timer with NVS open leaves 0 stored, otherwise the stored entries are unchanged |
| WifiInterface.OtherResetKeepsCounter | components/network_interface/wifi_interface.c:162-166 | a boot for a reason other than power-on keeps the stored and RAM counter and wipes nothing, but still arms the timer |
| WifiInterface.QuickPowerCyclesCount | components/network_interface/wifi_interface.c:174-196 | starting from a stored count c ≤ 3, n power-on boots that each lose power before the timer fires leave (c+n) mod 4 stored and wipe the credentials (c+n) div 4 times |
| WifiInterface.FourQuickPowerCycles | components/network_interface/wifi_interface.c:178-196 | from 0, three quick power-on boots store 1, 2, 3 and wipe nothing; the fourth wipes once and stores 0 |
| WifiInterface.StayingUpClearsCounter | components/network_interface/wifi_interface.c:48-67 | a boot of any reason that stays up until the timer fires, with NVS opening, ends with 0 stored |
| WifiInterface.WipeCancelsTimer | components/network_interface/wifi_interface.c:192-193 | a boot that wipes the credentials has stopped the timer, so its expiry changes nothing |
| WifiInterface.CounterWraps | components/network_interface/wifi_interface.c:178-180 | a stored 255 wraps to 0 in the uint8_t increment, so that boot stores 0 and wipes nothing |
| WifiInterface.WifiStation.constructor | components/network_interface/wifi_interface.c:31-46 | the statics start a boot at retry 0, not connected, all-zero address, RAM counter 0, timer not armed |
| WifiInterface.WifiStation.EventHandler | components/network_interface/wifi_interface.c:75-89 | station start connects once; a disconnect connects and counts while the counter is below the maximum or the maximum is 0, and does nothing otherwise; other events change nothing; agrees with `Step` |
| WifiInterface.WifiStation.GotIpEventHandler | components/network_interface/wifi_interface.c:92-114 | for the station netif: takes the event's address, sets connected, clears the retry counter; otherwise nothing changes; agrees with `Step` |
| WifiInterface.WifiStation.LostIpEventHandler | components/network_interface/wifi_interface.c:116-131 | for the station netif: overwrites the address with the event's and clears connected, retry counter untouched; otherwise nothing changes; agrees with `Step` |
| WifiInterface.WifiStation.WifiGetIp | components/network_interface/wifi_interface.c:135-141 | returns the connected flag and, for a non-NULL destination, copies the stored address whether or not connected |
| WifiInterface.WifiStation.BootResetCounter | components/network_interface/wifi_interface.c:162-202 | arms the timer; on power-on with NVS open, reads the counter (RAM copy kept if missing), adds 1 in uint8_t, and above 3 wipes the credentials, stops the timer and stores 0, else stores the new count; any other boot changes no counter; agrees with `Boot` |
| WifiInterface.WifiStation.ResetTimerFires | components/network_interface/wifi_interface.c:48-67 | an armed timer clears the RAM and stored counter when NVS opens and is deleted either way; agrees with `TimerFires` |
| WifiInterface.QueryTwice | components/network_interface/wifi_interface.c:135-141 | wifi_get_ip changes no state: two queries give the same flag and address, those stored |
| UiHttpServer.KeyValue | components/ui_http_server/ui_http_server.c:95-113 | no value exactly when the key occurs nowhere; otherwise the value starts right after the key's first occurrence (anywhere in the string) and runs up to the next '&' or the end, and holds no '&' |
| UiHttpServer.ValueAtIsUpToAmp | components/ui_http_server/ui_http_server.c:104-113 | a text that starts at a position, has no '&' and ends at a '&' or the end is the reference "characters before the first '&'" of the rest |
| UiHttpServer.KeyValueIsUpToAmp | components/ui_http_server/ui_http_server.c:95-113 | when the key first occurs at i, the value is exactly the reference text before the first '&' after i+\|key\| |
| UiHttpServer.KeyAbsentExample | components/ui_http_server/ui_http_server.c:97-98 | "gain_1=" is not found in "gain_2=4" |
| UiHttpServer.EmptyValueExample | components/ui_http_server/ui_http_server.c:106-115 | in "gain_1=&gain_2=4" the gain_1 value is empty and the lookup returns 0, as for an absent key |
| UiHttpServer.UnanchoredExample | components/ui_http_server/ui_http_server.c:97 | the key matches inside another field: "xgain_1=7" yields "7" |
| UiHttpServer.FindKeyValue | components/ui_http_server/ui_http_server.c:95-116 | absent key: returns 0 and leaves the buffer alone; present key: the buffer holds the value, a terminator and its old tail, and the result is the value's length |
| UiHttpServer.RootPostHandler | components/ui_http_server/ui_http_server.c:210-263 | always answers 303 with Location "/"; queues a message exactly when some gain lookup returns non-zero, holding each non-empty gain text and the value of the last key found in str_value |
| UiHttpServer.TrimEol | components/ui_http_server/ui_http_server.c:132-140 | the trimmed line is a prefix of the line, does not end in CR or LF, and everything cut off is CR or LF |
| UiHttpServer.TrimEolAt | components/ui_http_server/ui_http_server.c:132-140 | those three properties determine the trimmed line uniquely |
| UiHttpServer.TrimEolIdempotent | components/ui_http_server/ui_http_server.c:132-140 | trimming twice equals trimming once |
| UiHttpServer.StripEol | components/ui_http_server/ui_http_server.c:130-140 | in place: the trailing CR/LF of the buffer's string become terminators and every other cell keeps its value; the buffer then reads as the trimmed string |
| UiHttpServer.Chunks | components/ui_http_server/ui_http_server.c:129-147 | the chunks the Text2Html line loop sends for the lines read: each trimmed of CR/LF, empty ones skipped, so never more chunks than lines |
| UiHttpServer.ChunksStep | components/ui_http_server/ui_http_server.c:129-147 | one more line adds its trimmed text to the chunks sent, unless that is empty |
| UiHttpServer.ChunksWellFormed | components/ui_http_server/ui_http_server.c:141-143 | every chunk sent is non-empty, does not end in CR or LF, and is a prefix of a line read |
| UiHttpServer.Fgets | components/ui_http_server/ui_http_server.c:129 | a line read into the buffer is followed by a terminator, and the buffer reads back as that line |
| UiHttpServer.SendTextFile | components/ui_http_server/ui_http_server.c:128-147 | the chunks the line loop sends are exactly `Chunks` of the lines read: each trimmed, the empty ones skipped |

## Left out

- `wifi_start` outside the reset-counter block (lines 146-160 and 204-256 of `wifi_interface.c`) is ESP-IDF set-up with no visible state: creating the netif, mode, protocol, bandwidth and config calls, event registration, `esp_wifi_start` and `improv_init`. The branch built without provisioning is left out for the same reason.
- The MAC address string and `esp_wifi_netif` handle statics are not read by any modelled operation.
- `network_init` and the Ethernet controller are not part of this model. Only the `eth` descriptor is used, to show it is never mistaken for the station.
- Outside the three named routines, `ui_http_server.c` is not modelled: SPIFFS mounting, `Image2Html`, the favicon handler, starting and stopping the HTTP server, the queue and `http_server_task`.
- The `nvs_set_u8` / `nvs_commit` error codes are not modelled. The source only logs them, so every write is taken to succeed. The result of the `nvs_open` calls is a boolean parameter.
- The reset reason, NVS availability and timer expiry are parameters. The timer task's concurrency with the event handlers is not modelled.
- The `esp_wifi_connect` and `esp_wifi_restore` calls are ghost counters. Their effects on the radio, and the bandwidth and protocol calls after a wipe, are not modelled.
- WifiInterface.WifiStation.EventHandler: `s_retry_num` is an unbounded integer. With `WIFI_MAXIMUM_RETRY` 0 the C `int` would eventually overflow, and the model does not capture that overflow.
- UiHttpServer.FindKeyValue: requires the caller's buffer to hold the value and its terminator. The C code writes past the buffer otherwise, which is undefined behaviour.
- UiHttpServer.RootPostHandler: requires that every found value fits in `str_value`, for the same reason. `strtof` is not modelled, so a gain is represented by the text it would be parsed from.
- UiHttpServer.SendTextFile: takes the lines `fgets` returns as input, each shorter than the 128-byte buffer. How `fgets` splits a file, lines containing a NUL byte, and the failure of `fopen` are not modelled. The chunks sent are returned instead of passed to `httpd_resp_sendstr_chunk`. Its send errors are only logged.
