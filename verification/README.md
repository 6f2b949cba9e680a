# RootApp core, modelled in Dafny

RootApp (`com.jabin.rootapp`) is an Android device-management app for rooted or
system-signed devices. It does most of its work through Android system services,
often by looking up hidden methods with reflection. This project models the
app's own logic around those calls. The calls themselves, and whatever they
return or throw, are parameters of the model.

- **NetworkManagerHelper** (`network_manager_helper.dfy`): Ethernet on/off, static
  IP and DHCP configuration. Modelled:
  - netmask text to prefix length: split on '.', fold the parsed parts into a
    32-bit mask, count its trailing zeros, with 24 as the default;
  - the DNS server list;
  - falling back to `eth0` when the interface list is missing or empty;
  - the per-interface loop that stops at the first interface accepting the
    configuration;
  - the `"ip/prefix"` link-address text.
- **SystemInfoHelper** (`system_info_helper.dfy`, with the dotted-quad text in
  `ipv4_text.dfy`):
  - the hardware-address text (`%02X` per byte, ':' between bytes);
  - choosing the interface by name, and choosing a usable IPv4 address;
  - the Wi-Fi IPv4 integer, lowest byte first, as dotted text.
- **UIControlHelper** (`ui_control_helper.dfy`): a class with the activity window's
  flags word, the overlay view and parameters, the system-key receiver and the
  lock flag.
  - The flag edits are `bv32` operations over masks whose values are parameters.
  - The overlay and receiver operations are idempotent, and their `finally`
    blocks always clear the fields.
  - `setEnhancedStatusBarSwipeAllowed` combines them into a lock and an unlock.
  - `getCurrentSystemBarsBehavior` maps a behaviour value to its text.
- **MainActivity** (`main_activity.dfy`):
  - bottom-navigation dispatch;
  - the fragment transaction of `switchFragment`;
  - the two app lists;
  - reading a package name back out of a `"label (package)"` entry.
- **AppManagerFragment** (`app_manager_fragment.dfy`): `mAppList` is cleared and then
  refilled with the third-party packages. An exception partway through leaves a
  prefix of the full list. A successful uninstall reloads the list.
- **NetworkFragment** (`network_fragment.dfy`):
  - the hotspot and Ethernet dialogs' input checks, on trimmed text;
  - the rule that a switch whose request fails is set back.

Two support modules hold what the core uses but does not define:

- `java_lang.dfy` models the `java.lang` behaviour the core depends on:
  - `int` range;
  - `Integer.parseInt` and `Integer.toString`;
  - `String.trim`, `contains`, `lastIndexOf` and `substring`, where an
    out-of-range `substring` is `None`;
  - `String.split` on a single character, including the removal of trailing
    empty strings.
- `android_packages.dfy` holds the part of `PackageInfo` that the lists read, and
  the `FLAG_SYSTEM` filter. MainActivity and AppManagerFragment share this filter.

Modelling choices:

- Android constants whose values do not appear in the source are parameters. This
  covers the `WindowManager.LayoutParams` flags, `ApplicationInfo.FLAG_SYSTEM`, the
  `WindowInsetsController` behaviours and the navigation item ids. The behaviours
  and item ids are required to be distinct, as switch labels and menu ids are.
- The netmask fold follows the code, not the usual meaning of a netmask:
  - `Integer.parseInt` accepts any `int`, negative or above 255, and its two's
    complement bits are folded in;
  - contiguity is not checked, so only the lowest set bit decides the prefix;
  - `split` drops trailing empty parts, so `"255.255.255.0."` still has four
    parts.
- Strings are sequences of Unicode characters. Where the code compares a
  `length()`, the model counts UTF-16 code units (`Utf16Length`). The positions
  `lastIndexOf` returns are only used to cut the same string, so the text cut out
  is the same in either count.
- A MAC byte is its unsigned value 0..255, which is what `%02X` prints for a
  Java `byte`.

## Model

| member | source | states |
|---|---|---|
| NetworkManagerHelper.PrefixLength | app/src/main/java/com/jabin/rootapp/NetworkManagerHelper.java:581-594 | the split/parse/shift loop computes NetmaskPrefix of the text (a part that fails to parse leaves the default 24), and the result lies in 0..32 |
| NetworkManagerHelper.FoldParts | app/src/main/java/com/jabin/rootapp/NetworkManagerHelper.java:586-589 | the shift-and-or loop ends without a mask iff some part fails to parse (parseInt throws), and otherwise with FoldMask of all the parsed values |
| NetworkManagerHelper.ParseAll | app/src/main/java/com/jabin/rootapp/NetworkManagerHelper.java:587-588 | parsing succeeds iff every part parses as an int, and then yields one value per part, in order |
| NetworkManagerHelper.TrailingZeros | app/src/main/java/com/jabin/rootapp/NetworkManagerHelper.java:590 | numberOfTrailingZeros: every bit below the result is clear and the bit at the result is set (32 for a zero word) |
| NetworkManagerHelper.NetmaskPrefixRange | app/src/main/java/com/jabin/rootapp/NetworkManagerHelper.java:586-590 | whatever the text, the prefix length is between 0 and 32 |
| NetworkManagerHelper.NetmaskPrefixOfDottedQuad | app/src/main/java/com/jabin/rootapp/NetworkManagerHelper.java:584-590 | for the dotted text of any four bytes, the prefix is 32 minus the trailing zeros of the 32-bit word the bytes spell |
| NetworkManagerHelper.ContiguousNetmaskPrefix | app/src/main/java/com/jabin/rootapp/NetworkManagerHelper.java:584-590 | the dotted text of the netmask with k leading ones gives prefix k, for every k in 0..32 |
| NetworkManagerHelper.NetmaskExamples | app/src/main/java/com/jabin/rootapp/NetworkManagerHelper.java:581-590 | "255.255.255.0" gives 24 and "0.0.0.0" gives 0 |
| NetworkManagerHelper.NetmaskFallsBackToDefault | app/src/main/java/com/jabin/rootapp/NetworkManagerHelper.java:581-594 | a netmask that does not split into exactly four parts, or has a part that does not parse, gives the default 24 |
| NetworkManagerHelper.NetmaskHigherBitsIgnored | app/src/main/java/com/jabin/rootapp/NetworkManagerHelper.java:586-590 | two netmasks whose words share their lowest set bit z give the same prefix 32 - z, however the higher bits differ (contiguity is not checked) |
| NetworkManagerHelper.DnsServers | app/src/main/java/com/jabin/rootapp/NetworkManagerHelper.java:577-578 | the list has one entry per non-empty DNS text, each non-empty and one of the two, with dns1 first and dns2 last; so at most 2 |
| NetworkManagerHelper.BuildDnsList | app/src/main/java/com/jabin/rootapp/NetworkManagerHelper.java:664-667 | the two conditional appends build exactly DnsServers(dns1, dns2) |
| NetworkManagerHelper.LinkAddressTextRoundTrip | app/src/main/java/com/jabin/rootapp/NetworkManagerHelper.java:633 | from ip + "/" + prefix, the last '/' sits right after the address, the text before it is the address and the text after it parses back to the prefix |
| NetworkManagerHelper.StaticConfiguration | app/src/main/java/com/jabin/rootapp/NetworkManagerHelper.java:575-667 | the configuration built carries the address with prefix NetmaskPrefix(netmask) (in 0..32) iff a LinkAddress could be made, and null otherwise; the gateway as given; and exactly DnsServers(dns1, dns2) |
| NetworkManagerHelper.ResolveInterfaces | app/src/main/java/com/jabin/rootapp/NetworkManagerHelper.java:482-503 | the list walked is never empty: a non-empty returned list is used as is; a throwing lookup, a non-list result or an empty list leaves exactly ["eth0"]; the call fails only when an empty returned list refuses the addition |
| NetworkManagerHelper.FirstAccepted | app/src/main/java/com/jabin/rootapp/NetworkManagerHelper.java:506-701 | the position of the first accepted attempt: -1 iff no attempt is accepted, otherwise an accepted one with none accepted before it |
| NetworkManagerHelper.ApplyToInterfaces | app/src/main/java/com/jabin/rootapp/NetworkManagerHelper.java:506-704 | returns true iff some interface accepts; then it has tried exactly the interfaces up to the first accepting one and reports that one; otherwise it has tried all of them, whatever failed on each |
| NetworkManagerHelper.SetEthernetEnabled | app/src/main/java/com/jabin/rootapp/NetworkManagerHelper.java:62-75 | true only with a manager present, and then exactly when the reflective call returns normally |
| NetworkManagerHelper.SetEthernetStaticIp | app/src/main/java/com/jabin/rootapp/NetworkManagerHelper.java:470-709 | false without a manager or without an interface list; otherwise true iff some interface accepts; the first accepting interface carried StaticConfiguration of the arguments when the IpConfiguration has setStaticIpConfiguration, and no static configuration (only the STATIC assignment) when it does not |
| NetworkManagerHelper.SetEthernetDhcp | app/src/main/java/com/jabin/rootapp/NetworkManagerHelper.java:715-830 | false without a manager or without an interface list; otherwise true iff some interface accepts, reporting the first accepting one |
| NetworkManagerHelper.DefaultInterfaceOnly | app/src/main/java/com/jabin/rootapp/NetworkManagerHelper.java:727-748 | a failed, non-list or empty modifiable lookup leaves exactly ["eth0"], and the walk succeeds iff that one attempt is accepted |
| SystemInfoHelper.HexPair | app/src/main/java/com/jabin/rootapp/SystemInfoHelper.java:73 | a byte prints as exactly two upper-case hex digits |
| SystemInfoHelper.MacTextLength | app/src/main/java/com/jabin/rootapp/SystemInfoHelper.java:71-78 | n bytes give 3n - 1 characters, and no bytes give "" |
| SystemInfoHelper.MacTextGroups | app/src/main/java/com/jabin/rootapp/SystemInfoHelper.java:71-78 | byte i is printed as its two hex digits at positions 3i and 3i + 1, followed by ':' unless it is the last |
| SystemInfoHelper.FormatMac | app/src/main/java/com/jabin/rootapp/SystemInfoHelper.java:71-78 | appending "%02X:" per byte and deleting the last character yields MacText of the bytes |
| SystemInfoHelper.MacTextRoundTrip | app/src/main/java/com/jabin/rootapp/SystemInfoHelper.java:71-78 | splitting the text of a non-empty address on ':' and parsing each group as hex gives back the bytes |
| SystemInfoHelper.EthernetNameMeansContainsEth | app/src/main/java/com/jabin/rootapp/SystemInfoHelper.java:68 | the Ethernet test `equals("eth0") \|\| contains("eth")` holds iff the name contains "eth" |
| SystemInfoHelper.WlanNameIsNotEthernet | app/src/main/java/com/jabin/rootapp/SystemInfoHelper.java:98 | "wlan0" passes the Wi-Fi test and fails the Ethernet test |
| SystemInfoHelper.FirstSelectedIndex | app/src/main/java/com/jabin/rootapp/SystemInfoHelper.java:67-81 | the first interface that passes the name test and whose getHardwareAddress answers bytes or throws, or -1 iff there is none |
| SystemInfoHelper.FirstSelectedMac | app/src/main/java/com/jabin/rootapp/SystemInfoHelper.java:67-81 | the search ends on a non-null answer iff some selected interface gives one, and that answer is the one of the interface at FirstSelectedIndex |
| SystemInfoHelper.ThrowingInterfaceHidesLaterOnes | app/src/main/java/com/jabin/rootapp/SystemInfoHelper.java:68-82 | a selected interface whose getHardwareAddress throws, with no earlier selected one answering, makes the result "Unknown" whatever later interfaces hold |
| SystemInfoHelper.FindMacText | app/src/main/java/com/jabin/rootapp/SystemInfoHelper.java:67-85 | the loop returns the formatted address of the first selected interface with a non-null answer, "Unknown" when that call throws or no interface answers; any other text is the formatted address of a selected interface |
| SystemInfoHelper.GetEthernetMacAddress | app/src/main/java/com/jabin/rootapp/SystemInfoHelper.java:63-86 | "Unknown" when listing interfaces throws; otherwise the text the search over Ethernet-named interfaces ends on (a throwing getHardwareAddress gives "Unknown") |
| SystemInfoHelper.GetWlanMacAddress | app/src/main/java/com/jabin/rootapp/SystemInfoHelper.java:92-121 | from Android 10, the text the search over "wlan0" ends on (a throwing getHardwareAddress gives "Unknown"); before, the connection info's text, or "Unknown" when that throws |
| SystemInfoHelper.FirstUsableIndex | app/src/main/java/com/jabin/rootapp/SystemInfoHelper.java:133-138 | the first non-loopback 4-byte address, or -1 iff there is none |
| SystemInfoHelper.FirstUsable | app/src/main/java/com/jabin/rootapp/SystemInfoHelper.java:133-138 | there is an address iff some address is non-loopback and 4 bytes long, and the one given is the one at FirstUsableIndex, hence such an address |
| SystemInfoHelper.GetEthernetIpAddress | app/src/main/java/com/jabin/rootapp/SystemInfoHelper.java:127-145 | the nested loops return the host text of the first usable address over the Ethernet-named interfaces in order, else "Unknown" |
| SystemInfoHelper.Octets | app/src/main/java/com/jabin/rootapp/SystemInfoHelper.java:156-160 | four octets, lowest byte first, each in 0..255 for any int, negative ones included |
| SystemInfoHelper.GetWlanIpAddress | app/src/main/java/com/jabin/rootapp/SystemInfoHelper.java:151-166 | "Unknown" when Wi-Fi is off or asking for the connection's address throws (a null connection info included); otherwise a text that parses back to the four octets of the address, lowest byte first |
| SystemInfoHelper.OctetsRoundTrip | app/src/main/java/com/jabin/rootapp/SystemInfoHelper.java:156-160 | packing the octets as a \| b<<8 \| c<<16 \| d<<24 in int arithmetic gives back the integer |
| SystemInfoHelper.WlanIpTextRoundTrip | app/src/main/java/com/jabin/rootapp/SystemInfoHelper.java:151-166 | the Wi-Fi text parses back to the octets, which pack back to the integer |
| Ipv4Text.DottedQuadSplit | app/src/main/java/com/jabin/rootapp/SystemInfoHelper.java:156-160 | the "%d.%d.%d.%d" text splits on '.' into exactly the four decimal texts |
| Ipv4Text.DottedQuadRoundTrip | app/src/main/java/com/jabin/rootapp/SystemInfoHelper.java:156-160 | the dotted text of four bytes parses back to those bytes |
| JavaLang.ParseInt | app/src/main/java/com/jabin/rootapp/NetworkManagerHelper.java:588 | Integer.parseInt: a result needs a sign or a digit first, and its sign follows the text's |
| JavaLang.ParseIntOfDecimal | app/src/main/java/com/jabin/rootapp/NetworkManagerHelper.java:588 | Integer.parseInt reads back the decimal text of every int |
| JavaLang.IntToDecimal | app/src/main/java/com/jabin/rootapp/UIControlHelper.java:963 | the decimal text of an int is non-empty and holds none of '.', '/', ':', '(' and ')' |
| JavaLang.HexValueOfHexChar | app/src/main/java/com/jabin/rootapp/SystemInfoHelper.java:73 | each hex digit printed reads back as its value |
| JavaLang.JavaSplit | app/src/main/java/com/jabin/rootapp/NetworkManagerHelper.java:584 | String.split on one character: text without the separator is a single part; otherwise the parts are the pieces between separators with only empty pieces dropped at the end; no part holds the separator |
| JavaLang.JavaSplitJoin | app/src/main/java/com/jabin/rootapp/NetworkManagerHelper.java:584 | separator-free parts whose last part is non-empty (or a single part) split back into exactly those parts once joined |
| JavaLang.JoinSplitAll | app/src/main/java/com/jabin/rootapp/NetworkManagerHelper.java:584 | the pieces between separators, joined by the separator, give back the text |
| JavaLang.Trim | app/src/main/java/com/jabin/rootapp/NetworkFragment.java:269-270 | String.trim: the infix of the text after the leading and before the trailing characters up to U+0020; empty iff every character is one of those, otherwise it starts and ends with a kept character |
| JavaLang.TrimUntrimmed | app/src/main/java/com/jabin/rootapp/NetworkFragment.java:269-270 | trim leaves text unchanged when its first and last characters lie above U+0020 |
| JavaLang.Utf16Length | app/src/main/java/com/jabin/rootapp/NetworkFragment.java:277 | String.length(): between the number of characters and twice it, and equal to it iff no character lies above U+FFFF |
| JavaLang.Utf16LengthAllSupplementary | app/src/main/java/com/jabin/rootapp/NetworkFragment.java:277 | text made only of characters above U+FFFF has length twice its number of characters |
| JavaLang.LastIndexOf | app/src/main/java/com/jabin/rootapp/MainActivity.java:376 | String.lastIndexOf: -1 iff absent, otherwise an occurrence with none after it |
| JavaLang.Substring | app/src/main/java/com/jabin/rootapp/MainActivity.java:376 | String.substring succeeds iff 0 <= begin <= end <= length, and then is the end - begin characters from begin |
| UIControlHelper.AllowInteraction | app/src/main/java/com/jabin/rootapp/UIControlHelper.java:188-197 | the seven flags are all clear afterwards and every other bit is as before |
| UIControlHelper.Restrict | app/src/main/java/com/jabin/rootapp/UIControlHelper.java:198-206 | the five flags are all set afterwards and every other bit is as before |
| UIControlHelper.RestrictLeavesFocusAndTouch | app/src/main/java/com/jabin/rootapp/UIControlHelper.java:198-206 | restricting never turns on NOT_FOCUSABLE or NOT_TOUCHABLE: with distinct flag bits, those bits keep their value |
| UIControlHelper.AllowAfterRestrict | app/src/main/java/com/jabin/rootapp/UIControlHelper.java:188-206 | allowing after restricting gives the same word as allowing directly |
| UIControlHelper.PreventExit | app/src/main/java/com/jabin/rootapp/UIControlHelper.java:496-502 | the five exit-prevention flags are set and every other bit is as before |
| UIControlHelper.AllowExit | app/src/main/java/com/jabin/rootapp/UIControlHelper.java:546-552 | the same five flags are clear and every other bit is as before |
| UIControlHelper.AllowExitUndoesPreventExit | app/src/main/java/com/jabin/rootapp/UIControlHelper.java:496-552 | disableAppExit(false) after disableAppExit(true) restores any word that had none of the five flags |
| UIControlHelper.Lock | app/src/main/java/com/jabin/rootapp/UIControlHelper.java:620-630 | after locking a receiver is registered, an overlay is present iff one was or adding it succeeded, and the lock flag is set unless the first registration throws |
| UIControlHelper.Unlock | app/src/main/java/com/jabin/rootapp/UIControlHelper.java:661-671 | after unlocking there is no overlay, no receiver and no lock, whatever the removals threw |
| UIControlHelper.LockIdempotent | app/src/main/java/com/jabin/rootapp/UIControlHelper.java:620-630 | locking an already locked helper changes nothing |
| UIControlHelper.LockThenUnlock | app/src/main/java/com/jabin/rootapp/UIControlHelper.java:620-671 | a lock whose registration does not throw ends locked, and unlocking it returns to the released state |
| UIControlHelper.GetCurrentSystemBarsBehavior | app/src/main/java/com/jabin/rootapp/UIControlHelper.java:950-968 | without Android 11 or a controller the text is "Not supported on this API level"; otherwise each of the three names is given iff the behaviour is its constant |
| UIControlHelper.UnknownBehaviorText | app/src/main/java/com/jabin/rootapp/UIControlHelper.java:962-963 | any other behaviour gives "Unknown behavior: " followed by text that parses back to the value |
| UIControlHelper.UIControlHelper.constructor | app/src/main/java/com/jabin/rootapp/UIControlHelper.java:33-41 | no overlay, no receiver, not locked |
| UIControlHelper.UIControlHelper.ControlWindowFlags | app/src/main/java/com/jabin/rootapp/UIControlHelper.java:184-210 | the seven `&= ~` edits leave AllowInteraction of the old word, and the five `\|=` edits leave Restrict of it |
| UIControlHelper.UIControlHelper.DisableAppExit | app/src/main/java/com/jabin/rootapp/UIControlHelper.java:496-552 | the window word becomes PreventExit (disable) or AllowExit (enable) of the old one |
| UIControlHelper.UIControlHelper.AddSystemOverlay | app/src/main/java/com/jabin/rootapp/UIControlHelper.java:748-786 | an existing overlay is kept; otherwise the overlay is present iff adding succeeded, and view and parameters are always set or cleared together |
| UIControlHelper.UIControlHelper.RemoveSystemOverlay | app/src/main/java/com/jabin/rootapp/UIControlHelper.java:791-807 | afterwards view and parameters are both cleared, even when the removal threw |
| UIControlHelper.UIControlHelper.RegisterSystemKeyReceiver | app/src/main/java/com/jabin/rootapp/UIControlHelper.java:840-867 | afterwards a receiver is set; the registration exception escapes only when none was set before |
| UIControlHelper.UIControlHelper.UnregisterSystemKeyReceiver | app/src/main/java/com/jabin/rootapp/UIControlHelper.java:872-887 | afterwards no receiver is set, even when unregistering threw |
| UIControlHelper.UIControlHelper.SetEnhancedStatusBarSwipeAllowed | app/src/main/java/com/jabin/rootapp/UIControlHelper.java:587-675 | allowing leaves the helper released with isLocked() false; disallowing leaves Lock of the old state and reports the escaping registration exception |
| AndroidPackages.NonSystemMembers | app/src/main/java/com/jabin/rootapp/MainActivity.java:325-330 | the filter keeps exactly the listed packages that lack the FLAG_SYSTEM bit |
| AndroidPackages.NonSystemAppend | app/src/main/java/com/jabin/rootapp/AppManagerFragment.java:127-141 | filtering a concatenation filters each part and keeps their order |
| AndroidPackages.NonSystemIdempotent | app/src/main/java/com/jabin/rootapp/MainActivity.java:325-330 | filtering the third-party list again changes nothing |
| AndroidPackages.NonSystemEmpty | app/src/main/java/com/jabin/rootapp/MainActivity.java:332-335 | the third-party list is empty iff every package has the FLAG_SYSTEM bit |
| MainActivity.NavTarget | app/src/main/java/com/jabin/rootapp/MainActivity.java:142-159 | no fragment iff the id is none of the five; with distinct ids, each fragment iff its own id |
| MainActivity.SwitchTransaction | app/src/main/java/com/jabin/rootapp/MainActivity.java:167-180 | a hide of the current fragment first iff there is one, then an add of f if f was never added, a show otherwise |
| MainActivity.SwitchShowsOnly | app/src/main/java/com/jabin/rootapp/MainActivity.java:171-182 | from a state showing only the current fragment, switching to f makes f current, added and the only fragment shown, losing nothing added |
| MainActivity.SwitchToCurrent | app/src/main/java/com/jabin/rootapp/MainActivity.java:171-182 | switching to the current fragment leaves the state unchanged |
| MainActivity.MainActivity.constructor | app/src/main/java/com/jabin/rootapp/MainActivity.java:106-115 | the initial state is the switch from no fragments to the home fragment |
| MainActivity.MainActivity.SwitchFragment | app/src/main/java/com/jabin/rootapp/MainActivity.java:167-183 | commits SwitchTransaction of the old state and leaves Switch of it |
| MainActivity.MainActivity.OnNavigationItemSelected | app/src/main/java/com/jabin/rootapp/MainActivity.java:142-159 | handled iff the id is one of the five; then the state is the switch to its fragment, otherwise unchanged |
| MainActivity.Entries | app/src/main/java/com/jabin/rootapp/MainActivity.java:328 | one "label (package)" entry per package, in order |
| MainActivity.AllAppsEntryTag | app/src/main/java/com/jabin/rootapp/MainActivity.java:347-348 | an all-apps entry ends with the system-app tag iff the package has FLAG_SYSTEM, and with the third-party tag iff it does not |
| MainActivity.ShowUninstallableApps | app/src/main/java/com/jabin/rootapp/MainActivity.java:321-338 | the entries are those of the third-party packages in input order, and there are none iff every package is a system app |
| MainActivity.ShowAllInstalledApps | app/src/main/java/com/jabin/rootapp/MainActivity.java:340-357 | one tagged entry per installed package, in input order |
| MainActivity.ExtractPackageName | app/src/main/java/com/jabin/rootapp/MainActivity.java:376 | fails without ')'; with both brackets it succeeds iff the last '(' precedes the last ')'; a result is the text strictly between the last '(' and the last ')' (the text before the last ')' without '('), and holds no '(' |
| MainActivity.ExtractFromEntry | app/src/main/java/com/jabin/rootapp/MainActivity.java:328-376 | a package name without brackets is read back from its entry, whatever brackets the label holds |
| MainActivity.OnAppListClick | app/src/main/java/com/jabin/rootapp/MainActivity.java:372-379 | a click is ignored iff the list cannot uninstall; otherwise it uninstalls iff a package name can be extracted from the clicked entry (the substring throws otherwise), and then names that package |
| MainActivity.ClickUninstallsListedPackage | app/src/main/java/com/jabin/rootapp/MainActivity.java:373-377 | clicking row i of the uninstallable list uninstalls the i-th third-party package |
| AppManagerFragment.AppInfos | app/src/main/java/com/jabin/rootapp/AppManagerFragment.java:130-138 | one entry per package, in order, copying its label, package name, version name and code, and install and update times |
| AppManagerFragment.PartialLoadIsPrefix | app/src/main/java/com/jabin/rootapp/AppManagerFragment.java:121-151 | a load that throws partway leaves a prefix of the list a complete load builds |
| AppManagerFragment.LoadedEntriesAreThirdParty | app/src/main/java/com/jabin/rootapp/AppManagerFragment.java:127-141 | every loaded entry is the copy of a listed package without the FLAG_SYSTEM bit |
| AppManagerFragment.AppManagerFragment.LoadUninstallableApps | app/src/main/java/com/jabin/rootapp/AppManagerFragment.java:120-152 | the list is cleared first and then holds the entries of the third-party packages before the failure point (all of them when nothing throws); it completes iff nothing throws |
| AppManagerFragment.AppManagerFragment.SilentUninstallApp | app/src/main/java/com/jabin/rootapp/AppManagerFragment.java:158-174 | a true answer reloads the list from the packages then installed; false or an exception leaves it untouched |
| NetworkFragment.CheckHotspotInput | app/src/main/java/com/jabin/rootapp/NetworkFragment.java:269-280 | an empty trimmed SSID is rejected first; otherwise a trimmed password under 8 UTF-16 code units is rejected; otherwise accepted |
| NetworkFragment.SurrogatePairsCountTwice | app/src/main/java/com/jabin/rootapp/NetworkFragment.java:277 | four characters above U+FFFF pass the 8-unit password check and three do not |
| NetworkFragment.OnHotspotSaveClicked | app/src/main/java/com/jabin/rootapp/NetworkFragment.java:268-289 | setHotspotConfig is called, with the trimmed texts, iff both checks pass, and the dialog closes iff that call returns true |
| NetworkFragment.ShortPasswordNeverSent | app/src/main/java/com/jabin/rootapp/NetworkFragment.java:277-280 | a trimmed password under 8 UTF-16 code units is never sent and the dialog stays open |
| NetworkFragment.OnEthernetSaveClicked | app/src/main/java/com/jabin/rootapp/NetworkFragment.java:205-239 | DHCP mode always asks for DHCP; static mode asks for the five trimmed fields iff address, gateway and netmask are non-empty; the dialog closes iff something was asked |
| NetworkFragment.DnsFieldsOptional | app/src/main/java/com/jabin/rootapp/NetworkFragment.java:208-222 | with the three required fields present, a static request is made whatever the DNS fields hold, empty ones included |
| NetworkFragment.SwitchAfter | app/src/main/java/com/jabin/rootapp/NetworkFragment.java:81-129 | the switch stays where the user put it iff the request succeeded |
| NetworkFragment.EthernetSwitchRevertsWithoutManager | app/src/main/java/com/jabin/rootapp/NetworkFragment.java:121-128 | without an Ethernet manager the Ethernet switch always springs back |
| NetworkFragment.ToggleSwitch.OnCheckedChanged | app/src/main/java/com/jabin/rootapp/NetworkFragment.java:81-100 | the Wi-Fi and Bluetooth listeners leave SwitchAfter of the request's answer |
| NetworkFragment.ToggleSwitch.OnHotspotCheckedChanged | app/src/main/java/com/jabin/rootapp/NetworkFragment.java:103-118 | the same revert rule, and the settings dialog opens iff enabling succeeded |
| NetworkFragment.ToggleSwitch.OnEthernetCheckedChanged | app/src/main/java/com/jabin/rootapp/NetworkFragment.java:121-129 | the same revert rule on setEthernetEnabled's answer |

## Left out

- Reflection: method lookup and invocation on hidden framework classes, the `setIpAssignment`, `STATIC`/`DHCP` and `LinkAddress` constructor probing. Each interface attempt's outcome is a parameter, and so are whether `setStaticIpConfiguration` exists and whether a `LinkAddress` constructor could be used; which of the three constructors was used is not modelled, apart from the single-string `"ip/prefix"` text of the third.
- `InetAddress.getByName` for the addresses and DNS servers is not modelled; addresses stay strings, and a lookup that throws is one of the failed-attempt outcomes.
- `getInterfaceList` returning a list that refuses `add` is modelled as an error; other list-implementation behaviour is not.
- `NetworkInterface.getNetworkInterfaces` returning null is not modelled. The NullPointerException would escape `getEthernetMacAddress` and `getEthernetIpAddress`, which catch only SocketException. `getWlanMacAddress` would answer "Unknown". In the model, an `interfaces` argument of `None` stands only for that listing throwing SocketException; a throwing `getHardwareAddress` is the `AddressThrows` answer of one interface.
- UIControlHelper: the insets controller and `setSystemUiVisibility` calls, the API-level branches that only change how the bars are hidden, `disableNavigationAndPhysicalKeys`/`restoreNavigationAndPhysicalKeys` (logging only) and the parts of `disableAppExit` other than the window flags.
- UIControlHelper.UIControlHelper.ControlWindowFlags: `getAttributes`/`setAttributes` are assumed to hand back the window's own flags word.
- Timing and threads: `Thread.sleep` in `setHotspotEnabled`, `postDelayed` in `controlTouchEvents`, and the asynchronous `FragmentTransaction.commit()`. MainActivity.MainActivity.SwitchFragment applies the transaction at once, so `isAdded()` sees every earlier switch; on Android it sees only transactions that have already run, which is the same for switches driven by separate clicks.
- Toasts, `Log` calls, dialog construction and adapters; only which dialog call happens (dismiss, open) is modelled.
- The `AppInfo` class is not part of this model; its icon and `ApplicationInfo` fields are left out of `AppManagerFragment.AppInfo`.
- MainActivity.ShowUninstallableApps: a null `applicationInfo` (a crash there) is not modelled; in `loadUninstallableApps` it is an exception at some package, which `failAt` covers.
- SystemInfoHelper.GetWlanMacAddress: before Android 10, `WifiInfo.getMacAddress()` may answer null, which the method returns as is; the model's text is always a string, so that null is not represented.
- `formatDate` (`SimpleDateFormat`) and `String.format` locale details.
- JavaLang.ParseInt: accepts ASCII digits only, while Java also accepts other Unicode decimal digits.
- Android's constant values (flags, behaviours, menu ids, `FLAG_SYSTEM`) are parameters.
- PowerManagerHelper, AppManagerHelper, SystemControlHelper and the view-only fragments are not part of this model.
