/**
 * NetworkFragment: the checks its two settings dialogs run before handing the input
 * to NetworkManagerHelper, and the rule that a toggle whose request fails is set
 * back. The answers of the network manager calls are inputs.
 */
module NetworkFragment {
  import opened JavaLang
  import NetworkManagerHelper

  // ---------------------------------------------------------------------------
  // Hotspot settings dialog
  // ---------------------------------------------------------------------------

  const MinPasswordLength := 8

  datatype HotspotCheck = EmptySsid | ShortPassword | HotspotInputAccepted

  /** The save button's checks on the trimmed SSID and password, in the order they run. */
  function CheckHotspotInput(ssidText: string, passwordText: string): (r: HotspotCheck)
    ensures r == EmptySsid <==> Trim(ssidText) == []
    ensures r == ShortPassword <==> Trim(ssidText) != [] && Utf16Length(Trim(passwordText)) < MinPasswordLength
    ensures r == HotspotInputAccepted <==> Trim(ssidText) != [] && Utf16Length(Trim(passwordText)) >= MinPasswordLength
  {
    var ssid, password := Trim(ssidText), Trim(passwordText);
    if ssid == [] then EmptySsid
    else if password == [] || Utf16Length(password) < MinPasswordLength then ShortPassword
    else HotspotInputAccepted
  }

  /** The setHotspotConfig call a save makes, if any, and whether the dialog closes. */
  datatype HotspotSave = HotspotSave(configRequest: Option<(string, string)>, dismissed: bool)

  /**
   * The hotspot save handler. `configAccepted` is setHotspotConfig's answer; the
   * dialog stays open after a rejected input or a failed call.
   */
  function OnHotspotSaveClicked(ssidText: string, passwordText: string, configAccepted: bool): (r: HotspotSave)
    ensures r.configRequest.Some? <==> CheckHotspotInput(ssidText, passwordText) == HotspotInputAccepted
    ensures r.configRequest.Some? ==> r.configRequest.value == (Trim(ssidText), Trim(passwordText))
    ensures r.dismissed <==> r.configRequest.Some? && configAccepted
  {
    var ssid, password := Trim(ssidText), Trim(passwordText);
    if CheckHotspotInput(ssidText, passwordText) != HotspotInputAccepted then HotspotSave(None, false)
    else HotspotSave(Some((ssid, password)), configAccepted)
  }

  /**
   * The length check counts UTF-16 code units, as `String.length()` does: four
   * characters above U+FFFF make a password of length eight.
   */
  lemma SurrogatePairsCountTwice()
    ensures CheckHotspotInput("ap", "\U{1F600}\U{1F600}\U{1F600}\U{1F600}") == HotspotInputAccepted
    ensures CheckHotspotInput("ap", "\U{1F600}\U{1F600}\U{1F600}") == ShortPassword
  {
    var four, three := "\U{1F600}\U{1F600}\U{1F600}\U{1F600}", "\U{1F600}\U{1F600}\U{1F600}";
    TrimUntrimmed("ap");
    TrimUntrimmed(four);
    TrimUntrimmed(three);
    Utf16LengthAllSupplementary(four);
    Utf16LengthAllSupplementary(three);
  }

  /** Whatever setHotspotConfig would answer, a password under eight code units after trimming is never sent. */
  lemma ShortPasswordNeverSent(ssidText: string, passwordText: string, configAccepted: bool)
    requires Utf16Length(Trim(passwordText)) < MinPasswordLength
    ensures OnHotspotSaveClicked(ssidText, passwordText, configAccepted) == HotspotSave(None, false)
  {
  }

  // ---------------------------------------------------------------------------
  // Ethernet settings dialog
  // ---------------------------------------------------------------------------

  /** What the Ethernet save button asks NetworkManagerHelper for. */
  datatype EthernetRequest =
    | NoRequest
    | StaticIp(ipAddress: string, gateway: string, netmask: string, dns1: string, dns2: string)
    | Dhcp

  /** The static-IP check: trimmed address, gateway and netmask must be non-empty; DNS may be empty. */
  predicate StaticIpInputComplete(ipText: string, gatewayText: string, netmaskText: string) {
    Trim(ipText) != [] && Trim(gatewayText) != [] && Trim(netmaskText) != []
  }

  /**
   * The Ethernet save handler: a static request with the five trimmed fields when the
   * static mode is selected and the check passes, a DHCP request otherwise. The
   * dialog closes after any request, whatever its answer, and stays open without one.
   */
  function OnEthernetSaveClicked(
    staticSelected: bool, ipText: string, gatewayText: string, netmaskText: string, dns1Text: string, dns2Text: string)
    : (r: (EthernetRequest, bool))
    ensures r.1 <==> !r.0.NoRequest?
    ensures !staticSelected ==> r.0 == Dhcp
    ensures staticSelected ==> (r.0.NoRequest? <==> !StaticIpInputComplete(ipText, gatewayText, netmaskText))
    ensures r.0.StaticIp? ==> staticSelected
    ensures r.0.StaticIp? ==>
      r.0 == StaticIp(Trim(ipText), Trim(gatewayText), Trim(netmaskText), Trim(dns1Text), Trim(dns2Text))
  {
    if staticSelected then
      var ipAddress, gateway, netmask := Trim(ipText), Trim(gatewayText), Trim(netmaskText);
      var dns1, dns2 := Trim(dns1Text), Trim(dns2Text);
      if ipAddress == [] || gateway == [] || netmask == [] then (NoRequest, false)
      else (StaticIp(ipAddress, gateway, netmask, dns1, dns2), true)
    else (Dhcp, true)
  }

  /** Empty DNS fields never block a static request: only the three required fields decide. */
  lemma DnsFieldsOptional(ipText: string, gatewayText: string, netmaskText: string, dns1Text: string, dns2Text: string)
    requires StaticIpInputComplete(ipText, gatewayText, netmaskText)
    ensures OnEthernetSaveClicked(true, ipText, gatewayText, netmaskText, dns1Text, dns2Text).0.StaticIp?
    ensures OnEthernetSaveClicked(true, ipText, gatewayText, netmaskText, "", "").0.StaticIp?
  {
  }

  // ---------------------------------------------------------------------------
  // Toggle switches
  // ---------------------------------------------------------------------------

  /** The switch state a listener leaves: the requested state if the request succeeded, the opposite otherwise. */
  function SwitchAfter(isChecked: bool, requestSucceeded: bool): (checked: bool)
    ensures checked == isChecked <==> requestSucceeded
  {
    if requestSucceeded then isChecked else !isChecked
  }

  /** With no Ethernet manager on the device, turning the Ethernet switch either way springs back. */
  lemma EthernetSwitchRevertsWithoutManager(isChecked: bool, invocationSucceeds: bool)
    ensures SwitchAfter(isChecked, NetworkManagerHelper.SetEthernetEnabled(NetworkManagerHelper.Absent, invocationSucceeds))
      == !isChecked
  {
  }

  /** One of the fragment's Wi-Fi, Bluetooth, hotspot and Ethernet switches. */
  class ToggleSwitch {
    var checked: bool

    constructor (checked: bool)
      ensures this.checked == checked
    {
      this.checked := checked;
    }

    /** The Wi-Fi and Bluetooth listeners: on a false answer, setChecked(!isChecked). */
    method OnCheckedChanged(isChecked: bool, requestSucceeded: bool)
      modifies this
      ensures checked == SwitchAfter(isChecked, requestSucceeded)
    {
      checked := isChecked;
      if !requestSucceeded {
        checked := !isChecked;
      }
    }

    /** The hotspot listener: as above, and the settings dialog opens after a successful enable. */
    method OnHotspotCheckedChanged(isChecked: bool, requestSucceeded: bool) returns (openSettingsDialog: bool)
      modifies this
      ensures checked == SwitchAfter(isChecked, requestSucceeded)
      ensures openSettingsDialog <==> requestSucceeded && isChecked
    {
      checked := isChecked;
      openSettingsDialog := false;
      if requestSucceeded {
        if isChecked {
          openSettingsDialog := true;
        }
      } else {
        checked := !isChecked;
      }
    }

    /** The Ethernet listener, whose request is NetworkManagerHelper.setEthernetEnabled. */
    method OnEthernetCheckedChanged(
      isChecked: bool, manager: NetworkManagerHelper.EthernetManager, invocationSucceeds: bool)
      modifies this
      ensures checked == SwitchAfter(isChecked, NetworkManagerHelper.SetEthernetEnabled(manager, invocationSucceeds))
    {
      var result := NetworkManagerHelper.SetEthernetEnabled(manager, invocationSucceeds);
      OnCheckedChanged(isChecked, result);
    }
  }
}
