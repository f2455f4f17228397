/** Classroom WiFi detection and verification. Every platform reading
    (granted permissions, location switch, WiFi manager, radio state, active
    transport, connection info) is one field of a snapshot; the rules applied
    to that snapshot are pure functions. */
module WifiUtils {
  import opened Common
  import opened Strings

  datatype Permission = AccessWifiState | AccessFineLocation | AccessCoarseLocation

  /** API level of Android 10, from which SSIDs need fine location. */
  const SdkQ: int := 29

  /** The permissions WiFi detection asks for: WiFi state always, fine
      location from Android 10 on and coarse location before it. */
  function RequiredPermissions(sdkInt: int): (r: seq<Permission>)
    ensures |r| == 2 && r[0] == AccessWifiState
    ensures AccessFineLocation in r <==> sdkInt >= SdkQ
    ensures AccessCoarseLocation in r <==> sdkInt < SdkQ
  {
    if sdkInt >= SdkQ then [AccessWifiState, AccessFineLocation]
    else [AccessWifiState, AccessCoarseLocation]
  }

  /** The platform's raw connection info; either field may be null. */
  datatype RawConnectionInfo = RawConnectionInfo(ssid: Option<string>, bssid: Option<string>)

  /** Everything the WiFi checks read from the device at one moment. */
  datatype PlatformSnapshot = PlatformSnapshot(
    sdkInt: int,
    granted: set<Permission>,
    locationEnabled: bool,
    hasWifiManager: bool,
    wifiEnabled: bool,
    connectedToWifi: bool,
    connectionInfo: Option<RawConnectionInfo>)

  /** The normalised identity of the network the device is on. */
  datatype WiFiInfo = WiFiInfo(ssid: string, bssid: string, isConnected: bool)

  /** What the platform reports as SSID when it withholds the name. */
  const UnknownSsid: string := "<unknown ssid>"

  /** What the platform reports as BSSID when it withholds the address. */
  const PlaceholderBssid: string := "02:00:00:00:00:00"

  /** `hasRequiredPermissions`: WiFi state and the location permission of
      the device's API level are both granted. */
  predicate HasRequiredPermissions(p: PlatformSnapshot): (ok: bool)
    ensures ok <==> && AccessWifiState in p.granted
                    && (if p.sdkInt >= SdkQ then AccessFineLocation else AccessCoarseLocation) in p.granted
  {
    forall q | q in RequiredPermissions(p.sdkInt) :: q in p.granted
  }

  /** A null SSID reads as empty; every double quote is removed. */
  function CleanSsid(raw: Option<string>): (r: string)
    ensures '"' !in r
    ensures raw.None? ==> r == ""
  {
    RemoveAll(if raw.Some? then raw.value else "", '"')
  }

  /** `getCurrentWiFiInfo`: the guard chain over the snapshot. */
  function CurrentWiFiInfo(p: PlatformSnapshot): (r: Option<WiFiInfo>)
    ensures (|| !HasRequiredPermissions(p) || !p.locationEnabled || !p.hasWifiManager
             || !p.wifiEnabled || !p.connectedToWifi || p.connectionInfo.None?) ==> r.None?
    ensures r.Some? ==>
      var raw := p.connectionInfo.value;
      && r.value.ssid == CleanSsid(raw.ssid)
      && r.value.ssid != "" && r.value.ssid != UnknownSsid && '"' !in r.value.ssid
      && raw.bssid.Some? && raw.bssid.value != PlaceholderBssid
      && r.value.bssid == Lower(raw.bssid.value)
      && r.value.isConnected
    ensures (&& r.None? && HasRequiredPermissions(p) && p.locationEnabled && p.hasWifiManager
             && p.wifiEnabled && p.connectedToWifi && p.connectionInfo.Some?) ==>
      var raw := p.connectionInfo.value;
      CleanSsid(raw.ssid) in {"", UnknownSsid} || raw.bssid in {None, Some(PlaceholderBssid)}
  {
    if !HasRequiredPermissions(p) then None
    else if !p.locationEnabled then None
    else if !p.hasWifiManager then None
    else if !p.wifiEnabled then None
    else if !p.connectedToWifi then None
    else if p.connectionInfo.None? then None
    else
      var raw := p.connectionInfo.value;
      var ssid := CleanSsid(raw.ssid);
      if ssid == UnknownSsid || ssid == "" then None
      else if raw.bssid.None? || raw.bssid.value == PlaceholderBssid then None
      else Some(WiFiInfo(ssid, Lower(raw.bssid.value), true))
  }

  /** How a configured classroom SSID is cleaned before comparing: trimmed,
      then every double quote removed. */
  function ExpectedSsid(expectedSSID: string): string {
    RemoveAll(Trim(expectedSSID), '"')
  }

  /** How a configured classroom BSSID is cleaned before comparing: trimmed,
      then lower-cased. */
  function ExpectedBssid(expectedBSSID: string): string {
    Lower(Trim(expectedBSSID))
  }

  /** `verifyClassroomWiFi`: the device is on a network whose SSID and BSSID
      both equal the cleaned expected values, ignoring case. */
  predicate VerifyClassroomWiFi(p: PlatformSnapshot, expectedSSID: string, expectedBSSID: string) {
    && CurrentWiFiInfo(p).Some?
    && EqualsIgnoreCase(CurrentWiFiInfo(p).value.ssid, ExpectedSsid(expectedSSID))
    && EqualsIgnoreCase(CurrentWiFiInfo(p).value.bssid, ExpectedBssid(expectedBSSID))
  }

  /** `verifyClassroomWiFiBySSID`: the lenient check on the SSID alone. */
  predicate VerifyClassroomWiFiBySSID(p: PlatformSnapshot, expectedSSID: string) {
    CurrentWiFiInfo(p).Some? && EqualsIgnoreCase(CurrentWiFiInfo(p).value.ssid, ExpectedSsid(expectedSSID))
  }

  /** What the two checks compare: the SSIDs agree once lower-cased, and the
      detected BSSID, already lower-cased, equals the cleaned configured one
      exactly. */
  lemma VerifyAsLowerCaseEquality(p: PlatformSnapshot, expectedSSID: string, expectedBSSID: string)
    ensures VerifyClassroomWiFiBySSID(p, expectedSSID)
        <==> && CurrentWiFiInfo(p).Some?
             && Lower(CurrentWiFiInfo(p).value.ssid) == Lower(ExpectedSsid(expectedSSID))
    ensures VerifyClassroomWiFi(p, expectedSSID, expectedBSSID)
        <==> && CurrentWiFiInfo(p).Some?
             && Lower(CurrentWiFiInfo(p).value.ssid) == Lower(ExpectedSsid(expectedSSID))
             && CurrentWiFiInfo(p).value.bssid == ExpectedBssid(expectedBSSID)
  {
    if CurrentWiFiInfo(p).Some? {
      var info := CurrentWiFiInfo(p).value;
      EqualsIgnoreCaseIsLowerEquality(info.ssid, ExpectedSsid(expectedSSID));
      EqualsIgnoreCaseIsLowerEquality(info.bssid, ExpectedBssid(expectedBSSID));
      LowerIdempotent(p.connectionInfo.value.bssid.value);
      LowerIdempotent(Trim(expectedBSSID));
    }
  }

  /** Both checks fail, without error, when there is no current network, and
      the full check is stricter than the SSID-only one. */
  lemma VerifyImpliesVerifyBySSID(p: PlatformSnapshot, expectedSSID: string, expectedBSSID: string)
    ensures CurrentWiFiInfo(p).None? ==> !VerifyClassroomWiFi(p, expectedSSID, expectedBSSID)
    ensures CurrentWiFiInfo(p).None? ==> !VerifyClassroomWiFiBySSID(p, expectedSSID)
    ensures VerifyClassroomWiFi(p, expectedSSID, expectedBSSID) ==> VerifyClassroomWiFiBySSID(p, expectedSSID)
  {
  }

  /** The outcome of verification does not depend on the case in which the
      classroom's SSID and BSSID were entered. */
  lemma VerifyIgnoresConfiguredCase(p: PlatformSnapshot, expectedSSID: string, expectedBSSID: string)
    ensures VerifyClassroomWiFi(p, Lower(expectedSSID), Lower(expectedBSSID))
        == VerifyClassroomWiFi(p, expectedSSID, expectedBSSID)
  {
    var info := CurrentWiFiInfo(p);
    if info.Some? {
      TrimLowerCommute(expectedSSID);
      RemoveAllLowerCommute(Trim(expectedSSID), '"');
      assert ExpectedSsid(Lower(expectedSSID)) == Lower(ExpectedSsid(expectedSSID));
      IgnoreCaseAgainstLower(info.value.ssid, ExpectedSsid(expectedSSID));
      TrimLowerCommute(expectedBSSID);
      LowerIdempotent(Trim(expectedBSSID));
      assert ExpectedBssid(Lower(expectedBSSID)) == ExpectedBssid(expectedBSSID);
    }
  }

  lemma IgnoreCaseAgainstLower(a: string, b: string)
    ensures EqualsIgnoreCase(a, Lower(b)) == EqualsIgnoreCase(a, b)
  {
  }

  /** A classroom configured with exactly the SSID and BSSID the device
      reports is recognised, as long as the SSID has no whitespace at either
      end. */
  lemma VerifyAcceptsReportedIdentity(p: PlatformSnapshot)
    requires CurrentWiFiInfo(p).Some?
    requires Trim(CurrentWiFiInfo(p).value.ssid) == CurrentWiFiInfo(p).value.ssid
    requires Trim(CurrentWiFiInfo(p).value.bssid) == CurrentWiFiInfo(p).value.bssid
    ensures VerifyClassroomWiFi(p, CurrentWiFiInfo(p).value.ssid, CurrentWiFiInfo(p).value.bssid)
  {
    var info := CurrentWiFiInfo(p).value;
    var raw := p.connectionInfo.value;
    assert ExpectedSsid(info.ssid) == info.ssid;
    LowerIdempotent(raw.bssid.value);
    assert ExpectedBssid(info.bssid) == info.bssid;
  }

  lemma {:induction false} RemoveAllAppend(a: string, b: string, c: char)
    ensures RemoveAll(a + b, c) == RemoveAll(a, c) + RemoveAll(b, c)
  {
    if a != [] {
      assert (a + b)[0] == a[0];
      assert (a + b)[1..] == a[1..] + b;
      RemoveAllAppend(a[1..], b, c);
      if a[0] != c {
        assert RemoveAll(a + b, c) == [a[0]] + (RemoveAll(a[1..], c) + RemoveAll(b, c));
      }
    } else {
      assert a + b == b;
    }
  }

  /** The platform reports SSIDs wrapped in double quotes; a classroom
      configured with the bare network name (in any case) and the access
      point's address is still recognised. */
  lemma QuotedSsidMatchesBareName(p: PlatformSnapshot, name: string, bssid: string)
    requires HasRequiredPermissions(p) && p.locationEnabled && p.hasWifiManager
    requires p.wifiEnabled && p.connectedToWifi
    requires p.connectionInfo == Some(RawConnectionInfo(Some("\"" + name + "\""), Some(bssid)))
    requires '"' !in name && name != "" && name != UnknownSsid && Trim(name) == name
    requires bssid != PlaceholderBssid && Trim(bssid) == bssid
    ensures VerifyClassroomWiFi(p, name, bssid)
    ensures VerifyClassroomWiFi(p, Lower(name), Lower(bssid))
  {
    UnquoteQuoted(name);
    var info := WiFiInfo(name, Lower(bssid), true);
    DetectedIdentity(p, name, bssid);
    assert ExpectedSsid(name) == name;
    assert EqualsIgnoreCase(info.ssid, ExpectedSsid(name));
    assert ExpectedBssid(bssid) == info.bssid;
    assert EqualsIgnoreCase(info.bssid, ExpectedBssid(bssid));
    VerifyIgnoresConfiguredCase(p, name, bssid);
  }

  /** On a ready device whose cleaned SSID and raw BSSID are valid, detection
      yields exactly that SSID and the lower-cased BSSID. */
  lemma DetectedIdentity(p: PlatformSnapshot, name: string, bssid: string)
    requires HasRequiredPermissions(p) && p.locationEnabled && p.hasWifiManager
    requires p.wifiEnabled && p.connectedToWifi && p.connectionInfo.Some?
    requires CleanSsid(p.connectionInfo.value.ssid) == name && name != "" && name != UnknownSsid
    requires p.connectionInfo.value.bssid == Some(bssid) && bssid != PlaceholderBssid
    ensures CurrentWiFiInfo(p) == Some(WiFiInfo(name, Lower(bssid), true))
  {
  }

  lemma UnquoteQuoted(name: string)
    requires '"' !in name
    ensures CleanSsid(Some("\"" + name + "\"")) == name
  {
    RemoveAllAppend("\"" + name, "\"", '"');
    RemoveAllAppend("\"", name, '"');
    assert RemoveAll("\"", '"') == [];
  }

  const MsgNoPermission: string := "Location permission is required to detect WiFi network"
  const MsgLocationOff: string := "Please enable Location services in your device settings"
  const MsgNoManager: string := "WiFi service unavailable"
  const MsgWifiOff: string := "WiFi is turned off. Please enable WiFi"
  const MsgNotConnected: string := "Not connected to any WiFi network"
  const MsgConnectedPrefix: string := "Connected to: "
  const MsgNoInfo: string := "Unable to get WiFi information"

  /** `getWiFiStatusMessage`: the first failing platform condition, in the
      order permission, location, manager, radio, connection; otherwise the
      connected network or the generic failure. */
  function WiFiStatusMessage(p: PlatformSnapshot): (r: string)
    ensures !HasRequiredPermissions(p) ==> r == MsgNoPermission
    ensures HasRequiredPermissions(p) && !p.locationEnabled ==> r == MsgLocationOff
    ensures HasRequiredPermissions(p) && p.locationEnabled && !p.hasWifiManager ==> r == MsgNoManager
    ensures HasRequiredPermissions(p) && p.locationEnabled && p.hasWifiManager && !p.wifiEnabled ==> r == MsgWifiOff
    ensures (&& HasRequiredPermissions(p) && p.locationEnabled && p.hasWifiManager && p.wifiEnabled
             && !p.connectedToWifi) ==> r == MsgNotConnected
    ensures (&& HasRequiredPermissions(p) && p.locationEnabled && p.hasWifiManager && p.wifiEnabled
             && p.connectedToWifi) ==>
      r == (if CurrentWiFiInfo(p).Some? then MsgConnectedPrefix + CurrentWiFiInfo(p).value.ssid else MsgNoInfo)
  {
    if !HasRequiredPermissions(p) then MsgNoPermission
    else if !p.locationEnabled then MsgLocationOff
    else if !p.hasWifiManager then MsgNoManager
    else if !p.wifiEnabled then MsgWifiOff
    else if !p.connectedToWifi then MsgNotConnected
    else match CurrentWiFiInfo(p)
      case Some(info) => MsgConnectedPrefix + info.ssid
      case None => MsgNoInfo
  }

  /** The status message names a network exactly when detection yields one,
      and then it names the detected SSID. */
  lemma StatusMessageAgreesWithInfo(p: PlatformSnapshot)
    ensures CurrentWiFiInfo(p).Some? ==> WiFiStatusMessage(p) == MsgConnectedPrefix + CurrentWiFiInfo(p).value.ssid
    ensures CurrentWiFiInfo(p).None? ==>
      WiFiStatusMessage(p) in {MsgNoPermission, MsgLocationOff, MsgNoManager, MsgWifiOff, MsgNotConnected, MsgNoInfo}
  {
  }
}
