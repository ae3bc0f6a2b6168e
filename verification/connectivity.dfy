/** Service-mode, connectivity-type and timeout validation of the library
    entry points (lib/icl.c). The platform feature check, the IoTivity
    start-up and the D-Bus calls are collaborators: their outcomes are
    parameters. */
module Connectivity {
  import opened Wrappers

  /** iotcon_service_mode_e: two bits, IP and BT (the enum values are not
      part of this model; the usual 1, 2 and their union 3 are taken). */
  const ServiceIp: int := 1
  const ServiceBt: int := 2
  const ServiceBoth: int := 3

  /** `IOTCON_SERVICE_IP & mode` and `IOTCON_SERVICE_BT & mode` on a C int
      in two's complement: Dafny's floor division by 2 is an arithmetic
      shift and `% 2` the low bit. */
  predicate HasIp(mode: int) { mode % 2 == 1 }
  predicate HasBt(mode: int) { (mode / 2) % 2 == 1 }

  /** iotcon_connectivity_type_e; `OtherType` is any value outside the six
      the check knows. */
  datatype ConnectivityType =
    | Ipv4
    | Ipv6
    | ConnectivityAll
    | BtEdr
    | BtLe
    | BtAll
    | OtherType(code: int)

  predicate IsIpType(c: ConnectivityType) {
    c.Ipv4? || c.Ipv6? || c.ConnectivityAll?
  }

  predicate IsBtType(c: ConnectivityType) {
    c.BtEdr? || c.BtLe? || c.BtAll?
  }

  /** icl_check_connectivity_type: IP types are refused only in BT-only
      mode, BT types only in IP-only mode, and every other type always. */
  function CheckConnectivityType(c: ConnectivityType, mode: int): (st: Status)
    ensures st == Ok || st == InvalidParameter
  {
    match c
    case Ipv4 | Ipv6 | ConnectivityAll => if mode == ServiceBt then InvalidParameter else Ok
    case BtEdr | BtLe | BtAll => if mode == ServiceIp then InvalidParameter else Ok
    case OtherType(_) => InvalidParameter
  }

  /** The check in one statement, and what it means for the three named
      modes. */
  lemma CheckConnectivityTypeIff(c: ConnectivityType, mode: int)
    ensures CheckConnectivityType(c, mode) == Ok <==>
      (IsIpType(c) && mode != ServiceBt) || (IsBtType(c) && mode != ServiceIp)
    ensures mode == ServiceBoth ==> (CheckConnectivityType(c, mode) == Ok <==> IsIpType(c) || IsBtType(c))
    ensures mode == ServiceIp ==> (CheckConnectivityType(c, mode) == Ok <==> IsIpType(c))
    ensures mode == ServiceBt ==> (CheckConnectivityType(c, mode) == Ok <==> IsBtType(c))
  {
  }

  /** ICL_DBUS_TIMEOUT_MAX and ICL_DBUS_TIMEOUT_DEFAULT (the default's value
      is not part of this model; 30 is taken). */
  const TimeoutMax: int := 3600
  const TimeoutDefault: int := 30

  /** The library's global settings: the service mode and the timeout kept
      for IP mode; `busTimeout` is the one kept by the D-Bus layer. */
  datatype Settings = Settings(mode: int, timeout: int, busTimeout: int)

  /** The settings before any call: no mode, default timeouts. */
  const Initial: Settings := Settings(0, TimeoutDefault, TimeoutDefault)

  predicate TimeoutInRange(seconds: int) {
    0 < seconds <= TimeoutMax
  }

  /** iotcon_set_timeout: refused outside (0, MAX]; in IP mode the value is
      kept here, in BT mode it is handed to the D-Bus layer, whose failure
      `busSet` is returned after the IP copy is already updated. */
  function SetTimeout(s: Settings, seconds: int, supported: bool, busSet: Status): (res: (Settings, Status))
    ensures !supported ==> res == (s, NotSupported)
    ensures supported && !TimeoutInRange(seconds) ==> res == (s, InvalidParameter)
    ensures res.0.mode == s.mode
    ensures res.0.timeout == s.timeout || res.0.timeout == seconds
    ensures res.0.busTimeout == s.busTimeout || res.0.busTimeout == seconds
    ensures res.1 == Ok ==> TimeoutInRange(seconds) && (HasBt(s.mode) ==> busSet == Ok)
  {
    if !supported then (s, NotSupported)
    else if TimeoutMax < seconds || seconds <= 0 then (s, InvalidParameter)
    else
      var s1 := if HasIp(s.mode) then s.(timeout := seconds) else s;
      if HasBt(s.mode) then
        if busSet != Ok then (s1, busSet) else (s1.(busTimeout := seconds), Ok)
      else (s1, Ok)
  }

  /** iotcon_get_timeout: the IP copy in IP mode, the D-Bus layer's in
      BT-only mode, SYSTEM_ERROR with no mode. */
  function GetTimeout(s: Settings, supported: bool): (res: (Status, Option<int>))
    ensures res.0 == Ok <==> supported && (HasIp(s.mode) || HasBt(s.mode))
    ensures res.0 != Ok ==> res.1.None?
    ensures res.0 == Ok ==> res.1 == Some(if HasIp(s.mode) then s.timeout else s.busTimeout)
  {
    if !supported then (NotSupported, None)
    else if HasIp(s.mode) then (Ok, Some(s.timeout))
    else if HasBt(s.mode) then (Ok, Some(s.busTimeout))
    else (SystemError, None)
  }

  /** A timeout that was set reads back, and the stored timeouts stay in
      range whatever is asked. */
  lemma SetThenGetTimeout(s: Settings, seconds: int, busSet: Status)
    requires TimeoutInRange(s.timeout) && TimeoutInRange(s.busTimeout)
    ensures var (s1, st) := SetTimeout(s, seconds, true, busSet);
      && TimeoutInRange(s1.timeout) && TimeoutInRange(s1.busTimeout)
      && (st == Ok && (HasIp(s.mode) || HasBt(s.mode)) ==> GetTimeout(s1, true) == (Ok, Some(seconds)))
  {
  }

  /** iotcon_connect_for_service_mode: a mode with neither bit (`BOTH & mode`
      is zero) is refused and nothing changes; otherwise the mode is recorded, then the IP
      start-up (`ipStart`, the first failure of IoTivity init, device and
      platform info) and the D-Bus start (`busStart`) run for their bits,
      and the first failure is returned. */
  function ConnectForServiceMode(s: Settings, mode: int, supported: bool, ipStart: Status, busStart: Status): (res: (Settings, Status))
    ensures !supported ==> res == (s, NotSupported)
    ensures supported && !HasIp(mode) && !HasBt(mode) ==> res == (s, InvalidParameter)
    ensures supported && (HasIp(mode) || HasBt(mode)) ==> res.0 == s.(mode := mode)
    ensures res.1 == Ok <==> (supported && (HasIp(mode) || HasBt(mode))
      && (HasIp(mode) ==> ipStart == Ok) && (HasBt(mode) ==> busStart == Ok))
  {
    if !supported then (s, NotSupported)
    else if !HasIp(mode) && !HasBt(mode) then (s, InvalidParameter)
    else
      var s1 := s.(mode := mode);
      if HasIp(mode) && ipStart != Ok then (s1, ipStart)
      else if HasBt(mode) && busStart != Ok then (s1, busStart)
      else (s1, Ok)
  }

  /** The three named modes have the bits their names say, and connecting
      in any of them from the initial settings records the mode. */
  lemma ModeBits(ipStart: Status, busStart: Status)
    ensures HasIp(ServiceIp) && !HasBt(ServiceIp)
    ensures !HasIp(ServiceBt) && HasBt(ServiceBt)
    ensures HasIp(ServiceBoth) && HasBt(ServiceBoth)
    ensures !HasIp(Initial.mode) && !HasBt(Initial.mode)
    ensures TimeoutInRange(Initial.timeout) && TimeoutInRange(Initial.busTimeout)
    ensures ConnectForServiceMode(Initial, 0, true, ipStart, busStart) == (Initial, InvalidParameter)
    ensures ConnectForServiceMode(Initial, ServiceBoth, true, Ok, Ok) == (Initial.(mode := ServiceBoth), Ok)
  {
  }
}
