/**
 * The logical peer registry against the native peer table
 * (src/ESPressio_ESPNowTransport.hpp:283-435, 699-875) and the WiFi coordinator that suspends and
 * rebuilds native state (src/ESPressio_ESPNowWiFiCoordinator.hpp:46-219). The native driver is an
 * abstract peer table whose operations may fail; `calls` counts how often it is touched.
 */
module RadioModel {
  import opened Bytes
  import opened Tables

  datatype Iface = Station | AccessPoint

  /** `ESPNowWiFiInterface` */
  datatype Choice = Auto | Fixed(iface: Iface)

  datatype PeerConfig = PeerConfig(address: Addr, channel: nat, choice: Choice, key: Option<Bytes>)
  datatype Hint = Hint(address: Addr, iface: Iface)

  datatype NativePeer = NativePeer(iface: Iface, channel: nat, key: Option<Bytes>)

  datatype Native = Native(up: bool, peers: map<Addr, NativePeer>, calls: nat)

  datatype Binding = Binding(preferred: Choice, channel: nat, available: bool)

  datatype Transport = Transport(
    initialized: bool, suspended: bool, managed: seq<Option<PeerConfig>>, hints: seq<Option<Hint>>,
    binding: Binding, native: Native)

  /** How the driver and the WiFi stack answer during one call. */
  datatype Env = Env(
    programs: Addr -> bool, deletes: Addr -> bool, init: bool, registers: bool, sends: bool, fallback: Iface)

  // ---------------------------------------------------------------- tables

  function AddressIs(a: Addr): Option<PeerConfig> -> bool {
    (r: Option<PeerConfig>) => r.Some? && r.value.address == a
  }
  function HintIs(a: Addr): Option<Hint> -> bool { (h: Option<Hint>) => h.Some? && h.value.address == a }
  function Unused<T>(): Option<T> -> bool { (r: Option<T>) => r.None? }

  /** `StoreManagedPeer`: overwrite, else take a free record. */
  function StorePeer(m: seq<Option<PeerConfig>>, config: PeerConfig): Option<seq<Option<PeerConfig>>> {
    var at := First(m, AddressIs(config.address));
    if at < |m| then Some(m[at := Some(config)])
    else
      var free := First(m, Unused());
      if free < |m| then Some(m[free := Some(config)]) else None
  }

  function ForgetPeer(m: seq<Option<PeerConfig>>, a: Addr): seq<Option<PeerConfig>> {
    var at := First(m, AddressIs(a));
    if at < |m| then m[at := None] else m
  }

  function ManagedAuto(m: seq<Option<PeerConfig>>, a: Addr): bool {
    var at := First(m, AddressIs(a));
    at < |m| && m[at].value.choice.Auto?
  }

  /** `CopyManagedPeerConfigs` */
  function Configs(m: seq<Option<PeerConfig>>): seq<PeerConfig> {
    if m == [] then []
    else
      var rest, last := Configs(m[..|m| - 1]), m[|m| - 1];
      if last.Some? then rest + [last.value] else rest
  }

  function StoreHint(hs: seq<Option<Hint>>, hint: Hint): seq<Option<Hint>> {
    var at := First(hs, HintIs(hint.address));
    if at < |hs| then hs[at := Some(hint)]
    else
      var free := First(hs, Unused());
      if free < |hs| then hs[free := Some(hint)] else hs
  }

  function ClearHint(hs: seq<Option<Hint>>, a: Addr): seq<Option<Hint>> {
    var at := First(hs, HintIs(a));
    if at < |hs| then hs[at := None] else hs
  }

  function ClearHints(hs: seq<Option<Hint>>): (r: seq<Option<Hint>>)
    ensures |r| == |hs| && forall i :: 0 <= i < |r| ==> r[i].None?
  {
    seq(|hs|, _ => None)
  }

  // ---------------------------------------------------------------- native peers

  /** `ResolvePeerInterface`: explicit choice, then hint, then binding, then the mode's default. */
  function Resolve(t: Transport, env: Env, config: PeerConfig): Iface {
    if config.choice.Fixed? then config.choice.iface
    else
      var at := First(t.hints, HintIs(config.address));
      if at < |t.hints| then t.hints[at].value.iface
      else if t.binding.preferred.Fixed? then t.binding.preferred.iface
      else env.fallback
  }

  datatype Programmed = Programmed(native: Native, ok: bool)

  /** `ProgramPeerNativeLocked` */
  function Program(t: Transport, env: Env, config: PeerConfig): Programmed {
    var n := t.native.(calls := t.native.calls + 1);
    if n.up && env.programs(config.address) then
      var peer := NativePeer(Resolve(t, env, config), config.channel, config.key);
      Programmed(n.(peers := n.peers[config.address := peer]), true)
    else Programmed(n, false)
  }

  /** The loop of `ReconcileManagedPeersLocked`: every peer is tried, one failure fails the whole. */
  function ProgramAll(t: Transport, env: Env, configs: seq<PeerConfig>): Programmed {
    if configs == [] then Programmed(t.native, true)
    else
      var before := ProgramAll(t, env, configs[..|configs| - 1]);
      var r := Program(t.(native := before.native), env, configs[|configs| - 1]);
      Programmed(r.native, before.ok && r.ok)
  }

  datatype Result = Result(transport: Transport, ok: bool)

  function Reconcile(t: Transport, env: Env): Result {
    if t.suspended then Result(t, false)
    else
      var r := ProgramAll(t, env, Configs(t.managed));
      Result(t.(native := r.native), r.ok)
  }

  /** `ReinitializeNativeStateLocked`: taking the driver down empties its peer table. */
  function Rebuild(t: Transport, env: Env): Result {
    if !t.initialized then Result(t, false)
    else
      var down := t.(native := Native(false, map[], t.native.calls + 1));
      if !env.init || !env.registers then Result(down, false)
      else Reconcile(down.(suspended := false, native := down.native.(up := true)), env)
  }

  // ---------------------------------------------------------------- public calls

  function Start(t: Transport, channel: nat): Transport {
    if t.initialized then t
    else t.(initialized := true, suspended := false, native := Native(true, map[], t.native.calls + 1),
            binding := Binding(Auto, channel, true))
  }

  function Stop(t: Transport): Transport {
    if !t.initialized then t
    else t.(initialized := false, suspended := true, native := Native(false, map[], t.native.calls + 1),
            managed := seq(|t.managed|, _ => None), hints := ClearHints(t.hints),
            binding := Binding(Auto, 0, false))
  }

  function SetAvailable(t: Transport, available: bool): Transport { t.(binding := t.binding.(available := available)) }

  /** `SuspendNativeForRadioTransition` */
  function Suspend(t: Transport): Transport {
    if !t.initialized then t
    else SetAvailable(t, false).(suspended := true, native := Native(false, map[], t.native.calls + 1))
  }

  function ApplyBinding(t: Transport, env: Env, b: Binding, force: bool): Result {
    if !t.initialized then Result(t, false)
    else
      var t1 := t.(binding := b.(available := false), hints := ClearHints(t.hints));
      var r := if force || t1.suspended then Rebuild(t1, env) else Reconcile(t1, env);
      Result(r.transport.(binding := b.(available := b.available && r.ok)), r.ok)
  }

  function ReconcilePeers(t: Transport, env: Env): Result {
    if !t.initialized || t.suspended then Result(t, false)
    else Reconcile(t.(hints := ClearHints(t.hints)), env)
  }

  function Reinitialize(t: Transport, env: Env): Result {
    if !t.initialized then Result(t, false) else Rebuild(t.(hints := ClearHints(t.hints)), env)
  }

  function AddPeer(t: Transport, env: Env, config: PeerConfig): Result {
    var stored := StorePeer(t.managed, config);
    if !t.initialized || config.address == 0 || stored.None? then Result(t, false)
    else
      var t1 := t.(managed := stored.value);
      if t1.suspended then Result(t1, true)
      else
        var r := Program(t1, env, config);
        if r.ok then Result(t1.(native := r.native), true)
        else Result(t1.(native := r.native, managed := ForgetPeer(t1.managed, config.address)), false)
  }

  function RemovePeer(t: Transport, env: Env, a: Addr): Result {
    if !t.initialized || a == 0 then Result(t, false)
    else
      var gone := t.(hints := ClearHint(t.hints, a), managed := ForgetPeer(t.managed, a));
      if t.suspended then Result(gone, true)
      else
        var n := t.native.(calls := t.native.calls + 1);
        if a !in n.peers && n.up then Result(gone.(native := n), true)
        else if n.up && env.deletes(a) then Result(gone.(native := n.(peers := n.peers - {a})), true)
        else Result(t.(native := n), false)
  }

  function Send(t: Transport, env: Env, to: Addr, length: nat): Result {
    if !t.initialized || to == 0 || length > 242 || t.suspended || !t.binding.available then Result(t, false)
    else Result(t.(native := t.native.(calls := t.native.calls + 1)), env.sends)
  }

  /** `RememberPeerInterface`, for a received frame. */
  function Remember(t: Transport, env: Env, a: Addr, iface: Iface): Transport {
    if a == 0 || !ManagedAuto(t.managed, a) then t
    else
      var t1 := t.(hints := StoreHint(t.hints, Hint(a, iface)));
      if t1.suspended then t1
      else
        var n := t1.native.(calls := t1.native.calls + 1);
        if a in n.peers && env.programs(a) then t1.(native := n.(peers := n.peers[a := n.peers[a].(iface := iface)]))
        else t1.(native := n)
  }

  // ---------------------------------------------------------------- the coordinator

  datatype Mode = Off | ModeStation | ModeAccessPoint | ModeBoth
  datatype RadioState = RadioState(mode: Mode, scanning: bool, channel: nat, stationActive: bool,
                                   accessPointActive: bool)

  datatype Coordinator = Coordinator(
    lastMode: Mode, lastPreferred: Choice, lastChannel: nat, haveSnapshot: bool,
    scanSuspended: bool, invalidated: bool, transitioning: bool)

  /** `due` records that native state was invalidated and has not been rebuilt since. */
  datatype System = System(coordinator: Coordinator, transport: Transport, due: bool)

  /** `ResolvePreferredInterface` */
  function Preferred(s: RadioState): Choice {
    match s.mode
    case ModeAccessPoint => Fixed(AccessPoint)
    case ModeStation => Fixed(Station)
    case ModeBoth =>
      if s.stationActive then Fixed(Station) else if s.accessPointActive then Fixed(AccessPoint) else Auto
    case Off => Auto
  }

  /** Whether `ApplyBinding` rebuilds native state with success. */
  function Rebuilt(t: Transport, env: Env, b: Binding, force: bool): bool {
    t.initialized && (force || t.suspended) && ApplyBinding(t, env, b, force).ok
  }

  /** `ApplyState`; `again` answers the second attempt. */
  function ApplyState(s: System, env: Env, again: Env, state: RadioState, force: bool): System {
    var c, t := s.coordinator, s.transport;
    if !t.initialized then s
    else if state.mode.Off? then
      System(c.(invalidated := true, scanSuspended := false, lastMode := Off, lastPreferred := Auto, lastChannel := 0,
                haveSnapshot := true), SetAvailable(t, false), true)
    else if state.scanning then System(c.(scanSuspended := true), SetAvailable(t, false), s.due)
    else
      var preferred := Preferred(state);
      var changed := c.haveSnapshot
        && (preferred != c.lastPreferred || state.channel != c.lastChannel || state.mode != c.lastMode);
      var b := Binding(preferred, state.channel, !c.scanSuspended);
      var rebuild := force || c.invalidated;
      var r1 := ApplyBinding(t, env, b, rebuild);
      var retry := !r1.ok && !rebuild && changed;
      var r := if retry then ApplyBinding(r1.transport, again, b, true) else r1;
      var renewed := Rebuilt(t, env, b, rebuild) || (retry && r.ok);
      System(c.(invalidated := c.invalidated && !r.ok, lastMode := state.mode, lastPreferred := preferred,
                lastChannel := state.channel, haveSnapshot := true, scanSuspended := false),
             r.transport, s.due && !renewed)
  }

  datatype Action =
    | TransitionBegins
    | TransitionCompletes(env: Env, again: Env, after: RadioState)
    | StateChanges(env: Env, again: Env, after: RadioState)
    | ScanBegins
    | ScanCompletes(env: Env, again: Env, after: RadioState)
    | Refresh(env: Env, again: Env, after: RadioState, force: bool)
    | Add(env: Env, config: PeerConfig)
    | Drop(env: Env, address: Addr)
    | Transmit(env: Env, to: Addr, length: nat)
    | Hear(env: Env, from: Addr, iface: Iface)
    | Detach

  function Apply(s: System, a: Action): System {
    var c, t := s.coordinator, s.transport;
    match a
    case TransitionBegins =>
      if t.initialized then System(c.(invalidated := true, transitioning := true), Suspend(t), true) else s
    case TransitionCompletes(env, again, after) =>
      ApplyState(s.(coordinator := c.(transitioning := false)), env, again, after, c.transitioning || c.invalidated)
    case StateChanges(env, again, after) =>
      if after.scanning then System(c.(scanSuspended := true), SetAvailable(t, false), s.due)
      else if c.transitioning then s
      else ApplyState(s, env, again, after, false)
    case ScanBegins => System(c.(scanSuspended := true), SetAvailable(t, false), s.due)
    case ScanCompletes(env, again, after) =>
      var s1 := s.(coordinator := c.(scanSuspended := false));
      if c.transitioning then s1 else ApplyState(s1, env, again, after, false)
    case Refresh(env, again, after, force) => ApplyState(s, env, again, after, force)
    case Add(env, config) => s.(transport := AddPeer(t, env, config).transport)
    case Drop(env, address) => s.(transport := RemovePeer(t, env, address).transport)
    case Transmit(env, to, length) => s.(transport := Send(t, env, to, length).transport)
    case Hear(env, from, iface) => s.(transport := Remember(t, env, from, iface))
    case Detach =>
      s.(coordinator := c.(haveSnapshot := false, scanSuspended := false, invalidated := false, transitioning := false))
  }

  function Run(s: System, actions: seq<Action>): System {
    if actions == [] then s else Apply(Run(s, actions[..|actions| - 1]), actions[|actions| - 1])
  }
}
