/**
 * What the radio calls do, in the terms of the call: which interface a radio mode puts a
 * peer on, what a hint is good for, when a send reaches the driver, when a failed binding is
 * tried again (src/ESPressio_ESPNowTransport.hpp:283-351, 699-875,
 * src/ESPressio_ESPNowWiFiCoordinator.hpp:66-219).
 */
module RadioOperations {
  import opened Bytes
  import opened RadioModel
  import opened RadioRuns
  import opened Tables

  // ---------------------------------------------------------------- binding to a radio state

  /** The interface a peer without a choice of its own belongs on, if the radio state settles it. */
  predicate BelongsOn(state: RadioState, iface: Iface) {
    || (state.mode == ModeStation && iface == Station)
    || (state.mode == ModeAccessPoint && iface == AccessPoint)
    || (state.mode == ModeBoth && state.stationActive && iface == Station)
    || (state.mode == ModeBoth && !state.stationActive && state.accessPointActive && iface == AccessPoint)
  }

  /** A radio state that is neither off nor scanning: the transport is bound to it. */
  predicate Usable(s: System, state: RadioState) { s.transport.initialized && !state.mode.Off? && !state.scanning }

  /**
   * Once the transport has been bound to a radio state, which shows in its being available or
   * follows from a driver that does as it is told, every managed peer is in the driver: on
   * its own interface if it has chosen one, else on the station or access point interface
   * the mode calls for, else, if the mode calls for neither, on the WiFi stack's default;
   * and the binding carries the state's channel and that interface.
   */
  lemma BoundPeersPlaced(s: System, env: Env, again: Env, state: RadioState, force: bool, x: PeerConfig, iface: Iface)
    requires Distinct(s.transport.managed) && Usable(s, state) && Manages(s.transport.managed, x)
    requires || Apply(s, Refresh(env, again, state, force)).transport.binding.available
             || (Obedient(env) && (s.transport.native.up || Rebuilds(s, force)))
    requires || x.choice == Fixed(iface)
             || (x.choice.Auto? && BelongsOn(state, iface))
             || (x.choice.Auto? && (forall i :: !BelongsOn(state, i)) && env.fallback == again.fallback == iface)
    ensures var u := Apply(s, Refresh(env, again, state, force)).transport;
            && x.address in u.native.peers && u.native.peers[x.address] == NativePeer(iface, x.channel, x.key)
            && u.binding.channel == state.channel && u.managed == s.transport.managed
            && (forall i :: BelongsOn(state, i) <==> u.binding.preferred == Fixed(i))
  {
    hide ApplyBinding, Distinct, Manages, Addresses;
    var c, t := s.coordinator, s.transport;
    var b := Binding(Preferred(state), state.channel, !c.scanSuspended);
    assert !BelongsOn(state, Station) && !BelongsOn(state, AccessPoint) <==> Preferred(state).Auto?;
    var rebuild := force || c.invalidated;
    var r1 := ApplyBinding(t, env, b, rebuild);
    if Obedient(env) && (t.native.up || Rebuilds(s, force)) { BindingSucceeds(t, env, b, rebuild); }
    BindKeeps(t, env, b, rebuild);
    BindKeeps(r1.transport, again, b, true);
    if r1.ok {
      RebindPlacesPeers(t, env, b, rebuild, x);
    } else {
      RebindPlacesPeers(r1.transport, again, b, true, x);
    }
  }

  /** The driver does as it is told. */
  ghost predicate Obedient(env: Env) { env.init && env.registers && forall a :: env.programs(a) }

  predicate Rebuilds(s: System, force: bool) { force || s.coordinator.invalidated || s.transport.suspended }

  lemma BindingSucceeds(t: Transport, env: Env, b: Binding, force: bool)
    requires t.initialized && Obedient(env) && (t.native.up || force || t.suspended)
    ensures ApplyBinding(t, env, b, force).ok
  {
    hide ProgramAll, Configs, ClearHints;
    var t1 := t.(binding := b.(available := false), hints := ClearHints(t.hints));
    if t.native.up { ProgramAllSucceeds(t1, env, Configs(t.managed)); }
    ProgramAllSucceeds(Renewed(t1), env, Configs(t.managed));
  }

  /** With such a driver binding succeeds: available unless a scan was still going on, and nothing is left due. */
  lemma WorkingDriverBinds(s: System, env: Env, again: Env, state: RadioState, force: bool)
    requires Usable(s, state) && Obedient(env) && (s.transport.native.up || Rebuilds(s, force))
    ensures var u := Apply(s, Refresh(env, again, state, force));
            && u.transport.binding.available == !s.coordinator.scanSuspended
            && !u.coordinator.invalidated && !u.coordinator.scanSuspended
            && (Rebuilds(s, force) ==> !u.due)
  {
    hide Rebuild, Reconcile, ClearHints, Preferred;
    var b := Binding(Preferred(state), state.channel, !s.coordinator.scanSuspended);
    BindingSucceeds(s.transport, env, b, force || s.coordinator.invalidated);
  }

  /**
   * A transition that began at all ends, with such a driver and a usable state, with sending
   * available, nothing due, and the driver holding exactly the registered peers; a state
   * change before that does nothing.
   */
  lemma TransitionEnds(s: System, env: Env, again: Env, state: RadioState)
    requires s.transport.initialized && !s.coordinator.scanSuspended && Distinct(s.transport.managed)
    requires !state.mode.Off? && !state.scanning && Obedient(env)
    ensures var begun := Apply(s, TransitionBegins);
            var done := Apply(begun, TransitionCompletes(env, again, state));
            && Apply(begun, StateChanges(env, again, state)) == begun
            && begun.due && !begun.transport.binding.available && begun.transport.native.peers == map[]
            && done.transport.binding.available && !done.due && !done.coordinator.transitioning
            && done.transport.native.peers.Keys == Addresses(s.transport.managed)
  {
    hide ApplyBinding, Distinct, Addresses, Preferred;
    var begun := Apply(s, TransitionBegins);
    var b := Binding(Preferred(state), state.channel, true);
    BindingSucceeds(begun.transport, env, b, true);
    BindKeeps(begun.transport, env, b, true);
  }

  /** A state change or the end of a scan binds like a refresh; the end of a scan opens what the scan shut. */
  lemma ScanEnds(s: System, env: Env, again: Env, state: RadioState)
    requires s.transport.initialized && !s.coordinator.transitioning && !state.mode.Off? && !state.scanning
    requires Obedient(env) && (s.transport.native.up || s.coordinator.invalidated || s.transport.suspended)
    ensures var scanning := Apply(s, ScanBegins);
            && !scanning.transport.binding.available
            && Apply(scanning, ScanCompletes(env, again, state)).transport.binding.available
            && Apply(s, StateChanges(env, again, state)) == Apply(s, Refresh(env, again, state, false))
  {
    hide ApplyBinding, Preferred;
    var b := Binding(Preferred(state), state.channel, true);
    var scanning := Apply(s, ScanBegins);
    BindingSucceeds(scanning.transport, env, b, scanning.coordinator.invalidated);
    AvailableWhenBound(scanning.transport, env, b, scanning.coordinator.invalidated);
  }

  lemma AvailableWhenBound(t: Transport, env: Env, b: Binding, force: bool)
    requires t.initialized && ApplyBinding(t, env, b, force).ok
    ensures ApplyBinding(t, env, b, force).transport.binding == b
  {
    hide Rebuild, Reconcile;
  }

  /** Off and scanning shut sending and leave the driver alone. */
  lemma OffAndScanningShut(s: System, env: Env, again: Env, state: RadioState, force: bool)
    requires s.transport.initialized && (state.mode.Off? || state.scanning)
    ensures var u := Apply(s, Refresh(env, again, state, force));
            && !u.transport.binding.available
            && u.transport == s.transport.(binding := s.transport.binding.(available := false))
            && u.coordinator.invalidated == (s.coordinator.invalidated || state.mode.Off?)
            && u.coordinator.scanSuspended == !state.mode.Off?
  {
  }

  /** A failed binding is tried again, with a rebuild, only if mode, channel or interface changed since the last one. */
  lemma RetriesOnlyOnChange(s: System, env: Env, again: Env, other: Env, state: RadioState)
    requires Usable(s, state) && !s.coordinator.invalidated
    ensures var c := s.coordinator;
            var same := c.haveSnapshot ==>
              c.lastMode == state.mode && c.lastChannel == state.channel
              && (c.lastPreferred.Auto? ==> forall i :: !BelongsOn(state, i))
              && (c.lastPreferred.Fixed? ==> BelongsOn(state, c.lastPreferred.iface));
            same ==>
              Apply(s, Refresh(env, again, state, false)) == Apply(s, Refresh(env, other, state, false))
  {
    hide ApplyBinding;
    assert !BelongsOn(state, Station) && !BelongsOn(state, AccessPoint) ==> Preferred(state).Auto?;
  }

  /** Binding remembers the mode, the channel and the interface for the next time, whether it succeeds or not. */
  lemma SnapshotTaken(s: System, env: Env, again: Env, state: RadioState, force: bool)
    requires Usable(s, state)
    ensures var c := Apply(s, Refresh(env, again, state, force)).coordinator;
            && c.haveSnapshot && c.lastMode == state.mode && c.lastChannel == state.channel
            && (forall i :: BelongsOn(state, i) <==> c.lastPreferred == Fixed(i))
  {
    hide ApplyBinding;
  }

  /** When it is tried again and the driver then does as it is told, sending becomes available. */
  lemma RetrySucceeds(s: System, env: Env, again: Env, state: RadioState)
    requires Usable(s, state) && s.coordinator.haveSnapshot
    requires !s.coordinator.scanSuspended && !s.coordinator.invalidated
    requires || state.mode != s.coordinator.lastMode || state.channel != s.coordinator.lastChannel
             || exists i :: BelongsOn(state, i) && s.coordinator.lastPreferred != Fixed(i)
    requires Obedient(again)
    ensures Apply(s, Refresh(env, again, state, false)).transport.binding.available
  {
    hide ApplyBinding;
    var t := s.transport;
    var b := Binding(Preferred(state), state.channel, true);
    var r1 := ApplyBinding(t, env, b, false);
    FirstTryKeeps(t, env, b);
    if r1.ok {
      AvailableWhenBound(t, env, b, false);
    } else {
      BindingSucceeds(r1.transport, again, b, true);
      AvailableWhenBound(r1.transport, again, b, true);
    }
  }

  lemma FirstTryKeeps(t: Transport, env: Env, b: Binding)
    requires t.initialized
    ensures ApplyBinding(t, env, b, false).transport.initialized
  {
    hide ProgramAll;
  }

  /** Starting opens sending on the channel with an empty driver; stopping shuts it and forgets every peer and hint. */
  lemma StartAndStop(t: Transport, channel: nat)
    ensures !t.initialized ==>
              var u := Start(t, channel);
              u.initialized && !u.suspended && u.binding == Binding(Auto, channel, true) && u.native.up
              && u.native.peers == map[] && u.managed == t.managed
    ensures t.initialized ==> Start(t, channel) == t
    ensures t.initialized ==>
              var u := Stop(t);
              && !u.initialized && !u.binding.available && !u.native.up && u.native.peers == map[]
              && (forall x :: !Manages(u.managed, x)) && (forall a :: Unhinted(u.hints, a))
              && |u.managed| == |t.managed| && |u.hints| == |t.hints|
    ensures !t.initialized ==> Stop(t) == t
  {
  }

  // ---------------------------------------------------------------- peers and hints

  /** `h` is the interface remembered for `a`. */
  ghost predicate Hinted(hints: seq<Option<Hint>>, a: Addr, iface: Iface) {
    exists i :: 0 <= i < |hints| && hints[i] == Some(Hint(a, iface))
      && forall j :: 0 <= j < i ==> hints[j].None? || hints[j].value.address != a
  }

  ghost predicate Unhinted(hints: seq<Option<Hint>>, a: Addr) {
    forall j :: 0 <= j < |hints| ==> hints[j].None? || hints[j].value.address != a
  }

  /**
   * Where `AddPeer` puts a peer: on the interface it has chosen, else the one it was last
   * heard on, else the binding's, else the default; and it is managed from then on. If the
   * driver refuses, it is not managed. While suspended it is managed and the driver untouched.
   */
  lemma AddPeerExactly(t: Transport, env: Env, x: PeerConfig, iface: Iface)
    requires t.initialized && x.address != 0 && StorePeer(t.managed, x).Some? && Distinct(t.managed)
    requires || x.choice == Fixed(iface)
             || (x.choice.Auto? && Hinted(t.hints, x.address, iface))
             || (x.choice.Auto? && Unhinted(t.hints, x.address) && t.binding.preferred == Fixed(iface))
             || (x.choice.Auto? && Unhinted(t.hints, x.address) && t.binding.preferred.Auto? && env.fallback == iface)
    ensures var r := AddPeer(t, env, x);
            && (r.ok <==> t.suspended || (t.native.up && env.programs(x.address)))
            && (r.ok <==> Manages(r.transport.managed, x))
            && (t.suspended ==> r.transport.native == t.native)
            && (!t.suspended && r.ok ==>
                  r.transport.native.peers == t.native.peers[x.address := NativePeer(iface, x.channel, x.key)])
            && (!r.ok ==> r.transport.native.peers == t.native.peers
                          && forall y :: Manages(r.transport.managed, y) ==> y.address != x.address)
  {
    hide StorePeer, ForgetPeer, Distinct, Manages;
    var stored := StorePeer(t.managed, x).value;
    StoreKeeps(t.managed, x);
    ForgetKeeps(stored, x.address);
    var at := First(t.hints, HintIs(x.address));
    if x.choice.Auto? && Hinted(t.hints, x.address, iface) {
      var i :| 0 <= i < |t.hints| && t.hints[i] == Some(Hint(x.address, iface))
        && forall j :: 0 <= j < i ==> t.hints[j].None? || t.hints[j].value.address != x.address;
      FirstIs(t.hints, HintIs(x.address), i);
    } else if x.choice.Auto? {
      FirstIs(t.hints, HintIs(x.address), |t.hints|);
    }
  }

  /** A peer is refused without a trace exactly when it cannot be stored: no record of its own and none free. */
  lemma AddPeerRefusedExactly(t: Transport, env: Env, x: PeerConfig)
    ensures StorePeer(t.managed, x).None?
            <==> forall i :: 0 <= i < |t.managed| ==> t.managed[i].Some? && t.managed[i].value.address != x.address
    ensures !t.initialized || x.address == 0 || StorePeer(t.managed, x).None? ==> AddPeer(t, env, x) == Result(t, false)
  {
    hide Program, ForgetPeer;
    assert forall i :: 0 <= i < |t.managed| ==> (Unused<PeerConfig>()(t.managed[i]) <==> t.managed[i].None?);
    assert forall i :: 0 <= i < |t.managed| ==>
             (AddressIs(x.address)(t.managed[i]) <==> t.managed[i].Some? && t.managed[i].value.address == x.address);
  }

  /**
   * Reconciling and reinitialising put every managed peer on the interface it chose, else the
   * binding's, else the default, whatever was heard before; reinitialising leaves no other peer.
   */
  lemma ReconcileExactly(t: Transport, env: Env, x: PeerConfig, iface: Iface)
    requires Distinct(t.managed) && Manages(t.managed, x)
    requires || x.choice == Fixed(iface)
             || (x.choice.Auto? && t.binding.preferred == Fixed(iface))
             || (x.choice.Auto? && t.binding.preferred.Auto? && env.fallback == iface)
    ensures var r := ReconcilePeers(t, env);
            r.ok ==> t.initialized && !t.suspended && OnInterface(r.transport, x, iface)
    ensures var r := Reinitialize(t, env);
            r.ok ==> t.initialized && !r.transport.suspended && OnInterface(r.transport, x, iface)
                     && r.transport.native.peers.Keys == Addresses(t.managed)
  {
    hide Reconcile, Rebuild, Resolve, Distinct, Manages, Addresses;
    var u := t.(hints := ClearHints(t.hints));
    ReconcileDoes(u, env);
    NoHint(u, env, x);
    RebuildDoes(u, env);
    NoHint(Renewed(u), env, x);
  }

  predicate OnInterface(t: Transport, x: PeerConfig, iface: Iface) {
    x.address in t.native.peers && t.native.peers[x.address] == NativePeer(iface, x.channel, x.key)
  }

  /** A frame heard from a managed peer without a choice of its own moves it there and is remembered. */
  lemma HeardPeerMoves(t: Transport, env: Env, x: PeerConfig, iface: Iface)
    requires Distinct(t.managed) && Manages(t.managed, x) && x.address != 0 && x.choice.Auto?
    ensures var u := Remember(t, env, x.address, iface);
            && (!t.suspended && x.address in t.native.peers && env.programs(x.address) ==>
                  u.native.peers == t.native.peers[x.address := t.native.peers[x.address].(iface := iface)])
            && (t.suspended ==> u.native == t.native)
            && ((exists i :: 0 <= i < |t.hints| && t.hints[i].None?) || !Unhinted(t.hints, x.address) ==>
                  Hinted(u.hints, x.address, iface))
            && u.managed == t.managed && u.binding == t.binding
  {
    hide First;
    var i :| 0 <= i < |t.managed| && t.managed[i] == Some(x);
    FirstIs(t.managed, AddressIs(x.address), i) by {
      forall j | 0 <= j < i ensures !AddressIs(x.address)(t.managed[j]) {
        assert t.managed[j].Some? ==> !AddressIs(t.managed[j].value.address)(t.managed[i]);
      }
    }
    HintStored(t.hints, Hint(x.address, iface));
  }

  lemma HintStored(hs: seq<Option<Hint>>, h: Hint)
    ensures (exists i :: 0 <= i < |hs| && hs[i].None?) || !Unhinted(hs, h.address) ==>
              Hinted(StoreHint(hs, h), h.address, h.iface)
  {
    var at := First(hs, HintIs(h.address));
    var free := First(hs, Unused());
    if at < |hs| {
      assert StoreHint(hs, h)[at] == Some(h);
    } else if free < |hs| {
      assert StoreHint(hs, h)[free] == Some(h);
    } else {
      assert forall j :: 0 <= j < |hs| ==> !HintIs(h.address)(hs[j]) && !Unused<Hint>()(hs[j]);
    }
  }

  /** Nothing is learnt about a peer that is not managed or has chosen its interface. */
  lemma HeardOthersIgnored(t: Transport, env: Env, a: Addr, iface: Iface)
    requires forall x :: Manages(t.managed, x) && x.address == a ==> x.choice.Fixed?
    ensures Remember(t, env, a, iface) == t
  {
    var at := First(t.managed, AddressIs(a));
    if at < |t.managed| {
      assert AddressIs(a)(t.managed[at]) && t.managed[at] == Some(t.managed[at].value);
      assert Manages(t.managed, t.managed[at].value);
    }
  }

  /** When `RemovePeer` succeeds neither registry nor driver has the peer; when it fails nothing has changed. */
  lemma RemovePeerExactly(t: Transport, env: Env, a: Addr)
    requires Distinct(t.managed) && (t.suspended ==> t.native.peers == map[])
    ensures var r := RemovePeer(t, env, a);
            && (r.ok <==> t.initialized && a != 0
                          && (t.suspended || (t.native.up && (a in t.native.peers ==> env.deletes(a)))))
            && (r.ok ==> r.transport.native.peers == t.native.peers - {a}
                         && forall y :: Manages(r.transport.managed, y) <==> Manages(t.managed, y) && y.address != a)
            && (!r.ok ==> r.transport == t.(native := r.transport.native) && r.transport.native.peers == t.native.peers)
            && (t.suspended ==> r.transport.native == t.native)
  {
    hide ForgetPeer, Distinct, Manages, ClearHint;
    ForgetKeeps(t.managed, a);
    if a !in t.native.peers { assert t.native.peers - {a} == t.native.peers; }
  }

  /** A send reaches the driver exactly through an open gate, and then its outcome is the driver's. */
  lemma SendGate(t: Transport, env: Env, to: Addr, length: nat)
    ensures var r := Send(t, env, to, length);
            var open := t.initialized && to != 0 && length <= 242 && !t.suspended && t.binding.available;
            && r.transport.native.calls == t.native.calls + (if open then 1 else 0)
            && (r.ok <==> open && env.sends)
            && r.transport == t.(native := t.native.(calls := r.transport.native.calls))
  {
  }
}
