/**
 * The transport and the WiFi coordinator as objects updated in place: fixed record tables
 * searched by loops, flags set by callbacks. Each method does what its function in
 * `RadioModel` says.
 */
module RadioTransport {
  import opened Bytes
  import opened RadioModel
  import opened RadioRuns
  import opened Tables

  class EspNowTransport {
    var initialized: bool
    var suspended: bool
    var managed: seq<Option<PeerConfig>>
    var hints: seq<Option<Hint>>
    var binding: Binding
    var native: Native

    ghost function Model(): Transport
      reads this
    {
      Transport(initialized, suspended, managed, hints, binding, native)
    }

    constructor (maxPeers: nat, maxHints: nat)
      ensures Model() == Transport(false, false, seq(maxPeers, _ => None), seq(maxHints, _ => None),
                                   Binding(Auto, 0, false), Native(false, map[], 0))
      ensures Placed(Model())
    {
      initialized, suspended, binding, native := false, false, Binding(Auto, 0, false), Native(false, map[], 0);
      managed, hints := seq(maxPeers, _ => None), seq(maxHints, _ => None);
    }

    method FindPeer(a: Addr) returns (i: nat)
      ensures i == First(managed, AddressIs(a))
    {
      i := 0;
      while i < |managed|
        invariant i <= |managed| && forall j :: 0 <= j < i ==> !AddressIs(a)(managed[j])
      {
        if managed[i].Some? && managed[i].value.address == a { break; }
        i := i + 1;
      }
      FirstIs(managed, AddressIs(a), i);
    }

    method FindHint(a: Addr) returns (i: nat)
      ensures i == First(hints, HintIs(a))
    {
      i := 0;
      while i < |hints|
        invariant i <= |hints| && forall j :: 0 <= j < i ==> !HintIs(a)(hints[j])
      {
        if hints[i].Some? && hints[i].value.address == a { break; }
        i := i + 1;
      }
      FirstIs(hints, HintIs(a), i);
    }

    method StoreManagedPeer(config: PeerConfig) returns (ok: bool)
      modifies this`managed
      ensures var stored := StorePeer(old(managed), config);
              ok == stored.Some? && managed == if ok then stored.value else old(managed)
    {
      var at := FindPeer(config.address);
      if at < |managed| {
        managed := managed[at := Some(config)];
        return true;
      }
      var free := 0;
      while free < |managed|
        invariant free <= |managed| && managed == old(managed)
        invariant forall j :: 0 <= j < free ==> !Unused<PeerConfig>()(managed[j])
      {
        if managed[free].None? {
          FirstIs(managed, Unused(), free);
          managed := managed[free := Some(config)];
          return true;
        }
        free := free + 1;
      }
      FirstIs(managed, Unused(), free);
      return false;
    }

    method ForgetManagedPeer(a: Addr)
      modifies this`managed
      ensures managed == ForgetPeer(old(managed), a)
    {
      var at := FindPeer(a);
      if at < |managed| { managed := managed[at := None]; }
    }

    method ResolvePeerInterface(env: Env, config: PeerConfig) returns (iface: Iface)
      ensures iface == Resolve(Model(), env, config)
    {
      if config.choice.Fixed? { return config.choice.iface; }
      var at := FindHint(config.address);
      if at < |hints| { return hints[at].value.iface; }
      return if binding.preferred.Fixed? then binding.preferred.iface else env.fallback;
    }

    method ProgramPeer(env: Env, config: PeerConfig) returns (ok: bool)
      modifies this`native
      ensures Programmed(native, ok) == Program(old(Model()), env, config)
    {
      hide Resolve;
      var iface := ResolvePeerInterface(env, config);
      native := native.(calls := native.calls + 1);
      ok := native.up && env.programs(config.address);
      var peer := NativePeer(iface, config.channel, config.key);
      if ok { native := native.(peers := native.peers[config.address := peer]); }
    }

    method ReconcileManagedPeers(env: Env) returns (ok: bool)
      modifies this`native
      ensures Result(Model(), ok) == Reconcile(old(Model()), env)
    {
      hide Program;
      if suspended { return false; }
      var configs := CopyConfigs();
      ok := true;
      assert configs[..0] == [];
      for i := 0 to |configs|
        invariant Programmed(native, ok) == ProgramAll(old(Model()), env, configs[..i])
        invariant Model() == old(Model()).(native := native)
      {
        assert configs[..i + 1][..i] == configs[..i];
        var done := ProgramPeer(env, configs[i]);
        if !done { ok := false; }
      }
      assert configs[..|configs|] == configs;
    }

    method CopyConfigs() returns (configs: seq<PeerConfig>)
      ensures configs == Configs(managed)
    {
      configs := [];
      for i := 0 to |managed|
        invariant configs == Configs(managed[..i])
      {
        assert managed[..i + 1][..i] == managed[..i];
        if managed[i].Some? { configs := configs + [managed[i].value]; }
      }
      assert managed[..|managed|] == managed;
    }

    method ReinitializeNativeState(env: Env) returns (ok: bool)
      modifies this`native, this`suspended
      ensures Result(Model(), ok) == Rebuild(old(Model()), env)
    {
      hide ProgramAll, Configs;
      if !initialized { return false; }
      native := Native(false, map[], native.calls + 1);
      if !env.init { return false; }
      if !env.registers { return false; }
      native := native.(up := true);
      suspended := false;
      ok := ReconcileManagedPeers(env);
    }

    method SetRadioAvailable(available: bool)
      modifies this`binding
      ensures Model() == SetAvailable(old(Model()), available)
    {
      binding := binding.(available := available);
    }

    method SuspendNativeForRadioTransition()
      modifies this
      ensures Model() == Suspend(old(Model()))
      ensures old(Placed(Model())) ==> Placed(Model())
    {
      if !initialized { return; }
      SetRadioAvailable(false);
      suspended := true;
      native := Native(false, map[], native.calls + 1);
    }

    method ApplyRadioBinding(env: Env, b: Binding, force: bool) returns (ok: bool)
      modifies this
      ensures Result(Model(), ok) == ApplyBinding(old(Model()), env, b, force)
      ensures old(Placed(Model())) ==> Placed(Model())
    {
      hide Placed, Rebuild, Reconcile;
      if Placed(Model()) { ApplyBindingPlaced(Model(), env, b, force); }
      if !initialized { return false; }
      binding := b.(available := false);
      hints := ClearHints(hints);
      if force || suspended {
        ok := ReinitializeNativeState(env);
      } else {
        ok := ReconcileManagedPeers(env);
      }
      binding := b.(available := b.available && ok);
    }

    method Add(env: Env, config: PeerConfig) returns (ok: bool)
      modifies this
      ensures Result(Model(), ok) == AddPeer(old(Model()), env, config)
      ensures old(Placed(Model())) ==> Placed(Model())
    {
      hide Placed, StorePeer, ForgetPeer, Program;
      if Placed(Model()) { AddPeerPlaced(Model(), env, config); }
      if !initialized || config.address == 0 { return false; }
      var stored := StoreManagedPeer(config);
      if !stored { return false; }
      if suspended { return true; }
      ok := ProgramPeer(env, config);
      if !ok { ForgetManagedPeer(config.address); }
    }

    method ClearPeerInterfaceHint(a: Addr)
      modifies this`hints
      ensures hints == ClearHint(old(hints), a)
    {
      var at := FindHint(a);
      if at < |hints| { hints := hints[at := None]; }
    }

    method Remove(env: Env, a: Addr) returns (ok: bool)
      modifies this
      ensures Result(Model(), ok) == RemovePeer(old(Model()), env, a)
      ensures old(Placed(Model())) ==> Placed(Model())
    {
      hide Placed, ClearHint, ForgetPeer;
      if Placed(Model()) { RemovePeerPlaced(Model(), env, a); }
      if !initialized || a == 0 { return false; }
      if suspended {
        ClearPeerInterfaceHint(a);
        ForgetManagedPeer(a);
        return true;
      }
      native := native.(calls := native.calls + 1);
      var existed := a in native.peers;
      ok := native.up && (!existed || env.deletes(a));
      if ok {
        native := native.(peers := native.peers - {a});
        assert !existed ==> native.peers == old(native.peers);
        ClearPeerInterfaceHint(a);
        ForgetManagedPeer(a);
      }
    }

    method Transmit(env: Env, to: Addr, length: nat) returns (ok: bool)
      modifies this`native
      ensures Result(Model(), ok) == Send(old(Model()), env, to, length)
    {
      if !initialized || to == 0 || length > 242 || suspended || !binding.available { return false; }
      native := native.(calls := native.calls + 1);
      ok := env.sends;
    }

    method StorePeerHint(hint: Hint)
      modifies this`hints
      ensures hints == StoreHint(old(hints), hint)
    {
      var at := FindHint(hint.address);
      if at < |hints| {
        hints := hints[at := Some(hint)];
        return;
      }
      var free := 0;
      while free < |hints|
        invariant free <= |hints| && hints == old(hints)
        invariant forall j :: 0 <= j < free ==> !Unused<Hint>()(hints[j])
      {
        if hints[free].None? {
          FirstIs(hints, Unused(), free);
          hints := hints[free := Some(hint)];
          return;
        }
        free := free + 1;
      }
      FirstIs(hints, Unused(), free);
    }

    method RememberPeerInterface(env: Env, a: Addr, iface: Iface)
      modifies this
      ensures Model() == Remember(old(Model()), env, a, iface)
      ensures old(Placed(Model())) ==> Placed(Model())
    {
      hide Placed, StoreHint, First;
      if Placed(Model()) { RememberPlaced(Model(), env, a, iface); }
      var at := FindPeer(a);
      if a == 0 || at == |managed| || !managed[at].value.choice.Auto? { return; }
      StorePeerHint(Hint(a, iface));
      if suspended { return; }
      native := native.(calls := native.calls + 1);
      if a in native.peers && env.programs(a) {
        native := native.(peers := native.peers[a := native.peers[a].(iface := iface)]);
      }
    }
  }

  class WiFiCoordinator {
    const transport: EspNowTransport
    var state: Coordinator
    ghost var due: bool

    constructor (t: EspNowTransport)
      ensures transport == t && state == Coordinator(Off, Auto, 0, false, false, false, false) && !due
    {
      transport, state, due := t, Coordinator(Off, Auto, 0, false, false, false, false), false;
    }

    ghost function Model(): System
      reads this, transport
    {
      System(state, transport.Model(), due)
    }

    method ApplyRadioState(env: Env, again: Env, s: RadioState, force: bool) returns (ok: bool)
      modifies this, transport
      ensures Model() == ApplyState(old(Model()), env, again, s, force)
    {
      hide ApplyBinding;
      if !transport.initialized { return false; }
      if s.mode.Off? {
        transport.SetRadioAvailable(false);
        state := state.(invalidated := true, scanSuspended := false, lastMode := Off, lastPreferred := Auto,
                        lastChannel := 0, haveSnapshot := true);
        due := true;
        return true;
      }
      if s.scanning {
        state := state.(scanSuspended := true);
        transport.SetRadioAvailable(false);
        return true;
      }
      var preferred := Preferred(s);
      var changed := state.haveSnapshot
                     && (preferred != state.lastPreferred || s.channel != state.lastChannel
                         || s.mode != state.lastMode);
      var b := Binding(preferred, s.channel, !state.scanSuspended);
      var rebuild := force || state.invalidated;
      ghost var before := transport.Model();
      ok := transport.ApplyRadioBinding(env, b, rebuild);
      if Rebuilt(before, env, b, rebuild) { due := false; }
      if !ok && !rebuild && changed {
        ok := transport.ApplyRadioBinding(again, b, true);
        if ok { due := false; }
      }
      state := state.(invalidated := state.invalidated && !ok, lastMode := s.mode, lastPreferred := preferred,
                      lastChannel := s.channel, haveSnapshot := true, scanSuspended := false);
    }

    method OnTransitionBeginning()
      modifies this, transport
      ensures Model() == Apply(old(Model()), TransitionBegins)
      ensures old(Guarded(Model())) ==> Guarded(Model())
      ensures old(transport.initialized) ==>
                transport.suspended && !transport.binding.available && transport.native.peers == map[]
                  && state.transitioning
    {
      hide Guarded;
      if Guarded(Model()) { StepGuarded(Model(), TransitionBegins); }
      if transport.initialized {
        transport.SuspendNativeForRadioTransition();
        state := state.(invalidated := true, transitioning := true);
        due := true;
      }
    }

    method OnTransitionCompleted(env: Env, again: Env, after: RadioState)
      modifies this, transport
      ensures Model() == Apply(old(Model()), TransitionCompletes(env, again, after))
      ensures old(Guarded(Model())) ==> Guarded(Model())
    {
      hide Guarded, ApplyState;
      if Guarded(Model()) { StepGuarded(Model(), TransitionCompletes(env, again, after)); }
      var rebuild := state.transitioning || state.invalidated;
      state := state.(transitioning := false);
      var ok := ApplyRadioState(env, again, after, rebuild);
    }

    method OnStateChanged(env: Env, again: Env, after: RadioState)
      modifies this, transport
      ensures Model() == Apply(old(Model()), StateChanges(env, again, after))
      ensures old(Guarded(Model())) ==> Guarded(Model())
      ensures after.scanning ==> !transport.binding.available
    {
      hide Guarded, ApplyState;
      if Guarded(Model()) { StepGuarded(Model(), StateChanges(env, again, after)); }
      if after.scanning {
        state := state.(scanSuspended := true);
        transport.SetRadioAvailable(false);
        return;
      }
      if state.transitioning { return; }
      var ok := ApplyRadioState(env, again, after, false);
    }

    method OnScanBeginning()
      modifies this, transport
      ensures Model() == Apply(old(Model()), ScanBegins)
      ensures old(Guarded(Model())) ==> Guarded(Model())
      ensures !transport.binding.available
    {
      hide Guarded;
      if Guarded(Model()) { StepGuarded(Model(), ScanBegins); }
      state := state.(scanSuspended := true);
      transport.SetRadioAvailable(false);
    }

    method OnScanCompleted(env: Env, again: Env, after: RadioState)
      modifies this, transport
      ensures Model() == Apply(old(Model()), ScanCompletes(env, again, after))
      ensures old(Guarded(Model())) ==> Guarded(Model())
    {
      hide Guarded, ApplyState;
      if Guarded(Model()) { StepGuarded(Model(), ScanCompletes(env, again, after)); }
      state := state.(scanSuspended := false);
      if state.transitioning { return; }
      var ok := ApplyRadioState(env, again, after, false);
    }

    method Shutdown()
      modifies this`state
      ensures Model() == Apply(old(Model()), Detach)
      ensures old(Guarded(Model())) ==> (Guarded(Model()) <==> !due)
    {
      state := state.(haveSnapshot := false, scanSuspended := false, invalidated := false, transitioning := false);
    }
  }
}
