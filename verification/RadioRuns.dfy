/**
 * What holds over every run of coordinator callbacks and transport calls: a radio
 * transition is a transaction, rebuilding restores the registry, explicit interfaces stick.
 */
module RadioRuns {
  import opened Bytes
  import opened RadioModel
  import opened Tables

  // ---------------------------------------------------------------- the registry

  ghost predicate Distinct(m: seq<Option<PeerConfig>>) {
    forall i, j :: 0 <= i < j < |m| && m[i].Some? ==> !AddressIs(m[i].value.address)(m[j])
  }

  ghost predicate Manages(m: seq<Option<PeerConfig>>, config: PeerConfig) { Some(config) in m }

  ghost function Addresses(m: seq<Option<PeerConfig>>): (s: set<Addr>)
    ensures forall a :: a in s <==> exists i :: 0 <= i < |m| && AddressIs(a)(m[i])
  {
    set i | 0 <= i < |m| && m[i].Some? :: m[i].value.address
  }

  lemma StoreKeeps(m: seq<Option<PeerConfig>>, config: PeerConfig)
    requires Distinct(m)
    ensures var r := StorePeer(m, config);
            r.Some? ==>
              (Distinct(r.value)
               && forall x :: Manages(r.value, x) <==> (x == config || (Manages(m, x) && x.address != config.address)))
  {
    var r := StorePeer(m, config);
    if r.Some? {
      var at := First(m, AddressIs(config.address));
      var put := if at < |m| then at else First(m, Unused());
      assert r.value == m[put := Some(config)];
      assert r.value[put] == Some(config);
      forall x ensures Manages(r.value, x) <==> x == config || (Manages(m, x) && x.address != config.address) {
        if Manages(m, x) && x.address != config.address {
          var i :| 0 <= i < |m| && m[i] == Some(x);
          assert r.value[i] == Some(x);
        }
        if Manages(r.value, x) && x != config {
          var i :| 0 <= i < |m| && r.value[i] == Some(x);
          assert i != put && m[i] == Some(x);
        }
      }
    }
  }

  lemma ForgetKeeps(m: seq<Option<PeerConfig>>, a: Addr)
    requires Distinct(m)
    ensures Distinct(ForgetPeer(m, a))
    ensures forall x :: Manages(ForgetPeer(m, a), x) <==> Manages(m, x) && x.address != a
  {
    var r := ForgetPeer(m, a);
    forall x ensures Manages(r, x) <==> Manages(m, x) && x.address != a {
      if Manages(m, x) && x.address != a {
        var i :| 0 <= i < |m| && m[i] == Some(x);
        assert r[i] == Some(x);
      }
      if Manages(r, x) {
        var i :| 0 <= i < |r| && r[i] == Some(x);
        assert m[i] == Some(x);
      }
    }
  }

  lemma {:induction false} ConfigsAre(m: seq<Option<PeerConfig>>)
    ensures forall x :: x in Configs(m) <==> Manages(m, x)
  {
    if m != [] {
      ConfigsAre(m[..|m| - 1]);
      assert m == m[..|m| - 1] + [m[|m| - 1]];
    }
  }

  ghost predicate DistinctConfigs(cs: seq<PeerConfig>) {
    forall i, j :: 0 <= i < j < |cs| ==> cs[i].address != cs[j].address
  }

  lemma {:induction false} ConfigsDistinct(m: seq<Option<PeerConfig>>)
    requires Distinct(m)
    ensures DistinctConfigs(Configs(m))
  {
    if m != [] {
      var front := m[..|m| - 1];
      ConfigsDistinct(front);
      ConfigsAre(front);
      forall i | 0 <= i < |Configs(front)| && m[|m| - 1].Some?
        ensures Configs(front)[i].address != m[|m| - 1].value.address {
        assert Configs(front)[i] in Configs(front);
        var j :| 0 <= j < |front| && front[j] == Some(Configs(front)[i]);
      }
    }
  }

  // ---------------------------------------------------------------- reconciling

  function Wanted(t: Transport, env: Env, config: PeerConfig): NativePeer {
    NativePeer(Resolve(t, env, config), config.channel, config.key)
  }

  /** Every peer is as it was, or as one of the configurations wants it. */
  ghost predicate Steered(t: Transport, env: Env, cs: seq<PeerConfig>, peers: map<Addr, NativePeer>) {
    && t.native.peers.Keys <= peers.Keys
    && forall a :: a in peers ==>
         (a in t.native.peers && peers[a] == t.native.peers[a]) || Aimed(t, env, cs, a, peers[a])
  }

  ghost predicate Aimed(t: Transport, env: Env, cs: seq<PeerConfig>, a: Addr, p: NativePeer) {
    exists c :: c in cs && c.address == a && p == Wanted(t, env, c)
  }

  /** Every configuration is present and as wanted. */
  ghost predicate AllSet(t: Transport, env: Env, cs: seq<PeerConfig>, peers: map<Addr, NativePeer>) {
    forall c :: c in cs ==> c.address in peers && peers[c.address] == Wanted(t, env, c)
  }

  lemma ResolveIgnoresNative(t: Transport, env: Env, config: PeerConfig, n: Native)
    ensures Resolve(t.(native := n), env, config) == Resolve(t, env, config)
  {
  }

  lemma ProgramDoes(t: Transport, env: Env, n: Native, config: PeerConfig)
    ensures var r := Program(t.(native := n), env, config);
            && r.native.up == n.up
            && r.native.peers == if r.ok then n.peers[config.address := Wanted(t, env, config)] else n.peers
  {
    ResolveIgnoresNative(t, env, config, n);
  }

  lemma {:induction false} ProgramAllSteers(t: Transport, env: Env, cs: seq<PeerConfig>)
    ensures var r := ProgramAll(t, env, cs); r.native.up == t.native.up && Steered(t, env, cs, r.native.peers)
  {
    hide Resolve, Program;
    if cs != [] {
      var front, last := cs[..|cs| - 1], cs[|cs| - 1];
      ProgramAllSteers(t, env, front);
      ProgramDoes(t, env, ProgramAll(t, env, front).native, last);
      assert cs == front + [last];
      assert last in cs;
    }
  }

  lemma {:induction false} ProgramAllSets(t: Transport, env: Env, cs: seq<PeerConfig>)
    requires DistinctConfigs(cs)
    ensures var r := ProgramAll(t, env, cs); r.ok ==> AllSet(t, env, cs, r.native.peers)
  {
    hide Resolve, Program;
    if cs != [] {
      var front, last := cs[..|cs| - 1], cs[|cs| - 1];
      ProgramAllSets(t, env, front);
      ProgramDoes(t, env, ProgramAll(t, env, front).native, last);
      assert cs == front + [last];
      forall c | c in front ensures c.address != last.address {
        var i :| 0 <= i < |front| && front[i] == c;
        assert cs[i] == c && cs[|cs| - 1] == last;
      }
    }
  }

  // ---------------------------------------------------------------- rebuilding

  /** The native table holds exactly the registry, each peer as wanted. */
  ghost predicate Mirrors(t: Transport, env: Env, peers: map<Addr, NativePeer>) {
    && peers.Keys == Addresses(t.managed)
    && forall x :: Manages(t.managed, x) ==> x.address in peers && peers[x.address] == Wanted(t, env, x)
  }

  /** Every managed peer is present and as wanted; there may be others. */
  ghost predicate Covers(t: Transport, env: Env, peers: map<Addr, NativePeer>) {
    forall x :: Manages(t.managed, x) ==> x.address in peers && peers[x.address] == Wanted(t, env, x)
  }

  lemma AddressesManaged(m: seq<Option<PeerConfig>>)
    ensures forall a :: a in Addresses(m) ==> exists x :: Manages(m, x) && x.address == a
    ensures forall x :: Manages(m, x) ==> x.address in Addresses(m)
  {
    forall a | a in Addresses(m) ensures exists x :: Manages(m, x) && x.address == a {
      var i :| 0 <= i < |m| && AddressIs(a)(m[i]);
      assert m[i] == Some(m[i].value);
      assert Manages(m, m[i].value);
    }
    forall x | Manages(m, x) ensures x.address in Addresses(m) {
      var i :| 0 <= i < |m| && m[i] == Some(x);
      assert AddressIs(x.address)(m[i]);
    }
  }

  lemma ReconcileDoes(t: Transport, env: Env)
    requires Distinct(t.managed)
    ensures var r := Reconcile(t, env);
            && r.transport == t.(native := r.transport.native) && r.transport.native.up == t.native.up
            && Steered(t, env, Configs(t.managed), r.transport.native.peers)
            && (r.ok ==> Covers(t, env, r.transport.native.peers))
            && (r.ok && t.native.peers == map[] ==> Mirrors(t, env, r.transport.native.peers))
  {
    hide Resolve, ProgramAll, Configs;
    var cs := Configs(t.managed);
    ConfigsAre(t.managed);
    ConfigsDistinct(t.managed);
    AddressesManaged(t.managed);
    ProgramAllSteers(t, env, cs);
    ProgramAllSets(t, env, cs);
    var r := Reconcile(t, env);
    if r.ok && t.native.peers == map[] {
      forall a | a in r.transport.native.peers ensures a in Addresses(t.managed) {
        assert Aimed(t, env, cs, a, r.transport.native.peers[a]);
      }
    }
  }

  /** The transport as the rebuild sees it. */
  function Renewed(t: Transport): Transport {
    t.(suspended := false, native := Native(true, map[], t.native.calls + 1))
  }

  /** A successful rebuild leaves exactly the registry in the driver. */
  lemma RebuildDoes(t: Transport, env: Env)
    requires Distinct(t.managed)
    ensures var r := Rebuild(t, env);
            && r.transport == t.(native := r.transport.native, suspended := r.transport.suspended)
            && (r.ok ==> t.initialized && r.transport.native.up && !r.transport.suspended
                         && Mirrors(Renewed(t), env, r.transport.native.peers))
            && (t.initialized ==> Steered(Renewed(t), env, Configs(t.managed), r.transport.native.peers))
  {
    hide Resolve, ProgramAll, Configs, Steered, Mirrors, Covers, Reconcile;
    if t.initialized {
      assert Steered(Renewed(t), env, Configs(t.managed), map[]) by {
        EmptySteered(Renewed(t), env, Configs(t.managed));
      }
      ReconcileDoes(Renewed(t), env);
    }
  }

  lemma EmptySteered(t: Transport, env: Env, cs: seq<PeerConfig>)
    requires t.native.peers == map[]
    ensures Steered(t, env, cs, map[])
  {
  }

  // ---------------------------------------------------------------- interface policy

  /** Explicit choices are honoured natively; a suspended driver has no peers. */
  ghost predicate Placed(t: Transport) {
    && Distinct(t.managed) && (t.suspended ==> t.native.peers == map[])
    && forall x :: Manages(t.managed, x) && x.choice.Fixed? && x.address in t.native.peers ==>
         t.native.peers[x.address].iface == x.choice.iface
  }

  lemma SameConfig(m: seq<Option<PeerConfig>>, x: PeerConfig, y: PeerConfig)
    requires Distinct(m) && Manages(m, x) && Manages(m, y) && x.address == y.address
    ensures x == y
  {
    var i :| 0 <= i < |m| && m[i] == Some(x);
    var j :| 0 <= j < |m| && m[j] == Some(y);
    assert AddressIs(x.address)(m[i]) && AddressIs(x.address)(m[j]);
  }

  /** Programming from the registry never moves an explicit peer. */
  lemma SteeredPlaced(t: Transport, env: Env, n: Native)
    requires Placed(t) && !t.suspended && Steered(t, env, Configs(t.managed), n.peers)
    ensures Placed(t.(native := n))
  {
    hide Configs;
    ConfigsAre(t.managed);
    forall x | Manages(t.managed, x) && x.choice.Fixed? && x.address in n.peers
      ensures n.peers[x.address].iface == x.choice.iface {
      if Aimed(t, env, Configs(t.managed), x.address, n.peers[x.address]) {
        var c :| c in Configs(t.managed) && c.address == x.address && n.peers[x.address] == Wanted(t, env, c);
        SameConfig(t.managed, c, x);
      }
    }
  }

  lemma ReconcilePlaced(t: Transport, env: Env)
    requires Placed(t)
    ensures Placed(Reconcile(t, env).transport)
  {
    hide Placed, Steered, Covers, Mirrors, Configs, ProgramAll;
    DistinctOf(t);
    ReconcileDoes(t, env);
    if !t.suspended { SteeredPlaced(t, env, Reconcile(t, env).transport.native); }
  }

  lemma DistinctOf(t: Transport)
    requires Placed(t)
    ensures Distinct(t.managed)
  {
  }

  lemma EmptyPlaced(t: Transport, suspended: bool, n: Native)
    requires Distinct(t.managed) && n.peers == map[]
    ensures Placed(t.(suspended := suspended, native := n))
  {
  }

  lemma RebuildPlaced(t: Transport, env: Env)
    requires Placed(t)
    ensures Placed(Rebuild(t, env).transport)
  {
    hide Placed, Reconcile;
    DistinctOf(t);
    EmptyPlaced(t, t.suspended, Native(false, map[], t.native.calls + 1));
    EmptyPlaced(t, false, Native(true, map[], t.native.calls + 1));
    ReconcilePlaced(Renewed(t), env);
  }

  lemma ApplyBindingPlaced(t: Transport, env: Env, b: Binding, force: bool)
    requires Placed(t)
    ensures Placed(ApplyBinding(t, env, b, force).transport)
  {
    hide Rebuild, Reconcile, Distinct;
    if t.initialized {
      var t1 := t.(binding := b.(available := false), hints := ClearHints(t.hints));
      RebuildPlaced(t1, env);
      ReconcilePlaced(t1, env);
    }
  }

  lemma AddPeerPlaced(t: Transport, env: Env, config: PeerConfig)
    requires Placed(t)
    ensures Placed(AddPeer(t, env, config).transport)
  {
    hide StorePeer, ForgetPeer, Distinct, Manages;
    var stored := StorePeer(t.managed, config);
    StoreKeeps(t.managed, config);
    if stored.Some? { ForgetKeeps(stored.value, config.address); }
  }

  lemma RemovePeerPlaced(t: Transport, env: Env, a: Addr)
    requires Placed(t)
    ensures Placed(RemovePeer(t, env, a).transport)
  {
    hide ForgetPeer, Distinct, Manages;
    ForgetKeeps(t.managed, a);
  }

  lemma RememberPlaced(t: Transport, env: Env, a: Addr, iface: Iface)
    requires Placed(t)
    ensures Placed(Remember(t, env, a, iface))
  {
    hide StoreHint;
    if a != 0 && ManagedAuto(t.managed, a) {
      var at := First(t.managed, AddressIs(a));
      var own := t.managed[at].value;
      assert Manages(t.managed, own);
      forall x | Manages(t.managed, x) && x.choice.Fixed? ensures x.address != a {
        if x.address == a { SameConfig(t.managed, x, own); }
      }
    }
  }

  /** The transport's public calls, each atomic. */
  datatype Call =
    | Starts(channel: nat)
    | Stops
    | Avails(available: bool)
    | Suspends
    | Binds(env: Env, binding: Binding, force: bool)
    | Reconciles(env: Env)
    | Reinits(env: Env)
    | Adds(env: Env, config: PeerConfig)
    | Removes(env: Env, address: Addr)
    | Sends(env: Env, to: Addr, length: nat)
    | Hears(env: Env, from: Addr, iface: Iface)

  function Do(t: Transport, call: Call): Transport {
    match call
    case Starts(channel) => Start(t, channel)
    case Stops => Stop(t)
    case Avails(available) => SetAvailable(t, available)
    case Suspends => Suspend(t)
    case Binds(env, binding, force) => ApplyBinding(t, env, binding, force).transport
    case Reconciles(env) => ReconcilePeers(t, env).transport
    case Reinits(env) => Reinitialize(t, env).transport
    case Adds(env, config) => AddPeer(t, env, config).transport
    case Removes(env, address) => RemovePeer(t, env, address).transport
    case Sends(env, to, length) => Send(t, env, to, length).transport
    case Hears(env, from, iface) => Remember(t, env, from, iface)
  }

  lemma SimplePlaced(t: Transport, call: Call)
    requires Placed(t) && (call.Starts? || call.Stops? || call.Avails? || call.Suspends? || call.Sends?)
    ensures Placed(Do(t, call))
  {
  }

  lemma RewritePlaced(t: Transport, env: Env)
    requires Placed(t)
    ensures Placed(ReconcilePeers(t, env).transport) && Placed(Reinitialize(t, env).transport)
  {
    hide Rebuild, Reconcile, Distinct;
    var t1 := t.(hints := ClearHints(t.hints));
    RebuildPlaced(t1, env);
    ReconcilePlaced(t1, env);
  }

  lemma DoPlaced(t: Transport, call: Call)
    requires Placed(t)
    ensures Placed(Do(t, call))
  {
    hide Placed, ApplyBinding, ReconcilePeers, Reinitialize, AddPeer, RemovePeer, Remember;
    match call
    case Binds(env, binding, force) => ApplyBindingPlaced(t, env, binding, force);
    case Reconciles(env) => RewritePlaced(t, env);
    case Reinits(env) => RewritePlaced(t, env);
    case Adds(env, config) => AddPeerPlaced(t, env, config);
    case Removes(env, address) => RemovePeerPlaced(t, env, address);
    case Hears(env, from, iface) => RememberPlaced(t, env, from, iface);
    case _ => SimplePlaced(t, call);
  }

  function DoAll(t: Transport, calls: seq<Call>): Transport {
    if calls == [] then t else Do(DoAll(t, calls[..|calls| - 1]), calls[|calls| - 1])
  }

  /**
   * Explicit interfaces stick: in every run, whatever hints, bindings, suspensions, rebuilds
   * and driver failures occur, a managed peer with an explicit interface that the driver
   * knows is on that interface.
   */
  lemma {:induction false} ExplicitInterfaceHolds(t: Transport, calls: seq<Call>)
    requires Placed(t)
    ensures Placed(DoAll(t, calls))
  {
    if calls != [] {
      ExplicitInterfaceHolds(t, calls[..|calls| - 1]);
      DoPlaced(DoAll(t, calls[..|calls| - 1]), calls[|calls| - 1]);
    }
  }

  /** A new transport, started or not, satisfies the policy. */
  lemma NewIsPlaced(t: Transport)
    requires (forall i :: 0 <= i < |t.managed| ==> t.managed[i].None?) && t.native.peers == map[]
    ensures Placed(t)
  {
  }

  lemma NoHint(t: Transport, env: Env, x: PeerConfig)
    requires forall i :: 0 <= i < |t.hints| ==> t.hints[i].None?
    ensures Resolve(t, env, x) == if x.choice.Fixed? then x.choice.iface
                                  else if t.binding.preferred.Fixed? then t.binding.preferred.iface else env.fallback
  {
  }

  /**
   * After a successful rebind every managed peer is in the driver, explicit ones on their
   * own interface and the others on the binding's, or the default when the binding has none;
   * and if native state was rebuilt the driver holds nothing else.
   */
  lemma RebindPlacesPeers(t: Transport, env: Env, b: Binding, force: bool, x: PeerConfig)
    requires Distinct(t.managed) && ApplyBinding(t, env, b, force).ok
    ensures var u := ApplyBinding(t, env, b, force).transport;
            && u.managed == t.managed && u.binding == b
            && (Manages(t.managed, x) ==>
                  (x.address in u.native.peers
                   && u.native.peers[x.address]
                      == NativePeer(if x.choice.Fixed? then x.choice.iface
                                    else if b.preferred.Fixed? then b.preferred.iface
                                    else env.fallback, x.channel, x.key)))
            && (force || t.suspended ==> u.native.peers.Keys == Addresses(t.managed))
  {
    hide Reconcile, Rebuild, Resolve, Distinct, Manages, Addresses;
    var t1 := t.(binding := b.(available := false), hints := ClearHints(t.hints));
    if force || t1.suspended {
      RebuildDoes(t1, env);
      NoHint(Renewed(t1), env, x);
    } else {
      ReconcileDoes(t1, env);
      NoHint(t1, env, x);
    }
  }

  // ---------------------------------------------------------------- the transition as a transaction

  /** Callbacks and calls that may happen between a transition's begin and its completion. */
  predicate Within(a: Action) {
    a.ScanBegins? || a.ScanCompletes? || a.StateChanges? || a.Add? || a.Drop? || a.Transmit? || a.Hear?
  }

  ghost predicate Closed(s: System) {
    s.transport.initialized && s.transport.suspended && s.coordinator.transitioning
      && !s.transport.binding.available && s.due
  }

  /** What the call does to the registry while the driver is suspended. */
  function Registered(m: seq<Option<PeerConfig>>, a: Action): seq<Option<PeerConfig>> {
    match a
    case Add(_, config) =>
      var stored := StorePeer(m, config);
      if config.address == 0 || stored.None? then m else stored.value
    case Drop(_, address) => if address == 0 then m else ForgetPeer(m, address)
    case _ => m
  }

  function RegisteredAll(m: seq<Option<PeerConfig>>, actions: seq<Action>): seq<Option<PeerConfig>> {
    if actions == [] then m else Registered(RegisteredAll(m, actions[..|actions| - 1]), actions[|actions| - 1])
  }

  lemma QuietStep(s: System, a: Action)
    requires Closed(s) && Within(a)
    ensures var u := Apply(s, a);
            Closed(u) && u.transport.native == s.transport.native
              && u.transport.managed == Registered(s.transport.managed, a)
  {
    hide StorePeer, ForgetPeer, StoreHint, ClearHint, ManagedAuto, ApplyState, Program;
  }

  lemma {:induction false} QuietRun(s: System, actions: seq<Action>)
    requires Closed(s) && forall i :: 0 <= i < |actions| ==> Within(actions[i])
    ensures var u := Run(s, actions);
            Closed(u) && u.transport.native == s.transport.native
            && u.transport.managed == RegisteredAll(s.transport.managed, actions)
  {
    hide Apply, Closed, Registered;
    if actions != [] {
      QuietRun(s, actions[..|actions| - 1]);
      QuietStep(Run(s, actions[..|actions| - 1]), actions[|actions| - 1]);
    }
  }

  lemma {:induction false} RegisteredDistinct(m: seq<Option<PeerConfig>>, actions: seq<Action>)
    requires Distinct(m)
    ensures Distinct(RegisteredAll(m, actions))
  {
    hide Distinct, StorePeer, ForgetPeer;
    if actions != [] {
      var n := |actions| - 1;
      RegisteredDistinct(m, actions[..n]);
      var before := RegisteredAll(m, actions[..n]);
      match actions[n]
      case Add(_, config) => StoreKeeps(before, config);
      case Drop(_, address) => ForgetKeeps(before, address);
      case _ =>
    }
  }

  /** A rebuild that pays the debt leaves exactly the registry in the driver. */
  lemma RebuildRestores(s: System, env: Env, again: Env, state: RadioState, force: bool)
    requires Distinct(s.transport.managed) && s.due
    ensures var u := ApplyState(s, env, again, state, force);
            && u.transport.managed == s.transport.managed
            && (!u.due ==> u.transport.native.peers.Keys == Addresses(s.transport.managed))
  {
    hide ApplyBinding, Distinct, Addresses;
    var c, t := s.coordinator, s.transport;
    if t.initialized && !state.mode.Off? && !state.scanning {
      var b := Binding(Preferred(state), state.channel, !c.scanSuspended);
      var rebuild := force || c.invalidated;
      BindKeeps(t, env, b, rebuild);
      var r1 := ApplyBinding(t, env, b, rebuild);
      BindKeeps(r1.transport, again, b, true);
    }
  }

  lemma BindKeeps(t: Transport, env: Env, b: Binding, force: bool)
    requires Distinct(t.managed)
    ensures var r := ApplyBinding(t, env, b, force);
            && r.transport.managed == t.managed && r.transport.initialized == t.initialized
            && (t.initialized ==> r.transport.binding.available == (b.available && r.ok))
            && (r.ok && (force || t.suspended) ==> r.transport.native.peers.Keys == Addresses(t.managed))
  {
    hide Reconcile, Rebuild, Distinct, Addresses;
    if t.initialized {
      var t1 := t.(binding := b.(available := false), hints := ClearHints(t.hints));
      RebuildDoes(t1, env);
      ReconcileDoes(t1, env);
      if ApplyBinding(t, env, b, force).ok { RebindPlacesPeers(t, env, b, force, PeerConfig(0, 0, Auto, None)); }
    }
  }

  /**
   * Radio transition as a transaction. From the beginning of a transition to its
   * completion, scans, state changes, peer changes, sends and received frames leave the
   * driver untouched and sending shut, while the registry follows the peer changes; and when
   * the completion rebuilds native state, the driver holds exactly that registry.
   */
  lemma RadioTransaction(s: System, actions: seq<Action>, env: Env, again: Env, after: RadioState)
    requires s.transport.initialized && Distinct(s.transport.managed)
    requires forall i :: 0 <= i < |actions| ==> Within(actions[i])
    ensures var begun := Apply(s, TransitionBegins);
            var last := Run(begun, actions);
            var done := Apply(last, TransitionCompletes(env, again, after));
            var registry := RegisteredAll(s.transport.managed, actions);
            && last.transport.native == begun.transport.native && !last.transport.binding.available
            && last.transport.managed == registry && done.transport.managed == registry
            && (!done.due ==> done.transport.native.peers.Keys == Addresses(registry))
  {
    hide Run, RegisteredAll, Distinct, Addresses, ApplyState;
    var begun := Apply(s, TransitionBegins);
    QuietRun(begun, actions);
    RegisteredDistinct(s.transport.managed, actions);
    var last := Run(begun, actions);
    RebuildRestores(last.(coordinator := last.coordinator.(transitioning := false)), env, again, after,
                    last.coordinator.transitioning || last.coordinator.invalidated);
  }

  // ---------------------------------------------------------------- availability

  /** An unpaid rebuild is remembered by the coordinator and keeps sending shut. */
  ghost predicate Guarded(s: System) {
    Distinct(s.transport.managed) && (s.due ==> s.coordinator.invalidated && !s.transport.binding.available)
  }

  lemma ApplyStateGuarded(s: System, env: Env, again: Env, state: RadioState, force: bool)
    requires Guarded(s)
    ensures Guarded(ApplyState(s, env, again, state, force))
  {
    hide ApplyBinding, Distinct, Addresses;
    var c, t := s.coordinator, s.transport;
    if t.initialized && !state.mode.Off? && !state.scanning {
      var b := Binding(Preferred(state), state.channel, !c.scanSuspended);
      var rebuild := force || c.invalidated;
      BindKeeps(t, env, b, rebuild);
      BindKeeps(ApplyBinding(t, env, b, rebuild).transport, again, b, true);
    }
  }

  lemma PeersGuarded(t: Transport, env: Env, config: PeerConfig, a: Addr, iface: Iface, length: nat)
    requires Distinct(t.managed)
    ensures var u := AddPeer(t, env, config).transport; Distinct(u.managed) && u.binding == t.binding
    ensures var u := RemovePeer(t, env, a).transport; Distinct(u.managed) && u.binding == t.binding
    ensures var u := Remember(t, env, a, iface); u.managed == t.managed && u.binding == t.binding
    ensures var u := Send(t, env, a, length).transport; u.managed == t.managed && u.binding == t.binding
  {
    hide Distinct, StorePeer, ForgetPeer, StoreHint, ManagedAuto, ClearHint, Program;
    StoreKeeps(t.managed, config);
    var stored := StorePeer(t.managed, config);
    if stored.Some? { ForgetKeeps(stored.value, config.address); }
    ForgetKeeps(t.managed, a);
  }

  lemma StepGuarded(s: System, a: Action)
    requires Guarded(s) && (a.Detach? ==> !s.due)
    ensures Guarded(Apply(s, a))
  {
    hide Distinct, ApplyState, AddPeer, RemovePeer, Remember, Send;
    var c, t := s.coordinator, s.transport;
    match a
    case TransitionCompletes(env, again, after) =>
      ApplyStateGuarded(s.(coordinator := c.(transitioning := false)), env, again, after,
                        c.transitioning || c.invalidated);
    case StateChanges(env, again, after) => ApplyStateGuarded(s, env, again, after, false);
    case ScanCompletes(env, again, after) =>
      ApplyStateGuarded(s.(coordinator := c.(scanSuspended := false)), env, again, after, false);
    case Refresh(env, again, after, force) => ApplyStateGuarded(s, env, again, after, force);
    case Add(env, config) => PeersGuarded(t, env, config, 0, Station, 0);
    case Drop(env, address) => PeersGuarded(t, env, PeerConfig(0, 0, Auto, None), address, Station, 0);
    case Transmit(env, to, length) => PeersGuarded(t, env, PeerConfig(0, 0, Auto, None), to, Station, length);
    case Hear(env, from, iface) => PeersGuarded(t, env, PeerConfig(0, 0, Auto, None), from, iface, 0);
    case _ =>
  }

  /**
   * Availability never returns before the rebuild: over every run in which the coordinator
   * is not shut down with a rebuild outstanding, an invalidated driver that has not been
   * rebuilt with success is not available for sending.
   */
  lemma {:induction false} AvailabilityNeedsRebuild(s: System, actions: seq<Action>)
    requires Guarded(s)
    requires forall i :: 0 <= i < |actions| && actions[i].Detach? ==> !Run(s, actions[..i]).due
    ensures Guarded(Run(s, actions))
  {
    hide Guarded, Apply;
    if actions != [] {
      var n := |actions| - 1;
      var front := actions[..n];
      forall i | 0 <= i < n && front[i].Detach? ensures !Run(s, front[..i]).due {
        assert front[..i] == actions[..i];
        assert actions[i].Detach?;
      }
      AvailabilityNeedsRebuild(s, front);
      StepGuarded(Run(s, front), actions[n]);
    }
  }

  /** With a driver that is up and does as it is told, reconciling succeeds. */
  lemma {:induction false} ProgramAllSucceeds(t: Transport, env: Env, cs: seq<PeerConfig>)
    requires t.native.up && forall a :: env.programs(a)
    ensures ProgramAll(t, env, cs).ok && ProgramAll(t, env, cs).native.up
  {
    hide Resolve;
    if cs != [] { ProgramAllSucceeds(t, env, cs[..|cs| - 1]); }
  }

  /**
   * A shutdown with a rebuild outstanding is what breaks the guard: whatever the registry
   * holds, if the driver was not suspended and is up, the next state that is neither off nor
   * scanning makes sending available again although the rebuild is still outstanding.
   */
  lemma DetachForgetsRebuild(s: System, env: Env, again: Env, state: RadioState)
    requires s.due && s.transport.initialized && !s.transport.suspended && s.transport.native.up
    requires (forall a :: env.programs(a)) && !state.mode.Off? && !state.scanning
    ensures var u := Apply(Apply(s, Detach), Refresh(env, again, state, false));
            u.due && u.transport.binding.available
  {
    hide ProgramAll, Configs, ClearHints, Preferred;
    var t := s.transport;
    var b := Binding(Preferred(state), state.channel, true);
    ProgramAllSucceeds(t.(binding := b.(available := false), hints := ClearHints(t.hints)), env, Configs(t.managed));
  }

  /** Such a debt is reached: the radio goes off while the driver is up. */
  lemma OffLeavesRebuildDue(s: System, env: Env, again: Env, off: RadioState)
    requires s.transport.initialized && !s.transport.suspended && s.transport.native.up && !s.coordinator.transitioning
    requires off.mode.Off? && !off.scanning
    ensures var u := Apply(s, StateChanges(env, again, off));
            && u.due && u.transport.initialized && !u.transport.suspended && u.transport.native.up
            && u.transport.managed == s.transport.managed
  {
  }

  /** Shutting down with a debt loses the guard exactly when there is one: `Guarded` fails iff a rebuild is due. */
  lemma DetachGuardedExactly(s: System)
    requires Guarded(s)
    ensures Guarded(Apply(s, Detach)) <==> !s.due
  {
  }
}
