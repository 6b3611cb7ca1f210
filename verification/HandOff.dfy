/**
 * The bounded hand-off pools: inbound frames
 * (src/ESPressio_ESPNowAsyncProtocolHandler.hpp:79-113, 235-254) and outbound Event packets
 * (src/ESPressio_ESPNowEventTransport.hpp:168-199, 583-616). Both keep `depth + 2` cells, hand
 * cell pointers to a FIFO executor with one worker, and take back what the executor drops.
 * Submitter and worker are interleaved step by step; submitters exclude each other.
 */
module HandOff {
  import opened Bytes
  import opened Chunks
  import opened Tables

  datatype Policy = Reject | DropOldest

  /** A cell in use, with the number of the submission it was taken for. */
  datatype Item = Item(cell: nat, ticket: nat)

  datatype Submitter = Ready | Holding(item: Item) | Dropping(item: Item, victim: Item) | Refused(item: Item)
  datatype Worker = Idle | Running(item: Item) | Finished(item: Item)

  datatype Handled<T> = Handled(ticket: nat, value: T)

  /** `wipe` is what a released cell is overwritten with, if anything. */
  datatype Pool<T> = Pool(
    depth: nat, policy: Policy, wipe: Option<T>,
    inUse: seq<bool>, cells: seq<T>, queue: seq<Item>, submitter: Submitter, worker: Worker,
    submitted: seq<T>, accepted: seq<nat>, handled: seq<Handled<T>>, released: multiset<nat>, starved: nat)

  datatype Step<T> =
    | Acquire(value: T)
    | Offer
    | Discard
    | GiveBack
    | Take
    | Handle
    | Finish

  function Empty<T>(depth: nat, policy: Policy, wipe: Option<T>, blank: T): Pool<T> {
    Pool(depth, policy, wipe, seq(depth + 2, _ => false), seq(depth + 2, _ => blank), [], Ready, Idle,
         [], [], [], multiset{}, 0)
  }

  function IsFree(): bool -> bool { (used: bool) => !used }

  /** The first free cell, or the number of cells. */
  function FreeCell(inUse: seq<bool>): (i: nat)
    ensures i <= |inUse| && (i < |inUse| ==> !inUse[i])
    ensures forall j :: 0 <= j < i ==> inUse[j]
  {
    First(inUse, IsFree())
  }

  /** `ReleaseFrame`, `ReleaseOutboundWork`: pointers outside the storage are ignored. */
  function Release<T>(p: Pool<T>, item: Item): Pool<T> {
    if item.cell < |p.inUse| && |p.inUse| == |p.cells| then
      p.(inUse := p.inUse[item.cell := false], released := p.released + multiset{item.ticket},
         cells := if p.wipe.Some? then p.cells[item.cell := p.wipe.value] else p.cells)
    else p
  }

  function Apply<T>(p: Pool<T>, step: Step<T>): Pool<T> {
    match step
    case Acquire(value) =>
      if !p.submitter.Ready? then p
      else
        var at := FreeCell(p.inUse);
        if at >= |p.inUse| || at >= |p.cells| then p.(starved := p.starved + 1)
        else p.(inUse := p.inUse[at := true], cells := p.cells[at := value], submitted := p.submitted + [value],
                submitter := Holding(Item(at, |p.submitted|)))
    case Offer =>
      if !p.submitter.Holding? then p
      else if |p.queue| < p.depth then
        p.(queue := p.queue + [p.submitter.item], accepted := p.accepted + [p.submitter.item.ticket],
          submitter := Ready)
      else if p.policy.Reject? || p.queue == [] then p.(submitter := Refused(p.submitter.item))
      else p.(queue := p.queue[1..], submitter := Dropping(p.submitter.item, p.queue[0]))
    case Discard =>
      if !p.submitter.Dropping? then p
      else Release(p, p.submitter.victim).(submitter := Holding(p.submitter.item))
    case GiveBack =>
      if !p.submitter.Refused? then p else Release(p, p.submitter.item).(submitter := Ready)
    case Take =>
      if !p.worker.Idle? || p.queue == [] then p else p.(worker := Running(p.queue[0]), queue := p.queue[1..])
    case Handle =>
      if !p.worker.Running? || p.worker.item.cell >= |p.cells| then p
      else p.(handled := p.handled + [Handled(p.worker.item.ticket, p.cells[p.worker.item.cell])],
              worker := Finished(p.worker.item))
    case Finish =>
      if !p.worker.Finished? then p else Release(p, p.worker.item).(worker := Idle)
  }

  // ---------------------------------------------------------------- who owns what

  function InHand(s: Submitter): multiset<Item> {
    match s
    case Ready => multiset{}
    case Holding(item) => multiset{item}
    case Dropping(item, victim) => multiset{item, victim}
    case Refused(item) => multiset{item}
  }

  function AtWork(w: Worker): multiset<Item> {
    match w
    case Idle => multiset{}
    case Running(item) => multiset{item}
    case Finished(item) => multiset{item}
  }

  /** Everything taken from the pool and not yet given back. */
  function Owned<T>(p: Pool<T>): multiset<Item> { OwnedBy(p.submitter, p.queue, p.worker) }

  function OwnedBy(s: Submitter, queue: seq<Item>, w: Worker): multiset<Item> {
    InHand(s) + multiset(queue) + AtWork(w)
  }

  /** Every owner's cell is in use and still holds what was submitted. */
  ghost predicate InPlace<T>(owned: multiset<Item>, inUse: seq<bool>, cells: seq<T>, submitted: seq<T>) {
    forall o :: o in owned ==>
      && o.cell < |inUse| && inUse[o.cell] && o.ticket < |submitted|
      && o.cell < |cells| && cells[o.cell] == submitted[o.ticket]
  }

  /** No two owners share a cell or a ticket. */
  ghost predicate Apart(owned: multiset<Item>) {
    && (forall o :: o in owned ==> owned[o] == 1)
    && forall o, q :: o in owned && q in owned && (o.cell == q.cell || o.ticket == q.ticket) ==> o == q
  }

  ghost predicate HasCell(owned: multiset<Item>, i: nat) { exists o :: o in owned && o.cell == i }
  ghost predicate HasTicket(owned: multiset<Item>, t: nat) { exists o :: o in owned && o.ticket == t }

  /** Cells in use have an owner. */
  ghost predicate NoLeak(owned: multiset<Item>, inUse: seq<bool>) {
    forall i :: 0 <= i < |inUse| && inUse[i] ==> HasCell(owned, i)
  }

  /** Every ticket is either owned or released, and released at most once. */
  ghost predicate Settled(owned: multiset<Item>, n: nat, released: multiset<nat>) {
    forall t: nat :: released[t] == if t < n && !HasTicket(owned, t) then 1 else 0
  }

  ghost predicate Ledger<T>(owned: multiset<Item>, inUse: seq<bool>, cells: seq<T>, submitted: seq<T>,
                            released: multiset<nat>) {
    && |inUse| == |cells| && Apart(owned) && InPlace(owned, inUse, cells, submitted) && NoLeak(owned, inUse)
    && Settled(owned, |submitted|, released)
  }

  // ---------------------------------------------------------------- taking a cell

  lemma HasMore(owned: multiset<Item>, item: Item, i: nat)
    ensures HasCell(owned + multiset{item}, i) <==> HasCell(owned, i) || item.cell == i
    ensures HasTicket(owned + multiset{item}, i) <==> HasTicket(owned, i) || item.ticket == i
  {
    var more := owned + multiset{item};
    assert item in more;
    if HasCell(owned, i) {
      var o :| o in owned && o.cell == i;
      assert o in more;
    }
    if HasTicket(owned, i) {
      var o :| o in owned && o.ticket == i;
      assert o in more;
    }
  }

  lemma AcquireInPlace<T>(owned: multiset<Item>, inUse: seq<bool>, cells: seq<T>, submitted: seq<T>, at: nat, value: T)
    requires InPlace(owned, inUse, cells, submitted) && at < |inUse| == |cells| && !inUse[at] && Apart(owned)
    ensures InPlace(owned + multiset{Item(at, |submitted|)}, inUse[at := true], cells[at := value], submitted + [value])
    ensures Apart(owned + multiset{Item(at, |submitted|)})
  {
    var item := Item(at, |submitted|);
    assert forall o :: o in owned ==> o.cell != at && o.ticket != |submitted|;
  }

  lemma LedgerAcquire<T>(owned: multiset<Item>, inUse: seq<bool>, cells: seq<T>, submitted: seq<T>,
                         released: multiset<nat>, at: nat, value: T)
    requires Ledger(owned, inUse, cells, submitted, released) && at < |inUse| && !inUse[at]
    ensures Ledger(owned + multiset{Item(at, |submitted|)}, inUse[at := true], cells[at := value],
                   submitted + [value], released)
  {
    hide Apart, HasCell, HasTicket;
    var item := Item(at, |submitted|);
    AcquireInPlace(owned, inUse, cells, submitted, at, value);
    hide InPlace;
    forall i: nat
      ensures HasCell(owned + multiset{item}, i) <==> HasCell(owned, i) || at == i
      ensures HasTicket(owned + multiset{item}, i) <==> HasTicket(owned, i) || |submitted| == i
    {
      HasMore(owned, item, i);
    }
  }

  // ---------------------------------------------------------------- giving a cell back

  lemma HasLess(owned: multiset<Item>, item: Item)
    requires Apart(owned + multiset{item})
    ensures !HasCell(owned, item.cell) && !HasTicket(owned, item.ticket) && Apart(owned)
  {
    var all := owned + multiset{item};
    assert item in all && all[item] == 1;
    forall o | o in owned ensures o.cell != item.cell && o.ticket != item.ticket && owned[o] == 1 {
      assert o in all && all[o] == 1;
    }
    assert forall o :: o in owned ==> o in all;
  }

  lemma ReleaseInPlace<T>(owned: multiset<Item>, inUse: seq<bool>, cells: seq<T>, submitted: seq<T>, item: Item,
                          after: seq<T>)
    requires InPlace(owned + multiset{item}, inUse, cells, submitted) && !HasCell(owned, item.cell)
             && |inUse| == |cells|
    requires |after| == |cells| && forall i :: 0 <= i < |cells| && i != item.cell ==> after[i] == cells[i]
    ensures item.cell < |inUse| && item.ticket < |submitted|
    ensures InPlace(owned, inUse[item.cell := false], after, submitted)
  {
    var all := owned + multiset{item};
    assert item in all;
    forall o | o in owned ensures o in all && o.cell != item.cell {
    }
  }

  lemma LedgerRelease<T>(owned: multiset<Item>, inUse: seq<bool>, cells: seq<T>, submitted: seq<T>,
                         released: multiset<nat>, item: Item, after: seq<T>)
    requires Ledger(owned + multiset{item}, inUse, cells, submitted, released)
    requires |after| == |cells| && forall i :: 0 <= i < |cells| && i != item.cell ==> after[i] == cells[i]
    ensures item.cell < |inUse|
    ensures Ledger(owned, inUse[item.cell := false], after, submitted, released + multiset{item.ticket})
  {
    hide Apart, HasCell, HasTicket;
    HasLess(owned, item);
    ReleaseInPlace(owned, inUse, cells, submitted, item, after);
    hide InPlace;
    forall i: nat
      ensures HasCell(owned + multiset{item}, i) <==> HasCell(owned, i) || item.cell == i
      ensures HasTicket(owned + multiset{item}, i) <==> HasTicket(owned, i) || item.ticket == i
    {
      HasMore(owned, item, i);
    }
  }

  // ---------------------------------------------------------------- order

  function Tickets(items: seq<Item>): (ts: seq<nat>)
    ensures |ts| == |items| && forall i :: 0 <= i < |items| ==> ts[i] == items[i].ticket
  {
    seq(|items|, i requires 0 <= i < |items| => items[i].ticket)
  }

  function HandledTickets<T>(hs: seq<Handled<T>>): (ts: seq<nat>)
    ensures |ts| == |hs| && forall i :: 0 <= i < |hs| ==> ts[i] == hs[i].ticket
  {
    seq(|hs|, i requires 0 <= i < |hs| => hs[i].ticket)
  }

  /** Tickets handled, being handled and queued: what the worker has seen or will see. */
  function Served<T>(p: Pool<T>): seq<nat> {
    HandledTickets(p.handled) + (if p.worker.Running? then [p.worker.item.ticket] else []) + Tickets(p.queue)
  }

  function Newest(s: Submitter): seq<nat> {
    match s
    case Holding(item) => [item.ticket]
    case Dropping(item, _) => [item.ticket]
    case _ => []
  }

  ghost predicate Increasing(ts: seq<nat>, n: nat) {
    && (forall i, j :: 0 <= i < j < |ts| ==> ts[i] < ts[j])
    && forall i :: 0 <= i < |ts| ==> ts[i] < n
  }

  /** Handled in submission order, each with the value that was submitted; rejecting loses nothing accepted. */
  ghost predicate InOrder<T>(p: Pool<T>) {
    && Increasing(Served(p) + Newest(p.submitter), |p.submitted|)
    && (forall h :: h in p.handled ==> h.ticket < |p.submitted| && h.value == p.submitted[h.ticket])
    && (p.policy.Reject? ==> Served(p) == p.accepted && !p.submitter.Dropping?)
  }

  /** Room: queue within its depth, one less while a victim is on its way back. */
  ghost predicate Sized<T>(p: Pool<T>) {
    && p.depth > 0 && |p.inUse| == p.depth + 2 && p.starved == 0
    && |p.queue| <= p.depth - if p.submitter.Dropping? then 1 else 0
  }

  ghost predicate Balanced<T>(p: Pool<T>) { Ledger(Owned(p), p.inUse, p.cells, p.submitted, p.released) }

  ghost predicate Inv<T>(p: Pool<T>) { Balanced(p) && Sized(p) && InOrder(p) }

  // ---------------------------------------------------------------- counting cells

  ghost function CellsOf(owned: multiset<Item>): (cs: set<nat>)
    ensures forall i :: i in cs <==> HasCell(owned, i)
  {
    set o | o in owned :: o.cell
  }

  lemma {:induction false} CellCount(owned: multiset<Item>)
    requires Apart(owned)
    ensures |CellsOf(owned)| == |owned|
    decreases |owned|
  {
    if owned != multiset{} {
      var item :| item in owned;
      var rest := owned - multiset{item};
      assert owned == rest + multiset{item};
      HasLess(rest, item);
      CellCount(rest);
      OneMoreCell(rest, item);
    }
  }

  lemma OneMoreCell(rest: multiset<Item>, item: Item)
    requires !HasCell(rest, item.cell)
    ensures |CellsOf(rest + multiset{item})| == |CellsOf(rest)| + 1
  {
    hide HasCell;
    forall i: nat ensures HasCell(rest + multiset{item}, i) <==> HasCell(rest, i) || item.cell == i {
      HasMore(rest, item, i);
    }
    assert CellsOf(rest + multiset{item}) == CellsOf(rest) + {item.cell};
  }

  ghost function UsedCells(inUse: seq<bool>): (u: set<nat>)
    ensures forall i :: i in u <==> 0 <= i < |inUse| && inUse[i]
  {
    set i | 0 <= i < |inUse| && inUse[i]
  }

  /** Used cells are those queued, executing and in hand, no more. */
  lemma UsedIsOwned<T>(p: Pool<T>)
    requires Balanced(p)
    ensures |UsedCells(p.inUse)| == |InHand(p.submitter)| + |p.queue| + |AtWork(p.worker)|
  {
    hide Settled, Apart;
    CellCount(Owned(p));
    forall i ensures i in UsedCells(p.inUse) <==> i in CellsOf(Owned(p)) {
      if i in CellsOf(Owned(p)) {
        var o :| o in Owned(p) && o.cell == i;
      }
    }
    assert UsedCells(p.inUse) == CellsOf(Owned(p));
  }

  lemma FullMeansAll(inUse: seq<bool>)
    ensures FreeCell(inUse) == |inUse| ==> |UsedCells(inUse)| == |inUse|
  {
    AllIndicesSize(|inUse|);
    if FreeCell(inUse) == |inUse| { assert UsedCells(inUse) == AllIndices(|inUse|); }
  }

  /** A submitter that starts always finds a free cell. */
  lemma NeverStarved<T>(p: Pool<T>)
    requires Balanced(p) && Sized(p) && p.submitter.Ready?
    ensures FreeCell(p.inUse) < |p.inUse|
  {
    UsedIsOwned(p);
    FullMeansAll(p.inUse);
  }

  // ---------------------------------------------------------------- steps

  lemma QueueEnds(queue: seq<Item>, item: Item)
    ensures multiset(queue + [item]) == multiset(queue) + multiset{item}
    ensures queue != [] ==> multiset(queue) == multiset{queue[0]} + multiset(queue[1..])
  {
    if queue != [] { assert queue == [queue[0]] + queue[1..]; }
  }

  /** The executor and the worker pass items on without touching the pool. */
  ghost predicate OnlyMoves<T>(p: Pool<T>, q: Pool<T>) {
    && Owned(q) == Owned(p) && q.inUse == p.inUse && q.cells == p.cells && q.submitted == p.submitted
    && q.released == p.released && Sized(q)
  }

  lemma OfferMoves<T>(p: Pool<T>)
    requires Sized(p)
    ensures OnlyMoves(p, Apply(p, Offer))
  {
    hide OwnedBy;
    if p.submitter.Holding? {
      Enqueued(p.submitter.item, p.queue, p.worker);
      Dropped(p.submitter.item, p.queue, p.worker);
    }
  }

  lemma Enqueued(item: Item, queue: seq<Item>, w: Worker)
    ensures OwnedBy(Ready, queue + [item], w) == OwnedBy(Holding(item), queue, w) == OwnedBy(Refused(item), queue, w)
  {
    hide AtWork;
    QueueEnds(queue, item);
    ToQueue(item, multiset(queue), AtWork(w));
  }

  lemma Dropped(item: Item, queue: seq<Item>, w: Worker)
    ensures queue != [] ==> OwnedBy(Dropping(item, queue[0]), queue[1..], w) == OwnedBy(Holding(item), queue, w)
  {
    hide AtWork;
    if queue != [] {
      QueueEnds(queue, item);
      FromQueue(item, queue[0], multiset(queue[1..]), AtWork(w));
    }
  }

  lemma ToQueue(item: Item, queue: multiset<Item>, rest: multiset<Item>)
    ensures multiset{} + (queue + multiset{item}) + rest == multiset{item} + queue + rest
    ensures multiset{item} + queue + rest == queue + rest + multiset{item}
  {
  }

  lemma FromQueue(item: Item, victim: Item, queue: multiset<Item>, rest: multiset<Item>)
    ensures multiset{item, victim} + queue + rest == multiset{item} + (multiset{victim} + queue) + rest
  {
  }

  lemma TakeMoves<T>(p: Pool<T>)
    requires Sized(p)
    ensures OnlyMoves(p, Apply(p, Take))
  {
    hide OwnedBy;
    Taken(p.submitter, p.queue);
  }

  lemma Taken(s: Submitter, queue: seq<Item>)
    ensures queue != [] ==> OwnedBy(s, queue[1..], Running(queue[0])) == OwnedBy(s, queue, Idle)
  {
    hide InHand;
    if queue != [] { QueueEnds(queue, queue[0]); }
  }

  lemma Worked(s: Submitter, queue: seq<Item>, item: Item)
    ensures OwnedBy(s, queue, Finished(item)) == OwnedBy(s, queue, Running(item))
  {
  }

  lemma HandleMoves<T>(p: Pool<T>)
    requires Sized(p)
    ensures OnlyMoves(p, Apply(p, Handle))
  {
    hide OwnedBy;
    if p.worker.Running? { Worked(p.submitter, p.queue, p.worker.item); }
  }

  lemma ReleaseBalanced<T>(p: Pool<T>, item: Item, rest: multiset<Item>)
    requires Balanced(p) && Owned(p) == rest + multiset{item}
    ensures var q := Release(p, item);
            && Ledger(rest, q.inUse, q.cells, q.submitted, q.released)
            && q == p.(inUse := q.inUse, cells := q.cells, released := q.released) && |q.inUse| == |p.inUse|
  {
    hide Ledger, Owned;
    LedgerShape(p);
    var after := if p.wipe.Some? && item.cell < |p.cells| then p.cells[item.cell := p.wipe.value] else p.cells;
    LedgerRelease(rest, p.inUse, p.cells, p.submitted, p.released, item, after);
  }

  lemma LedgerShape<T>(p: Pool<T>)
    requires Balanced(p)
    ensures |p.inUse| == |p.cells|
  {
  }

  lemma AcquireBalanced<T>(p: Pool<T>, value: T)
    requires Balanced(p) && Sized(p)
    ensures Balanced(Apply(p, Acquire(value))) && Sized(Apply(p, Acquire(value)))
  {
    hide Ledger, FreeCell;
    if p.submitter.Ready? {
      NeverStarved(p);
      LedgerShape(p);
      var at := FreeCell(p.inUse);
      LedgerAcquire(Owned(p), p.inUse, p.cells, p.submitted, p.released, at, value);
      assert Owned(Apply(p, Acquire(value))) == Owned(p) + multiset{Item(at, |p.submitted|)};
    }
  }

  lemma DiscardBalanced<T>(p: Pool<T>)
    requires Balanced(p) && Sized(p)
    ensures Balanced(Apply(p, Discard)) && Sized(Apply(p, Discard))
  {
    hide Ledger, Release;
    if p.submitter.Dropping? {
      var rest := multiset{p.submitter.item} + multiset(p.queue) + AtWork(p.worker);
      assert Owned(p) == rest + multiset{p.submitter.victim};
      ReleaseBalanced(p, p.submitter.victim, rest);
    }
  }

  lemma GiveBackBalanced<T>(p: Pool<T>)
    requires Balanced(p) && Sized(p)
    ensures Balanced(Apply(p, GiveBack)) && Sized(Apply(p, GiveBack))
  {
    hide Ledger, Release;
    if p.submitter.Refused? {
      var rest := multiset(p.queue) + AtWork(p.worker);
      ToQueue(p.submitter.item, multiset(p.queue), AtWork(p.worker));
      ReleaseBalanced(p, p.submitter.item, rest);
      assert Owned(Apply(p, GiveBack)) == rest;
    }
  }

  lemma FinishBalanced<T>(p: Pool<T>)
    requires Balanced(p) && Sized(p)
    ensures Balanced(Apply(p, Finish)) && Sized(Apply(p, Finish))
  {
    hide Ledger, Release;
    if p.worker.Finished? {
      var rest := InHand(p.submitter) + multiset(p.queue);
      assert Owned(p) == rest + multiset{p.worker.item};
      ReleaseBalanced(p, p.worker.item, rest);
      assert Owned(Apply(p, Finish)) == rest;
    }
  }

  lemma StepBalanced<T>(p: Pool<T>, step: Step<T>)
    requires Balanced(p) && Sized(p)
    ensures Balanced(Apply(p, step)) && Sized(Apply(p, step))
  {
    hide Ledger, Apply, Sized;
    match step
    case Acquire(value) => AcquireBalanced(p, value);
    case Offer => OfferMoves(p);
    case Take => TakeMoves(p);
    case Handle => HandleMoves(p);
    case Discard => DiscardBalanced(p);
    case GiveBack => GiveBackBalanced(p);
    case Finish => FinishBalanced(p);
  }

  lemma IncreasingCut(a: seq<nat>, b: seq<nat>, c: seq<nat>, n: nat)
    requires Increasing(a + b + c, n)
    ensures Increasing(a + c, n)
  {
    var s, t := a + b + c, a + c;
    forall i | 0 <= i < |t| ensures t[i] == s[if i < |a| then i else i + |b|] {
    }
  }

  lemma IncreasingMore(a: seq<nat>, n: nat)
    requires Increasing(a, n)
    ensures Increasing(a + [n], n + 1)
  {
  }

  lemma ReleaseQuiet<T>(p: Pool<T>, item: Item)
    ensures var q := Release(p, item); q == p.(inUse := q.inUse, cells := q.cells, released := q.released)
  {
  }

  lemma AcquireInOrder<T>(p: Pool<T>, value: T)
    requires Inv(p)
    ensures InOrder(Apply(p, Acquire(value)))
  {
    hide Balanced, FreeCell, Served, Increasing;
    var q := Apply(p, Acquire(value));
    if p.submitter.Ready? {
      NeverStarved(p);
      assert p.submitted <= p.submitted + [value];
      assert Served(p) + [] == Served(p);
      assert Served(q) == Served(p) by { SameServed(p, q); }
      if q.submitter.Holding? { IncreasingMore(Served(p), |p.submitted|); }
    }
  }

  lemma SameServed<T>(p: Pool<T>, q: Pool<T>)
    requires p.handled == q.handled && p.worker == q.worker && p.queue == q.queue
    ensures Served(p) == Served(q)
  {
  }

  lemma OfferInOrder<T>(p: Pool<T>)
    requires Sized(p) && InOrder(p)
    ensures InOrder(Apply(p, Offer))
  {
    hide Tickets, HandledTickets, Increasing;
    if p.submitter.Holding? {
      var item, q := p.submitter.item, Apply(p, Offer);
      var done := HandledTickets(p.handled) + if p.worker.Running? then [p.worker.item.ticket] else [];
      if |p.queue| < p.depth {
        TicketsSnoc(p.queue, item);
        assert Served(q) == Served(p) + [item.ticket];
        assert Served(q) + [] == Served(p) + [item.ticket];
      } else if p.policy.Reject? {
        assert Served(p) + [item.ticket] + [] == Served(p) + [item.ticket];
        IncreasingCut(Served(p), [item.ticket], [], |p.submitted|);
      } else {
        TicketsHead(p.queue);
        assert Served(p) + [item.ticket] == done + [p.queue[0].ticket] + (Tickets(q.queue) + [item.ticket]);
        IncreasingCut(done, [p.queue[0].ticket], Tickets(q.queue) + [item.ticket], |p.submitted|);
        assert Served(q) + [item.ticket] == done + (Tickets(q.queue) + [item.ticket]);
      }
    }
  }

  lemma TakeInOrder<T>(p: Pool<T>)
    requires InOrder(p)
    ensures InOrder(Apply(p, Take))
  {
    hide Increasing, Served;
    TakeServed(p);
  }

  lemma TakeServed<T>(p: Pool<T>)
    ensures Served(Apply(p, Take)) == Served(p)
  {
    hide HandledTickets, Tickets;
    if p.worker.Idle? && p.queue != [] {
      TicketsHead(p.queue);
      Regroup(HandledTickets(p.handled), p.queue[0].ticket, Tickets(p.queue[1..]));
    }
  }

  lemma TicketsHead(queue: seq<Item>)
    requires queue != []
    ensures Tickets(queue) == [queue[0].ticket] + Tickets(queue[1..])
  {
  }

  lemma TicketsSnoc(queue: seq<Item>, item: Item)
    ensures Tickets(queue + [item]) == Tickets(queue) + [item.ticket]
  {
  }

  lemma Regroup(done: seq<nat>, t: nat, rest: seq<nat>)
    ensures done + [] + ([t] + rest) == done + [t] + rest
  {
  }

  lemma HandleInOrder<T>(p: Pool<T>)
    requires Balanced(p) && InOrder(p)
    ensures InOrder(Apply(p, Handle))
  {
    hide Increasing, Ledger, Served;
    if p.worker.Running? {
      RunningInPlace(p);
      HandleServed(p);
    }
  }

  lemma HandleServed<T>(p: Pool<T>)
    ensures Served(Apply(p, Handle)) == Served(p)
  {
    hide Tickets;
    var q := Apply(p, Handle);
    if q.worker != p.worker {
      assert HandledTickets(q.handled) == HandledTickets(p.handled) + [p.worker.item.ticket];
      assert HandledTickets(q.handled) + [] == HandledTickets(q.handled);
    }
  }

  lemma RunningInPlace<T>(p: Pool<T>)
    requires Balanced(p) && p.worker.Running?
    ensures var item := p.worker.item;
            item.cell < |p.cells| && item.ticket < |p.submitted| && p.cells[item.cell] == p.submitted[item.ticket]
  {
    hide Apart, NoLeak, Settled;
    assert p.worker.item in Owned(p);
  }

  lemma ReleasesInOrder<T>(p: Pool<T>, step: Step<T>)
    requires InOrder(p) && (step.Discard? || step.GiveBack? || step.Finish?)
    ensures InOrder(Apply(p, step))
  {
    hide Release, Increasing, Served;
    var q := Apply(p, step);
    if step.Discard? && p.submitter.Dropping? {
      ReleaseQuiet(p, p.submitter.victim);
      assert Served(q) == Served(p) by { SameServed(p, q); }
    } else if step.GiveBack? && p.submitter.Refused? {
      ReleaseQuiet(p, p.submitter.item);
      assert Served(q) == Served(p) by { SameServed(p, q); }
    } else if step.Finish? && p.worker.Finished? {
      ReleaseQuiet(p, p.worker.item);
      assert Served(q) == Served(p) by { ServedByFinish(p, q); }
    }
  }

  lemma ServedByFinish<T>(p: Pool<T>, q: Pool<T>)
    requires p.handled == q.handled && p.queue == q.queue && p.worker.Finished? && q.worker.Idle?
    ensures Served(p) == Served(q)
  {
  }

  lemma StepKeeps<T>(p: Pool<T>, step: Step<T>)
    requires Inv(p)
    ensures Inv(Apply(p, step))
  {
    hide Apply, Balanced, InOrder, Sized;
    StepBalanced(p, step);
    match step
    case Acquire(value) => AcquireInOrder(p, value);
    case Offer => OfferInOrder(p);
    case Take => TakeInOrder(p);
    case Handle => HandleInOrder(p);
    case Discard => ReleasesInOrder(p, step);
    case GiveBack => ReleasesInOrder(p, step);
    case Finish => ReleasesInOrder(p, step);
  }

  // ---------------------------------------------------------------- every interleaving

  function Run<T>(p: Pool<T>, steps: seq<Step<T>>): Pool<T> {
    if steps == [] then p else Apply(Run(p, steps[..|steps| - 1]), steps[|steps| - 1])
  }

  lemma {:induction false} RunKeeps<T>(p: Pool<T>, steps: seq<Step<T>>)
    requires Inv(p)
    ensures Inv(Run(p, steps))
  {
    if steps != [] {
      RunKeeps(p, steps[..|steps| - 1]);
      StepKeeps(Run(p, steps[..|steps| - 1]), steps[|steps| - 1]);
    }
  }

  lemma StartInv<T>(depth: nat, policy: Policy, wipe: Option<T>, blank: T)
    requires depth > 0
    ensures Inv(Empty(depth, policy, wipe, blank))
  {
  }

  /**
   * No cell leaks, in any interleaving and under either policy: cells in use are exactly
   * those queued, executing and in hand, and the "no free cell" branch is never taken.
   */
  lemma NoCellLeaks<T>(depth: nat, policy: Policy, wipe: Option<T>, blank: T, steps: seq<Step<T>>)
    requires depth > 0
    ensures var p := Run(Empty(depth, policy, wipe, blank), steps);
            && |UsedCells(p.inUse)| == |InHand(p.submitter)| + |p.queue| + |AtWork(p.worker)|
            && p.starved == 0 && (p.submitter.Ready? ==> FreeCell(p.inUse) < |p.inUse|)
  {
    hide Apply, Run, Empty, Balanced, FreeCell, UsedCells;
    StartInv(depth, policy, wipe, blank);
    RunKeeps(Empty(depth, policy, wipe, blank), steps);
    var p := Run(Empty(depth, policy, wipe, blank), steps);
    UsedIsOwned(p);
    if p.submitter.Ready? { NeverStarved(p); }
  }

  /**
   * Every submission that got a cell is released exactly once or still owned, and the
   * handler gets exactly the submitted values, each at most once and in submission order;
   * under Reject it gets every accepted one.
   */
  lemma ReleasedOnceHandledInOrder<T>(depth: nat, policy: Policy, wipe: Option<T>, blank: T, steps: seq<Step<T>>,
                                      t: nat)
    requires depth > 0
    ensures var p := Run(Empty(depth, policy, wipe, blank), steps);
            && p.released[t] == (if t < |p.submitted| && !HasTicket(Owned(p), t) then 1 else 0)
            && (forall i, j :: 0 <= i < j < |p.handled| ==> p.handled[i].ticket < p.handled[j].ticket)
            && (forall h :: h in p.handled ==> h.ticket < |p.submitted| && h.value == p.submitted[h.ticket])
            && (p.policy.Reject? ==> Served(p) == p.accepted)
  {
    hide Apply, Run, Empty;
    StartInv(depth, policy, wipe, blank);
    RunKeeps(Empty(depth, policy, wipe, blank), steps);
    var p := Run(Empty(depth, policy, wipe, blank), steps);
    HandledFirst(p);
  }

  lemma HandledFirst<T>(p: Pool<T>)
    requires InOrder(p)
    ensures forall i, j :: 0 <= i < j < |p.handled| ==> p.handled[i].ticket < p.handled[j].ticket
  {
    var all := Served(p) + Newest(p.submitter);
    assert forall i :: 0 <= i < |p.handled| ==> all[i] == p.handled[i].ticket;
  }

  /** When nothing is queued, held or running, every cell is free and everything was released once. */
  lemma QuietPoolIsEmpty<T>(p: Pool<T>)
    requires Inv(p) && p.submitter.Ready? && p.worker.Idle? && p.queue == []
    ensures forall i :: 0 <= i < |p.inUse| ==> !p.inUse[i]
    ensures forall t: nat :: p.released[t] == if t < |p.submitted| then 1 else 0
  {
    assert Owned(p) == multiset{};
  }

  // ---------------------------------------------------------------- what a submission and a turn of the worker do

  /** With room in the queue a submission is appended, under either policy. */
  lemma RoomAccepts<T>(p: Pool<T>)
    requires p.submitter.Holding? && |p.queue| < p.depth
    ensures var q := Apply(p, Offer);
            && q.queue == p.queue + [p.submitter.item] && q.accepted == p.accepted + [p.submitter.item.ticket]
            && q.submitter.Ready? && q.inUse == p.inUse && q.cells == p.cells
  {
  }

  /** On a full queue `Reject` refuses the newcomer, and its cell is free again. */
  lemma FullRejects<T>(p: Pool<T>)
    requires Inv(p) && p.submitter.Holding? && |p.queue| == p.depth && p.policy.Reject?
    ensures var q, item := Apply(Apply(p, Offer), GiveBack), p.submitter.item;
            && q.queue == p.queue && q.accepted == p.accepted && q.submitter.Ready?
            && item.cell < |p.inUse| && q.inUse == p.inUse[item.cell := false]
            && q.released == p.released + multiset{item.ticket}
  {
    hide Apart, NoLeak, Settled, InOrder;
    assert p.submitter.item in Owned(p);
  }

  /**
   * On a full queue `DropOldest` takes the newcomer in and gives up the queued submission
   * that is oldest, whose cell is free again; the others stay in their order.
   */
  lemma FullDropsOldest<T>(p: Pool<T>)
    requires Inv(p) && p.submitter.Holding? && |p.queue| == p.depth && p.policy.DropOldest?
    ensures var q, item, oldest := Apply(Apply(Apply(p, Offer), Discard), Offer), p.submitter.item, p.queue[0];
            && q.queue == p.queue[1..] + [item] && q.accepted == p.accepted + [item.ticket] && q.submitter.Ready?
            && oldest.cell < |p.inUse| && q.inUse == p.inUse[oldest.cell := false]
            && q.released == p.released + multiset{oldest.ticket}
            && (forall x :: x in q.queue ==> oldest.ticket < x.ticket)
  {
    hide Apart, NoLeak, Settled, Increasing;
    assert p.queue[0] in Owned(p);
    QueueInOrder(p);
  }

  lemma QueueInOrder<T>(p: Pool<T>)
    requires InOrder(p) && p.submitter.Holding? && p.queue != []
    ensures forall x :: x in p.queue[1..] + [p.submitter.item] ==> p.queue[0].ticket < x.ticket
  {
    var all := Served(p) + Newest(p.submitter);
    var first := |Served(p)| - |p.queue|;
    assert forall i :: 0 <= i < |p.queue| ==> all[first + i] == p.queue[i].ticket;
    var last := p.queue[1..] + [p.submitter.item];
    forall i | 0 <= i < |last| ensures last[i].ticket == all[first + 1 + i] {
    }
  }

  /** One turn of the worker: the oldest queued submission is handled with its value and its cell is free again. */
  lemma WorkerTakesOldest<T>(p: Pool<T>)
    requires Inv(p) && p.worker.Idle? && p.queue != []
    ensures var q, item := Apply(Apply(Apply(p, Take), Handle), Finish), p.queue[0];
            && q.queue == p.queue[1..] && q.worker.Idle? && item.ticket < |p.submitted| && item.cell < |p.inUse|
            && q.handled == p.handled + [Handled(item.ticket, p.submitted[item.ticket])]
            && q.inUse == p.inUse[item.cell := false] && q.released == p.released + multiset{item.ticket}
  {
    hide Apart, NoLeak, Settled, InOrder;
    assert p.queue[0] in Owned(p);
  }

  // ---------------------------------------------------------------- the storage

  /** The pool's storage as the source keeps it: two arrays searched and marked in place. */
  class Storage<T> {
    const inUse: array<bool>
    const cells: array<T>

    ghost predicate Valid()
      reads this
    {
      inUse != cells && inUse.Length == cells.Length
    }

    constructor (depth: nat, blank: T)
      ensures Valid() && fresh(inUse) && fresh(cells) && inUse.Length == depth + 2
      ensures inUse[..] == Empty(depth, Reject, None, blank).inUse
              && cells[..] == Empty(depth, Reject, None, blank).cells
    {
      inUse := new bool[depth + 2](_ => false);
      cells := new T[depth + 2](_ => blank);
    }

    method AcquireCell(value: T) returns (cell: Option<nat>)
      requires Valid()
      modifies inUse, cells
      ensures var at := FreeCell(old(inUse[..]));
              if at < inUse.Length then
                cell == Some(at) && inUse[..] == old(inUse[..])[at := true] && cells[..] == old(cells[..])[at := value]
              else cell == None && inUse[..] == old(inUse[..]) && cells[..] == old(cells[..])
    {
      var i := 0;
      while i < inUse.Length
        invariant i <= inUse.Length && forall j :: 0 <= j < i ==> !IsFree()(inUse[j])
        invariant inUse[..] == old(inUse[..]) && cells[..] == old(cells[..])
      {
        if !inUse[i] {
          FirstIs(inUse[..], IsFree(), i);
          inUse[i] := true;
          cells[i] := value;
          return Some(i);
        }
        i := i + 1;
      }
      FirstIs(inUse[..], IsFree(), inUse.Length);
      return None;
    }

    method ReleaseCell(cell: nat, wipe: Option<T>)
      requires Valid()
      modifies inUse, cells
      ensures if cell < inUse.Length then
                && inUse[..] == old(inUse[..])[cell := false]
                && cells[..] == (if wipe.Some? then old(cells[..])[cell := wipe.value] else old(cells[..]))
              else inUse[..] == old(inUse[..]) && cells[..] == old(cells[..])
    {
      if cell >= inUse.Length { return; }
      if wipe.Some? { cells[cell] := wipe.value; }
      inUse[cell] := false;
    }
  }
}
