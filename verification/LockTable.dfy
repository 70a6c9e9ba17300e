/** The reader/writer lock table, and every run of guards that acquire, release, or are dropped
    without being able to release. */
module LockTable {
  import opened Core
  import opened DisjointUnion

  // ----- the table

  /** Exclusive write locks, and a reader count per shared account. */
  datatype Table = Table(writeLocked: set<Pubkey>, readLocked: map<Pubkey, nat>)

  const EMPTY_TABLE := Table({}, map[])

  predicate WouldConflict(t: Table, w: set<Pubkey>, r: set<Pubkey>) {
    !(w !! t.writeLocked) || !(w !! t.readLocked.Keys) || !(r !! t.writeLocked)
  }

  function CountOf(counts: map<Pubkey, nat>, a: Pubkey): nat {
    if a in counts then counts[a] else 0
  }

  function AddReaders(counts: map<Pubkey, nat>, accounts: set<Pubkey>): map<Pubkey, nat> {
    map a | a in counts.Keys + accounts :: CountOf(counts, a) + if a in accounts then 1 else 0
  }

  /** One reader fewer on each of `accounts`; an entry that reaches zero is removed. */
  function DropReaders(counts: map<Pubkey, nat>, accounts: set<Pubkey>): map<Pubkey, nat> {
    map a | a in counts && !(a in accounts && counts[a] <= 1) :: if a in accounts then counts[a] - 1 else counts[a]
  }

  function Grant(t: Table, w: set<Pubkey>, r: set<Pubkey>): Table {
    Table(t.writeLocked + w, AddReaders(t.readLocked, r))
  }

  function ReleaseWrites(t: Table, w: set<Pubkey>): Table {
    t.(writeLocked := t.writeLocked - w)
  }

  function ReleaseReads(t: Table, r: set<Pubkey>): Table {
    t.(readLocked := DropReaders(t.readLocked, r))
  }

  // ----- guards

  /** A guard is live; or its fallback drop has tried the write locks; or it is gone. A `Left` flag
      says that `try_write` failed and the locks stayed behind. */
  datatype Phase = Live | WriteTried(writesLeft: bool) | Gone(writesLeft: bool, readsLeft: bool)

  datatype Guard = Guard(writeAccounts: set<Pubkey>, readAccounts: set<Pubkey>, phase: Phase) {
    predicate HoldsWrites() {
      phase.Live? || phase.writesLeft
    }

    predicate HoldsReads() {
      !phase.Gone? || phase.readsLeft
    }
  }

  datatype System = System(table: Table, guards: map<nat, Guard>)

  const START := System(EMPTY_TABLE, map[])

  /** `Release` is the atomic drop of a synchronous guard and the explicit release of an async one.
      The two fallback steps are the halves of an unreleased async guard's drop. */
  datatype Event =
    | Acquire(id: nat, w: set<Pubkey>, r: set<Pubkey>)
    | Release(id: nat)
    | FallbackWrites(id: nat, locked: bool)
    | FallbackReads(id: nat, locked: bool)

  predicate Enabled(s: System, e: Event) {
    match e
    case Acquire(id, _, _) => id !in s.guards
    case Release(id) => id in s.guards && s.guards[id].phase.Live?
    case FallbackWrites(id, _) => id in s.guards && s.guards[id].phase.Live?
    case FallbackReads(id, _) => id in s.guards && s.guards[id].phase.WriteTried?
  }

  function Next(s: System, e: Event): System
    requires Enabled(s, e)
  {
    match e
    case Acquire(id, w, r) =>
      if WouldConflict(s.table, w, r) then s
      else System(Grant(s.table, w, r), s.guards[id := Guard(w, r, Live)])
    case Release(id) =>
      var g := s.guards[id];
      System(ReleaseReads(ReleaseWrites(s.table, g.writeAccounts), g.readAccounts),
             s.guards[id := g.(phase := Gone(false, false))])
    case FallbackWrites(id, locked) =>
      var g := s.guards[id];
      System(if locked then ReleaseWrites(s.table, g.writeAccounts) else s.table,
             s.guards[id := g.(phase := WriteTried(!locked))])
    case FallbackReads(id, locked) =>
      var g := s.guards[id];
      System(if locked then ReleaseReads(s.table, g.readAccounts) else s.table,
             s.guards[id := g.(phase := Gone(g.phase.writesLeft, !locked))])
  }

  // ----- the invariant

  ghost function WriteParts(guards: map<nat, Guard>): map<nat, set<Pubkey>> {
    map id | id in guards && guards[id].HoldsWrites() :: guards[id].writeAccounts
  }

  ghost function Readers(guards: map<nat, Guard>, a: Pubkey): set<nat> {
    set id | id in guards && guards[id].HoldsReads() && a in guards[id].readAccounts
  }

  ghost predicate CountsReaders(counts: map<Pubkey, nat>, guards: map<nat, Guard>) {
    && (forall a :: CountOf(counts, a) == |Readers(guards, a)|)
    && (forall a :: a in counts ==> counts[a] > 0)
  }

  /** What one guard holds for writing no other guard holds for reading. */
  ghost predicate Exclusive(guards: map<nat, Guard>) {
    forall i, j :: i in guards && j in guards && i != j && guards[i].HoldsWrites() && guards[j].HoldsReads() ==>
      guards[i].writeAccounts !! guards[j].readAccounts
  }

  ghost predicate Inv(s: System) {
    && IsDisjointUnion(s.table.writeLocked, WriteParts(s.guards))
    && CountsReaders(s.table.readLocked, s.guards)
    && Exclusive(s.guards)
  }

  /** A request conflicts exactly when some guard still holds one of its accounts in a clashing mode. */
  lemma ConflictMeansHolder(s: System, w: set<Pubkey>, r: set<Pubkey>)
    requires Inv(s)
    ensures WouldConflict(s.table, w, r) <==>
      exists id :: id in s.guards && Clashes(s.guards[id], w, r)
  {
    if !(w !! s.table.writeLocked) || !(r !! s.table.writeLocked) {
      var a :| a in s.table.writeLocked && (a in w || a in r);
      assert IsHeld(WriteParts(s.guards), a);
      var id :| id in WriteParts(s.guards) && a in WriteParts(s.guards)[id];
      assert Clashes(s.guards[id], w, r);
    } else if !(w !! s.table.readLocked.Keys) {
      var a :| a in w && a in s.table.readLocked;
      assert CountOf(s.table.readLocked, a) == |Readers(s.guards, a)|;
      var id :| id in Readers(s.guards, a);
      assert Clashes(s.guards[id], w, r);
    }
    if id :| id in s.guards && Clashes(s.guards[id], w, r) {
      HolderIsInTable(s, id);
    }
  }

  ghost predicate Clashes(g: Guard, w: set<Pubkey>, r: set<Pubkey>) {
    || (g.HoldsWrites() && !(g.writeAccounts !! w + r))
    || (g.HoldsReads() && !(g.readAccounts !! w))
  }

  /** Everything a guard holds is in the table, so releasing it never underflows a count. */
  lemma HolderIsInTable(s: System, id: nat)
    requires Inv(s) && id in s.guards
    ensures s.guards[id].HoldsWrites() ==> s.guards[id].writeAccounts <= s.table.writeLocked
    ensures s.guards[id].HoldsReads() ==>
      forall a :: a in s.guards[id].readAccounts ==> a in s.table.readLocked && s.table.readLocked[a] > 0
  {
    var g := s.guards[id];
    if g.HoldsWrites() {
      PartIsInside(s.table.writeLocked, WriteParts(s.guards), id);
    }
    if g.HoldsReads() {
      forall a | a in g.readAccounts ensures a in s.table.readLocked {
        assert id in Readers(s.guards, a);
        assert CountOf(s.table.readLocked, a) == |Readers(s.guards, a)|;
      }
    }
  }

  // ----- every step keeps it

  lemma OneMoreReader(s: System, id: nat, w: set<Pubkey>, r: set<Pubkey>)
    requires CountsReaders(s.table.readLocked, s.guards) && id !in s.guards
    ensures CountsReaders(AddReaders(s.table.readLocked, r), s.guards[id := Guard(w, r, Live)])
  {
    var guards := s.guards[id := Guard(w, r, Live)];
    forall a ensures CountOf(AddReaders(s.table.readLocked, r), a) == |Readers(guards, a)| {
      assert CountOf(s.table.readLocked, a) == |Readers(s.guards, a)|;
      if a in r {
        assert Readers(guards, a) == Readers(s.guards, a) + {id};
      } else {
        assert Readers(guards, a) == Readers(s.guards, a);
      }
    }
  }

  lemma AcquireKeepsInv(s: System, id: nat, w: set<Pubkey>, r: set<Pubkey>)
    requires Inv(s) && id !in s.guards && !WouldConflict(s.table, w, r)
    ensures Inv(System(Grant(s.table, w, r), s.guards[id := Guard(w, r, Live)]))
  {
    var guards := s.guards[id := Guard(w, r, Live)];
    AddPart(s.table.writeLocked, WriteParts(s.guards), id, w);
    assert WriteParts(guards) == WriteParts(s.guards)[id := w];
    OneMoreReader(s, id, w, r);
    forall i | i in s.guards
      ensures s.guards[i].HoldsWrites() ==> s.guards[i].writeAccounts !! r
      ensures s.guards[i].HoldsReads() ==> s.guards[i].readAccounts !! w
    {
      HolderIsInTable(s, i);
    }
  }

  lemma LettingGoOfWrites(total: set<Pubkey>, guards: map<nat, Guard>, id: nat, h: Guard)
    requires IsDisjointUnion(total, WriteParts(guards)) && id in guards
    requires h.writeAccounts == guards[id].writeAccounts && (h.HoldsWrites() ==> guards[id].HoldsWrites())
    ensures IsDisjointUnion(
      if guards[id].HoldsWrites() && !h.HoldsWrites() then total - h.writeAccounts else total,
      WriteParts(guards[id := h]))
  {
    if guards[id].HoldsWrites() && !h.HoldsWrites() {
      RemovePart(total, WriteParts(guards), id);
      assert WriteParts(guards[id := h]) == WriteParts(guards) - {id};
    } else {
      assert WriteParts(guards[id := h]) == WriteParts(guards);
    }
  }

  lemma LettingGoOfReads(counts: map<Pubkey, nat>, guards: map<nat, Guard>, id: nat, h: Guard)
    requires CountsReaders(counts, guards) && id in guards
    requires h.readAccounts == guards[id].readAccounts && (h.HoldsReads() ==> guards[id].HoldsReads())
    ensures CountsReaders(
      if guards[id].HoldsReads() && !h.HoldsReads() then DropReaders(counts, h.readAccounts) else counts,
      guards[id := h])
  {
    var dropped := guards[id].HoldsReads() && !h.HoldsReads();
    var next := if dropped then DropReaders(counts, h.readAccounts) else counts;
    forall a ensures CountOf(next, a) == |Readers(guards[id := h], a)| {
      assert CountOf(counts, a) == |Readers(guards, a)|;
      if dropped && a in h.readAccounts {
        assert id in Readers(guards, a);
        assert Readers(guards[id := h], a) == Readers(guards, a) - {id};
      } else {
        assert Readers(guards[id := h], a) == Readers(guards, a);
      }
    }
  }

  /** Letting go: a guard moves to a phase in which it holds no more than before. */
  lemma LettingGoKeepsInv(s: System, id: nat, phase: Phase)
    requires Inv(s) && id in s.guards
    requires var g := s.guards[id]; var h := g.(phase := phase);
      (h.HoldsWrites() ==> g.HoldsWrites()) && (h.HoldsReads() ==> g.HoldsReads())
    ensures var g := s.guards[id]; var h := g.(phase := phase);
      var unwritten := if g.HoldsWrites() && !h.HoldsWrites() then ReleaseWrites(s.table, g.writeAccounts) else s.table;
      var table := if g.HoldsReads() && !h.HoldsReads() then ReleaseReads(unwritten, g.readAccounts) else unwritten;
      Inv(System(table, s.guards[id := h]))
  {
    var h := s.guards[id].(phase := phase);
    LettingGoOfWrites(s.table.writeLocked, s.guards, id, h);
    LettingGoOfReads(s.table.readLocked, s.guards, id, h);
  }

  lemma StepKeepsInv(s: System, e: Event)
    requires Inv(s) && Enabled(s, e)
    ensures Inv(Next(s, e))
  {
    match e
    case Acquire(id, w, r) =>
      if !WouldConflict(s.table, w, r) {
        AcquireKeepsInv(s, id, w, r);
      }
    case Release(id) => LettingGoKeepsInv(s, id, Gone(false, false));
    case FallbackWrites(id, locked) => LettingGoKeepsInv(s, id, WriteTried(!locked));
    case FallbackReads(id, locked) => LettingGoKeepsInv(s, id, Gone(s.guards[id].phase.writesLeft, !locked));
  }

  // ----- runs

  ghost predicate Reaches(s: System, events: seq<Event>, t: System)
    decreases |events|
  {
    if events == [] then s == t
    else Enabled(s, events[0]) && Reaches(Next(s, events[0]), events[1..], t)
  }

  lemma {:induction false} RunKeepsInv(s: System, events: seq<Event>, t: System)
    requires Inv(s) && Reaches(s, events, t)
    ensures Inv(t)
    decreases |events|
  {
    if events != [] {
      StepKeepsInv(s, events[0]);
      RunKeepsInv(Next(s, events[0]), events[1..], t);
    }
  }

  lemma RunFromStartKeepsInv(events: seq<Event>, t: System)
    requires Reaches(START, events, t)
    ensures Inv(t)
  {
    assert WriteParts(START.guards) == map[];
    assert forall a :: Readers(START.guards, a) == {};
    RunKeepsInv(START, events, t);
  }

  // ----- what each guard holds, read from the events

  ghost predicate NoFallbackOf(past: seq<Event>, id: nat) {
    FallbackWrites(id, true) !in past && FallbackWrites(id, false) !in past && NoReadFallbackOf(past, id)
  }

  ghost predicate NoReadFallbackOf(past: seq<Event>, id: nat) {
    FallbackReads(id, true) !in past && FallbackReads(id, false) !in past
  }

  ghost predicate TriedWrites(past: seq<Event>, id: nat, left: bool) {
    Release(id) !in past && FallbackWrites(id, !left) in past && FallbackWrites(id, left) !in past
  }

  /** The guard's phase is the record of the events that concern it. */
  ghost predicate IsRecord(past: seq<Event>, id: nat, g: Guard) {
    && Acquire(id, g.writeAccounts, g.readAccounts) in past
    && match g.phase
       case Live => Release(id) !in past && NoFallbackOf(past, id)
       case WriteTried(left) => TriedWrites(past, id, left) && NoReadFallbackOf(past, id)
       case Gone(writesLeft, readsLeft) =>
         || (!writesLeft && !readsLeft && Release(id) in past && NoFallbackOf(past, id))
         || (TriedWrites(past, id, writesLeft)
             && FallbackReads(id, !readsLeft) in past && FallbackReads(id, readsLeft) !in past)
  }

  ghost predicate Recorded(past: seq<Event>, s: System) {
    && (forall id :: id in s.guards ==> IsRecord(past, id, s.guards[id]))
    && (forall id :: id !in s.guards ==> Release(id) !in past && NoFallbackOf(past, id))
  }

  lemma RecordedStep(past: seq<Event>, s: System, e: Event)
    requires Recorded(past, s) && Enabled(s, e)
    ensures Recorded(past + [e], Next(s, e))
  {
    assert forall x :: x in past + [e] <==> x in past || x == e;
    var t := Next(s, e);
    forall id | id in t.guards ensures IsRecord(past + [e], id, t.guards[id]) {
      if id in s.guards {
        assert IsRecord(past, id, s.guards[id]);
      }
    }
  }

  lemma {:induction false} RecordedRun(past: seq<Event>, s: System, events: seq<Event>, t: System)
    requires Recorded(past, s) && Reaches(s, events, t)
    ensures Recorded(past + events, t)
    decreases |events|
  {
    if events == [] {
      assert past + events == past;
    } else {
      RecordedStep(past, s, events[0]);
      RecordedRun(past + [events[0]], Next(s, events[0]), events[1..], t);
      assert past + [events[0]] + events[1..] == past + events;
    }
  }

  /** A guard is live until it is released or its drop begins; it holds its write set unless it was released
      or its drop got the lock for writing, and its read set likewise. */
  lemma HoldingsFollowEvents(events: seq<Event>, t: System, id: nat)
    requires Reaches(START, events, t) && id in t.guards
    ensures var g := t.guards[id];
      && Acquire(id, g.writeAccounts, g.readAccounts) in events
      && (g.phase.Live? <==> Release(id) !in events && NoFallbackOf(events, id))
      && (g.HoldsWrites() <==> Release(id) !in events && FallbackWrites(id, true) !in events)
      && (g.HoldsReads() <==> Release(id) !in events && FallbackReads(id, true) !in events)
  {
    RecordedRun([], START, events, t);
    assert [] + events == events;
    assert IsRecord(events, id, t.guards[id]);
  }

  /** A request is granted exactly when no guard holds one of its accounts in a clashing mode. */
  lemma AcquireIsExact(s: System, id: nat, w: set<Pubkey>, r: set<Pubkey>)
    requires Inv(s) && id !in s.guards
    ensures id in Next(s, Acquire(id, w, r)).guards <==> !exists j :: j in s.guards && Clashes(s.guards[j], w, r)
    ensures id !in Next(s, Acquire(id, w, r)).guards ==> Next(s, Acquire(id, w, r)) == s
  {
    ConflictMeansHolder(s, w, r);
  }

  ghost function LiveReaders(guards: map<nat, Guard>, a: Pubkey): set<nat> {
    set id | id in guards && guards[id].phase.Live? && a in guards[id].readAccounts
  }

  /** Readers whose fallback drop has not, or could not, take their count back. */
  ghost function LeftReaders(guards: map<nat, Guard>, a: Pubkey): set<nat> {
    set id | id in guards && !guards[id].phase.Live? && guards[id].HoldsReads() && a in guards[id].readAccounts
  }

  ghost predicate LiveWriter(guards: map<nat, Guard>, a: Pubkey) {
    exists id :: id in guards && guards[id].phase.Live? && a in guards[id].writeAccounts
  }

  /** A dropped guard's `try_write` failed on a write lock for `a`. */
  ghost predicate LeftWriter(guards: map<nat, Guard>, a: Pubkey) {
    exists id :: id in guards && !guards[id].phase.Live? && guards[id].HoldsWrites() && a in guards[id].writeAccounts
  }

  /** In every run: live guards' locks are in the table, no account a live guard writes is held by
      another, and what the table has beyond the live guards is exactly what drops left behind. */
  lemma TableIsLiveGuardsPlusLeftovers(events: seq<Event>, t: System)
    requires Reaches(START, events, t)
    ensures forall a :: a in t.table.writeLocked <==> LiveWriter(t.guards, a) || LeftWriter(t.guards, a)
    ensures forall a :: !(LiveWriter(t.guards, a) && LeftWriter(t.guards, a))
    ensures forall a :: CountOf(t.table.readLocked, a) == |LiveReaders(t.guards, a)| + |LeftReaders(t.guards, a)|
    ensures forall a :: a in t.table.readLocked ==> t.table.readLocked[a] > 0
    ensures forall i, j ::
      i in t.guards && j in t.guards && i != j && t.guards[i].phase.Live? && t.guards[j].phase.Live? ==>
      t.guards[i].writeAccounts !! t.guards[j].writeAccounts && t.guards[i].writeAccounts !! t.guards[j].readAccounts
  {
    RunFromStartKeepsInv(events, t);
    forall a
      ensures a in t.table.writeLocked <==> LiveWriter(t.guards, a) || LeftWriter(t.guards, a)
      ensures !(LiveWriter(t.guards, a) && LeftWriter(t.guards, a))
    {
      WritersOf(t, a);
    }
    forall a ensures CountOf(t.table.readLocked, a) == |LiveReaders(t.guards, a)| + |LeftReaders(t.guards, a)| {
      assert CountOf(t.table.readLocked, a) == |Readers(t.guards, a)|;
      assert Readers(t.guards, a) == LiveReaders(t.guards, a) + LeftReaders(t.guards, a);
    }
    forall i, j | i in t.guards && j in t.guards && i != j && t.guards[i].phase.Live? && t.guards[j].phase.Live?
      ensures t.guards[i].writeAccounts !! t.guards[j].writeAccounts
    {
      assert i in WriteParts(t.guards) && j in WriteParts(t.guards);
      assert WriteParts(t.guards)[i] !! WriteParts(t.guards)[j];
    }
  }

  lemma WritersOf(t: System, a: Pubkey)
    requires Inv(t)
    ensures a in t.table.writeLocked <==> LiveWriter(t.guards, a) || LeftWriter(t.guards, a)
    ensures !(LiveWriter(t.guards, a) && LeftWriter(t.guards, a))
  {
    var parts := WriteParts(t.guards);
    if a in t.table.writeLocked {
      assert IsHeld(parts, a);
      var id :| id in parts && a in parts[id];
      assert id in t.guards && a in t.guards[id].writeAccounts;
    }
    if LiveWriter(t.guards, a) {
      var i :| i in t.guards && t.guards[i].phase.Live? && a in t.guards[i].writeAccounts;
      assert i in parts && a in parts[i];
    }
    if LeftWriter(t.guards, a) {
      var j :| j in t.guards && !t.guards[j].phase.Live? && t.guards[j].HoldsWrites() && a in t.guards[j].writeAccounts;
      assert j in parts && a in parts[j];
      forall i | i in t.guards && t.guards[i].phase.Live? ensures a !in t.guards[i].writeAccounts {
        assert i in parts && i != j;
      }
    }
  }

  /** The table is empty exactly when no guard, live or dropped, holds any account. */
  lemma EmptyExactlyWhenNothingHeld(t: System)
    requires Inv(t)
    ensures t.table == EMPTY_TABLE <==>
      forall id :: id in t.guards ==>
        && (t.guards[id].HoldsWrites() ==> t.guards[id].writeAccounts == {})
        && (t.guards[id].HoldsReads() ==> t.guards[id].readAccounts == {})
  {
    if t.table == EMPTY_TABLE {
      forall id | id in t.guards
        ensures t.guards[id].HoldsWrites() ==> t.guards[id].writeAccounts == {}
        ensures t.guards[id].HoldsReads() ==> t.guards[id].readAccounts == {}
      {
        HolderIsInTable(t, id);
      }
    } else if t.table.writeLocked != {} {
      var a :| a in t.table.writeLocked;
      assert IsHeld(WriteParts(t.guards), a);
    } else {
      var a :| a in t.table.readLocked;
      assert CountOf(t.table.readLocked, a) == |Readers(t.guards, a)|;
      var id :| id in Readers(t.guards, a);
    }
  }

  // ----- guards that always release

  ghost predicate NoFallbacks(events: seq<Event>) {
    forall i :: 0 <= i < |events| ==> events[i].Acquire? || events[i].Release?
  }

  ghost predicate NothingLeft(guards: map<nat, Guard>) {
    forall id :: id in guards ==> guards[id].phase.Live? || guards[id].phase == Gone(false, false)
  }

  lemma {:induction false} ReleasingLeavesNothing(s: System, events: seq<Event>, t: System)
    requires NothingLeft(s.guards) && NoFallbacks(events) && Reaches(s, events, t)
    ensures NothingLeft(t.guards)
    decreases |events|
  {
    if events != [] {
      ReleasingLeavesNothing(Next(s, events[0]), events[1..], t);
    }
  }

  /** When every guard releases (synchronous guards always do), the table is exactly the live guards,
      and once none is live it is empty, whatever the order of the drops. */
  lemma ReleasingRunsAreExact(events: seq<Event>, t: System)
    requires NoFallbacks(events) && Reaches(START, events, t)
    ensures forall a :: a in t.table.writeLocked <==> LiveWriter(t.guards, a)
    ensures forall a :: CountOf(t.table.readLocked, a) == |LiveReaders(t.guards, a)|
    ensures (forall id :: id in t.guards ==> !t.guards[id].phase.Live?) ==> t.table == EMPTY_TABLE
  {
    ReleasingLeavesNothing(START, events, t);
    RunFromStartKeepsInv(events, t);
    TableIsLiveGuardsPlusLeftovers(events, t);
    forall a ensures LeftReaders(t.guards, a) == {} {}
    EmptyExactlyWhenNothingHeld(t);
  }

  // ----- a leak lasts

  lemma {:induction false} GoneStaysGone(s: System, events: seq<Event>, t: System, id: nat)
    requires Reaches(s, events, t) && id in s.guards && s.guards[id].phase.Gone?
    ensures id in t.guards && t.guards[id] == s.guards[id]
    decreases |events|
  {
    if events != [] {
      GoneStaysGone(Next(s, events[0]), events[1..], t, id);
    }
  }

  /** A lock left behind blocks every clashing request for the rest of the run. */
  lemma LeftoversBlockForever(s: System, events: seq<Event>, t: System, id: nat, w: set<Pubkey>, r: set<Pubkey>)
    requires Inv(s) && Reaches(s, events, t)
    requires id in s.guards && s.guards[id].phase.Gone? && Clashes(s.guards[id], w, r)
    ensures WouldConflict(t.table, w, r)
  {
    GoneStaysGone(s, events, t, id);
    RunKeepsInv(s, events, t);
    ConflictMeansHolder(t, w, r);
  }

  /** Such a lock is left behind by one guard whose drop finds the write set busy. */
  lemma DropCanLeaveALock(a: Pubkey) returns (events: seq<Event>, t: System)
    ensures Reaches(START, events, t)
    ensures t.table == Table({a}, map[]) && forall id :: id in t.guards ==> !t.guards[id].phase.Live?
    ensures 0 in t.guards && t.guards[0].phase.Gone? && Clashes(t.guards[0], {a}, {})
  {
    var first, second, third := Acquire(0, {a}, {}), FallbackWrites(0, false), FallbackReads(0, true);
    var held := Next(START, first);
    var tried := Next(held, second);
    t := Next(tried, third);
    events := [first, second, third];
    assert events[1..] == [second, third] && [second, third][1..] == [third] && [third][1..] == [];
    assert Reaches(t, [], t) && Reaches(tried, [third], t) && Reaches(held, [second, third], t);
  }

  /** So there are runs after which an account no guard holds can never be locked again. */
  lemma AbandonedAccountStaysBlocked(a: Pubkey) returns (events: seq<Event>, t: System)
    ensures Reaches(START, events, t) && forall id :: id in t.guards ==> !t.guards[id].phase.Live?
    ensures forall more, u :: Reaches(t, more, u) ==> WouldConflict(u.table, {a}, {}) && WouldConflict(u.table, {}, {a})
  {
    events, t := DropCanLeaveALock(a);
    RunFromStartKeepsInv(events, t);
    forall more, u | Reaches(t, more, u)
      ensures WouldConflict(u.table, {a}, {}) && WouldConflict(u.table, {}, {a})
    {
      LeftoversBlockForever(t, more, u, 0, {a}, {});
      LeftoversBlockForever(t, more, u, 0, {}, {a});
    }
  }
}
