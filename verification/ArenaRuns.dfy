// Every interleaving of threads that allocate and release blocks of the arena.
//
// A page's contents are one value, 0 when zeroed. Flags are set and cleared one page at a time under the lock;
// zeroing happens one page at a time after the lock is released.
module ArenaRuns {
  import opened Options
  import opened Arena

  datatype Phase = Marking(done: nat) | Zeroing(done: nat) | Live | Clearing(done: nat) {
    predicate NeedsLock() {
      Marking? || Clearing?
    }
  }

  // n pages for `length` bytes.
  datatype Block = Block(first: nat, n: nat, length: nat, phase: Phase) {
    predicate Has(page: nat) {
      first <= page < first + n
    }

    // Its flag for a page of its own.
    predicate Flagged(page: nat) {
      match phase
      case Marking(done) => page < first + done
      case Clearing(done) => first + done <= page
      case _ => true
    }

    predicate Apart(b: Block) {
      first + n <= b.first || b.first + b.n <= first
    }
  }

  datatype State = State(used: seq<bool>, hint: nat, count: nat, memory: seq<nat>, blocks: map<nat, Block>,
                         lock: Option<nat>)

  // What a thread does to its own block, one step at a time.
  datatype Action =
    | Take(id: nat, length: nat, at: nat)
    | Refused(length: nat)
    | Mark(id: nat)
    | Unlock(id: nat)
    | Zero(id: nat)
    | HandOut(id: nat)
    | Store(id: nat, page: nat, value: nat)
    | Free(id: nat)
    | Clear(id: nat)
    | Done(id: nat)

  function Changed(s: State, id: nat, phase: Phase): State
    requires id in s.blocks
  {
    s.(blocks := s.blocks[id := s.blocks[id].(phase := phase)])
  }

  ghost predicate Enabled(s: State, a: Action) {
    match a
    case Take(id, length, at) =>
      && s.lock.None? && id !in s.blocks && length < SIZE && PagesOf(length) > 0
      && TwoPasses(s.used, s.hint, PagesOf(length)) == Some(at)
    case Refused(length) =>
      length < SIZE && (PagesOf(length) == 0 || (s.lock.None? && TwoPasses(s.used, s.hint, PagesOf(length)).None?))
    case Mark(id) => InPhase(s, id) && s.blocks[id].phase.Marking? && s.blocks[id].phase.done < s.blocks[id].n
    case Unlock(id) => InPhase(s, id) && s.blocks[id].phase == Marking(s.blocks[id].n)
    case Zero(id) => InPhase(s, id) && s.blocks[id].phase.Zeroing? && s.blocks[id].phase.done < s.blocks[id].n
    case HandOut(id) => InPhase(s, id) && s.blocks[id].phase == Zeroing(s.blocks[id].n)
    case Store(id, page, _) => InPhase(s, id) && s.blocks[id].phase.Live? && page < s.blocks[id].n
    case Free(id) => s.lock.None? && InPhase(s, id) && s.blocks[id].phase.Live?
    case Clear(id) => InPhase(s, id) && s.blocks[id].phase.Clearing? && s.blocks[id].phase.done < s.blocks[id].n
    case Done(id) => InPhase(s, id) && s.blocks[id].phase == Clearing(s.blocks[id].n)
  }

  // The block exists and lies in the arena.
  ghost predicate InPhase(s: State, id: nat) {
    && id in s.blocks && s.blocks[id].first + s.blocks[id].n <= |s.used| == |s.memory|
    && (s.blocks[id].phase.NeedsLock() ==> s.lock == Some(id))
  }

  // The page a block's step is at.
  function At(b: Block): nat
    requires !b.phase.Live?
  {
    b.first + b.phase.done
  }

  ghost function After(s: State, a: Action): State
    requires Enabled(s, a)
  {
    match a
    case Take(id, length, at) =>
      s.(blocks := s.blocks[id := Block(at, PagesOf(length), length, Marking(0))], lock := Some(id))
    case Refused(_) => s
    case Mark(id) =>
      Changed(s, id, Marking(s.blocks[id].phase.done + 1)).(used := s.used[At(s.blocks[id]) := true])
    case Unlock(id) =>
      Changed(s, id, Zeroing(0)).(hint := s.blocks[id].first + s.blocks[id].n, count := s.count + s.blocks[id].n, lock := None)
    case Zero(id) =>
      Changed(s, id, Zeroing(s.blocks[id].phase.done + 1)).(memory := s.memory[At(s.blocks[id]) := 0])
    case HandOut(id) => Changed(s, id, Live)
    case Store(id, page, value) => s.(memory := s.memory[s.blocks[id].first + page := value])
    case Free(id) => Changed(s, id, Clearing(0)).(lock := Some(id))
    case Clear(id) =>
      var at := At(s.blocks[id]);
      Changed(s, id, Clearing(s.blocks[id].phase.done + 1))
        .(used := s.used[at := false], count := if s.used[at] && s.count > 0 then s.count - 1 else s.count)
    case Done(id) =>
      s.(blocks := s.blocks - {id}, lock := None, hint := if s.blocks[id].first < s.hint then s.blocks[id].first else s.hint)
  }

  ghost predicate Initial(s: State) {
    && |s.used| == |s.memory| && s.hint == 0 && s.count == 0 && s.blocks == map[] && s.lock.None?
    && forall i :: 0 <= i < |s.used| ==> !s.used[i]
  }

  // ---------- What every step keeps ----------

  ghost predicate InRange(s: State) {
    && s.hint <= |s.used| == |s.memory|
    && forall id :: id in s.blocks ==>
         && 0 < s.blocks[id].n == PagesOf(s.blocks[id].length) && s.blocks[id].length < SIZE
         && s.blocks[id].first + s.blocks[id].n <= |s.used|
         && (s.blocks[id].phase.Live? || s.blocks[id].phase.done <= s.blocks[id].n)
  }

  ghost predicate Disjoint(s: State) {
    forall id, other :: id in s.blocks && other in s.blocks && id != other ==> s.blocks[id].Apart(s.blocks[other])
  }

  // At most the holder of the lock is setting or clearing flags.
  ghost predicate Locked(s: State) {
    && (forall id :: id in s.blocks && s.blocks[id].phase.NeedsLock() ==> s.lock == Some(id))
    && (s.lock.Some? ==> s.lock.value in s.blocks && s.blocks[s.lock.value].phase.NeedsLock())
  }

  // A block's page is flagged exactly when its block has flagged it.
  ghost predicate FlagsMatch(s: State) {
    forall id, page: nat :: id in s.blocks && s.blocks[id].Has(page) && page < |s.used| ==>
      (s.used[page] <==> s.blocks[id].Flagged(page))
  }

  // A flagged page is in a block.
  ghost predicate FlagsCovered(s: State) {
    forall page: nat :: page < |s.used| && s.used[page] ==> Covered(s, page)
  }

  ghost predicate Covered(s: State, page: nat) {
    exists id :: id in s.blocks && s.blocks[id].Has(page)
  }

  // Pages flagged but not yet counted.
  function Pending(s: State): nat {
    if s.lock.Some? && s.lock.value in s.blocks && s.blocks[s.lock.value].phase.Marking?
    then s.blocks[s.lock.value].phase.done else 0
  }

  ghost predicate Counted(s: State) {
    CountUsed(s.used) == s.count + Pending(s)
  }

  ghost predicate ZeroedSoFar(s: State) {
    forall id, page: nat ::
      (id in s.blocks && s.blocks[id].phase.Zeroing? && s.blocks[id].first <= page < At(s.blocks[id]) && page < |s.memory|)
      ==> s.memory[page] == 0
  }

  ghost predicate Inv(s: State) {
    InRange(s) && Disjoint(s) && Locked(s) && FlagsMatch(s) && FlagsCovered(s) && Counted(s) && ZeroedSoFar(s)
  }

  lemma InitialKeeps(s: State)
    requires Initial(s)
    ensures Inv(s)
  {
    NoneUsed(s.used);
  }

  // The same blocks with the same pages, in whatever phases.
  ghost predicate SameExtents(s: State, t: State) {
    && |t.used| == |s.used| && |t.memory| == |s.memory| && t.blocks.Keys == s.blocks.Keys
    && forall id :: id in s.blocks ==>
         && t.blocks[id].first == s.blocks[id].first && t.blocks[id].n == s.blocks[id].n
         && t.blocks[id].length == s.blocks[id].length
  }

  lemma SameDisjoint(s: State, t: State)
    requires SameExtents(s, t) && Disjoint(s)
    ensures Disjoint(t)
  {
    forall id, other | id in t.blocks && other in t.blocks && id != other ensures t.blocks[id].Apart(t.blocks[other]) {
      assert s.blocks[id].Apart(s.blocks[other]);
    }
  }

  lemma SameCovered(s: State, t: State, page: nat)
    requires SameExtents(s, t) && Covered(s, page)
    ensures Covered(t, page)
  {
    var id :| id in s.blocks && s.blocks[id].Has(page);
    assert t.blocks[id].Has(page);
  }

  lemma AllCovered(s: State, t: State)
    requires SameExtents(s, t) && FlagsCovered(s)
    requires forall page: nat :: page < |s.used| && t.used[page] ==> s.used[page] || Covered(s, page)
    ensures FlagsCovered(t)
  {
    forall page: nat | page < |t.used| && t.used[page] ensures Covered(t, page) {
      SameCovered(s, t, page);
    }
  }

  // Another block's page is not this one's.
  lemma NotMine(s: State, id: nat, other: nat, page: nat)
    requires Disjoint(s) && id in s.blocks && other in s.blocks && id != other
    requires s.blocks[id].Has(page)
    ensures !s.blocks[other].Has(page)
  {
    assert s.blocks[id].Apart(s.blocks[other]);
  }

  // Changing one block's phase and the flag of its page at hand keeps the other flags right.
  lemma FlagStep(s: State, t: State, id: nat)
    requires SameExtents(s, t) && Disjoint(s) && FlagsMatch(s) && id in s.blocks && !s.blocks[id].phase.Live?
    requires s.blocks[id].Has(At(s.blocks[id]))
    requires forall other :: other in s.blocks && other != id ==> t.blocks[other] == s.blocks[other]
    requires forall page: nat :: page < |s.used| && page != At(s.blocks[id]) ==> t.used[page] == s.used[page]
    requires forall page: nat :: s.blocks[id].Has(page) && page < |s.used| ==> (t.used[page] <==> t.blocks[id].Flagged(page))
    ensures FlagsMatch(t)
  {
    var at := At(s.blocks[id]);
    forall other, page: nat | other in t.blocks && t.blocks[other].Has(page) && page < |t.used|
      ensures t.used[page] <==> t.blocks[other].Flagged(page)
    {
      assert s.blocks[other].Has(page);
      if other != id {
        NotMine(s, id, other, at);
      }
    }
  }

  lemma MarkKeeps(s: State, a: Action)
    requires Inv(s) && a.Mark? && Enabled(s, a)
    ensures Inv(After(s, a))
  {
    hide CountUsed, FlagsCovered, Disjoint, ZeroedSoFar;
    var t, b := After(s, a), s.blocks[a.id];
    var at := At(b);
    assert b.Has(at) && !b.Flagged(at);
    CountSet(s.used, at, true);
    SameDisjoint(s, t);
    ThisCovered(s, a.id, at);
    AllCovered(s, t);
    assert forall page: nat :: b.Has(page) && page < |s.used| ==> (s.used[page] <==> b.Flagged(page));
    FlagStep(s, t, a.id);
    hide FlagsMatch;
    ZeroedSame(s, t);
  }

  lemma ThisCovered(s: State, id: nat, page: nat)
    requires id in s.blocks && s.blocks[id].Has(page)
    ensures Covered(s, page)
  {
  }

  lemma ZeroedSame(s: State, t: State)
    requires SameExtents(s, t) && ZeroedSoFar(s) && t.memory == s.memory
    requires forall id :: id in t.blocks && t.blocks[id].phase.Zeroing? && t.blocks[id].phase.done > 0 ==> t.blocks[id] == s.blocks[id]
    ensures ZeroedSoFar(t)
  {
  }

  lemma ClearKeeps(s: State, a: Action)
    requires Inv(s) && a.Clear? && Enabled(s, a)
    ensures Inv(After(s, a))
  {
    hide CountUsed, FlagsCovered, Disjoint, ZeroedSoFar;
    var t, b := After(s, a), s.blocks[a.id];
    var at := At(b);
    assert b.Has(at) && b.Flagged(at);
    CountSet(s.used, at, false);
    SameDisjoint(s, t);
    AllCovered(s, t);
    assert forall page: nat :: b.Has(page) && page < |s.used| ==> (s.used[page] <==> b.Flagged(page));
    FlagStep(s, t, a.id);
    hide FlagsMatch;
    ZeroedSame(s, t);
  }

  lemma MatchSame(s: State, t: State)
    requires SameExtents(s, t) && FlagsMatch(s) && t.used == s.used
    requires forall id, page: nat :: id in s.blocks && s.blocks[id].Has(page) ==> (t.blocks[id].Flagged(page) <==> s.blocks[id].Flagged(page))
    ensures FlagsMatch(t)
  {
    forall id, page: nat | id in t.blocks && t.blocks[id].Has(page) && page < |t.used|
      ensures t.used[page] <==> t.blocks[id].Flagged(page)
    {
      assert s.blocks[id].Has(page);
    }
  }

  // What a change of phase leaves alone.
  lemma PhaseShape(s: State, a: Action)
    requires Inv(s) && (a.Unlock? || a.Free? || a.HandOut?) && Enabled(s, a)
    ensures var t := After(s, a);
            && SameExtents(s, t) && t.used == s.used && t.memory == s.memory
            && (forall id :: id in s.blocks && t.blocks[id].phase.Zeroing? && t.blocks[id].phase.done > 0 ==> t.blocks[id] == s.blocks[id])
            && forall id, page: nat :: id in s.blocks && s.blocks[id].Has(page) ==>
                 (t.blocks[id].Flagged(page) <==> s.blocks[id].Flagged(page))
  {
    hide CountUsed, FlagsCovered, Disjoint, ZeroedSoFar, FlagsMatch, TwoPasses, Counted;
  }

  lemma PhaseRest(s: State, t: State)
    requires Inv(s) && SameExtents(s, t) && t.used == s.used && t.memory == s.memory
    requires forall id :: id in s.blocks && t.blocks[id].phase.Zeroing? && t.blocks[id].phase.done > 0 ==> t.blocks[id] == s.blocks[id]
    requires forall id, page: nat :: id in s.blocks && s.blocks[id].Has(page) ==>
               (t.blocks[id].Flagged(page) <==> s.blocks[id].Flagged(page))
    ensures Disjoint(t) && FlagsCovered(t) && FlagsMatch(t) && ZeroedSoFar(t)
  {
    hide CountUsed, FlagsCovered, Disjoint, ZeroedSoFar, FlagsMatch;
    SameDisjoint(s, t);
    AllCovered(s, t);
    MatchSame(s, t);
    ZeroedSame(s, t);
  }

  // Releasing the lock, handing out and starting to release only change a block's phase.
  lemma PhaseKeeps(s: State, a: Action)
    requires Inv(s) && (a.Unlock? || a.Free? || a.HandOut?) && Enabled(s, a)
    ensures Inv(After(s, a))
  {
    hide CountUsed, FlagsCovered, Disjoint, ZeroedSoFar, FlagsMatch, TwoPasses;
    PhaseShape(s, a);
    PhaseRest(s, After(s, a));
    hide SameExtents;
    match a
    case Unlock(_) =>
    case Free(_) =>
    case HandOut(_) =>
  }

  lemma WriteKeeps(s: State, a: Action)
    requires Inv(s) && (a.Zero? || a.Store?) && Enabled(s, a)
    ensures Inv(After(s, a))
  {
    hide CountUsed, FlagsCovered, Disjoint, ZeroedSoFar, FlagsMatch;
    var t, b := After(s, a), s.blocks[a.id];
    var at := if a.Zero? then At(b) else b.first + a.page;
    SameDisjoint(s, t);
    AllCovered(s, t);
    MatchSame(s, t);
    assert b.Has(at);
    ZeroStep(s, t, a.id, at);
  }

  lemma ZeroStep(s: State, t: State, id: nat, at: nat)
    requires InRange(s) && SameExtents(s, t) && ZeroedSoFar(s) && Disjoint(s) && id in s.blocks && s.blocks[id].Has(at)
    requires forall page: nat :: page < |s.memory| && page != at ==> t.memory[page] == s.memory[page]
    requires forall other :: other in s.blocks && other != id ==> t.blocks[other] == s.blocks[other]
    requires t.blocks[id].phase.Zeroing? ==>
               && at < |t.memory| && t.memory[at] == 0 && s.blocks[id].phase.Zeroing?
               && At(t.blocks[id]) == at + 1 == At(s.blocks[id]) + 1
    ensures ZeroedSoFar(t)
  {
    forall other, page: nat | other in t.blocks && t.blocks[other].phase.Zeroing? && t.blocks[other].first <= page < At(t.blocks[other])
                              && page < |t.memory|
      ensures t.memory[page] == 0
    {
      if other != id {
        NotMine(s, id, other, at);
      }
    }
  }

  // With the lock free, a free run lies clear of every block.
  lemma FreeIsClear(s: State, at: nat, n: nat, id: nat)
    requires InRange(s) && Locked(s) && FlagsMatch(s) && s.lock.None? && id in s.blocks && n > 0 && FreeRun(s.used, at, n)
    ensures Block(at, n, 0, Marking(0)).Apart(s.blocks[id])
  {
    var b := s.blocks[id];
    assert forall page: nat :: b.Has(page) ==> b.Flagged(page) && s.used[page];
    assert b.Has(b.first) && !(at <= b.first < at + n);
    assert !b.Has(at);
  }

  lemma PassesFree(s: State, n: nat, at: nat)
    requires s.hint <= |s.used| && n > 0 && TwoPasses(s.used, s.hint, n) == Some(at)
    ensures FreeRun(s.used, at, n)
  {
    hide Pass, TwoPasses;
    PassesFit(s.used, s.hint, n);
  }

  lemma TakeKeeps(s: State, a: Action)
    requires Inv(s) && a.Take? && Enabled(s, a)
    ensures Inv(After(s, a))
  {
    hide CountUsed;
    var t, b := After(s, a), Block(a.at, PagesOf(a.length), a.length, Marking(0));
    PassesFree(s, PagesOf(a.length), a.at);
    forall id | id in s.blocks ensures b.Apart(s.blocks[id]) {
      FreeIsClear(s, a.at, PagesOf(a.length), id);
    }
    forall page: nat | page < |t.used| && t.used[page] ensures Covered(t, page) {
      var id :| id in s.blocks && s.blocks[id].Has(page);
      assert t.blocks[id].Has(page);
    }
  }

  lemma DoneKeeps(s: State, a: Action)
    requires Inv(s) && a.Done? && Enabled(s, a)
    ensures Inv(After(s, a))
  {
    hide CountUsed;
    var t, b := After(s, a), s.blocks[a.id];
    assert forall page: nat :: b.Has(page) && page < |s.used| ==> !s.used[page];
    forall page: nat | page < |t.used| && t.used[page] ensures Covered(t, page) {
      var id :| id in s.blocks && s.blocks[id].Has(page);
      assert id in t.blocks && t.blocks[id].Has(page);
    }
  }

  // Every step keeps the invariant.
  lemma StepKeeps(s: State, a: Action)
    requires Inv(s) && Enabled(s, a)
    ensures Inv(After(s, a))
  {
    hide Inv, Enabled;
    match a
    case Take(_, _, _) => TakeKeeps(s, a);
    case Refused(_) =>
    case Mark(_) => MarkKeeps(s, a);
    case Clear(_) => ClearKeeps(s, a);
    case Zero(_) => WriteKeeps(s, a);
    case Store(_, _, _) => WriteKeeps(s, a);
    case Done(_) => DoneKeeps(s, a);
    case _ => PhaseKeeps(s, a);
  }

  // ---------- Whole runs ----------

  // The states a sequence of actions goes through.
  ghost predicate Run(states: seq<State>, actions: seq<Action>) {
    && |states| == |actions| + 1 && Initial(states[0])
    && forall i :: 0 <= i < |actions| ==> Enabled(states[i], actions[i]) && states[i + 1] == After(states[i], actions[i])
  }

  lemma {:induction false} RunKeeps(states: seq<State>, actions: seq<Action>, i: nat)
    requires Run(states, actions) && i < |states|
    ensures Inv(states[i])
    decreases i
  {
    if i == 0 {
      InitialKeeps(states[0]);
    } else {
      RunKeeps(states, actions, i - 1);
      StepKeeps(states[i - 1], actions[i - 1]);
    }
  }

  // ---------- What that means ----------

  // At every moment the blocks given out or being prepared are disjoint. Whenever the lock is free, the flags are
  // exactly the union of the blocks and the count is the number of flags.
  lemma FlagsAreTheBlocks(states: seq<State>, actions: seq<Action>, i: nat)
    requires Run(states, actions) && i < |states|
    ensures Disjoint(states[i])
    ensures var s := states[i];
            s.lock.None? ==>
              && s.count == CountUsed(s.used)
              && forall page: nat :: page < |s.used| ==> (s.used[page] <==> Covered(s, page))
  {
    hide CountUsed;
    RunKeeps(states, actions, i);
  }

  // A request of some bytes is refused exactly when no free stretch of the arena covers them; otherwise one that does
  // can be taken.
  lemma RefusedExactly(states: seq<State>, actions: seq<Action>, i: nat, length: nat)
    requires Run(states, actions) && i < |states| && states[i].lock.None?
    requires 0 < length < SIZE && |states[i].used| * PAGE + PAGE < SIZE
    ensures Enabled(states[i], Refused(length)) <==> forall at: nat :: !FreeBytes(states[i].used, at, length)
    ensures Enabled(states[i], Refused(length)) ||
            exists at: nat :: FreeBytes(states[i].used, at, length) &&
              forall id :: id !in states[i].blocks ==> Enabled(states[i], Take(id, length, at))
  {
    var s := states[i];
    RunKeeps(states, actions, i);
    AllocatesBytes(s.used, s.hint, length);
    hide Pass, TwoPasses, CountUsed, Run, PagesOf, FreeBytes, HoldsBytes;
    if PagesOf(length) > 0 && TwoPasses(s.used, s.hint, PagesOf(length)).Some? {
      var at := TwoPasses(s.used, s.hint, PagesOf(length)).value;
      assert FreeBytes(s.used, at, length);
      assert forall id :: id !in s.blocks ==> Enabled(s, Take(id, length, at));
    }
  }

  // In every reachable state, whatever the threads do: the bytes of every block lie in the arena, on the fewest pages
  // that hold them, and no byte is in two blocks.
  lemma BytesApart(states: seq<State>, actions: seq<Action>, i: nat, id: nat)
    requires Run(states, actions) && i < |states| && id in states[i].blocks
    ensures var s, b := states[i], states[i].blocks[id];
            && 0 < b.length && b.first * PAGE + b.length <= |s.used| * PAGE
            && (b.n - 1) * PAGE < b.length <= b.n * PAGE
            && forall other :: other in s.blocks && other != id ==>
                 var c := s.blocks[other];
                 b.first * PAGE + b.length <= c.first * PAGE || c.first * PAGE + c.length <= b.first * PAGE
  {
    var s, b := states[i], states[i].blocks[id];
    RunKeeps(states, actions, i);
    hide CountUsed, Run;
    PagesHold(b.length);
    forall other | other in s.blocks && other != id
      ensures var c := s.blocks[other];
              b.first * PAGE + b.length <= c.first * PAGE || c.first * PAGE + c.length <= b.first * PAGE
    {
      PagesHold(s.blocks[other].length);
      assert b.Apart(s.blocks[other]);
    }
  }

  // A step for one block leaves the pages of every other block alone.
  lemma OthersUntouched(states: seq<State>, actions: seq<Action>, i: nat, id: nat, page: nat)
    requires Run(states, actions) && i < |actions| && id in states[i].blocks && states[i].blocks[id].Has(page)
    requires actions[i].Refused? || actions[i].id != id
    ensures page < |states[i].memory| == |states[i + 1].memory| && states[i + 1].memory[page] == states[i].memory[page]
    ensures id in states[i + 1].blocks && states[i + 1].blocks[id] == states[i].blocks[id]
  {
    var s, a := states[i], actions[i];
    RunKeeps(states, actions, i);
    assert Enabled(s, a) && states[i + 1] == After(s, a);
    hide CountUsed, Run;
    if a.Zero? || a.Store? {
      var at := if a.Zero? then At(s.blocks[a.id]) else s.blocks[a.id].first + a.page;
      assert s.blocks[a.id].Has(at);
      NotMine(s, a.id, id, at);
    }
  }

  // A block is handed out with every page zeroed.
  lemma HandedOutZeroed(states: seq<State>, actions: seq<Action>, i: nat, page: nat)
    requires Run(states, actions) && i < |actions| && actions[i].HandOut?
    requires actions[i].id in states[i].blocks && states[i].blocks[actions[i].id].Has(page)
    ensures page < |states[i + 1].memory| && states[i + 1].memory[page] == 0
  {
    RunKeeps(states, actions, i);
    assert Enabled(states[i], actions[i]) && states[i + 1] == After(states[i], actions[i]);
    hide CountUsed, Run;
  }

  // A live block's page changes only when its own thread stores to it.
  lemma LiveIsPrivate(states: seq<State>, actions: seq<Action>, i: nat, id: nat, page: nat)
    requires Run(states, actions) && i < |actions| && id in states[i].blocks
    requires states[i].blocks[id].phase.Live? && states[i].blocks[id].Has(page)
    requires !(actions[i].Store? && actions[i].id == id)
    ensures page < |states[i].memory| == |states[i + 1].memory| && states[i + 1].memory[page] == states[i].memory[page]
  {
    RunKeeps(states, actions, i);
    assert Enabled(states[i], actions[i]) && states[i + 1] == After(states[i], actions[i]);
    if actions[i].Refused? || actions[i].id != id {
      OthersUntouched(states, actions, i, id, page);
    }
  }

  // ---------- The lock makes each operation one change ----------

  // The holder has flagged part of its block, and nothing else about the arena has changed since s.
  ghost predicate MarkingSince(s: State, id: nat, n: nat, at: nat, t: State) {
    && t.lock == Some(id) && id in t.blocks && t.blocks[id].first == at && t.blocks[id].n == n
    && t.blocks[id].phase.Marking? && at + n <= |s.used| && t.blocks[id].phase.done <= n
    && t.used == SetFlags(s.used, at, t.blocks[id].phase.done, true) && t.hint == s.hint && t.count == s.count
  }

  lemma MarkingStep(s: State, id: nat, n: nat, at: nat, t: State, a: Action)
    requires MarkingSince(s, id, n, at, t) && Enabled(t, a) && !(a.Unlock? && a.id == id)
    ensures MarkingSince(s, id, n, at, After(t, a))
  {
  }

  lemma {:induction false} MarkingLasts(states: seq<State>, actions: seq<Action>, i: nat, j: nat)
    requires Run(states, actions) && i < j < |states| && actions[i].Take?
    requires forall k :: i < k < j ==> actions[k] != Unlock(actions[i].id)
    ensures var a := actions[i]; MarkingSince(states[i], a.id, PagesOf(a.length), a.at, states[j])
    decreases j
  {
    var a := actions[i];
    hide MarkingSince;
    if j == i + 1 {
      RunKeeps(states, actions, i);
      TakeMarks(states[i], a);
    } else {
      MarkingLasts(states, actions, i, j - 1);
      hide After, Enabled;
      MarkingStep(states[i], a.id, PagesOf(a.length), a.at, states[j - 1], actions[j - 1]);
    }
  }

  lemma TakeMarks(s: State, a: Action)
    requires a.Take? && Enabled(s, a) && s.hint <= |s.used|
    ensures MarkingSince(s, a.id, PagesOf(a.length), a.at, After(s, a))
  {
    PassesFree(s, PagesOf(a.length), a.at);
  }

  // Whatever other threads do in between, an allocation changes the flags, the hint and the count exactly as
  // Heap.Allocate states.
  lemma AllocationIsOneChange(states: seq<State>, actions: seq<Action>, i: nat, j: nat)
    requires Run(states, actions) && i < j < |actions| && actions[i].Take? && actions[j] == Unlock(actions[i].id)
    requires forall k :: i < k < j ==> actions[k] != Unlock(actions[i].id)
    ensures var s, t, a := states[i], states[j + 1], actions[i];
            && Fits(s.used, s.hint, PagesOf(a.length), Some(a.at)) && a.at + PagesOf(a.length) <= |s.used|
            && t.used == SetFlags(s.used, a.at, PagesOf(a.length), true) && t.hint == a.at + PagesOf(a.length) && t.count == s.count + PagesOf(a.length)
  {
    RunKeeps(states, actions, i);
    PassesFit(states[i].used, states[i].hint, PagesOf(actions[i].length));
    hide Pass, TwoPasses;
    MarkingLasts(states, actions, i, j);
    assert Enabled(states[i], actions[i]) && Enabled(states[j], actions[j]);
  }

  // The same for a release: the holder has cleared part of its block.
  ghost predicate ClearingSince(s: State, id: nat, b: Block, t: State) {
    && t.lock == Some(id) && id in t.blocks && t.blocks[id].first == b.first && t.blocks[id].n == b.n
    && t.blocks[id].phase.Clearing? && t.blocks[id].phase.done <= b.n && b.first + b.n <= |s.used|
    && t.used == Cleared(s.used, b.first, t.blocks[id].phase.done) && t.hint == s.hint
  }

  lemma ClearingStep(s: State, id: nat, b: Block, t: State, a: Action)
    requires ClearingSince(s, id, b, t) && Enabled(t, a) && !(a.Done? && a.id == id)
    ensures ClearingSince(s, id, b, After(t, a))
  {
  }

  lemma {:induction false} ClearingLasts(states: seq<State>, actions: seq<Action>, i: nat, j: nat)
    requires Run(states, actions) && i < j < |states| && actions[i].Free?
    requires forall k :: i < k < j ==> actions[k] != Done(actions[i].id)
    ensures var id := actions[i].id; id in states[i].blocks && ClearingSince(states[i], id, states[i].blocks[id], states[j])
    decreases j
  {
    var id := actions[i].id;
    assert Enabled(states[i], actions[i]);
    hide ClearingSince;
    if j == i + 1 {
      FreeClears(states[i], actions[i]);
    } else {
      ClearingLasts(states, actions, i, j - 1);
      hide After, Enabled;
      ClearingStep(states[i], id, states[i].blocks[id], states[j - 1], actions[j - 1]);
    }
  }

  lemma FreeClears(s: State, a: Action)
    requires a.Free? && Enabled(s, a)
    ensures ClearingSince(s, a.id, s.blocks[a.id], After(s, a))
  {
  }

  // A release clears exactly the block's flags and lowers the hint and the count, as Heap.Release states.
  lemma ReleaseIsOneChange(states: seq<State>, actions: seq<Action>, i: nat, j: nat)
    requires Run(states, actions) && i < j < |actions| && actions[i].Free? && actions[j] == Done(actions[i].id)
    requires forall k :: i < k < j ==> actions[k] != Done(actions[i].id)
    ensures actions[i].id in states[i].blocks
    ensures var s, t, b := states[i], states[j + 1], states[i].blocks[actions[i].id];
            && t.used == Cleared(s.used, b.first, b.n) && t.hint == (if b.first < s.hint then b.first else s.hint)
            && t.count == CountUsed(t.used)
  {
    hide CountUsed;
    ClearingLasts(states, actions, i, j);
    assert Enabled(states[i], actions[i]) && Enabled(states[j], actions[j]);
    FlagsAreTheBlocks(states, actions, j + 1);
  }
}
