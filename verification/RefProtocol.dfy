/**
 The reference count of libshims/SharedBuffer.cpp under any number of threads.

 A step is one access to the shared count or to the storage; the read in
 onlyOwner() and the atomic decrement are separate steps, and steps of different
 threads interleave in any order.
 */
module RefProtocol {
  import opened Sequences

  /** Where a thread is inside release, release_storage or an edit. */
  datatype Pc =
    | Idle
    | MustDecrement(keep: bool) // onlyOwner() was false
    | Alone(keep: bool)         // onlyOwner() was true; mRefs is about to be cleared
    | Last(keep: bool)          // the decrement returned 1; mRefs is about to be cleared
    | MustFree                  // release frees the storage itself
    | MustDestroy               // release returned 1 to release_storage
    | MustDealloc               // the items are destroyed
    | Editing                   // attemptEdit returned the block

  /** `held` counts the references this thread owns. */
  datatype Thread = Thread(held: nat, pc: Pc)

  /** `won` counts releases that returned 1, `freed` how often the storage was freed. */
  datatype State = State(mRefs: int, won: nat, freed: nat, threads: seq<Thread>)

  datatype Event =
    | Acquire(t: nat)
    | HandOver(t: nat, to: nat)
    | ReadItems(t: nat)
    | ReadCount(t: nat, keep: bool) // onlyOwner() in release
    | Decrement(t: nat)
    | Clear(t: nat)
    | Free(t: nat)
    | DestroyItems(t: nat)
    | Dealloc(t: nat)
    | AttemptEdit(t: nat)
    | WriteItems(t: nat)
    | EndEdit(t: nat)

  predicate Enabled(s: State, e: Event) {
    && e.t < |s.threads|
    && var me := s.threads[e.t];
    match e
    case Acquire(_) => me.pc == Idle && 1 <= me.held
    case HandOver(_, to) => me.pc == Idle && 1 <= me.held && to < |s.threads| && to != e.t
    case ReadItems(_) => me.pc == Idle && 1 <= me.held
    case ReadCount(_, _) => me.pc == Idle && 1 <= me.held
    case Decrement(_) => me.pc.MustDecrement?
    case Clear(_) => me.pc.Alone? || me.pc.Last?
    case Free(_) => me.pc == MustFree
    case DestroyItems(_) => me.pc == MustDestroy
    case Dealloc(_) => me.pc == MustDealloc
    case AttemptEdit(_) => me.pc == Idle && 1 <= me.held
    case WriteItems(_) => me.pc == Editing
    case EndEdit(_) => me.pc == Editing
  }

  /** The thread moves on to x. */
  function Move(s: State, t: nat, x: Thread): State
    requires t < |s.threads|
  {
    s.(threads := s.threads[t := x])
  }

  function Next(s: State, e: Event): State
    requires Enabled(s, e)
  {
    var me := s.threads[e.t];
    match e
    case Acquire(t) => Move(s, t, me.(held := me.held + 1)).(mRefs := s.mRefs + 1)
    case HandOver(t, to) =>
      Move(Move(s, t, me.(held := me.held - 1)), to, s.threads[to].(held := s.threads[to].held + 1))
    case ReadItems(_) => s
    case ReadCount(t, keep) => Move(s, t, me.(pc := if s.mRefs == 1 then Alone(keep) else MustDecrement(keep)))
    case Decrement(t) =>
      Move(s, t, Thread(if me.held == 0 then 0 else me.held - 1, if s.mRefs == 1 then Last(me.pc.keep) else Idle))
      .(mRefs := s.mRefs - 1)
    case Clear(t) =>
      Move(s, t, Thread(if me.pc.Alone? && me.held != 0 then me.held - 1 else me.held,
                        if me.pc.keep then MustDestroy else MustFree))
      .(mRefs := 0, won := s.won + 1)
    case Free(t) => Move(s, t, me.(pc := Idle)).(freed := s.freed + 1)
    case DestroyItems(t) => Move(s, t, me.(pc := MustDealloc))
    case Dealloc(t) => // dealloc refuses a block that still has references
      if s.mRefs != 0 then Move(s, t, me.(pc := Idle)) else Move(s, t, me.(pc := Idle)).(freed := s.freed + 1)
    case AttemptEdit(t) => Move(s, t, me.(pc := if s.mRefs == 1 then Editing else Idle))
    case WriteItems(_) => s
    case EndEdit(t) => Move(s, t, me.(pc := Idle))
  }

  /** The first thread has just allocated the block. */
  predicate Initial(s: State) {
    && s.mRefs == 1 && s.won == 0 && s.freed == 0 && s.threads != []
    && s.threads[0] == Thread(1, Idle)
    && forall t :: 0 < t < |s.threads| ==> s.threads[t] == Thread(0, Idle)
  }

  /** A run: states joined by events. */
  ghost predicate Run(states: seq<State>, events: seq<Event>) {
    && |states| == |events| + 1
    && Initial(states[0])
    && forall k :: 0 <= k < |events| ==> StepAt(states, events, k)
  }

  ghost predicate StepAt(states: seq<State>, events: seq<Event>, k: nat)
    requires k < |events| && |states| == |events| + 1
  {
    Enabled(states[k], events[k]) && states[k + 1] == Next(states[k], events[k])
  }

  // ----- the invariant

  function Held(threads: seq<Thread>): nat {
    if threads == [] then 0 else Held(threads[..|threads| - 1]) + threads[|threads| - 1].held
  }

  predicate Disposing(pc: Pc) {
    pc.Last? || pc.MustFree? || pc.MustDestroy? || pc.MustDealloc?
  }

  /** How many threads have to dispose of the block. */
  function Disposers(threads: seq<Thread>): nat {
    if threads == [] then 0
    else Disposers(threads[..|threads| - 1]) + if Disposing(threads[|threads| - 1].pc) then 1 else 0
  }

  /** How many of them still have to clear the count. */
  function Undecided(threads: seq<Thread>): nat {
    if threads == [] then 0
    else Undecided(threads[..|threads| - 1]) + if threads[|threads| - 1].pc.Last? then 1 else 0
  }

  predicate ThreadOk(th: Thread, total: nat) {
    match th.pc
    case MustDecrement(_) => 1 <= th.held
    case Alone(_) => th.held == 1 == total
    case Editing => th.held == 1 == total
    case _ => true
  }

  ghost predicate Inv(s: State) {
    var total := Held(s.threads);
    && s.mRefs == total
    && (forall t :: 0 <= t < |s.threads| ==> ThreadOk(s.threads[t], total))
    // while there are references nobody disposes of the block; afterwards exactly
    // one thread does, until it has freed it, once
    && Disposers(s.threads) + s.freed == (if total == 0 then 1 else 0)
    && s.won + Undecided(s.threads) == (if total == 0 then 1 else 0)
  }

  // ----- sums over threads

  lemma {:induction false} HeldUpdate(threads: seq<Thread>, t: nat, x: Thread)
    requires t < |threads|
    ensures Held(threads[t := x]) == Held(threads) - threads[t].held + x.held
  {
    var n := |threads| - 1;
    if t == n {
      assert threads[t := x][..n] == threads[..n];
    } else {
      assert threads[t := x][..n] == threads[..n][t := x];
      HeldUpdate(threads[..n], t, x);
    }
  }

  lemma {:induction false} DisposersUpdate(threads: seq<Thread>, t: nat, x: Thread)
    requires t < |threads|
    ensures Disposers(threads[t := x]) ==
            Disposers(threads) - (if Disposing(threads[t].pc) then 1 else 0) + (if Disposing(x.pc) then 1 else 0)
    ensures Undecided(threads[t := x]) ==
            Undecided(threads) - (if threads[t].pc.Last? then 1 else 0) + (if x.pc.Last? then 1 else 0)
    ensures Undecided(threads) <= Disposers(threads)
    ensures Disposing(threads[t].pc) ==> 1 <= Disposers(threads)
    ensures threads[t].pc.Last? ==> 1 <= Undecided(threads)
  {
    var n := |threads| - 1;
    UndecidedDispose(threads);
    if t == n {
      assert threads[t := x][..n] == threads[..n];
    } else {
      assert threads[t := x][..n] == threads[..n][t := x];
      DisposersUpdate(threads[..n], t, x);
    }
  }

  lemma {:induction false} UndecidedDispose(threads: seq<Thread>)
    ensures Undecided(threads) <= Disposers(threads)
  {
    if threads != [] {
      UndecidedDispose(threads[..|threads| - 1]);
    }
  }

  lemma {:induction false} TwoHolders(threads: seq<Thread>, t: nat, u: nat)
    requires t < u < |threads|
    ensures threads[t].held + threads[u].held <= Held(threads)
  {
    var n := |threads| - 1;
    if u == n {
      OneHolder(threads[..n], t);
    } else {
      TwoHolders(threads[..n], t, u);
    }
  }

  lemma {:induction false} OneHolder(threads: seq<Thread>, t: nat)
    requires t < |threads|
    ensures threads[t].held <= Held(threads)
  {
    var n := |threads| - 1;
    if t != n {
      OneHolder(threads[..n], t);
    }
  }

  /** A thread that owns all references is the only one that owns any. */
  lemma OnlyHolder(threads: seq<Thread>, t: nat)
    requires t < |threads| && threads[t].held == Held(threads)
    ensures forall u :: 0 <= u < |threads| && u != t ==> threads[u].held == 0
  {
    forall u | 0 <= u < |threads| && u != t
      ensures threads[u].held == 0
    {
      if u < t {
        TwoHolders(threads, u, t);
      } else {
        TwoHolders(threads, t, u);
      }
    }
  }

  // ----- every step keeps the invariant

  /** Changing one thread keeps the others right, if a thread that relies on being
      alone is that thread or the total stays. */
  lemma MoveKeepsOthers(s: State, t: nat, x: Thread)
    requires Inv(s) && t < |s.threads|
    requires 1 <= s.threads[t].held || Held(s.threads[t := x]) == Held(s.threads)
    ensures forall u :: 0 <= u < |s.threads| && u != t ==> ThreadOk(s.threads[u], Held(s.threads[t := x]))
  {
    forall u | 0 <= u < |s.threads| && u != t
      ensures ThreadOk(s.threads[u], Held(s.threads[t := x]))
    {
      assert ThreadOk(s.threads[u], Held(s.threads));
      if 1 <= s.threads[t].held {
        if u < t {
          TwoHolders(s.threads, u, t);
        } else {
          TwoHolders(s.threads, t, u);
        }
      }
    }
  }

  lemma MoveKeepsInv(s: State, t: nat, x: Thread)
    requires Inv(s) && t < |s.threads|
    requires 1 <= s.threads[t].held || s.threads[t].held == x.held
    requires ThreadOk(x, Held(s.threads[t := x]))
    ensures var r := s.threads[t := x];
      && Held(r) == Held(s.threads) - s.threads[t].held + x.held
      && (forall u :: 0 <= u < |r| ==> ThreadOk(r[u], Held(r)))
  {
    HeldUpdate(s.threads, t, x);
    MoveKeepsOthers(s, t, x);
  }

  lemma StepKeepsInv(s: State, e: Event)
    requires Inv(s) && Enabled(s, e)
    ensures Inv(Next(s, e))
  {
    var t := e.t;
    var me, s' := s.threads[t], Next(s, e);
    assert ThreadOk(me, Held(s.threads));
    OneHolder(s.threads, t);
    if e.HandOver? {
      HandOverKeepsInv(s, t, e.to);
    } else {
      var x := s'.threads[t];
      assert s'.threads == s.threads[t := x];
      HeldUpdate(s.threads, t, x);
      DisposersUpdate(s.threads, t, x);
      MoveKeepsInv(s, t, x);
    }
  }

  /** A thread that can give a reference away shows that no other thread is alone. */
  lemma NotAlone(s: State, t: nat, u: nat)
    requires Inv(s) && t < |s.threads| && u < |s.threads| && s.threads[t].pc == Idle && 1 <= s.threads[t].held
    ensures ThreadOk(s.threads[u], Held(s.threads)) && !s.threads[u].pc.Alone? && s.threads[u].pc != Editing
  {
    assert ThreadOk(s.threads[u], Held(s.threads));
    if u < t {
      TwoHolders(s.threads, u, t);
    } else if t < u {
      TwoHolders(s.threads, t, u);
    }
  }

  lemma HandOverCounts(threads: seq<Thread>, t: nat, to: nat)
    requires t < |threads| && to < |threads| && t != to && 1 <= threads[t].held
    ensures var r := threads[t := threads[t].(held := threads[t].held - 1)]
                            [to := threads[to].(held := threads[to].held + 1)];
      && Held(r) == Held(threads) && Disposers(r) == Disposers(threads) && Undecided(r) == Undecided(threads)
  {
    var x, y := threads[t].(held := threads[t].held - 1), threads[to].(held := threads[to].held + 1);
    var mid := threads[t := x];
    HeldUpdate(threads, t, x);
    HeldUpdate(mid, to, y);
    DisposersUpdate(threads, t, x);
    DisposersUpdate(mid, to, y);
  }

  lemma HandOverKeepsInv(s: State, t: nat, to: nat)
    requires Inv(s) && Enabled(s, HandOver(t, to))
    ensures Inv(Next(s, HandOver(t, to)))
  {
    HandOverCounts(s.threads, t, to);
    var r := Next(s, HandOver(t, to)).threads;
    forall u | 0 <= u < |r|
      ensures ThreadOk(r[u], Held(s.threads))
    {
      NotAlone(s, t, u);
      assert r[u].pc == s.threads[u].pc && (u == t || s.threads[u].held <= r[u].held);
    }
  }

  lemma {:induction false} InitialHeld(threads: seq<Thread>)
    requires threads != [] && threads[0] == Thread(1, Idle)
    requires forall t :: 0 < t < |threads| ==> threads[t] == Thread(0, Idle)
    ensures Held(threads) == 1 && Disposers(threads) == 0 && Undecided(threads) == 0
  {
    if |threads| > 1 {
      InitialHeld(threads[..|threads| - 1]);
    }
  }

  lemma {:induction false} InvInRun(states: seq<State>, events: seq<Event>, k: nat)
    requires Run(states, events) && k < |states|
    ensures Inv(states[k])
  {
    if k == 0 {
      InitialHeld(states[0].threads);
    } else {
      InvInRun(states, events, k - 1);
      assert StepAt(states, events, k - 1);
      StepKeepsInv(states[k - 1], events[k - 1]);
    }
  }

  // ----- what this means

  /** In every run, at every step: the storage has not been freed yet, whatever the
      step is. So it is freed at most once, and nothing touches it afterwards. */
  lemma NothingAfterFree(states: seq<State>, events: seq<Event>, k: nat)
    requires Run(states, events) && k < |events|
    ensures states[k].freed == 0
  {
    InvInRun(states, events, k);
    assert StepAt(states, events, k);
    var s, t := states[k], events[k].t;
    assert ThreadOk(s.threads[t], Held(s.threads));
    OneHolder(s.threads, t);
    DisposersUpdate(s.threads, t, s.threads[t]);
  }

  /** In every run, at every moment: at most one release has returned 1. When all
      references are gone and all threads are idle, exactly one has, and the
      storage has been freed exactly once. */
  lemma OneWinner(states: seq<State>, events: seq<Event>, k: nat)
    requires Run(states, events) && k < |states|
    ensures states[k].won <= 1 && states[k].freed <= states[k].won
    ensures states[k].mRefs != 0 ==> states[k].won == 0
    ensures (forall t :: 0 <= t < |states[k].threads| ==> states[k].threads[t] == Thread(0, Idle)) ==>
              states[k].won == 1 && states[k].freed == 1
  {
    InvInRun(states, events, k);
    var s := states[k];
    UndecidedDispose(s.threads);
    if forall t :: 0 <= t < |s.threads| ==> s.threads[t] == Thread(0, Idle) {
      AllIdle(s.threads);
    }
  }

  lemma {:induction false} AllIdle(threads: seq<Thread>)
    requires forall t :: 0 <= t < |threads| ==> threads[t] == Thread(0, Idle)
    ensures Held(threads) == 0 && Disposers(threads) == 0 && Undecided(threads) == 0
  {
    if threads != [] {
      AllIdle(threads[..|threads| - 1]);
    }
  }

  /** In every run: while a thread edits, it holds the one and only reference, and
      no other thread can do anything at all to the block. */
  lemma EditorIsAlone(states: seq<State>, events: seq<Event>, k: nat, t: nat)
    requires Run(states, events) && k < |states| && t < |states[k].threads|
    requires states[k].threads[t].pc == Editing
    ensures states[k].mRefs == 1 && states[k].threads[t].held == 1
    ensures forall u :: 0 <= u < |states[k].threads| && u != t ==> states[k].threads[u].held == 0
    ensures k < |events| ==> events[k].t == t
  {
    InvInRun(states, events, k);
    var s := states[k];
    assert ThreadOk(s.threads[t], Held(s.threads));
    OnlyHolder(s.threads, t);
    if k < |events| {
      assert StepAt(states, events, k);
      var u := events[k].t;
      assert ThreadOk(s.threads[u], Held(s.threads));
      DisposersUpdate(s.threads, u, s.threads[u]);
    }
  }

  // ----- what becomes of the storage, told by the events alone

  /** The flag of the last release that thread t has begun in the first k events. */
  function LastKeep(events: seq<Event>, k: nat, t: nat): Option<bool>
    requires k <= |events|
  {
    if k == 0 then None
    else if events[k - 1].ReadCount? && events[k - 1].t == t then Some(events[k - 1].keep)
    else LastKeep(events, k - 1, t)
  }

  /** Since then t has destroyed the items. */
  function HasDestroyed(events: seq<Event>, k: nat, t: nat): bool
    requires k <= |events|
  {
    if k == 0 || (events[k - 1].ReadCount? && events[k - 1].t == t) then false
    else (events[k - 1].DestroyItems? && events[k - 1].t == t) || HasDestroyed(events, k - 1, t)
  }

  predicate FlagOk(pc: Pc, keep: Option<bool>, destroyed: bool) {
    match pc
    case MustDecrement(b) => keep == Some(b)
    case Alone(b) => keep == Some(b)
    case Last(b) => keep == Some(b)
    case MustFree => keep == Some(false)
    case MustDestroy => keep == Some(true)
    case MustDealloc => keep == Some(true) && destroyed
    case _ => true
  }

  lemma {:induction false} FlagInRun(states: seq<State>, events: seq<Event>, k: nat, t: nat)
    requires Run(states, events) && k < |states| && t < |states[k].threads|
    ensures FlagOk(states[k].threads[t].pc, LastKeep(events, k, t), HasDestroyed(events, k, t))
  {
    if k == 0 {
      assert t != 0 ==> states[0].threads[t] == Thread(0, Idle);
    } else {
      assert StepAt(states, events, k - 1);
      FlagInRun(states, events, k - 1, t);
    }
  }

  /** In every run: the storage is freed by release itself only without the flag, and the
      items are destroyed and the storage deallocated only with it, in this order. */
  lemma FlagDecides(states: seq<State>, events: seq<Event>, k: nat)
    requires Run(states, events) && k < |events|
    ensures events[k].Free? ==> LastKeep(events, k, events[k].t) == Some(false)
    ensures events[k].DestroyItems? || events[k].Dealloc? ==> LastKeep(events, k, events[k].t) == Some(true)
    ensures events[k].Dealloc? ==> HasDestroyed(events, k, events[k].t)
  {
    assert StepAt(states, events, k);
    FlagInRun(states, events, k, events[k].t);
  }

  /** If every release has the flag, none frees the storage itself; if none has it, nobody
      else does. */
  lemma OneFlag(states: seq<State>, events: seq<Event>, k: nat, keep: bool)
    requires Run(states, events) && k < |events|
    requires forall i :: 0 <= i < k && events[i].ReadCount? ==> events[i].keep == keep
    ensures if keep then !events[k].Free? else !events[k].DestroyItems? && !events[k].Dealloc?
  {
    FlagDecides(states, events, k);
    KeepIsOne(events, k, events[k].t, keep);
  }

  lemma {:induction false} KeepIsOne(events: seq<Event>, k: nat, t: nat, keep: bool)
    requires k <= |events| && forall i :: 0 <= i < k && events[i].ReadCount? ==> events[i].keep == keep
    ensures LastKeep(events, k, t) in {None, Some(keep)}
  {
    if k != 0 {
      KeepIsOne(events, k - 1, t, keep);
    }
  }

  /** A thread that has destroyed the items did so in an event of its own. */
  lemma {:induction false} DestroyedBefore(events: seq<Event>, k: nat, t: nat) returns (j: nat)
    requires k <= |events| && HasDestroyed(events, k, t)
    ensures j < k && events[j] == DestroyItems(t)
    ensures forall i :: j <= i < k ==> events[i].ReadCount? ==> events[i].t != t
  {
    if events[k - 1].DestroyItems? && events[k - 1].t == t {
      j := k - 1;
    } else {
      j := DestroyedBefore(events, k - 1, t);
    }
  }

  /** How many of the first k events are of this kind. */
  function Number(events: seq<Event>, k: nat, kind: Event -> bool): nat
    requires k <= |events|
  {
    if k == 0 then 0 else Number(events, k - 1, kind) + if kind(events[k - 1]) then 1 else 0
  }

  /** How many of the first k events clear the count in a release with this flag. */
  function Cleared(events: seq<Event>, k: nat, keep: bool): nat
    requires k <= |events|
  {
    if k == 0 then 0
    else
      var e := events[k - 1];
      Cleared(events, k - 1, keep) + if e.Clear? && LastKeep(events, k - 1, e.t) == Some(keep) then 1 else 0
  }

  /** How many threads are at pc. */
  function At(threads: seq<Thread>, pc: Pc): nat {
    if threads == [] then 0
    else At(threads[..|threads| - 1], pc) + if threads[|threads| - 1].pc == pc then 1 else 0
  }

  lemma {:induction false} AtUpdate(threads: seq<Thread>, t: nat, x: Thread, pc: Pc)
    requires t < |threads|
    ensures At(threads[t := x], pc) ==
            At(threads, pc) - (if threads[t].pc == pc then 1 else 0) + (if x.pc == pc then 1 else 0)
  {
    var n := |threads| - 1;
    if t == n {
      assert threads[t := x][..n] == threads[..n];
    } else {
      assert threads[t := x][..n] == threads[..n][t := x];
      AtUpdate(threads[..n], t, x, pc);
    }
  }

  /** A step changes where its own thread is, and no other. */
  lemma AtNext(s: State, e: Event, pc: Pc)
    requires Enabled(s, e)
    ensures At(Next(s, e).threads, pc) == At(s.threads, pc) - (if s.threads[e.t].pc == pc then 1 else 0)
                                          + (if Next(s, e).threads[e.t].pc == pc then 1 else 0)
  {
    var t := e.t;
    if e.HandOver? {
      var x := s.threads[t].(held := s.threads[t].held - 1);
      AtUpdate(s.threads, t, x, pc);
      AtUpdate(s.threads[t := x], e.to, s.threads[e.to].(held := s.threads[e.to].held + 1), pc);
    } else {
      AtUpdate(s.threads, t, Next(s, e).threads[t], pc);
      assert Next(s, e).threads == s.threads[t := Next(s, e).threads[t]];
    }
  }

  lemma {:induction false} NobodyAt(threads: seq<Thread>, pc: Pc)
    requires pc != Idle && forall t :: 0 <= t < |threads| ==> threads[t].pc == Idle
    ensures At(threads, pc) == 0
  {
    if threads != [] {
      NobodyAt(threads[..|threads| - 1], pc);
    }
  }

  /** Whoever has cleared the count with the flag destroys the items and then deallocates
      the storage; whoever has done so without it frees the storage. */
  ghost predicate Balance(s: State, events: seq<Event>, k: nat)
    requires k <= |events|
  {
    && Cleared(events, k, true) == Number(events, k, (e: Event) => e.DestroyItems?) + At(s.threads, MustDestroy)
    && Number(events, k, (e: Event) => e.DestroyItems?) ==
       Number(events, k, (e: Event) => e.Dealloc?) + At(s.threads, MustDealloc)
    && Cleared(events, k, false) == Number(events, k, (e: Event) => e.Free?) + At(s.threads, MustFree)
    && s.won == Cleared(events, k, true) + Cleared(events, k, false)
  }

  lemma {:induction false} BalanceInRun(states: seq<State>, events: seq<Event>, k: nat)
    requires Run(states, events) && k < |states|
    ensures Balance(states[k], events, k)
  {
    hide LastKeep, HasDestroyed, At;
    if k == 0 {
      NobodyAt(states[0].threads, MustDestroy);
      NobodyAt(states[0].threads, MustDealloc);
      NobodyAt(states[0].threads, MustFree);
    } else {
      BalanceInRun(states, events, k - 1);
      assert StepAt(states, events, k - 1);
      FlagInRun(states, events, k - 1, events[k - 1].t);
      AtNext(states[k - 1], events[k - 1], MustDestroy);
      AtNext(states[k - 1], events[k - 1], MustDealloc);
      AtNext(states[k - 1], events[k - 1], MustFree);
    }
  }

  /** In every run that is over, the count was cleared exactly once. If that release had the
      flag, the items were destroyed and the storage deallocated once and release freed
      nothing; otherwise release freed it once and nothing else happened to it. */
  lemma WinnerDisposes(states: seq<State>, events: seq<Event>)
    requires Run(states, events)
    requires var s := states[|events|]; forall t :: 0 <= t < |s.threads| ==> s.threads[t] == Thread(0, Idle)
    ensures var n := |events|;
      var destroyed, deallocated, freed := Number(events, n, (e: Event) => e.DestroyItems?),
                                           Number(events, n, (e: Event) => e.Dealloc?),
                                           Number(events, n, (e: Event) => e.Free?);
      || (Cleared(events, n, true) == 1 && Cleared(events, n, false) == 0
          && destroyed == 1 && deallocated == 1 && freed == 0)
      || (Cleared(events, n, true) == 0 && Cleared(events, n, false) == 1
          && destroyed == 0 && deallocated == 0 && freed == 1)
  {
    var n := |events|;
    OneWinner(states, events, n);
    BalanceInRun(states, events, n);
    NobodyAt(states[n].threads, MustDestroy);
    NobodyAt(states[n].threads, MustDealloc);
    NobodyAt(states[n].threads, MustFree);
  }

  /** A run can go on with any step that is enabled. */
  lemma Extend(states: seq<State>, events: seq<Event>, e: Event, s: State)
    requires Run(states, events) && Enabled(states[|events|], e) && s == Next(states[|events|], e)
    ensures Run(states + [s], events + [e])
  {
    var longer, more := states + [s], events + [e];
    forall k | 0 <= k < |more|
      ensures StepAt(longer, more, k)
    {
      if k < |events| {
        assert StepAt(states, events, k);
      }
    }
  }

  /** Two threads have a reference each. */
  lemma BothHold() returns (states: seq<State>, events: seq<Event>)
    ensures Run(states, events) && |events| == 2
    ensures states[2] == State(2, 0, 0, [Thread(1, Idle), Thread(1, Idle)])
  {
    var s0 := State(1, 0, 0, [Thread(1, Idle), Thread(0, Idle)]);
    var s1 := State(2, 0, 0, [Thread(2, Idle), Thread(0, Idle)]);
    var s2 := State(2, 0, 0, [Thread(1, Idle), Thread(1, Idle)]);
    assert Next(s0, Acquire(0)) == s1;
    Extend([s0], [], Acquire(0), s1);
    assert Next(s1, HandOver(0, 1)) == s2;
    Extend([s0, s1], [Acquire(0)], HandOver(0, 1), s2);
    return [s0, s1] + [s2], [Acquire(0)] + [HandOver(0, 1)];
  }

  /** Each has found that it is not alone. */
  lemma BothRead() returns (states: seq<State>, events: seq<Event>)
    ensures Run(states, events) && |events| == 4
    ensures events[2] == ReadCount(0, true) && events[3] == ReadCount(1, true)
    ensures states[4] == State(2, 0, 0, [Thread(1, MustDecrement(true)), Thread(1, MustDecrement(true))])
  {
    var waiting := Thread(1, MustDecrement(true));
    var s3 := State(2, 0, 0, [waiting, Thread(1, Idle)]);
    var s4 := State(2, 0, 0, [waiting, waiting]);
    states, events := BothHold();
    assert Next(states[2], ReadCount(0, true)) == s3;
    Extend(states, events, ReadCount(0, true), s3);
    states, events := states + [s3], events + [ReadCount(0, true)];
    assert Next(states[3], ReadCount(1, true)) == s4;
    Extend(states, events, ReadCount(1, true), s4);
    states, events := states + [s4], events + [ReadCount(1, true)];
  }

  /** Both of two owners may find that they are not alone; then the decrements
      decide, and the second one returns 1. */
  lemma BothMayDecrement() returns (states: seq<State>, events: seq<Event>)
    ensures Run(states, events) && |events| == 6
    ensures events[2] == ReadCount(0, true) && events[3] == ReadCount(1, true)
    ensures states[4].threads == [Thread(1, MustDecrement(true)), Thread(1, MustDecrement(true))]
    ensures states[6].threads == [Thread(0, Idle), Thread(0, Last(true))]
  {
    var s5 := State(1, 0, 0, [Thread(0, Idle), Thread(1, MustDecrement(true))]);
    var s6 := State(0, 0, 0, [Thread(0, Idle), Thread(0, Last(true))]);
    states, events := BothRead();
    assert Next(states[4], Decrement(0)) == s5;
    Extend(states, events, Decrement(0), s5);
    states, events := states + [s5], events + [Decrement(0)];
    assert Next(states[5], Decrement(1)) == s6;
    Extend(states, events, Decrement(1), s6);
    states, events := states + [s6], events + [Decrement(1)];
  }
}
