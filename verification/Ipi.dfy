/**
 * Inter-processor interrupts: send_ipi and send_ipi_many running on any number of harts against the interrupt
 * handler of trap_vector, one memory access per step.  Machine mode is never interrupted.
 */
module Ipi {

  datatype Event = Soft | FenceI | SfenceVma

  /** One call of send_ipi_many: the event, and the harts in hart_mask that it is for. */
  datatype Call = Call(event: Event, mask: set<nat>)

  /** Where a hart stands. */
  datatype Pc =
    | Running                                              // below machine mode; an interrupt can be taken
    | Clearing                                             // mentry.S: sw x0, (ipi)
    | Swapping                                             // mentry.S: amoswap of mipi_pending
    | Acting(events: set<Event>)                           // mentry.S: the decoded causes
    | SendAt(call: Call, i: nat)                           // the sending loop, at hart i
    | StoreAt(call: Call, i: nat)                          // send_ipi, between atomic_or and the store to ipi
    | WaitAt(call: Call, i: nat, incoming: bool)           // the waiting loop, about to read the doorbell of i
    | ConsumeAt(call: Call, i: nat, incoming: bool)        // in it, about to swap its own doorbell
    | RestoreAt(incoming: bool)                            // after both loops

  /** What happened, oldest first. */
  datatype Entry = Sent(sender: nat, hart: nat, event: Event) | Taken(hart: nat) | Performed(hart: nat, events: set<Event>)

  /** The doorbells ipi, the words mipi_pending as sets of events, the harts, and the history. */
  datatype State = State(disabled: set<nat>, ipi: seq<bool>, pending: seq<set<Event>>, pcs: seq<Pc>, log: seq<Entry>)

  predicate Valid(s: State) {
    && |s.ipi| == |s.pending| == |s.pcs|
    && forall h :: 0 <= h < |s.pcs| ==> ValidPc(s.pcs[h], |s.pcs|)
  }

  predicate ValidPc(pc: Pc, n: nat) {
    match pc
    case SendAt(call, _) => ValidCall(call, n)
    case StoreAt(call, i) => ValidCall(call, n) && i < n
    case WaitAt(call, _, _) => ValidCall(call, n)
    case ConsumeAt(call, _, _) => ValidCall(call, n)
    case _ => true
  }

  predicate ValidCall(call: Call, n: nat) {
    forall i :: i in call.mask ==> i < n
  }

  /** The shifted mask is not yet zero. */
  predicate BitsLeft(call: Call, i: nat) {
    exists j :: j in call.mask && i <= j
  }

  /** What a hart below machine mode does next. */
  datatype Choice = Interrupt | Ecall(call: Call)

  predicate Enabled(s: State, h: nat, c: Choice)
    requires Valid(s)
  {
    h < |s.pcs| && (s.pcs[h].Running? ==> if c.Interrupt? then s.ipi[h] else ValidCall(c.call, |s.pcs|))
  }

  function Goto(s: State, h: nat, pc: Pc): State
    requires h < |s.pcs|
  {
    s.(pcs := s.pcs[h := pc])
  }

  /** One step of hart h; the choice matters only below machine mode. */
  function Step(s: State, h: nat, c: Choice): State
    requires Valid(s) && Enabled(s, h, c)
  {
    match s.pcs[h]
    case Running => Goto(s, h, if c.Interrupt? then Clearing else SendAt(c.call, 0))
    case Clearing => var s1 := s.(ipi := s.ipi[h := false]); Goto(s1, h, Swapping)
    case Swapping => Goto(s.(pending := s.pending[h := {}], log := s.log + [Taken(h)]), h, Acting(s.pending[h]))
    case Acting(events) => Goto(s.(log := s.log + [Performed(h, events)]), h, Running)
    case SendAt(call, i) =>
      if !BitsLeft(call, i) then Goto(s, h, if call.event.Soft? then Running else WaitAt(call, 0, false))
      else if i !in call.mask || i in s.disabled then Goto(s, h, SendAt(call, i + 1))
      else
        Goto(s.(pending := s.pending[i := s.pending[i] + {call.event}], log := s.log + [Sent(h, i, call.event)]), h, StoreAt(call, i))
    case StoreAt(call, i) => Goto(s.(ipi := s.ipi[i := true]), h, SendAt(call, i + 1))
    case WaitAt(call, i, incoming) =>
      if !BitsLeft(call, i) then Goto(s, h, RestoreAt(incoming))
      else if i in call.mask && s.ipi[i] then Goto(s, h, ConsumeAt(call, i, incoming))
      else Goto(s, h, WaitAt(call, i + 1, incoming))
    case ConsumeAt(call, i, incoming) => Goto(s.(ipi := s.ipi[h := false]), h, WaitAt(call, i, incoming || s.ipi[h]))
    case RestoreAt(incoming) => Goto(if incoming then s.(ipi := s.ipi[h := true]) else s, h, Running)
  }

  predicate Init(s: State) {
    && Valid(s) && s.log == []
    && forall h :: 0 <= h < |s.pcs| ==> s.pcs[h] == Running && !s.ipi[h] && s.pending[h] == {}
  }

  // ----- what every reachable state satisfies -----

  /** The events sent to h since its handler last took them. */
  function SinceTaken(log: seq<Entry>, h: nat): set<Event> {
    if log == [] then {}
    else
      var before := SinceTaken(log[..|log| - 1], h);
      match log[|log| - 1]
      case Sent(_, to, e) => if to == h then before + {e} else before
      case Taken(who) => if who == h then {} else before
      case Performed(_, _) => before
  }

  /** A hart in the waiting loop that has consumed its own doorbell and will restore it. */
  predicate Holding(pc: Pc) {
    match pc
    case WaitAt(_, _, incoming) => incoming
    case ConsumeAt(_, _, incoming) => incoming
    case RestoreAt(incoming) => incoming
    case _ => false
  }

  predicate RingingFor(pc: Pc, h: nat) {
    pc.StoreAt? && pc.i == h
  }

  /** Someone is about to notice what is pending for h. */
  predicate Covered(s: State, h: nat)
    requires Valid(s) && h < |s.pcs|
  {
    || s.ipi[h]
    || (exists t :: 0 <= t < |s.pcs| && RingingFor(s.pcs[t], h))
    || s.pcs[h].Swapping?
    || Holding(s.pcs[h])
  }

  /** An event sent at position i of the log is pending, in the handler's hands, or performed since. */
  predicate Accounted(s: State, i: nat)
    requires Valid(s) && i < |s.log| && s.log[i].Sent? && s.log[i].hart < |s.pcs|
  {
    || s.log[i].event in s.pending[s.log[i].hart]
    || (s.pcs[s.log[i].hart].Acting? && s.log[i].event in s.pcs[s.log[i].hart].events)
    || exists j :: i < j < |s.log| && PerformedAt(s.log[j], s.log[i].hart, s.log[i].event)
  }

  predicate PerformedAt(entry: Entry, h: nat, e: Event) {
    entry.Performed? && entry.hart == h && e in entry.events
  }

  predicate Inv(s: State) {
    && Valid(s)
    && (forall h :: 0 <= h < |s.pcs| ==> s.pending[h] == SinceTaken(s.log, h))
    && (forall h :: 0 <= h < |s.pcs| ==> s.pending[h] != {} ==> Covered(s, h))
    && (forall i :: 0 <= i < |s.log| && s.log[i].Sent? ==> s.log[i].hart < |s.pcs| && s.log[i].hart !in s.disabled && Accounted(s, i))
  }

  lemma InitInv(s: State)
    requires Init(s)
    ensures Inv(s)
  {
  }

  lemma StepValid(s: State, h: nat, c: Choice)
    requires Valid(s) && Enabled(s, h, c)
    ensures Valid(Step(s, h, c)) && |Step(s, h, c).pcs| == |s.pcs| && Step(s, h, c).disabled == s.disabled
  {
  }

  lemma LogAppend(log: seq<Entry>, entry: Entry, h: nat)
    ensures SinceTaken(log + [entry], h)
            == if entry.hart != h || entry.Performed? then SinceTaken(log, h)
               else if entry.Taken? then {} else SinceTaken(log, h) + {entry.event}
  {
    assert (log + [entry])[..|log|] == log;
  }

  lemma StepPending(s: State, h: nat, c: Choice)
    requires Inv(s) && Enabled(s, h, c)
    ensures Valid(Step(s, h, c))
    ensures forall k :: 0 <= k < |s.pcs| ==> Step(s, h, c).pending[k] == SinceTaken(Step(s, h, c).log, k)
  {
    StepValid(s, h, c);
    var s' := Step(s, h, c);
    forall k | 0 <= k < |s.pcs| ensures s'.pending[k] == SinceTaken(s'.log, k) {
      if |s'.log| > |s.log| { LogAppend(s.log, s'.log[|s.log|], k); }
    }
  }

  /** The doorbell of h is rung, or someone stands ready to ring it or to look, after every step too. */
  lemma StepCovered(s: State, h: nat, c: Choice, k: nat)
    requires Inv(s) && Enabled(s, h, c) && k < |s.pcs|
    requires Valid(Step(s, h, c)) && Step(s, h, c).pending[k] != {}
    ensures Covered(Step(s, h, c), k)
  {
    var s' := Step(s, h, c);
    if s.pending[k] == {} {
      // only an atomic_or adds events, and its hart goes on to ring
      assert RingingFor(s'.pcs[h], k);
    } else if !s.ipi[k] && !s.pcs[k].Swapping? && !Holding(s.pcs[k]) {
      var t :| 0 <= t < |s.pcs| && RingingFor(s.pcs[t], k);
      if t != h { assert RingingFor(s'.pcs[t], k); }
    }
  }

  /** No step loses an event that was accounted for. */
  lemma StepAccounted(s: State, h: nat, c: Choice, i: nat)
    requires Inv(s) && Enabled(s, h, c)
    requires Valid(Step(s, h, c)) && i < |Step(s, h, c).log| && Step(s, h, c).log[i].Sent?
    ensures Step(s, h, c).log[i].hart < |s.pcs| && Step(s, h, c).log[i].hart !in s.disabled
    ensures Accounted(Step(s, h, c), i)
  {
    var s' := Step(s, h, c);
    if i < |s.log| {
      assert s'.log[i] == s.log[i];
      var k, e := s.log[i].hart, s.log[i].event;
      assert Accounted(s, i);
      if exists j :: i < j < |s.log| && PerformedAt(s.log[j], k, e) {
        var j :| i < j < |s.log| && PerformedAt(s.log[j], k, e);
        assert s'.log[j] == s.log[j];
      } else if s.pcs[k].Acting? && e in s.pcs[k].events && k == h {
        assert PerformedAt(s'.log[|s.log|], k, e);
      }
    }
  }

  lemma StepInv(s: State, h: nat, c: Choice)
    requires Inv(s) && Enabled(s, h, c)
    ensures Inv(Step(s, h, c))
  {
    StepValid(s, h, c);
    StepPending(s, h, c);
    var s' := Step(s, h, c);
    forall k | 0 <= k < |s'.pcs| && s'.pending[k] != {} ensures Covered(s', k) {
      StepCovered(s, h, c, k);
    }
    forall i | 0 <= i < |s'.log| && s'.log[i].Sent?
      ensures s'.log[i].hart < |s'.pcs| && s'.log[i].hart !in s'.disabled && Accounted(s', i)
    {
      StepAccounted(s, h, c, i);
    }
    hide Step, Covered, Accounted, SinceTaken;
  }

  // ----- runs -----

  ghost predicate Next(s: State, s': State)
    requires Valid(s)
  {
    exists h: nat, c: Choice :: Enabled(s, h, c) && s' == Step(s, h, c)
  }

  /** Any interleaving of the harts, from any initial state. */
  ghost predicate IsRun(run: seq<State>) {
    && run != [] && Init(run[0])
    && forall k :: 0 <= k < |run| - 1 ==> Valid(run[k]) && Next(run[k], run[k + 1])
  }

  /** In every reachable state nothing that was sent is lost. */
  lemma {:induction false} RunInv(run: seq<State>, k: nat)
    requires IsRun(run) && k < |run|
    ensures Inv(run[k])
  {
    hide Inv, Step, Enabled, Init, Valid;
    if k == 0 {
      InitInv(run[0]);
    } else {
      RunInv(run, k - 1);
      assert Next(run[k - 1], run[k - 1 + 1]);
      var h: nat, c: Choice :| Enabled(run[k - 1], h, c) && run[k] == Step(run[k - 1], h, c);
      StepInv(run[k - 1], h, c);
    }
  }

  /** Out of machine mode, with nothing to take. */
  predicate Idle(s: State, h: nat)
    requires Valid(s) && h < |s.pcs|
  {
    s.pcs[h].Running? && !s.ipi[h]
  }

  predicate Quiet(s: State)
    requires Valid(s)
  {
    forall h :: 0 <= h < |s.pcs| ==> Idle(s, h)
  }

  predicate AllPerformed(s: State) {
    forall i :: 0 <= i < |s.log| && s.log[i].Sent? ==> PerformedLater(s.log, i)
  }

  predicate PerformedLater(log: seq<Entry>, i: nat)
    requires i < |log| && log[i].Sent?
  {
    exists j :: i < j < |log| && PerformedAt(log[j], log[i].hart, log[i].event)
  }

  /** Once every hart is out of machine mode and no doorbell is rung, every event ever sent has been performed. */
  lemma QuietMeansDone(s: State)
    requires Inv(s) && Quiet(s)
    ensures AllPerformed(s)
  {
    forall i | 0 <= i < |s.log| && s.log[i].Sent? ensures PerformedLater(s.log, i) {
      var h := s.log[i].hart;
      assert Accounted(s, i) && Idle(s, h);
      forall t | 0 <= t < |s.pcs| ensures s.pcs[t].Running? { assert Idle(s, t); }
      assert !Covered(s, h);
    }
  }

  // ----- the doorbell one waits for -----

  /** How many steps of its own hart h may still make before it has to clear its doorbell. */
  function Distance(pc: Pc, n: nat): nat {
    match pc
    case Clearing => 1
    case Running => 2
    case RestoreAt(_) => 3
    case WaitAt(_, i, _) => 4 + if i < n then n - i else 0
    case ConsumeAt(_, i, _) => 1
    case SendAt(_, i) => 10 + n + 2 * (if i < n then n - i else 0)
    case StoreAt(_, i) => 9 + n + 2 * (if i < n then n - i else 0)
    case Acting(_) => 3
    case Swapping => 4
  }

  /** A hart whose doorbell is rung clears it within Distance steps of its own. */
  lemma OwnProgress(s: State, h: nat)
    requires Valid(s) && h < |s.pcs| && s.ipi[h]
    ensures Enabled(s, h, Interrupt)
    ensures
      var s' := Step(s, h, Interrupt);
      s'.pcs != [] && h < |s'.ipi| && h < |s'.pcs|
      && (!s'.ipi[h] || Distance(s'.pcs[h], |s.pcs|) < Distance(s.pcs[h], |s.pcs|))
  {
    match s.pcs[h]
    case WaitAt(call, i, _) =>
      if BitsLeft(call, i) {
        var j :| j in call.mask && i <= j;
        assert i < |s.pcs|;
      }
    case SendAt(call, i) =>
      if BitsLeft(call, i) {
        var j :| j in call.mask && i <= j;
        assert i < |s.pcs|;
      }
    case _ =>
  }

  /** What the other harts do neither moves hart h nor silences its doorbell. */
  lemma OthersKeepIt(s: State, h: nat, t: nat, c: Choice)
    requires Valid(s) && h < |s.pcs| && t != h && Enabled(s, t, c)
    ensures
      var s' := Step(s, t, c);
      h < |s'.pcs| && h < |s'.ipi| && s'.pcs[h] == s.pcs[h] && (s.ipi[h] ==> s'.ipi[h])
  {
  }

  /** A schedule: which hart steps, and what it chooses below machine mode. */
  datatype Turn = Turn(hart: nat, choice: Choice)

  predicate Possible(s: State, turns: seq<Turn>)
    requires Valid(s)
    decreases |turns|
  {
    turns == [] || (Enabled(s, turns[0].hart, turns[0].choice) && (StepValid(s, turns[0].hart, turns[0].choice);
                    Possible(Step(s, turns[0].hart, turns[0].choice), turns[1..])))
  }

  function OwnTurns(turns: seq<Turn>, h: nat): nat {
    if turns == [] then 0 else (if turns[0].hart == h then 1 else 0) + OwnTurns(turns[1..], h)
  }

  /** At some moment of the schedule the doorbell of h is clear. */
  predicate ClearedDuring(s: State, turns: seq<Turn>, h: nat)
    requires Valid(s) && h < |s.pcs| && Possible(s, turns)
    decreases |turns|
  {
    !s.ipi[h]
    || (turns != [] && (StepValid(s, turns[0].hart, turns[0].choice);
        ClearedDuring(Step(s, turns[0].hart, turns[0].choice), turns[1..], h)))
  }

  /**
   * Under every schedule that gives h its Distance steps, and in which h takes its interrupt as soon as it leaves
   * machine mode, there is a moment at which the doorbell of h is clear.  A sender that looks at other moments can
   * still miss it while others keep ringing; what happens once no new calls are made is below.
   */
  lemma {:induction false} DoorbellClears(s: State, turns: seq<Turn>, h: nat)
    requires Valid(s) && h < |s.pcs| && Possible(s, turns)
    requires forall k :: 0 <= k < |turns| && turns[k].hart == h ==> turns[k].choice.Interrupt?
    requires Distance(s.pcs[h], |s.pcs|) <= OwnTurns(turns, h)
    ensures ClearedDuring(s, turns, h)
    decreases |turns|
  {
    if s.ipi[h] && turns != [] {
      var t := turns[0];
      StepValid(s, t.hart, t.choice);
      var s' := Step(s, t.hart, t.choice);
      assert forall k :: 0 <= k < |turns[1..]| ==> turns[1..][k] == turns[k + 1];
      if t.hart == h {
        OwnProgress(s, h);
        if s'.ipi[h] { DoorbellClears(s', turns[1..], h); }
      } else {
        OthersKeepIt(s, h, t.hart, t.choice);
        DoorbellClears(s', turns[1..], h);
      }
      hide Step, Distance;
    }
  }

  // ----- every call returns -----

  function Left(i: nat, n: nat): nat {
    if i < n then n - i else 0
  }

  /** What a hart still has to do; ringing the doorbell of a hart adds at most five to what that hart has to do. */
  function Rank(pc: Pc, bell: bool, n: nat): nat {
    match pc
    case Running => if bell then 5 else 0
    case Clearing => 4
    case Swapping => if bell then 8 else 3
    case Acting(_) => if bell then 7 else 2
    case RestoreAt(_) => 6 + if bell then 2 else 0
    case ConsumeAt(_, i, _) => 7 + Left(i, n) + if bell then 1 else 0
    case WaitAt(_, i, _) => 7 + Left(i, n) + if bell then 2 else 0
    case StoreAt(_, i) => 8 + n + 7 * Left(i, n) + if bell then 2 else 0
    case SendAt(_, i) => 9 + n + 7 * Left(i, n) + if bell then 2 else 0
  }

  function Ranks(s: State): (r: seq<nat>)
    requires Valid(s)
    ensures |r| == |s.pcs| && forall h :: 0 <= h < |r| ==> r[h] == Rank(s.pcs[h], s.ipi[h], |s.pcs|)
  {
    seq(|s.pcs|, h requires 0 <= h < |s.pcs| => Rank(s.pcs[h], s.ipi[h], |s.pcs|))
  }

  function Sum(r: seq<nat>): nat {
    if r == [] then 0 else Sum(r[..|r| - 1]) + r[|r| - 1]
  }

  function Potential(s: State): nat
    requires Valid(s)
  {
    Sum(Ranks(s))
  }

  lemma {:induction false} SumAtMost(r: seq<nat>, c: nat)
    requires forall k :: 0 <= k < |r| ==> r[k] <= c
    ensures Sum(r) <= |r| * c
  {
    if r != [] {
      var m := |r| - 1;
      SumAtMost(r[..m], c);
      assert (m + 1) * c == m * c + c;
    }
  }

  lemma {:induction false} SumZero(r: seq<nat>, k: nat)
    requires k < |r|
    ensures r[k] <= Sum(r)
  {
    if k < |r| - 1 { SumZero(r[..|r| - 1], k); }
  }

  /** Two entries changed. */
  lemma {:induction false} SumChanged(r: seq<nat>, r': seq<nat>, h: nat, t: nat)
    requires |r| == |r'| && h < |r| && t < |r|
    requires forall k :: 0 <= k < |r| && k != h && k != t ==> r'[k] == r[k]
    ensures Sum(r') + r[h] + (if t == h then 0 else r[t]) == Sum(r) + r'[h] + (if t == h then 0 else r'[t])
  {
    var m := |r| - 1;
    var p, p' := r[..m], r'[..m];
    if h < m && t < m {
      SumChanged(p, p', h, t);
    } else if h < m {
      SumChanged(p, p', h, h);
    } else if t < m {
      SumChanged(p, p', t, t);
    } else {
      assert p == p';
    }
  }

  /** How many rounds of turns are enough for n harts. */
  function RoundsNeeded(n: nat): nat {
    n * (8 * n + 11)
  }

  lemma PotentialBound(s: State)
    requires Valid(s)
    ensures Potential(s) <= RoundsNeeded(|s.pcs|)
  {
    SumAtMost(Ranks(s), 8 * |s.pcs| + 11);
  }

  /** A turn of h without new calls: it takes its interrupt, or goes on in machine mode, or has nothing to do. */
  function Advance(s: State, h: nat): (s': State)
    requires Valid(s) && h < |s.pcs|
    ensures Valid(s') && |s'.pcs| == |s.pcs|
  {
    if Idle(s, h) then s else (StepValid(s, h, Interrupt); Step(s, h, Interrupt))
  }

  /** In the waiting loop with its own doorbell clear, at a hart whose doorbell is rung. */
  predicate Blocked(s: State, h: nat)
    requires Valid(s) && h < |s.pcs|
  {
    !s.ipi[h] &&
    match s.pcs[h]
    case WaitAt(call, i, _) => i in call.mask && s.ipi[i]
    case ConsumeAt(call, i, _) => i in call.mask && s.ipi[i]
    case _ => false
  }

  predicate Moving(s: State, h: nat)
    requires Valid(s) && h < |s.pcs|
  {
    !Idle(s, h) && !Blocked(s, h)
  }

  /** Unless everything is quiet, some hart is not blocked: the one a blocked hart waits for. */
  lemma SomeoneMoving(s: State) returns (m: nat)
    requires Valid(s) && !Quiet(s)
    ensures m < |s.pcs| && Moving(s, m)
  {
    m :| m < |s.pcs| && !Idle(s, m);
    if Blocked(s, m) {
      m := s.pcs[m].i;
    }
  }

  /** How a turn of h changes the ranks: its own goes down, unless it is blocked or sees its doorbell clear. */
  lemma OwnRank(s: State, h: nat)
    requires Valid(s) && h < |s.pcs| && !s.pcs[h].StoreAt?
    ensures forall k :: 0 <= k < |s.pcs| && k != h ==> Ranks(Advance(s, h))[k] == Ranks(s)[k]
    ensures Ranks(Advance(s, h))[h] <= Ranks(s)[h]
    ensures Ranks(Advance(s, h))[h] < Ranks(s)[h] || Advance(s, h).ipi == s.ipi
    ensures Moving(s, h) && !(s.pcs[h].ConsumeAt? && !s.ipi[h]) ==> Ranks(Advance(s, h))[h] < Ranks(s)[h]
  {
    match s.pcs[h]
    case SendAt(call, i) => MaskInRange(call, i, |s.pcs|);
    case WaitAt(call, i, _) => MaskInRange(call, i, |s.pcs|);
    case _ =>
  }

  lemma MaskInRange(call: Call, i: nat, n: nat)
    requires ValidCall(call, n)
    ensures BitsLeft(call, i) ==> i < n
    ensures i in call.mask ==> BitsLeft(call, i)
  {
  }

  /** The store of send_ipi: its hart gains more than the one it rings loses. */
  lemma RingingRanks(s: State, h: nat)
    requires Valid(s) && h < |s.pcs| && s.pcs[h].StoreAt?
    ensures
      var t, r, r' := s.pcs[h].i, Ranks(s), Ranks(Advance(s, h));
      && t < |s.pcs| && (forall k :: 0 <= k < |s.pcs| && k != h && k != t ==> r'[k] == r[k])
      && r'[h] + 4 <= r[h] && (t != h ==> r'[h] + 6 == r[h] && r'[t] <= r[t] + 5)
  {
  }

  /** No turn adds to the work left. */
  lemma AdvancePotential(s: State, h: nat)
    requires Valid(s) && h < |s.pcs|
    ensures Potential(Advance(s, h)) <= Potential(s)
    ensures Potential(Advance(s, h)) < Potential(s) || Advance(s, h).ipi == s.ipi
    ensures Moving(s, h) && !(s.pcs[h].ConsumeAt? && !s.ipi[h]) ==> Potential(Advance(s, h)) < Potential(s)
  {
    var t := h;
    if s.pcs[h].StoreAt? {
      RingingRanks(s, h);
      t := s.pcs[h].i;
    } else {
      OwnRank(s, h);
    }
    hide Ranks, Advance, Sum;
    SumChanged(Ranks(s), Ranks(Advance(s, h)), h, t);
  }

  /** A hart that is not blocked stays so until its own turn, or some work has been done. */
  lemma StaysMoving(s: State, t: nat, m: nat)
    requires Valid(s) && t < |s.pcs| && m < |s.pcs| && Moving(s, m)
    ensures
      var s' := Advance(s, t);
      || Potential(s') < Potential(s)
      || (Moving(s', m) && if t == m then s.pcs[m].ConsumeAt? && !s'.pcs[m].ConsumeAt? else s'.pcs[m] == s.pcs[m])
  {
    AdvancePotential(s, t);
    hide Potential;
  }

  /** The turns of a schedule, by hart. */
  function TurnsOf(order: seq<nat>, h: nat): nat {
    if order == [] then 0 else (if order[0] == h then 1 else 0) + TurnsOf(order[1..], h)
  }

  predicate InRange(order: seq<nat>, n: nat) {
    forall k :: 0 <= k < |order| ==> order[k] < n
  }

  function RunTurns(s: State, order: seq<nat>): (s': State)
    requires Valid(s) && InRange(order, |s.pcs|)
    ensures Valid(s') && |s'.pcs| == |s.pcs|
    decreases |order|
  {
    if order == [] then s else RunTurns(Advance(s, order[0]), order[1..])
  }

  lemma {:induction false} TurnsPotential(s: State, order: seq<nat>)
    requires Valid(s) && InRange(order, |s.pcs|)
    ensures Potential(RunTurns(s, order)) <= Potential(s)
    decreases |order|
  {
    if order != [] {
      AdvancePotential(s, order[0]);
      TurnsPotential(Advance(s, order[0]), order[1..]);
      hide Advance, Potential;
    }
  }

  lemma {:induction false} TurnsWork(s: State, order: seq<nat>, m: nat)
    requires Valid(s) && InRange(order, |s.pcs|) && m < |s.pcs| && Moving(s, m)
    requires TurnsOf(order, m) >= if s.pcs[m].ConsumeAt? then 2 else 1
    ensures Potential(RunTurns(s, order)) < Potential(s)
    decreases |order|
  {
    var s' := Advance(s, order[0]);
    AdvancePotential(s, order[0]);
    StaysMoving(s, order[0], m);
    hide Advance, Potential, Moving;
    if Potential(s') < Potential(s) {
      TurnsPotential(s', order[1..]);
    } else {
      TurnsWork(s', order[1..], m);
    }
  }

  /** Every hart gets two turns, in whatever order. */
  predicate FairRound(order: seq<nat>, n: nat) {
    InRange(order, n) && forall h :: 0 <= h < n ==> TurnsOf(order, h) >= 2
  }

  predicate Fair(rounds: seq<seq<nat>>, n: nat) {
    forall k :: 0 <= k < |rounds| ==> FairRound(rounds[k], n)
  }

  function RunRounds(s: State, rounds: seq<seq<nat>>): (s': State)
    requires Valid(s) && Fair(rounds, |s.pcs|)
    ensures Valid(s') && |s'.pcs| == |s.pcs|
    decreases |rounds|
  {
    if rounds == [] then s else RunRounds(RunTurns(s, rounds[0]), rounds[1..])
  }

  lemma {:induction false} RoundsWork(s: State, rounds: seq<seq<nat>>)
    requires Valid(s) && Fair(rounds, |s.pcs|) && Potential(s) <= |rounds|
    ensures Quiet(RunRounds(s, rounds))
    decreases |rounds|
  {
    if Potential(s) == 0 { NoWorkLeft(s); }
    if rounds != [] {
      assert FairRound(rounds[0], |s.pcs|);
      TurnsPotential(s, rounds[0]);
      if !Quiet(s) {
        var m := SomeoneMoving(s);
        TurnsWork(s, rounds[0], m);
      } else {
        QuietPotential(s);
      }
      hide Potential, RunTurns, Quiet;
      RoundsWork(RunTurns(s, rounds[0]), rounds[1..]);
    }
  }

  lemma NoWorkLeft(s: State)
    requires Valid(s) && Potential(s) == 0
    ensures Quiet(s)
  {
    forall h | 0 <= h < |s.pcs| ensures Idle(s, h) { SumZero(Ranks(s), h); }
  }

  lemma QuietPotential(s: State)
    requires Valid(s) && Quiet(s)
    ensures Potential(s) == 0
  {
    forall h | 0 <= h < |s.pcs| ensures Ranks(s)[h] == 0 { assert Idle(s, h); }
    SumAtMost(Ranks(s), 0);
  }

  /**
   * Once no new calls are made every call returns: whatever state the system is in, after so many rounds of fair
   * turns all harts are out of machine mode and no doorbell is rung.
   */
  lemma EveryCallReturns(s: State, rounds: seq<seq<nat>>)
    requires Valid(s) && Fair(rounds, |s.pcs|) && RoundsNeeded(|s.pcs|) <= |rounds|
    ensures Quiet(RunRounds(s, rounds))
  {
    PotentialBound(s);
    RoundsWork(s, rounds);
    hide Potential, RunRounds;
  }

  lemma AdvanceInv(s: State, h: nat)
    requires Inv(s) && h < |s.pcs|
    ensures Inv(Advance(s, h))
  {
    assert Valid(s);
    hide Inv, Step;
    if !Idle(s, h) { StepInv(s, h, Interrupt); }
  }

  lemma {:induction false} TurnsInv(s: State, order: seq<nat>)
    requires Inv(s) && InRange(order, |s.pcs|)
    ensures Inv(RunTurns(s, order))
    decreases |order|
  {
    if order != [] {
      AdvanceInv(s, order[0]);
      TurnsInv(Advance(s, order[0]), order[1..]);
      hide Inv, Advance;
    }
  }

  lemma {:induction false} RoundsInv(s: State, rounds: seq<seq<nat>>)
    requires Inv(s) && Fair(rounds, |s.pcs|)
    ensures Inv(RunRounds(s, rounds))
    decreases |rounds|
  {
    if rounds != [] {
      assert FairRound(rounds[0], |s.pcs|);
      TurnsInv(s, rounds[0]);
      RoundsInv(RunTurns(s, rounds[0]), rounds[1..]);
      hide Inv, RunTurns;
    }
  }

  /** From any reachable state: when new calls stop, after those rounds every event ever sent has been performed. */
  lemma EveryEventPerformed(run: seq<State>, k: nat, rounds: seq<seq<nat>>)
    requires IsRun(run) && k < |run|
    requires Fair(rounds, |run[k].pcs|) && RoundsNeeded(|run[k].pcs|) <= |rounds|
    ensures Valid(run[k]) && AllPerformed(RunRounds(run[k], rounds))
  {
    RunInv(run, k);
    EveryCallReturns(run[k], rounds);
    RoundsInv(run[k], rounds);
    QuietMeansDone(RunRounds(run[k], rounds));
  }

  // ----- what one call does -----

  predicate Sending(pc: Pc) { pc.SendAt? || pc.StoreAt? }

  predicate SentTo(log: seq<Entry>, from: nat, h: nat, x: nat, e: Event) {
    exists j :: from <= j < |log| && log[j] == Sent(h, x, e)
  }

  /**
   * What h has sent since position from of the log: the event of the call, once and in order, to every enabled hart
   * of its mask below bound, and nothing else.
   */
  predicate SentExactly(log: seq<Entry>, from: nat, h: nat, call: Call, disabled: set<nat>, bound: nat) {
    && (forall x :: x in call.mask && x !in disabled && x < bound ==> SentTo(log, from, h, x, call.event))
    && (forall j :: from <= j < |log| && SentBy(log[j], h) ==>
          log[j].event == call.event && log[j].hart in call.mask && log[j].hart !in disabled && log[j].hart < bound)
    && (forall i, j :: from <= i < j < |log| && SentBy(log[i], h) && SentBy(log[j], h) ==> log[i].hart < log[j].hart)
  }

  predicate SentBy(entry: Entry, h: nat) { entry.Sent? && entry.sender == h }

  lemma OthersSend(log: seq<Entry>, entry: Entry, from: nat, h: nat, call: Call, disabled: set<nat>, bound: nat)
    requires from <= |log| && SentExactly(log, from, h, call, disabled, bound) && !SentBy(entry, h)
    ensures SentExactly(log + [entry], from, h, call, disabled, bound)
  {
    var log' := log + [entry];
    forall x | x in call.mask && x !in disabled && x < bound ensures SentTo(log', from, h, x, call.event) {
      SentBefore(log, log', from, h, x, call.event);
    }
  }

  lemma SentBefore(log: seq<Entry>, log': seq<Entry>, from: nat, h: nat, x: nat, e: Event)
    requires log <= log' && SentTo(log, from, h, x, e)
    ensures SentTo(log', from, h, x, e)
  {
    var j :| from <= j < |log| && log[j] == Sent(h, x, e);
    assert log'[j] == Sent(h, x, e);
  }

  lemma OneMoreSent(log: seq<Entry>, from: nat, h: nat, call: Call, disabled: set<nat>, i: nat)
    requires from <= |log| && SentExactly(log, from, h, call, disabled, i) && i in call.mask && i !in disabled
    ensures SentExactly(log + [Sent(h, i, call.event)], from, h, call, disabled, i + 1)
  {
    var log' := log + [Sent(h, i, call.event)];
    forall x | x in call.mask && x !in disabled && x < i + 1 ensures SentTo(log', from, h, x, call.event) {
      if x < i {
        SentBefore(log, log', from, h, x, call.event);
      } else {
        assert log'[|log|] == Sent(h, x, call.event);
      }
    }
  }

  /**
   * Where hart h stands in a call it made when the log had length from; seen are the harts whose doorbell was clear at
   * some moment after the last send.
   */
  predicate CallState(s: State, from: nat, h: nat, call: Call, seen: set<nat>)
    requires Valid(s) && h < |s.pcs|
  {
    from <= |s.log| &&
    match s.pcs[h]
    case SendAt(c, i) => c == call && SentExactly(s.log, from, h, call, s.disabled, i)
    case StoreAt(c, i) => c == call && SentExactly(s.log, from, h, call, s.disabled, i + 1)
    case WaitAt(c, i, _) => c == call && Waited(s, from, h, call, seen, i)
    case ConsumeAt(c, i, _) => c == call && Waited(s, from, h, call, seen, i)
    case RestoreAt(_) => Waited(s, from, h, call, seen, |s.pcs|)
    case Running => SentExactly(s.log, from, h, call, s.disabled, |s.pcs|) && (call.event.Soft? || call.mask <= seen)
    case _ => false
  }

  predicate Waited(s: State, from: nat, h: nat, call: Call, seen: set<nat>, i: nat) {
    && !call.event.Soft?
    && SentExactly(s.log, from, h, call, s.disabled, |s.pcs|)
    && forall x :: x in call.mask && x < i ==> x in seen
  }

  lemma CallBegins(s: State, h: nat, call: Call)
    requires Valid(s) && h < |s.pcs| && s.pcs[h].Running? && ValidCall(call, |s.pcs|)
    ensures
      var s' := Step(s, h, Ecall(call));
      Valid(s') && h < |s'.pcs| && s'.log == s.log && CallState(s', |s.log|, h, call, {}) && !s'.pcs[h].Running?
  {
    StepValid(s, h, Ecall(call));
  }

  /** Any step of any hart takes the call further and loses nothing of it. */
  lemma CallStep(s: State, t: nat, c: Choice, from: nat, h: nat, call: Call, seen: set<nat>, seen': set<nat>)
    requires Valid(s) && Enabled(s, t, c) && h < |s.pcs| && ValidCall(call, |s.pcs|)
    requires CallState(s, from, h, call, seen) && !s.pcs[h].Running? && seen <= seen'
    requires !Sending(s.pcs[h]) ==> forall x :: x in call.mask && !s.ipi[x] ==> x in seen'
    ensures Valid(Step(s, t, c)) && CallState(Step(s, t, c), from, h, call, seen')
  {
    StepValid(s, t, c);
    if t == h {
      OwnCallStep(s, c, from, h, call, seen, seen');
    } else {
      OthersCallStep(s, t, c, from, h, call, seen, seen');
    }
  }

  lemma OthersCallStep(s: State, t: nat, c: Choice, from: nat, h: nat, call: Call, seen: set<nat>, seen': set<nat>)
    requires Valid(s) && Enabled(s, t, c) && h < |s.pcs| && t != h
    requires CallState(s, from, h, call, seen) && !s.pcs[h].Running? && seen <= seen' && Valid(Step(s, t, c))
    ensures CallState(Step(s, t, c), from, h, call, seen')
  {
    var s' := Step(s, t, c);
    forall bound | SentExactly(s.log, from, h, call, s.disabled, bound)
      ensures SentExactly(s'.log, from, h, call, s.disabled, bound)
    {
      if s'.log != s.log { OthersSend(s.log, s'.log[|s.log|], from, h, call, s.disabled, bound); }
    }
    hide SentExactly, SentTo;
  }

  lemma OwnCallStep(s: State, c: Choice, from: nat, h: nat, call: Call, seen: set<nat>, seen': set<nat>)
    requires Valid(s) && Enabled(s, h, c) && h < |s.pcs| && ValidCall(call, |s.pcs|)
    requires CallState(s, from, h, call, seen) && !s.pcs[h].Running? && seen <= seen' && Valid(Step(s, h, c))
    requires !Sending(s.pcs[h]) ==> forall x :: x in call.mask && !s.ipi[x] ==> x in seen'
    ensures CallState(Step(s, h, c), from, h, call, seen')
  {
    match s.pcs[h]
    case SendAt(_, i) =>
      MaskInRange(call, i, |s.pcs|);
      if !BitsLeft(call, i) {
        NoneLeft(s.log, from, h, call, s.disabled, i, |s.pcs|);
      } else if i !in call.mask || i in s.disabled {
        NotSent(s.log, from, h, call, s.disabled, i);
      } else {
        OneMoreSent(s.log, from, h, call, s.disabled, i);
      }
      hide SentExactly;
    case WaitAt(_, i, _) =>
      MaskInRange(call, i, |s.pcs|);
      hide SentExactly;
    case _ =>
      hide SentExactly;
  }

  lemma NoneLeft(log: seq<Entry>, from: nat, h: nat, call: Call, disabled: set<nat>, i: nat, n: nat)
    requires SentExactly(log, from, h, call, disabled, i) && !BitsLeft(call, i) && ValidCall(call, n)
    ensures SentExactly(log, from, h, call, disabled, n)
  {
  }

  lemma NotSent(log: seq<Entry>, from: nat, h: nat, call: Call, disabled: set<nat>, i: nat)
    requires SentExactly(log, from, h, call, disabled, i) && (i !in call.mask || i in disabled)
    ensures SentExactly(log, from, h, call, disabled, i + 1)
  {
  }

  /** A call of hart h in a run: made at state k, back below machine mode at state end. */
  ghost predicate IsCall(run: seq<State>, k: nat, end: nat, h: nat, call: Call) {
    && IsRun(run) && k < end < |run| && Valid(run[k])
    && h < |run[k].pcs| && run[k].pcs[h].Running? && ValidCall(call, |run[k].pcs|)
    && run[k + 1] == Step(run[k], h, Ecall(call))
    && (forall m :: k < m < end ==> h < |run[m].pcs| && !run[m].pcs[h].Running?)
    && h < |run[end].pcs| && run[end].pcs[h].Running?
  }

  /** Between states k and m, with its sends behind it, hart h could see the doorbell of x clear. */
  ghost predicate SawClear(run: seq<State>, k: nat, m: nat, h: nat, x: nat) {
    exists p :: k < p < m && ClearAt(run, p, h, x)
  }

  predicate ClearAt(run: seq<State>, p: nat, h: nat, x: nat) {
    p < |run| && h < |run[p].pcs| && x < |run[p].ipi| && !Sending(run[p].pcs[h]) && !run[p].ipi[x]
  }

  ghost function Seen(run: seq<State>, k: nat, m: nat, h: nat, n: nat): set<nat> {
    set x: nat | x < n && SawClear(run, k, m, h, x)
  }

  /** What a run has of a call up to state m. */
  ghost predicate CalledUpTo(run: seq<State>, k: nat, h: nat, call: Call, m: nat) {
    && k < m < |run| && Valid(run[m]) && |run[m].pcs| == |run[k].pcs| && run[m].disabled == run[k].disabled
    && h < |run[m].pcs|
    && CallState(run[m], |run[k].log|, h, call, Seen(run, k, m, h, |run[k].pcs|))
  }

  lemma {:induction false} CallProgress(run: seq<State>, k: nat, end: nat, h: nat, call: Call, m: nat)
    requires IsCall(run, k, end, h, call) && k < m <= end
    ensures CalledUpTo(run, k, h, call, m)
    decreases m
  {
    hide CalledUpTo;
    if m == k + 1 {
      CallFirst(run, k, end, h, call);
    } else {
      CallProgress(run, k, end, h, call, m - 1);
      CallFurther(run, k, end, h, call, m);
    }
  }

  lemma CallFirst(run: seq<State>, k: nat, end: nat, h: nat, call: Call)
    requires IsCall(run, k, end, h, call)
    ensures CalledUpTo(run, k, h, call, k + 1)
  {
    assert Seen(run, k, k + 1, h, |run[k].pcs|) == {};
    assert Valid(run[k]) && ValidCall(call, |run[k].pcs|) && h < |run[k].pcs| && run[k].pcs[h].Running?;
    assert run[k + 1] == Step(run[k], h, Ecall(call)) && k + 1 < |run|;
    hide CallState, Seen, IsCall, ValidPc, ValidCall;
    StepValid(run[k], h, Ecall(call));
    CallBegins(run[k], h, call);
    hide Step;
  }

  lemma CallFurther(run: seq<State>, k: nat, end: nat, h: nat, call: Call, m: nat)
    requires IsCall(run, k, end, h, call) && k + 1 < m <= end && CalledUpTo(run, k, h, call, m - 1)
    ensures CalledUpTo(run, k, h, call, m)
  {
    assert Next(run[m - 1], run[m - 1 + 1]);
    assert ValidCall(call, |run[k].pcs|) && !run[m - 1].pcs[h].Running? && m < |run|;
    hide IsCall, CallState, Next, Sending, Seen;
    var s, s', n := run[m - 1], run[m], |run[k].pcs|;
    assert |s.ipi| == n;
    SeenGrows(run, k, m, h, n);
    CallNext(s, s', |run[k].log|, h, call, Seen(run, k, m - 1, h, n), Seen(run, k, m, h, n));
  }

  lemma CallNext(s: State, s': State, from: nat, h: nat, call: Call, seen: set<nat>, seen': set<nat>)
    requires Valid(s) && Next(s, s') && h < |s.pcs| && ValidCall(call, |s.pcs|)
    requires CallState(s, from, h, call, seen) && !s.pcs[h].Running? && seen <= seen'
    requires !Sending(s.pcs[h]) ==> forall x :: x in call.mask && !s.ipi[x] ==> x in seen'
    ensures Valid(s') && |s'.pcs| == |s.pcs| && s'.disabled == s.disabled && CallState(s', from, h, call, seen')
  {
    hide CallState, Step;
    var t: nat, c: Choice :| Enabled(s, t, c) && s' == Step(s, t, c);
    StepValid(s, t, c);
    CallStep(s, t, c, from, h, call, seen, seen');
  }

  lemma SeenGrows(run: seq<State>, k: nat, m: nat, h: nat, n: nat)
    requires k < m - 1 < |run| && h < |run[m - 1].pcs| && |run[m - 1].ipi| == n
    ensures Seen(run, k, m - 1, h, n) <= Seen(run, k, m, h, n)
    ensures !Sending(run[m - 1].pcs[h]) ==> forall x :: 0 <= x < n && !run[m - 1].ipi[x] ==> x in Seen(run, k, m, h, n)
  {
    forall x | x in Seen(run, k, m - 1, h, n) ensures SawClear(run, k, m, h, x) {
      var p :| k < p < m - 1 && ClearAt(run, p, h, x);
    }
    if !Sending(run[m - 1].pcs[h]) {
      forall x: nat | x < n && !run[m - 1].ipi[x] ensures SawClear(run, k, m, h, x) {
        assert ClearAt(run, m - 1, h, x);
      }
    }
  }

  /** At state p the doorbell of x is clear and the log holds all that the call has to send. */
  ghost predicate ClearAfterSends(run: seq<State>, k: nat, p: nat, h: nat, call: Call, x: nat) {
    && k < p < |run| && x < |run[p].ipi| && !run[p].ipi[x]
    && SentExactly(run[p].log, |run[k].log|, h, call, run[k].disabled, |run[k].pcs|)
  }

  lemma ClearWhileWaiting(run: seq<State>, k: nat, p: nat, h: nat, call: Call, x: nat)
    requires CalledUpTo(run, k, h, call, p) && ClearAt(run, p, h, x)
    ensures ClearAfterSends(run, k, p, h, call, x)
  {
    hide SentExactly, Seen;
  }

  /**
   * A call sends its event to exactly the enabled harts of its mask, to each once.  It returns only after it could see
   * the doorbell of every hart of its mask clear, after its last send; only a software interrupt is not waited for.
   */
  lemma CallContract(run: seq<State>, k: nat, end: nat, h: nat, call: Call)
    requires IsCall(run, k, end, h, call)
    ensures SentExactly(run[end].log, |run[k].log|, h, call, run[k].disabled, |run[k].pcs|)
    ensures !call.event.Soft? ==> forall x :: x in call.mask ==> exists p :: k < p < end && ClearAfterSends(run, k, p, h, call, x)
  {
    CallProgress(run, k, end, h, call, end);
    EndOfCall(run, k, end, h, call);
    if !call.event.Soft? {
      forall x | x in call.mask ensures exists p :: k < p < end && ClearAfterSends(run, k, p, h, call, x) {
        var p :| k < p < end && ClearAt(run, p, h, x);
        CallProgress(run, k, end, h, call, p);
        ClearWhileWaiting(run, k, p, h, call, x);
      }
    }
    hide SentExactly, SawClear, ClearAfterSends, ClearAt;
  }

  lemma EndOfCall(run: seq<State>, k: nat, end: nat, h: nat, call: Call)
    requires CalledUpTo(run, k, h, call, end) && run[end].pcs[h].Running?
    ensures SentExactly(run[end].log, |run[k].log|, h, call, run[k].disabled, |run[k].pcs|)
    ensures !call.event.Soft? ==> forall x :: x in call.mask ==> SawClear(run, k, end, h, x)
  {
    hide SentExactly, SawClear;
  }

  // ----- a call is carried out -----

  /** The call is under way, or all it had to send is in the log. */
  predicate Delivering(s: State, from: nat, h: nat, call: Call)
    requires Valid(s) && h < |s.pcs|
  {
    || (CallState(s, from, h, call, call.mask) && !s.pcs[h].Running?)
    || AllSent(s, from, h, call)
  }

  predicate AllSent(s: State, from: nat, h: nat, call: Call) {
    from <= |s.log| && forall x :: x in call.mask && x !in s.disabled ==> SentTo(s.log, from, h, x, call.event)
  }

  lemma LogGrows(s: State, h: nat)
    requires Valid(s) && h < |s.pcs|
    ensures s.log <= Advance(s, h).log && Advance(s, h).disabled == s.disabled
  {
  }

  lemma AdvanceDelivers(s: State, t: nat, from: nat, h: nat, call: Call)
    requires Valid(s) && t < |s.pcs| && h < |s.pcs| && ValidCall(call, |s.pcs|) && Delivering(s, from, h, call)
    ensures Delivering(Advance(s, t), from, h, call)
  {
    var s' := Advance(s, t);
    LogGrows(s, t);
    if AllSent(s, from, h, call) {
      forall x | x in call.mask && x !in s.disabled ensures SentTo(s'.log, from, h, x, call.event) {
        SentBefore(s.log, s'.log, from, h, x, call.event);
      }
      assert AllSent(s', from, h, call);
    } else if !Idle(s, t) {
      CallStep(s, t, Interrupt, from, h, call, call.mask, call.mask);
      if s'.pcs[h].Running? { assert AllSent(s', from, h, call); }
      hide SentExactly;
    }
  }

  lemma {:induction false} TurnsDeliver(s: State, order: seq<nat>, from: nat, h: nat, call: Call)
    requires Valid(s) && InRange(order, |s.pcs|) && h < |s.pcs| && ValidCall(call, |s.pcs|) && Delivering(s, from, h, call)
    ensures Delivering(RunTurns(s, order), from, h, call)
    decreases |order|
  {
    if order != [] {
      AdvanceDelivers(s, order[0], from, h, call);
      TurnsDeliver(Advance(s, order[0]), order[1..], from, h, call);
      hide Delivering, Advance;
    }
  }

  lemma {:induction false} RoundsDeliver(s: State, rounds: seq<seq<nat>>, from: nat, h: nat, call: Call)
    requires Valid(s) && Fair(rounds, |s.pcs|) && h < |s.pcs| && ValidCall(call, |s.pcs|) && Delivering(s, from, h, call)
    ensures Delivering(RunRounds(s, rounds), from, h, call)
    decreases |rounds|
  {
    if rounds != [] {
      assert FairRound(rounds[0], |s.pcs|);
      TurnsDeliver(s, rounds[0], from, h, call);
      RoundsDeliver(RunTurns(s, rounds[0]), rounds[1..], from, h, call);
      hide Delivering, RunTurns;
    }
  }

  predicate PerformedSince(log: seq<Entry>, from: nat, x: nat, e: Event) {
    exists p :: from <= p < |log| && PerformedAt(log[p], x, e)
  }

  /**
   * From any reachable state: when h makes a call and no other calls follow, after those rounds every enabled hart of
   * its mask has performed the event, and everybody is back below machine mode.
   */
  lemma CallCarriedOut(run: seq<State>, k: nat, h: nat, call: Call, rounds: seq<seq<nat>>)
    requires IsRun(run) && k < |run| && Valid(run[k]) && h < |run[k].pcs|
    requires run[k].pcs[h].Running? && ValidCall(call, |run[k].pcs|)
    requires Fair(rounds, |run[k].pcs|) && RoundsNeeded(|run[k].pcs|) <= |rounds|
    ensures
      var s := Step(run[k], h, Ecall(call));
      && Valid(s) && |s.pcs| == |run[k].pcs| && Quiet(RunRounds(s, rounds))
      && forall x :: x in call.mask && x !in run[k].disabled ==>
           PerformedSince(RunRounds(s, rounds).log, |run[k].log|, x, call.event)
  {
    RunInv(run, k);
    CarriedOut(run[k], h, call, rounds);
    hide Inv, Step, IsRun, PerformedSince, Fair, RunRounds, Quiet, RoundsNeeded;
  }

  lemma CarriedOut(s0: State, h: nat, call: Call, rounds: seq<seq<nat>>)
    requires Inv(s0) && h < |s0.pcs| && s0.pcs[h].Running? && ValidCall(call, |s0.pcs|)
    requires Fair(rounds, |s0.pcs|) && RoundsNeeded(|s0.pcs|) <= |rounds|
    ensures
      var s := Step(s0, h, Ecall(call));
      && Valid(s) && |s.pcs| == |s0.pcs| && Quiet(RunRounds(s, rounds))
      && forall x :: x in call.mask && x !in s0.disabled ==> PerformedSince(RunRounds(s, rounds).log, |s0.log|, x, call.event)
  {
    assert Valid(s0) && Enabled(s0, h, Ecall(call));
    hide Inv, Step, PerformedSince, Fair, RunRounds, Delivering, Quiet, ValidCall, Valid, Enabled, RoundsNeeded;
    AfterCall(s0, h, call);
    var s := Step(s0, h, Ecall(call));
    RoundsCarryOut(s, rounds, |s0.log|, h, call);
    assert s.disabled == s0.disabled && |s.pcs| == |s0.pcs|;
  }

  lemma AfterCall(s: State, h: nat, call: Call)
    requires Inv(s) && h < |s.pcs| && s.pcs[h].Running? && ValidCall(call, |s.pcs|)
    ensures
      var s' := Step(s, h, Ecall(call));
      Valid(s') && Inv(s') && |s'.pcs| == |s.pcs| && s'.disabled == s.disabled && Delivering(s', |s.log|, h, call)
  {
    assert Enabled(s, h, Ecall(call));
    hide Inv, Step, CallState, Delivering;
    StepInv(s, h, Ecall(call));
    CallBegins(s, h, call);
    StepValid(s, h, Ecall(call));
    StartsDelivering(Step(s, h, Ecall(call)), |s.log|, h, call);
  }

  lemma RoundsCarryOut(s: State, rounds: seq<seq<nat>>, from: nat, h: nat, call: Call)
    requires Inv(s) && h < |s.pcs| && ValidCall(call, |s.pcs|) && Delivering(s, from, h, call)
    requires Fair(rounds, |s.pcs|) && RoundsNeeded(|s.pcs|) <= |rounds|
    ensures Quiet(RunRounds(s, rounds))
    ensures forall x :: x in call.mask && x !in s.disabled ==> PerformedSince(RunRounds(s, rounds).log, from, x, call.event)
  {
    assert Valid(s);
    hide Inv, Fair, Valid, Delivering, Quiet, RunRounds, PerformedSince, AllPerformed, RoundsNeeded;
    EveryCallReturns(s, rounds);
    RoundsInv(s, rounds);
    RoundsDeliver(s, rounds, from, h, call);
    RoundsDisabled(s, rounds);
    QuietMeansDone(RunRounds(s, rounds));
    SentThenPerformed(RunRounds(s, rounds), from, h, call);
  }

  lemma StartsDelivering(s: State, from: nat, h: nat, call: Call)
    requires Valid(s) && h < |s.pcs| && CallState(s, from, h, call, {}) && !s.pcs[h].Running?
    ensures Delivering(s, from, h, call)
  {
    hide SentExactly;
  }

  lemma SentThenPerformed(s: State, from: nat, h: nat, call: Call)
    requires Valid(s) && h < |s.pcs| && Delivering(s, from, h, call) && Quiet(s) && AllPerformed(s)
    ensures forall x :: x in call.mask && x !in s.disabled ==> PerformedSince(s.log, from, x, call.event)
  {
    assert Idle(s, h);
    forall x | x in call.mask && x !in s.disabled ensures PerformedSince(s.log, from, x, call.event) {
      assert SentTo(s.log, from, h, x, call.event);
      var i :| from <= i < |s.log| && s.log[i] == Sent(h, x, call.event);
      assert PerformedLater(s.log, i);
    }
  }

  lemma {:induction false} TurnsDisabled(s: State, order: seq<nat>)
    requires Valid(s) && InRange(order, |s.pcs|)
    ensures RunTurns(s, order).disabled == s.disabled
    decreases |order|
  {
    if order != [] {
      LogGrows(s, order[0]);
      TurnsDisabled(Advance(s, order[0]), order[1..]);
      hide Advance;
    }
  }

  lemma {:induction false} RoundsDisabled(s: State, rounds: seq<seq<nat>>)
    requires Valid(s) && Fair(rounds, |s.pcs|)
    ensures RunRounds(s, rounds).disabled == s.disabled
    decreases |rounds|
  {
    if rounds != [] {
      assert FairRound(rounds[0], |s.pcs|);
      TurnsDisabled(s, rounds[0]);
      RoundsDisabled(RunTurns(s, rounds[0]), rounds[1..]);
      hide RunTurns;
    }
  }

  // ----- nothing is performed that was not sent -----

  /** The events taken are those sent to h and not taken since. */
  lemma {:induction false} SinceTakenMeaning(log: seq<Entry>, h: nat, e: Event)
    ensures e in SinceTaken(log, h)
            <==> exists j :: 0 <= j < |log| && log[j].Sent? && log[j].hart == h && log[j].event == e && NoneTaken(log, j, h)
  {
    if log != [] {
      var m := |log| - 1;
      var before := log[..m];
      SinceTakenMeaning(before, h, e);
      if e in SinceTaken(before, h) && log[m] != Taken(h) {
        var j :| 0 <= j < m && before[j].Sent? && before[j].hart == h && before[j].event == e && NoneTaken(before, j, h);
        assert log[j] == before[j] && NoneTaken(log, j, h);
      }
      if log[m].Sent? && log[m].hart == h && log[m].event == e { assert NoneTaken(log, m, h); }
      forall j | 0 <= j < m && log[j].Sent? && log[j].hart == h && log[j].event == e && NoneTaken(log, j, h)
        ensures e in SinceTaken(before, h) && log[m] != Taken(h)
      {
        assert before[j] == log[j] && NoneTaken(before, j, h);
      }
    }
  }

  predicate NoneTaken(log: seq<Entry>, j: nat, h: nat) {
    forall r :: j < r < |log| ==> log[r] != Taken(h)
  }

  /** At position q of the log h took exactly these events, and up to p it has done nothing about them. */
  predicate InHand(log: seq<Entry>, q: nat, p: nat, h: nat, events: set<Event>) {
    && q < p <= |log| && log[q] == Taken(h) && events == SinceTaken(log[..q], h)
    && forall r :: q < r < p ==> log[r] != Taken(h) && !(log[r].Performed? && log[r].hart == h)
  }

  ghost predicate Justified(log: seq<Entry>, p: nat)
    requires p < |log| && log[p].Performed?
  {
    exists q :: InHand(log, q, p, log[p].hart, log[p].events)
  }

  ghost predicate Sound(s: State) {
    && Valid(s)
    && (forall h :: 0 <= h < |s.pcs| && s.pcs[h].Acting? ==> exists q :: InHand(s.log, q, |s.log|, h, s.pcs[h].events))
    && forall p :: 0 <= p < |s.log| && s.log[p].Performed? ==> Justified(s.log, p)
  }

  lemma InHandStays(log: seq<Entry>, entry: Entry, q: nat, p: nat, h: nat, events: set<Event>)
    requires InHand(log, q, p, h, events)
    ensures InHand(log + [entry], q, p, h, events)
    ensures p == |log| && entry != Taken(h) && !(entry.Performed? && entry.hart == h) ==> InHand(log + [entry], q, p + 1, h, events)
  {
    assert (log + [entry])[..q] == log[..q];
  }

  lemma StepInHand(s: State, t: nat, c: Choice, h: nat)
    requires Inv(s) && Sound(s) && Enabled(s, t, c) && Valid(Step(s, t, c))
    requires h < |Step(s, t, c).pcs| && Step(s, t, c).pcs[h].Acting?
    ensures exists q :: InHand(Step(s, t, c).log, q, |Step(s, t, c).log|, h, Step(s, t, c).pcs[h].events)
  {
    var s' := Step(s, t, c);
    assert s.pending[h] == SinceTaken(s.log, h);
    hide Inv, SinceTaken;
    if h != t {
      assert s.pcs[h] == s'.pcs[h];
      var q :| InHand(s.log, q, |s.log|, h, s.pcs[h].events);
      hide InHand;
      if s'.log != s.log { InHandStays(s.log, s'.log[|s.log|], q, |s.log|, h, s.pcs[h].events); }
      assert InHand(s'.log, q, |s'.log|, h, s'.pcs[h].events);
    } else {
      assert s.pcs[h].Swapping?;
      assert s'.log == s.log + [Taken(h)] && s'.pcs[h].events == s.pending[h];
      assert s'.log[..|s.log|] == s.log;
      assert InHand(s'.log, |s.log|, |s'.log|, h, s'.pcs[h].events);
    }
  }

  lemma StepJustified(s: State, t: nat, c: Choice, p: nat)
    requires Inv(s) && Sound(s) && Enabled(s, t, c)
    requires p < |Step(s, t, c).log| && Step(s, t, c).log[p].Performed?
    ensures Justified(Step(s, t, c).log, p)
  {
    var s' := Step(s, t, c);
    hide SinceTaken, InHand;
    if p < |s.log| {
      assert s'.log[p] == s.log[p] && Justified(s.log, p);
      var q :| InHand(s.log, q, p, s.log[p].hart, s.log[p].events);
      if s'.log != s.log { InHandStays(s.log, s'.log[|s.log|], q, p, s.log[p].hart, s.log[p].events); }
      assert InHand(s'.log, q, p, s.log[p].hart, s.log[p].events);
    } else {
      var q :| InHand(s.log, q, |s.log|, t, s.pcs[t].events);
      InHandStays(s.log, s'.log[p], q, p, t, s.pcs[t].events);
      assert InHand(s'.log, q, p, t, s.pcs[t].events);
    }
  }

  lemma StepSound(s: State, t: nat, c: Choice)
    requires Inv(s) && Sound(s) && Enabled(s, t, c)
    ensures Sound(Step(s, t, c))
  {
    StepValid(s, t, c);
    var s' := Step(s, t, c);
    forall h | 0 <= h < |s'.pcs| && s'.pcs[h].Acting? ensures exists q :: InHand(s'.log, q, |s'.log|, h, s'.pcs[h].events) {
      StepInHand(s, t, c, h);
    }
    forall p | 0 <= p < |s'.log| && s'.log[p].Performed? ensures Justified(s'.log, p) { StepJustified(s, t, c, p); }
    hide Step, Inv, InHand, Justified;
  }

  /** In every run each batch of events performed is exactly one batch taken, and no batch is performed twice. */
  lemma {:induction false} RunSound(run: seq<State>, k: nat)
    requires IsRun(run) && k < |run|
    ensures Sound(run[k])
  {
    hide Inv, Step, Enabled, Sound;
    if k == 0 {
      StartSound(run[0]);
    } else {
      RunSound(run, k - 1);
      RunInv(run, k - 1);
      assert Next(run[k - 1], run[k - 1 + 1]);
      var h: nat, c: Choice :| Enabled(run[k - 1], h, c) && run[k] == Step(run[k - 1], h, c);
      StepSound(run[k - 1], h, c);
    }
  }

  lemma StartSound(s: State)
    requires Init(s)
    ensures Sound(s)
  {
  }
}
