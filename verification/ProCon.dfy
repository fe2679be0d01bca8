/**
 The producer and consumer threads of 06test_pro_con.c as a transition system:
 one step is one access to shared memory or one call on the mutex or the
 condition variable. Increment and decrement are a load and a store each.
 */
module ProCon {

  datatype Option<T> = None | Some(value: T)

  const DATA_MAX := 5
  const PRO_INIT_VAL := DATA_MAX / 2
  const CON_INIT_VAL := DATA_MAX - PRO_INIT_VAL

  datatype Thread = Nobody | Producer | Consumer

  /** Where the producer stands, pro_handler:19-30. */
  datatype ProPc = PLock | PLoad | PStore(reg: int) | PUnlock | PSignal | PDone

  /** Where the consumer stands, con_handler:40-53. Woken means it has to take the mutex again. */
  datatype ConPc = CLock | CTest | CWaiting | CWoken | CDrain | CLoad | CStore(reg: int) | CUnlock | CDone

  /** `proLeft` and `conLeft` are the loop counters; `produced` and `consumed` are the stores made so far. */
  datatype State = State(pro: ProPc, proLeft: nat, con: ConPc, conLeft: nat,
                         data: int, owner: Thread, produced: nat, consumed: nat)

  datatype Act = Pro | Con | Spurious

  function Init(p: nat, c: nat): State {
    State(PLock, p, CLock, c, CON_INIT_VAL, Nobody, 0, 0)
  }

  /** A signal wakes the consumer if it waits, and is lost otherwise. */
  function Signalled(con: ConPc): ConPc {
    if con == CWaiting then CWoken else con
  }

  function ProStep(s: State): Option<State> {
    match s.pro
    case PLock =>
      if s.proLeft == 0 then Some(s.(pro := PDone))
      else if s.owner == Nobody then Some(s.(pro := PLoad, owner := Producer))
      else None
    case PLoad => Some(s.(pro := PStore(s.data)))
    case PStore(reg) => Some(s.(pro := PUnlock, data := reg + 1, produced := s.produced + 1))
    case PUnlock => Some(s.(pro := PSignal, owner := Nobody))
    case PSignal =>
      if s.proLeft == 0 then None
      else Some(s.(pro := PLock, proLeft := s.proLeft - 1, con := Signalled(s.con)))
    case PDone => None
  }

  function ConStep(s: State): Option<State> {
    match s.con
    case CLock =>
      if s.conLeft == 0 then Some(s.(con := CDone))
      else if s.owner == Nobody then Some(s.(con := CTest, owner := Consumer))
      else None
    case CTest =>
      if s.data == 0 then Some(s.(con := CWaiting, owner := Nobody)) else Some(s.(con := CDrain))
    case CWaiting => None
    case CWoken => if s.owner == Nobody then Some(s.(con := CTest, owner := Consumer)) else None
    case CDrain => if s.data > 0 then Some(s.(con := CLoad)) else Some(s.(con := CUnlock))
    case CLoad => Some(s.(con := CStore(s.data)))
    case CStore(reg) => Some(s.(con := CDrain, data := reg - 1, consumed := s.consumed + 1))
    case CUnlock =>
      if s.conLeft == 0 then None
      else Some(s.(con := CLock, conLeft := s.conLeft - 1, owner := Nobody))
    case CDone => None
  }

  /** One step of the system. A wait on a condition variable may also end without a signal. */
  function Step(s: State, a: Act): Option<State> {
    match a
    case Pro => ProStep(s)
    case Con => ConStep(s)
    case Spurious => if s.con == CWaiting then Some(s.(con := CWoken)) else None
  }

  /** The state after the steps `acts`, if each of them is possible. */
  function Run(s: State, acts: seq<Act>): Option<State>
    decreases |acts|
  {
    if acts == [] then Some(s)
    else
      var t := Step(s, acts[0]);
      if t == None then None else Run(t.value, acts[1..])
  }

  ghost predicate Reachable(p: nat, c: nat, s: State) {
    exists acts :: Run(Init(p, c), acts) == Some(s)
  }

  // ---------- safety ----------

  predicate ProHolds(pc: ProPc) { pc.PLoad? || pc.PStore? || pc.PUnlock? }

  predicate ConHolds(pc: ConPc) { pc.CTest? || pc.CDrain? || pc.CLoad? || pc.CStore? || pc.CUnlock? }

  /** What every step keeps. */
  predicate Inv(p: nat, c: nat, s: State) {
    // The mutex is held by exactly the thread that is between lock and unlock.
    && (s.owner == Producer <==> ProHolds(s.pro))
    && (s.owner == Consumer <==> ConHolds(s.con))
    // Nobody else has changed a value that was loaded, and what is taken out is there.
    && (s.pro.PStore? ==> s.pro.reg == s.data)
    && (s.con.CStore? ==> s.con.reg == s.data)
    && s.data >= 0
    && (s.con.CLoad? || s.con.CStore? ==> s.data > 0)
    && s.consumed + s.data == CON_INIT_VAL + s.produced
    // The counters.
    && s.proLeft + s.produced == (if s.pro.PUnlock? || s.pro.PSignal? then p + 1 else p)
    && (s.pro.PLoad? || s.pro.PStore? || s.pro.PUnlock? || s.pro.PSignal? ==> s.proLeft > 0)
    && (s.pro.PDone? ==> s.proLeft == 0)
    && s.conLeft <= c
    && (s.con.CDone? ==> s.conLeft == 0)
    && (!s.con.CLock? && !s.con.CDone? ==> s.conLeft > 0)
    // Before its first round the consumer has taken nothing; each finished round took something.
    && (s.conLeft == c && !ConHolds(s.con) ==> s.consumed == 0 && !s.con.CWaiting? && !s.con.CWoken?)
    && (s.conLeft == c && s.con.CTest? ==> s.consumed == 0)
    && (s.conLeft < c ==> s.consumed >= (c - s.conLeft) + CON_INIT_VAL - 1)
    && (s.con.CDrain? || s.con.CLoad? || s.con.CStore? ==>
          s.consumed + s.data >= (c - s.conLeft) + CON_INIT_VAL)
    && (s.con.CUnlock? ==> s.data == 0 && s.consumed >= (c - s.conLeft) + CON_INIT_VAL)
    // No wakeup is lost.
    && (s.con.CWaiting? && s.data > 0 ==> s.pro.PUnlock? || s.pro.PSignal?)
  }

  lemma InvPro(p: nat, c: nat, s: State)
    requires Inv(p, c, s) && ProStep(s).Some?
    ensures Inv(p, c, ProStep(s).value)
  {
    hide ConStep, Step;
  }

  lemma InvCon(p: nat, c: nat, s: State)
    requires Inv(p, c, s) && ConStep(s).Some?
    ensures Inv(p, c, ConStep(s).value)
  {
    hide ProStep, Step;
  }

  /** Every step of either thread, and a spurious wakeup, keep the invariant. */
  lemma {:induction false} InvStep(p: nat, c: nat, s: State, a: Act)
    requires Inv(p, c, s) && Step(s, a).Some?
    ensures Inv(p, c, Step(s, a).value)
  {
    hide ProStep, ConStep;
    match a
    case Pro => InvPro(p, c, s);
    case Con => InvCon(p, c, s);
    case Spurious =>
  }

  lemma {:induction false} InvRun(p: nat, c: nat, s: State, acts: seq<Act>)
    requires Inv(p, c, s) && Run(s, acts).Some?
    ensures Inv(p, c, Run(s, acts).value)
    decreases |acts|
  {
    if acts != [] {
      InvStep(p, c, s, acts[0]);
      InvRun(p, c, Step(s, acts[0]).value, acts[1..]);
    }
  }

  /**
   In every reachable state: at most one thread is inside, nothing is lost or
   invented, and a consumer that waits although there is data has a signal coming.
   */
  lemma Safety(p: nat, c: nat, s: State)
    requires Reachable(p, c, s)
    ensures !(ProHolds(s.pro) && ConHolds(s.con))
    ensures s.data >= 0
    ensures s.consumed + s.data == 3 + s.produced
    ensures s.con == CWaiting && s.data > 0 ==> s.pro == PUnlock || s.pro == PSignal
    ensures Inv(p, c, s)
  {
    var acts :| Run(Init(p, c), acts) == Some(s);
    InvRun(p, c, Init(p, c), acts);
  }

  // ---------- where a run can end ----------

  predicate Stuck(s: State) {
    ProStep(s).None? && ConStep(s).None?
  }

  /** The threads stand still only when the producer is done, and the consumer is done or waits for data there is not. */
  lemma StuckStates(p: nat, c: nat, s: State)
    requires Reachable(p, c, s)
    ensures Stuck(s) <==> s.pro == PDone && (s.con == CDone || (s.con == CWaiting && s.data == 0))
    ensures Stuck(s) ==> s.produced == p && s.consumed + s.data == 3 + p
    ensures Stuck(s) && s.con == CWaiting ==> s.consumed == 3 + p
  {
    Safety(p, c, s);
  }

  /** A bound on the steps left that spurious wakeups do not add to. */
  function Rank(s: State): nat
    requires s.data >= 0
  {
    20 * s.proLeft + 10 * s.conLeft + 4 * s.data
    + (match s.pro case PLock => 12 case PLoad => 11 case PStore(_) => 10 case PUnlock => 5 case PSignal => 4 case PDone => 0)
    + (match s.con case CLock => 8 case CTest => 7 case CWaiting => 6 case CWoken => 8 case CDrain => 6
       case CLoad => 5 case CStore(_) => 4 case CUnlock => 3 case CDone => 0)
  }

  lemma RankPro(s: State)
    requires s.data >= 0 && ProStep(s).Some? && (s.pro.PStore? ==> s.pro.reg == s.data)
    ensures ProStep(s).value.data >= 0 && Rank(ProStep(s).value) < Rank(s)
  {
    hide ConStep;
  }

  lemma RankCon(s: State)
    requires s.data >= 0 && ConStep(s).Some? && (s.con.CStore? ==> s.con.reg == s.data > 0)
    ensures ConStep(s).value.data >= 0 && Rank(ConStep(s).value) < Rank(s)
  {
    hide ProStep;
  }

  lemma RankStep(p: nat, c: nat, s: State, a: Act)
    requires Inv(p, c, s) && a != Spurious && Step(s, a).Some?
    ensures Step(s, a).value.data >= 0 && Rank(Step(s, a).value) < Rank(s)
  {
    hide ProStep, ConStep, Rank;
    if a == Pro { RankPro(s); } else { RankCon(s); }
  }

  /** Without spurious wakeups every run from a reachable state is short. */
  lemma {:induction false} RunsAreBounded(p: nat, c: nat, s: State, acts: seq<Act>)
    requires Inv(p, c, s) && Spurious !in acts && Run(s, acts).Some?
    ensures Run(s, acts).value.data >= 0
    ensures |acts| + Rank(Run(s, acts).value) <= Rank(s)
    decreases |acts|
  {
    if acts != [] {
      hide Inv, ProStep, ConStep, Rank;
      InvStep(p, c, s, acts[0]);
      RankStep(p, c, s, acts[0]);
      RunsAreBounded(p, c, Step(s, acts[0]).value, acts[1..]);
    }
  }

  /** The program makes at most this many steps, unless spurious wakeups add to them. */
  lemma WholeRunIsBounded(p: nat, c: nat, acts: seq<Act>)
    requires Spurious !in acts && Run(Init(p, c), acts).Some?
    ensures |acts| <= 20 * p + 10 * c + 32
  {
    RunsAreBounded(p, c, Init(p, c), acts);
  }

  // ---------- does the consumer come to its end? ----------

  /** The consumer can only finish when there is something for each of its rounds. */
  lemma FinishNeedsData(p: nat, c: nat, s: State)
    requires Reachable(p, c, s) && s.con == CDone
    ensures c <= p + 1
  {
    Safety(p, c, s);
  }

  lemma {:induction false} RunConcat(s: State, a: seq<Act>, b: seq<Act>)
    requires Run(s, a).Some?
    ensures Run(s, a + b) == Run(Run(s, a).value, b)
    decreases |a|
  {
    if a == [] {
      assert a + b == b;
    } else {
      assert (a + b)[1..] == a[1..] + b;
      RunConcat(Step(s, a[0]).value, a[1..], b);
    }
  }

  lemma RunOne(s: State, a: Act)
    requires Step(s, a).Some?
    ensures Run(s, [a]) == Step(s, a)
  {
    assert [a][1..] == [];
  }

  lemma ExtendRun(p: nat, c: nat, s: State, a: Act)
    requires Reachable(p, c, s) && Step(s, a).Some?
    ensures Reachable(p, c, Step(s, a).value)
  {
    var acts :| Run(Init(p, c), acts) == Some(s);
    RunConcat(Init(p, c), acts, [a]);
    RunOne(s, a);
    assert Run(Init(p, c), acts + [a]) == Some(Step(s, a).value);
  }

  /** While the consumer stands in front of a round the producer may make one. */
  lemma ProducerRound(p: nat, c: nat, s: State)
    requires Reachable(p, c, s) && s.pro == PLock && s.proLeft > 0 && s.con == CLock && s.owner == Nobody
    ensures Reachable(p, c, s.(proLeft := s.proLeft - 1, data := s.data + 1, produced := s.produced + 1))
  {
    ExtendRun(p, c, s, Pro);
    var s1 := ProStep(s).value;
    ExtendRun(p, c, s1, Pro);
    var s2 := ProStep(s1).value;
    ExtendRun(p, c, s2, Pro);
    var s3 := ProStep(s2).value;
    ExtendRun(p, c, s3, Pro);
    var s4 := ProStep(s3).value;
    ExtendRun(p, c, s4, Pro);
    assert ProStep(s4).value == s.(proLeft := s.proLeft - 1, data := s.data + 1, produced := s.produced + 1);
  }

  /** The producer may run to its end before the consumer starts. */
  lemma {:induction false} ProducerFirst(p: nat, c: nat, k: nat)
    requires k <= p
    ensures Reachable(p, c, Init(p, c).(proLeft := p - k, data := CON_INIT_VAL + k, produced := k))
    decreases k
  {
    if k == 0 {
      assert Run(Init(p, c), []) == Some(Init(p, c));
    } else {
      ProducerFirst(p, c, k - 1);
      ProducerRound(p, c, Init(p, c).(proLeft := p - (k - 1), data := CON_INIT_VAL + (k - 1), produced := k - 1));
    }
  }

  /** A consumer that has the mutex can take everything in one round. */
  lemma {:induction false} DrainAll(p: nat, c: nat, s: State)
    requires Reachable(p, c, s) && s.con == CDrain && s.data >= 0
    ensures Reachable(p, c, s.(con := CUnlock, data := 0, consumed := s.consumed + s.data))
    decreases s.data
  {
    ExtendRun(p, c, s, Con);
    if s.data > 0 {
      var s1 := ConStep(s).value;
      ExtendRun(p, c, s1, Con);
      var s2 := ConStep(s1).value;
      ExtendRun(p, c, s2, Con);
      DrainAll(p, c, ConStep(s2).value);
    }
  }

  /** With the mutex free and data there the consumer may make a round that takes everything. */
  lemma ConsumerRound(p: nat, c: nat, s: State)
    requires Reachable(p, c, s) && s.con == CLock && s.conLeft > 0 && s.owner == Nobody && s.data > 0
    ensures Reachable(p, c, s.(conLeft := s.conLeft - 1, data := 0, consumed := s.consumed + s.data))
  {
    ExtendRun(p, c, s, Con);
    var s1 := ConStep(s).value;
    ExtendRun(p, c, s1, Con);
    var s2 := ConStep(s1).value;
    DrainAll(p, c, s2);
    var s3 := s2.(con := CUnlock, data := 0, consumed := s2.consumed + s2.data);
    ExtendRun(p, c, s3, Con);
    assert ConStep(s3).value == s.(conLeft := s.conLeft - 1, data := 0, consumed := s.consumed + s.data);
  }

  /** The threads may take turns, and every round of the consumer finds something. */
  lemma {:induction false} TakingTurns(p: nat, c: nat, k: nat)
    requires 1 <= k <= c && k <= p + 1
    ensures Reachable(p, c, State(PLock, p + 1 - k, CLock, c - k, 0, Nobody, k - 1, CON_INIT_VAL + k - 1))
    decreases k
  {
    if k == 1 {
      ProducerFirst(p, c, 0);
      ConsumerRound(p, c, Init(p, c));
    } else {
      TakingTurns(p, c, k - 1);
      var s := State(PLock, p + 2 - k, CLock, c - k + 1, 0, Nobody, k - 2, CON_INIT_VAL + k - 2);
      ProducerRound(p, c, s);
      ConsumerRound(p, c, s.(proLeft := p + 1 - k, data := 1, produced := k - 1));
    }
  }

  /** The consumer can come to its end exactly when there is data for each of its rounds. */
  lemma ConsumerCanFinishIff(p: nat, c: nat)
    ensures (exists s :: Reachable(p, c, s) && s.con == CDone) <==> c <= p + 1
  {
    if s :| Reachable(p, c, s) && s.con == CDone { FinishNeedsData(p, c, s); }
    if c <= p + 1 {
      var s := Init(p, c);
      if c == 0 {
        ProducerFirst(p, c, 0);
      } else {
        TakingTurns(p, c, c);
        s := State(PLock, p + 1 - c, CLock, 0, 0, Nobody, c - 1, CON_INIT_VAL + c - 1);
      }
      ExtendRun(p, c, s, Con);
      assert ConStep(s).value.con == CDone;
    }
  }

  /** With two rounds or more, the consumer may be left waiting for good. */
  lemma ConsumerMayHang(p: nat, c: nat) returns (s: State)
    requires c >= 2
    ensures Reachable(p, c, s) && Stuck(s) && s.con == CWaiting
  {
    ProducerFirst(p, c, p);
    s := Init(p, c).(proLeft := 0, data := CON_INIT_VAL + p, produced := p);
    ConsumerRound(p, c, s);
    s := s.(conLeft := c - 1, data := 0, consumed := s.data);
    ExtendRun(p, c, s, Pro);
    s := ProStep(s).value;
    ExtendRun(p, c, s, Con);
    s := ConStep(s).value;
    ExtendRun(p, c, s, Con);
    s := ConStep(s).value;
  }

  /** The consumer is sure to finish exactly when it makes at most one round. */
  lemma ConsumerFinishes(p: nat, c: nat)
    ensures (forall s :: Reachable(p, c, s) && Stuck(s) ==> s.con == CDone) <==> c <= 1
  {
    if c <= 1 {
      forall s | Reachable(p, c, s) && Stuck(s) ensures s.con == CDone {
        StuckStates(p, c, s);
        Safety(p, c, s);
      }
    } else {
      var s := ConsumerMayHang(p, c);
    }
  }
}
