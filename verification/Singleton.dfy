/**
 `Singleton::init`, `get` and `get_mut` of `kernel/src/utils/singleton.rs` as a step system: any number
 of callers, each with a program counter, interleaved arbitrarily, over sequentially consistent memory.
 Each element of `pcs` is one call, so a caller that calls again is a further element.
 */
module Singletons {
  import opened Machine

  const UNINIT: nat := 0
  const INITING: nat := 1
  const INITED: nat := 2

  /** Where a call is: before it starts, at the compare-exchange, in the spin loop, about to write the
      default value, about to publish it, at the closing assertion, or back with a reference to `seen`. */
  datatype Pc<T> =
    | Idle | CompareExchange | Spin | WriteData | Publish | FinalLoad | Returned(seen: Option<T>) | AssertFailed

  /** `writes` is the history of values written to the cell. */
  datatype State<T> = State(inited: nat, data: Option<T>, pcs: seq<Pc<T>>, writes: seq<T>)

  // ---------- the code ----------

  datatype CasResult = Ok(was: nat) | Err(was: nat)

  function CasOf(cur: nat): CasResult {
    if cur == UNINIT then Ok(cur) else Err(cur)
  }

  /** The arms of the `match`, in source order. */
  datatype Arm = OkArm | InitedArm | UninitArm | InitingArm | OtherArm

  function ArmOf(r: CasResult): Arm {
    match r
    case Ok(_) => OkArm
    case Err(was) =>
      if was == INITED then InitedArm
      else if was == UNINIT then UninitArm
      else if was == INITING then InitingArm
      else OtherArm
  }

  /** One atomic step of call `t`; `v` is what `T::default()` yields if it is evaluated here. */
  function Next<T>(s: State<T>, t: nat, v: T): State<T>
    requires t < |s.pcs|
  {
    match s.pcs[t]
    case Idle => s.(pcs := s.pcs[t := CompareExchange])
    case CompareExchange =>
      (match ArmOf(CasOf(s.inited))
       case OkArm => s.(inited := INITING, pcs := s.pcs[t := WriteData])
       case InitedArm => s.(pcs := s.pcs[t := FinalLoad])
       case UninitArm => s
       case InitingArm => s.(pcs := s.pcs[t := Spin])
       case OtherArm => s.(pcs := s.pcs[t := WriteData]))
    case Spin => if s.inited == INITING then s else s.(pcs := s.pcs[t := CompareExchange])
    case WriteData => s.(data := Some(v), writes := s.writes + [v], pcs := s.pcs[t := Publish])
    case Publish => s.(inited := INITED, pcs := s.pcs[t := CompareExchange])
    case FinalLoad => s.(pcs := s.pcs[t := if s.inited == INITED then Returned(s.data) else AssertFailed])
    case Returned(_) => s
    case AssertFailed => s
  }

  function Start<T>(n: nat): State<T> {
    State(UNINIT, None, seq(n, _ => Idle), [])
  }

  /** Which call moves next, and the value a default evaluated there would have. */
  datatype Turn<T> = Turn(call: nat, fallback: T)

  predicate Schedulable<T>(n: nat, sched: seq<Turn<T>>) {
    forall i :: 0 <= i < |sched| ==> sched[i].call < n
  }

  function Exec<T>(s: State<T>, sched: seq<Turn<T>>): (s': State<T>)
    requires Schedulable(|s.pcs|, sched)
    ensures |s'.pcs| == |s.pcs|
    decreases |sched|
  {
    if sched == [] then s
    else Exec(Next(s, sched[0].call, sched[0].fallback), sched[1..])
  }

  // ---------- safety ----------

  /** Between the successful compare-exchange and the store that publishes. */
  predicate InCritical<T>(pc: Pc<T>) {
    pc.WriteData? || pc.Publish?
  }

  /** What each program counter knows about the shared state. */
  ghost predicate PcOk<T>(s: State<T>, pc: Pc<T>) {
    match pc
    case Idle => true
    case CompareExchange => true
    case Spin => s.inited != UNINIT
    case WriteData => s.inited == INITING && s.writes == []
    case Publish => s.inited == INITING && |s.writes| == 1
    case FinalLoad => s.inited == INITED
    case Returned(seen) => s.inited == INITED && seen == s.data
    case AssertFailed => false
  }

  ghost predicate Inv<T>(s: State<T>) {
    && s.inited <= INITED
    && (forall t :: 0 <= t < |s.pcs| ==> PcOk(s, s.pcs[t]))
    && (forall t, u :: 0 <= t < |s.pcs| && 0 <= u < |s.pcs| && InCritical(s.pcs[t]) && InCritical(s.pcs[u]) ==> t == u)
    && (s.inited == INITING ==> exists t :: 0 <= t < |s.pcs| && InCritical(s.pcs[t]))
    && (s.inited == UNINIT ==> s.writes == [])
    && (s.inited == INITED ==> |s.writes| == 1)
    && s.data == (if s.writes == [] then None else Some(s.writes[|s.writes| - 1]))
  }

  lemma StartInv<T>(n: nat)
    ensures Inv<T>(Start(n))
  {
  }

  /** What call `u` knows is still true after a step of any call. */
  lemma StepKeepsPcOk<T>(s: State<T>, t: nat, v: T, u: nat)
    requires Inv(s) && t < |s.pcs| && u < |s.pcs|
    ensures PcOk(Next(s, t, v), Next(s, t, v).pcs[u])
  {
    assert PcOk(s, s.pcs[t]) && PcOk(s, s.pcs[u]);
  }

  lemma StepKeepsInv<T>(s: State<T>, t: nat, v: T)
    requires Inv(s) && t < |s.pcs|
    ensures Inv(Next(s, t, v))
  {
    var s' := Next(s, t, v);
    assert PcOk(s, s.pcs[t]);
    if s.inited == INITING {
      var u :| 0 <= u < |s.pcs| && InCritical(s.pcs[u]);
      assert PcOk(s, s.pcs[u]);
      if s'.inited == INITING {
        assert InCritical(s'.pcs[u]);
      }
    } else if s'.inited == INITING {
      assert InCritical(s'.pcs[t]);
    }
    forall u | 0 <= u < |s'.pcs|
      ensures PcOk(s', s'.pcs[u])
    {
      StepKeepsPcOk(s, t, v, u);
    }
  }

  /** The flag moves by single steps upwards, and what is written is never taken back. */
  lemma StepIsMonotone<T>(s: State<T>, t: nat, v: T)
    requires Inv(s) && t < |s.pcs|
    ensures s.inited <= Next(s, t, v).inited <= s.inited + 1
    ensures s.writes <= Next(s, t, v).writes
  {
    assert PcOk(s, s.pcs[t]);
  }

  lemma {:induction false} ExecKeepsInv<T>(s: State<T>, sched: seq<Turn<T>>)
    requires Inv(s) && Schedulable(|s.pcs|, sched)
    ensures Inv(Exec(s, sched))
    ensures s.inited <= Exec(s, sched).inited && s.writes <= Exec(s, sched).writes
    decreases |sched|
  {
    if sched != [] {
      StepKeepsInv(s, sched[0].call, sched[0].fallback);
      StepIsMonotone(s, sched[0].call, sched[0].fallback);
      ExecKeepsInv(Next(s, sched[0].call, sched[0].fallback), sched[1..]);
    }
  }

  /** Any number of calls, any interleaving: at most one call is between its compare-exchange and its
      store, the default is written at most once, every call that has returned holds that one value, the
      closing assertion never fails, and the two arms without a use are never taken. */
  lemma InitialisesOnce<T>(n: nat, sched: seq<Turn<T>>)
    requires Schedulable(n, sched)
    ensures var s := Exec(Start(n), sched);
            && s.inited <= INITED && |s.writes| <= 1
            && (forall t, u :: 0 <= t < n && 0 <= u < n && InCritical(s.pcs[t]) && InCritical(s.pcs[u]) ==> t == u)
            && (forall t :: 0 <= t < n ==> !s.pcs[t].AssertFailed?)
            && (forall t :: 0 <= t < n && s.pcs[t].Returned? ==>
                              s.inited == INITED && |s.writes| == 1 && s.pcs[t].seen == Some(s.writes[0]))
            && (forall t :: 0 <= t < n && s.pcs[t].CompareExchange? ==>
                              ArmOf(CasOf(s.inited)) !in {UninitArm, OtherArm})
  {
    StartInv<T>(n);
    ExecKeepsInv(Start(n), sched);
    var s := Exec(Start(n), sched);
    forall t | 0 <= t < n
      ensures PcOk(s, s.pcs[t])
    {
    }
    assert |s.writes| <= 1 by {
      if s.inited == INITING {
        var u :| 0 <= u < |s.pcs| && InCritical(s.pcs[u]);
        assert PcOk(s, s.pcs[u]);
      }
    }
  }

  // ---------- refinement ----------

  /** The specification: a cell that is set once, in one step, and callers that are answered from it. */
  datatype Once<T> = Once(cell: Option<T>, answers: seq<Option<T>>)

  ghost predicate OnceStep<T>(a: Once<T>, b: Once<T>) {
    || b == a
    || (a.cell == None && b.cell.Some? && b.answers == a.answers)
    || (exists t :: 0 <= t < |a.answers| && a.cell.Some? && a.answers[t] == None
                    && b == a.(answers := a.answers[t := a.cell]))
  }

  function Answer<T>(pc: Pc<T>): Option<T> {
    if pc.Returned? then pc.seen else None
  }

  function Abstract<T>(s: State<T>): Once<T> {
    Once(if s.inited == INITED then s.data else None,
         seq(|s.pcs|, t requires 0 <= t < |s.pcs| => Answer(s.pcs[t])))
  }

  /** Every step of every call is one step of the specification, or none. */
  lemma StepRefines<T>(s: State<T>, t: nat, v: T)
    requires Inv(s) && t < |s.pcs|
    ensures OnceStep(Abstract(s), Abstract(Next(s, t, v)))
  {
    var s' := Next(s, t, v);
    var a, b := Abstract(s), Abstract(s');
    assert PcOk(s, s.pcs[t]);
    if s.pcs[t].Publish? {
      assert b.answers == a.answers;
      assert b == a.(cell := Some(s.data.value));
    } else if s.pcs[t].FinalLoad? {
      assert b.answers == a.answers[t := a.cell];
      assert a.answers[t] == None;
      assert b == a.(answers := a.answers[t := a.cell]);
    } else {
      assert b.answers == a.answers;
      assert b == a;
    }
  }

  /** Hence every run of the code shows a run of the specification. */
  ghost predicate OnceRun<T>(trace: seq<Once<T>>) {
    forall i :: 0 <= i < |trace| - 1 ==> OnceStep(trace[i], trace[i + 1])
  }

  ghost function Trace<T>(s: State<T>, sched: seq<Turn<T>>): (tr: seq<Once<T>>)
    requires Schedulable(|s.pcs|, sched)
    ensures |tr| == |sched| + 1
    decreases |sched|
  {
    if sched == [] then [Abstract(s)]
    else [Abstract(s)] + Trace(Next(s, sched[0].call, sched[0].fallback), sched[1..])
  }

  lemma {:induction false} ExecRefines<T>(s: State<T>, sched: seq<Turn<T>>)
    requires Inv(s) && Schedulable(|s.pcs|, sched)
    ensures OnceRun(Trace(s, sched))
    ensures Trace(s, sched)[0] == Abstract(s) && Trace(s, sched)[|sched|] == Abstract(Exec(s, sched))
    decreases |sched|
  {
    if sched != [] {
      var s', rest := Next(s, sched[0].call, sched[0].fallback), sched[1..];
      StepRefines(s, sched[0].call, sched[0].fallback);
      StepKeepsInv(s, sched[0].call, sched[0].fallback);
      ExecRefines(s', rest);
      var tr := Trace(s, sched);
      forall i | 0 <= i < |tr| - 1
        ensures OnceStep(tr[i], tr[i + 1])
      {
        if i > 0 {
          assert tr[i] == Trace(s', rest)[i - 1] && tr[i + 1] == Trace(s', rest)[i];
        }
      }
    }
  }

  // ---------- progress ----------

  /** How many steps a call can still take that change something. */
  function Rank<T>(inited: nat, pc: Pc<T>): nat {
    match pc
    case Idle => 6
    case CompareExchange => if inited == UNINIT then 5 else if inited == INITING then 4 else 2
    case Spin => 3
    case WriteData => 4
    case Publish => 3
    case FinalLoad => 1
    case Returned(_) => 0
    case AssertFailed => 0
  }

  function Work<T>(inited: nat, pcs: seq<Pc<T>>): nat {
    if pcs == [] then 0 else Rank(inited, pcs[0]) + Work(inited, pcs[1..])
  }

  lemma {:induction false} WorkShrinksWithFlag<T>(i: nat, j: nat, pcs: seq<Pc<T>>)
    requires i <= j
    ensures Work(j, pcs) <= Work(i, pcs)
  {
    if pcs != [] {
      WorkShrinksWithFlag(i, j, pcs[1..]);
    }
  }

  /** At the start there are six steps of work per call. */
  lemma {:induction false} StartWork<T>(n: nat)
    ensures Work(UNINIT, Start<T>(n).pcs) == 6 * n
  {
    if n > 0 {
      StartWork<T>(n - 1);
      assert Start<T>(n).pcs[1..] == Start<T>(n - 1).pcs;
    }
  }

  lemma {:induction false} WorkUpdate<T>(i: nat, pcs: seq<Pc<T>>, t: nat, pc: Pc<T>)
    requires t < |pcs|
    ensures Work(i, pcs[t := pc]) + Rank(i, pcs[t]) == Work(i, pcs) + Rank(i, pc)
  {
    if t == 0 {
      assert pcs[t := pc][1..] == pcs[1..];
    } else {
      WorkUpdate(i, pcs[1..], t - 1, pc);
      assert pcs[t := pc][1..] == pcs[1..][t - 1 := pc];
    }
  }

  /** Every step that changes anything uses up work; only returned calls and calls spinning on an
      initialisation in progress stand still. */
  lemma StepUsesWork<T>(s: State<T>, t: nat, v: T)
    requires Inv(s) && t < |s.pcs|
    ensures Next(s, t, v) == s <==> s.pcs[t].Returned? || (s.pcs[t].Spin? && s.inited == INITING)
    ensures Next(s, t, v) != s ==> Work(Next(s, t, v).inited, Next(s, t, v).pcs) < Work(s.inited, s.pcs)
  {
    assert PcOk(s, s.pcs[t]);
    var s' := Next(s, t, v);
    if s.pcs[t].Returned? || (s.pcs[t].Spin? && s.inited == INITING) {
    } else {
      assert s'.pcs == s.pcs[t := s'.pcs[t]] && s'.pcs[t] != s.pcs[t];
      WorkUpdate(s.inited, s.pcs, t, s'.pcs[t]);
      WorkUpdate(s'.inited, s.pcs, t, s'.pcs[t]);
      WorkShrinksWithFlag(s.inited, s'.inited, s.pcs);
      WorkShrinksWithFlag(s.inited, s'.inited, s'.pcs);
    }
  }

  ghost function Effective<T>(s: State<T>, sched: seq<Turn<T>>): nat
    requires Schedulable(|s.pcs|, sched)
    decreases |sched|
  {
    if sched == [] then 0
    else
      var s' := Next(s, sched[0].call, sched[0].fallback);
      (if s' == s then 0 else 1) + Effective(s', sched[1..])
  }

  /** No livelock: under every schedule, the steps that are not idle spinning are bounded by the work. */
  lemma {:induction false} EffectiveStepsBounded<T>(s: State<T>, sched: seq<Turn<T>>)
    requires Inv(s) && Schedulable(|s.pcs|, sched)
    ensures Effective(s, sched) + Work(Exec(s, sched).inited, Exec(s, sched).pcs) <= Work(s.inited, s.pcs)
    decreases |sched|
  {
    if sched != [] {
      hide Inv, Rank, Work;
      StepUsesWork(s, sched[0].call, sched[0].fallback);
      StepKeepsInv(s, sched[0].call, sched[0].fallback);
      EffectiveStepsBounded(Next(s, sched[0].call, sched[0].fallback), sched[1..]);
    }
  }

  predicate AllReturned<T>(s: State<T>) {
    forall t :: 0 <= t < |s.pcs| ==> s.pcs[t].Returned?
  }

  /** No deadlock: while some call has not returned, some call can make a step that uses up work. */
  lemma SomeCallCanMove<T>(s: State<T>) returns (t: nat)
    requires Inv(s) && !AllReturned(s)
    ensures t < |s.pcs| && Rank(s.inited, s.pcs[t]) >= 1
    ensures forall v :: Next(s, t, v) != s
  {
    if s.inited == INITING {
      t :| 0 <= t < |s.pcs| && InCritical(s.pcs[t]);
    } else {
      t :| 0 <= t < |s.pcs| && !s.pcs[t].Returned?;
    }
    assert PcOk(s, s.pcs[t]);
    forall v
      ensures Next(s, t, v) != s
    {
      StepUsesWork(s, t, v);
    }
  }

  /** From every reachable state there is a continuation, no longer than the work left, in which all calls
      return. */
  lemma {:induction false} AllCallsCanReturn<T>(s: State<T>, v: T) returns (sched: seq<Turn<T>>)
    requires Inv(s)
    ensures Schedulable(|s.pcs|, sched) && |sched| <= Work(s.inited, s.pcs)
    ensures AllReturned(Exec(s, sched))
    decreases Work(s.inited, s.pcs)
  {
    hide Inv, Rank;
    if AllReturned(s) {
      sched := [];
    } else {
      var t := SomeCallCanMove(s);
      StepUsesWork(s, t, v);
      StepKeepsInv(s, t, v);
      var rest := AllCallsCanReturn(Next(s, t, v), v);
      sched := [Turn(t, v)] + rest;
      assert sched[1..] == rest;
    }
  }

  // ---------- how long a call takes ----------

  /** The call has not returned and does not have to wait for another one. */
  predicate NeedNotWait<T>(s: State<T>, t: nat)
    requires t < |s.pcs|
  {
    !s.pcs[t].Returned? && (s.inited == INITING ==> InCritical(s.pcs[t]))
  }

  /** How many steps the call makes until it returns if no other call moves. */
  function StepsLeft<T>(inited: nat, pc: Pc<T>): nat {
    match pc
    case Idle => if inited == UNINIT then 6 else 3
    case CompareExchange => if inited == UNINIT then 5 else 2
    case Spin => 3
    case WriteData => 4
    case Publish => 3
    case FinalLoad => 1
    case Returned(_) => 0
    case AssertFailed => 0
  }

  function Alone<T>(t: nat, v: T, n: nat): seq<Turn<T>> {
    seq(n, _ => Turn(t, v))
  }

  lemma StepTakesOne<T>(s: State<T>, t: nat, v: T)
    requires Inv(s) && t < |s.pcs| && NeedNotWait(s, t)
    ensures var s' := Next(s, t, v);
            && StepsLeft(s'.inited, s'.pcs[t]) == StepsLeft(s.inited, s.pcs[t]) - 1
            && (s'.pcs[t].Returned? || NeedNotWait(s', t))
            && (s'.pcs[t].Returned? <==> StepsLeft(s'.inited, s'.pcs[t]) == 0)
  {
    assert PcOk(s, s.pcs[t]);
    if s.inited == INITING {
      assert InCritical(s.pcs[t]);
    }
  }

  /** Left alone, a call that need not wait returns after exactly that many steps: six for the call that
      initialises, which goes round the loop once more after publishing, and three for every later one. */
  lemma {:induction false} ReturnsExactlyThen<T>(s: State<T>, t: nat, v: T, n: nat)
    requires Inv(s) && t < |s.pcs| && NeedNotWait(s, t) && n <= StepsLeft(s.inited, s.pcs[t])
    ensures Schedulable(|s.pcs|, Alone(t, v, n))
    ensures Exec(s, Alone(t, v, n)).pcs[t].Returned? <==> n == StepsLeft(s.inited, s.pcs[t])
    decreases n
  {
    var sched := Alone(t, v, n);
    if n > 0 {
      StepTakesOne(s, t, v);
      StepKeepsInv(s, t, v);
      var s' := Next(s, t, v);
      assert sched[1..] == Alone(t, v, n - 1);
      if !s'.pcs[t].Returned? {
        ReturnsExactlyThen(s', t, v, n - 1);
      }
    }
  }

  /** Two branches that the invariant rules out, in a state without it: a flag with a foreign value is taken over
      like an unset one, but without entering `INITING`, and the closing assertion fails unless the flag is
      `INITED`. */
  lemma OutsideTheInvariant<T>(s: State<T>, t: nat, v: T)
    requires t < |s.pcs|
    ensures s.inited > INITED && s.pcs[t] == CompareExchange ==>
              && Schedulable(|s.pcs|, Alone(t, v, 2))
              && Exec(s, Alone(t, v, 2)) == State(s.inited, Some(v), s.pcs[t := Publish], s.writes + [v])
    ensures s.pcs[t] == FinalLoad ==> (Next(s, t, v).pcs[t] == AssertFailed <==> s.inited != INITED)
  {
    if s.inited > INITED && s.pcs[t] == CompareExchange {
      var s1 := Next(s, t, v);
      var s2 := Next(s1, t, v);
      assert Alone(t, v, 2)[1..] == Alone(t, v, 1) && Alone(t, v, 1)[1..] == [];
      assert Exec(s2, []) == s2;
      assert Exec(s1, Alone(t, v, 1)) == s2;
      assert s2.pcs == s.pcs[t := Publish];
    }
  }

  // ---------- fairness ----------

  predicate GetsTurn<T>(round: seq<Turn<T>>, t: nat) {
    exists i :: 0 <= i < |round| && round[i].call == t
  }

  /** A round of turns in which every call gets at least one. */
  ghost predicate FairRound<T>(n: nat, round: seq<Turn<T>>) {
    && Schedulable(n, round)
    && forall t: nat :: t < n ==> GetsTurn(round, t)
  }

  ghost function ExecRounds<T>(s: State<T>, rounds: seq<seq<Turn<T>>>): (s': State<T>)
    requires forall k :: 0 <= k < |rounds| ==> FairRound(|s.pcs|, rounds[k])
    decreases |rounds|
  {
    if |rounds| == 0 then s
    else
      assert FairRound(|s.pcs|, rounds[0]);
      ExecRounds(Exec(s, rounds[0]), rounds[1..])
  }

  lemma {:induction false} NothingEffective<T>(s: State<T>, sched: seq<Turn<T>>, i: nat)
    requires Schedulable(|s.pcs|, sched) && i < |sched| && Effective(s, sched) == 0
    ensures Next(s, sched[i].call, sched[i].fallback) == s
    decreases |sched|
  {
    if i > 0 {
      NothingEffective(s, sched[1..], i - 1);
    }
  }

  lemma RoundUsesWork<T>(s: State<T>, round: seq<Turn<T>>)
    requires Inv(s) && !AllReturned(s) && FairRound(|s.pcs|, round)
    ensures Work(Exec(s, round).inited, Exec(s, round).pcs) < Work(s.inited, s.pcs)
  {
    EffectiveStepsBounded(s, round);
    var t := SomeCallCanMove(s);
    assert GetsTurn(round, t);
    var i :| 0 <= i < |round| && round[i].call == t;
    if Effective(s, round) == 0 {
      NothingEffective(s, round, i);
    }
  }

  lemma {:induction false} ReturnedStays<T>(s: State<T>, sched: seq<Turn<T>>)
    requires AllReturned(s) && Schedulable(|s.pcs|, sched)
    ensures Exec(s, sched) == s
    decreases |sched|
  {
    if sched != [] {
      ReturnedStays(s, sched[1..]);
    }
  }

  /** Under every fair scheduler all calls return: as many rounds as there is work left suffice, whatever
      else happens in each round. */
  lemma {:induction false} FairSchedulesFinish<T>(s: State<T>, rounds: seq<seq<Turn<T>>>)
    requires Inv(s) && forall k :: 0 <= k < |rounds| ==> FairRound(|s.pcs|, rounds[k])
    requires AllReturned(s) || |rounds| >= Work(s.inited, s.pcs)
    ensures AllReturned(ExecRounds(s, rounds))
    decreases |rounds|
  {
    if !AllReturned(s) {
      var t := SomeCallCanMove(s);
      SomeWork(s.inited, s.pcs, t);
      RoundUsesWork(s, rounds[0]);
    }
    if rounds != [] {
      if AllReturned(s) {
        ReturnedStays(s, rounds[0]);
      }
      ExecKeepsInv(s, rounds[0]);
      FairSchedulesFinish(Exec(s, rounds[0]), rounds[1..]);
    }
  }

  lemma {:induction false} SomeWork<T>(inited: nat, pcs: seq<Pc<T>>, t: nat)
    requires t < |pcs|
    ensures Rank(inited, pcs[t]) <= Work(inited, pcs)
  {
    if t > 0 {
      SomeWork(inited, pcs[1..], t - 1);
    }
  }
}
