/** The lock of ibcs/linux26-compat.c (down_read and up_read, which also serve as down_write and
    up_write): one word changed by compare-and-swap, and futex calls to sleep and to wake. Any number
    of threads take single atomic steps in any order. */
module Futex {

  type Thread = nat

  /** Where a thread is. Trying: before the compare-and-swap of down. Waiting: it failed, before the
      FUTEX_WAIT call. Sleeping: in it. Waking: up has freed the word, before the FUTEX_WAKE call. */
  datatype Pc = Idle | Trying | Waiting | Sleeping | Holding | Waking

  datatype State = State(word: int, pc: map<Thread, Pc>) {
    ghost predicate At(t: Thread, p: Pc) { t in pc && pc[t] == p }
    ghost function Move(t: Thread, p: Pc): State { State(word, pc[t := p]) }
    ghost function Holders(): set<Thread> { set t | t in pc && pc[t] == Holding }
    ghost predicate Asleep() { exists t :: At(t, Sleeping) }
    /** A thread that will wake a sleeper, or still tries to take the lock. */
    ghost predicate Active(t: Thread) { At(t, Trying) || At(t, Waiting) || At(t, Waking) }
  }

  /** Every thread is outside the lock and the word says so. */
  ghost predicate Init(s: State) {
    s.word == 1 && forall t :: t in s.pc ==> s.pc[t] == Idle
  }

  /** One atomic step of thread t; u is the thread a FUTEX_WAKE picks. */
  ghost predicate Step(s: State, s': State, t: Thread, u: Thread) {
    && t in s.pc
    && match s.pc[t]
       case Idle => s' == s.Move(t, Trying)
       case Trying =>
         if s.word == 1 then s' == State(0, s.pc[t := Holding]) else s' == s.Move(t, Waiting)
       case Waiting => s' == s.Move(t, if s.word == 0 then Sleeping else Trying)
       case Sleeping => s' == s.Move(t, Trying)  // a signal, or no reason at all
       case Holding =>
         if s.word == 0 then s' == State(1, s.pc[t := Waking]) else s' == s.Move(t, Idle)
       case Waking =>
         if s.Asleep() then s.At(u, Sleeping) && s' == s.Move(u, Trying).Move(t, Idle) else s' == s.Move(t, Idle)
  }

  ghost predicate Next(s: State, s': State) {
    exists t, u :: Step(s, s', t, u)
  }

  /** A run: any number of steps from an initial state. */
  ghost predicate IsRun(run: seq<State>) {
    run != [] && Init(run[0]) && forall i :: 0 <= i < |run| - 1 ==> Next(run[i], run[i + 1])
  }

  // ---------------------------------------------------------------------------------------------
  // What every step keeps

  /** The word is 1 and nobody holds the lock, or 0 and one thread does. */
  ghost predicate Exclusive(s: State) {
    || (s.word == 1 && s.Holders() == {})
    || (s.word == 0 && exists h :: s.Holders() == {h})
  }

  /** While the word is free and a thread sleeps, some other thread is active. */
  ghost predicate NoLostWakeup(s: State) {
    s.word == 1 && s.Asleep() ==> exists t :: s.Active(t)
  }

  lemma InitHolds(s: State)
    requires Init(s)
    ensures Exclusive(s) && NoLostWakeup(s)
  {
  }

  lemma StepKeepsExclusive(s: State, s': State, t: Thread, u: Thread)
    requires Step(s, s', t, u) && Exclusive(s)
    ensures Exclusive(s')
  {
    if s.pc[t] == Trying && s.word == 1 {
      assert s'.Holders() == {t};
    } else if s.pc[t] == Holding {
      assert t in s.Holders();
      forall x ensures x in s'.Holders() <==> x in s.Holders() && x != t {
      }
      assert s'.Holders() == {};
    } else {
      assert s'.Holders() == s.Holders();
    }
  }

  lemma StepKeepsWakeup(s: State, s': State, t: Thread, u: Thread)
    requires Step(s, s', t, u) && Exclusive(s) && NoLostWakeup(s)
    ensures NoLostWakeup(s')
  {
    if s'.word == 1 && s'.Asleep() {
      if s.pc[t] == Waking {
        assert s.Asleep() ==> s'.Active(u);
        var x :| s'.At(x, Sleeping);
        assert s.At(x, Sleeping);
      } else {
        assert s.pc[t] == Holding ==> t in s.Holders();
        assert s'.Active(t);
      }
    }
  }

  /** For any number of threads and any interleaving, in every state of every run the lock word plus
      the number of holders is 1, and no wake-up is lost. */
  lemma {:induction false} EveryRun(run: seq<State>, i: nat)
    requires IsRun(run) && i < |run|
    ensures Exclusive(run[i]) && NoLostWakeup(run[i])
    ensures run[i].word + |run[i].Holders()| == 1
  {
    if i == 0 {
      InitHolds(run[0]);
    } else {
      EveryRun(run, i - 1);
      assert Next(run[i - 1], run[i - 1 + 1]);
      var t, u :| Step(run[i - 1], run[i], t, u);
      StepKeepsExclusive(run[i - 1], run[i], t, u);
      StepKeepsWakeup(run[i - 1], run[i], t, u);
    }
  }

  /** No deadlock: while a thread sleeps, some thread holds the lock or is active. */
  lemma SleeperIsNotAlone(run: seq<State>, i: nat)
    requires IsRun(run) && i < |run| && run[i].Asleep()
    ensures exists t :: run[i].At(t, Holding) || run[i].Active(t)
  {
    EveryRun(run, i);
    if run[i].word == 0 {
      var h :| run[i].Holders() == {h};
      assert h in run[i].Holders();
      assert run[i].At(h, Holding);
    }
  }

  /** What the absence of lost wake-ups is worth: whenever the word is free and a thread sleeps, one
      step of an active thread, if it is not about to try already, and one of the thread that tries
      then take the lock. */
  lemma FreeLockIsTaken(s: State) returns (s1: State, s2: State, h: Thread)
    requires Exclusive(s) && NoLostWakeup(s) && s.word == 1 && s.Asleep()
    ensures s1 == s || Next(s, s1)
    ensures Next(s1, s2) && s2.At(h, Holding) && s2.word == 0
  {
    var t :| s.Active(t);
    s1 := s;
    h := t;
    if s.pc[t] == Waking {
      var u :| s.At(u, Sleeping);
      s1 := s.Move(u, Trying).Move(t, Idle);
      assert Step(s, s1, t, u);
      h := u;
    } else if s.pc[t] == Waiting {
      s1 := s.Move(t, Trying);
      assert Step(s, s1, t, t);
    }
    s2 := State(0, s1.pc[h := Holding]);
    assert Step(s1, s2, h, h);
  }
}
