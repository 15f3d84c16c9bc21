/**
 The environment decides, call by call, what becomes of every step that changes the disk.

 A step may be carried out (Done), may fail without or with its effect (Failed, FailedAfter: the
 latter is an error reported after the effect, such as a failing read-back), and the process may die
 just before or just after it (Crashed, CrashedAfter).  Once the process is dead no further step has
 an effect, so the disk that a method leaves behind when `crashed` is set is the disk at the moment
 of the crash.  A contract proved for every plan therefore holds at every crash point.
 */
module Environments {
  datatype Outcome = Done | Failed | FailedAfter | Crashed | CrashedAfter {
    /** The step changed the disk. */
    predicate Effective() {
      Done? || FailedAfter? || CrashedAfter?
    }

    /** The same for a single system call, where an error means that nothing was done. */
    predicate Landed() {
      Done? || CrashedAfter?
    }
  }

  class Environment {
    var plan: seq<Outcome>
    /** How many steps of the plan have been drawn. */
    var drawn: nat
    var crashed: bool

    constructor (plan: seq<Outcome>)
      ensures this.plan == plan && drawn == 0 && !crashed
    {
      this.plan, drawn := plan, 0;
      crashed := false;
    }

    /** The outcome of the i-th step from here, if the process lives that long; past the plan all goes well. */
    function Ahead(i: nat): Outcome
      reads this
    {
      if crashed then Crashed else if drawn + i < |plan| then plan[drawn + i] else Done
    }

    /** Neither a fault nor a crash lies ahead. */
    ghost predicate Calm()
      reads this
    {
      !crashed && forall i | drawn <= i < |plan| :: plan[i] == Done
    }

    /** No crash lies ahead, and one fault at most. */
    ghost predicate OneFault()
      reads this
    {
      && !crashed
      && (forall i | drawn <= i < |plan| :: plan[i] in {Done, Failed, FailedAfter})
      && (forall i, j | drawn <= i < j < |plan| :: plan[i] == Done || plan[j] == Done)
    }

    /** A new process starts with a new future. */
    method Restart(plan: seq<Outcome>)
      modifies this
      ensures this.plan == plan && drawn == 0 && !crashed
    {
      this.plan, drawn := plan, 0;
      crashed := false;
    }

    /** Draws the outcome of the next step. */
    method Next() returns (o: Outcome)
      modifies `drawn, `crashed
      ensures o == old(Ahead(0))
      ensures drawn == if old(crashed) then old(drawn) else old(drawn) + 1
      ensures crashed == (o.Crashed? || o.CrashedAfter?)
      ensures old(Calm()) ==> o == Done && Calm()
      ensures old(OneFault()) ==> if o == Done then OneFault() else Calm()
    {
      o := Ahead(0);
      if !crashed {
        drawn, crashed := drawn + 1, o.Crashed? || o.CrashedAfter?;
      }
    }
  }
}
