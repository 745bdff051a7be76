/** The loop at the end of main that waits for the download tasks.
    Each `<-endCh` receive is one step; the number of completion signals
    the tasks will ever send is a parameter (every task sends one, except
    one that ends the process on an authorization failure). */
module Completion {

  /** How the loop ends: it leaves by its exit test, or it waits on a
      receive for which no signal will ever come. */
  datatype End = Exited | Blocked

  /** What the loop did: how it ended, how many signals it received, and
      the completed-count numerators it passed to printPercentage, in order
      (each in-loop call also follows the log line "File <k> Ok" for the
      same k). */
  datatype Trace = Trace(end: End, received: nat, reported: seq<int>)

  /** 1, 2, ..., k */
  function Upto(k: nat): (s: seq<int>)
    ensures |s| == k && forall j :: 0 <= j < k ==> s[j] == j + 1
  {
    seq(k, j => j + 1)
  }

  /** What the loop of main does with `total` tasks of which `signals` send
      their completion. With two tasks or more it stops after total - 1
      receives and then reports total as done without waiting for the last
      signal; with one task or none its exit test is never true, so it waits
      for one signal more than will ever come. */
  function AsWritten(total: int, signals: nat): Trace {
    if total >= 2 && signals >= total - 1 then Trace(Exited, total - 1, Upto(total))
    else Trace(Blocked, signals, Upto(signals))
  }

  /** The loop of main as written: receive, log, report i + 1, count, and
      leave once the count reaches total - 1; then report i + 1 once more. */
  method CompletionLoop(total: int, signals: nat) returns (t: Trace)
    ensures t == AsWritten(total, signals)
  {
    var i := 0;
    var reported: seq<int> := [];
    while true
      invariant 0 <= i <= signals
      invariant total >= 2 ==> i < total - 1
      invariant reported == Upto(i)
      decreases signals - i
    {
      if i == signals {
        // `<-endCh` with every sender gone: this receive never completes
        return Trace(Blocked, i, reported);
      }
      reported := reported + [i + 1];
      i := i + 1;
      if i == total - 1 {
        break;
      }
    }
    reported := reported + [i + 1];
    t := Trace(Exited, i, reported);
  }

  /** The loop as evidently intended: one receive per task, so it ends
      exactly when every task has signalled. */
  function Corrected(total: nat, signals: nat): Trace {
    if signals >= total then Trace(Exited, total, Upto(total))
    else Trace(Blocked, signals, Upto(signals))
  }

  method CompletionLoopCorrected(total: nat, signals: nat) returns (t: Trace)
    ensures t == Corrected(total, signals)
  {
    var i := 0;
    var reported: seq<int> := [];
    while i < total
      invariant 0 <= i <= total && i <= signals
      invariant reported == Upto(i)
    {
      if i == signals {
        return Trace(Blocked, i, reported);
      }
      reported := reported + [i + 1];
      i := i + 1;
    }
    t := Trace(Exited, i, reported);
  }

  /** A trace ends by the exit test only after every task has signalled. */
  predicate WaitsForAll(total: nat, t: Trace) {
    t.end == Exited ==> t.received == total
  }

  /** In a run in which every task signals, the loop as written leaves one
      signal unreceived for two tasks or more, although its last report
      claims all of them done; for one task it never exits. */
  lemma AsWrittenMissesLastSignal(total: nat)
    ensures total >= 2 ==>
      (AsWritten(total, total).end == Exited
       && AsWritten(total, total).received == total - 1
       && AsWritten(total, total).reported[|AsWritten(total, total).reported| - 1] == total)
    ensures total >= 2 ==> !WaitsForAll(total, AsWritten(total, total))
    ensures AsWritten(1, 1) == Trace(Blocked, 1, [1])
  {
  }

  /** The corrected loop exits exactly when all signals came, receives each
      of them, and reports the same counts the loop as written reports when
      it exits. */
  lemma CorrectedWaitsForAll(total: nat, signals: nat)
    ensures WaitsForAll(total, Corrected(total, signals))
    ensures Corrected(total, signals).end == Exited <==> signals >= total
    ensures total >= 2 && signals >= total ==>
      Corrected(total, signals).reported == AsWritten(total, signals).reported
  {
  }
}
