/** The one-shot guard the daemon arms for its own copy-back. */
module EchoGuards {
  import opened Strings

  datatype GuardEvent = Armed(hash: string) | Captured(hash: string) | Cleared

  /** The guard is armed just when arming it is the last thing that happened. */
  function ArmedAfter(history: seq<GuardEvent>): Option<string> {
    if history == [] then None
    else match history[|history| - 1] case Armed(hash) => Some(hash) case _ => None
  }

  function Arms(history: seq<GuardEvent>): nat {
    if history == [] then 0
    else Arms(history[..|history| - 1]) + if history[|history| - 1].Armed? then 1 else 0
  }

  /** How many captures were taken for clippo's own copy-back. */
  function Suppressed(history: seq<GuardEvent>): nat {
    if history == [] then 0
    else
      var before, last := history[..|history| - 1], history[|history| - 1];
      Suppressed(before) + if last.Captured? && ArmedAfter(before) == Some(last.hash) then 1 else 0
  }

  /** Each arm suppresses at most one capture, over any run. */
  lemma {:induction false} AtMostOneCapturePerArm(history: seq<GuardEvent>)
    ensures Suppressed(history) + (if ArmedAfter(history).Some? then 1 else 0) <= Arms(history)
  {
    if history != [] {
      AtMostOneCapturePerArm(history[..|history| - 1]);
    }
  }

  class EchoGuard {
    var armed: Option<string>
    ghost var history: seq<GuardEvent>

    ghost predicate Valid()
      reads this
    {
      armed == ArmedAfter(history)
    }

    constructor ()
      ensures Valid() && history == []
    {
      armed, history := None, [];
    }

    method Arm(hash: string)
      requires Valid()
      modifies this
      ensures Valid() && history == old(history) + [Armed(hash)] && armed == Some(hash)
    {
      armed, history := Some(hash), history + [Armed(hash)];
    }

    /** Whether a capture is the awaited one; either way the guard is disarmed. */
    method IsEcho(hash: string) returns (echo: bool)
      requires Valid()
      modifies this
      ensures Valid() && history == old(history) + [Captured(hash)] && armed.None?
      ensures echo <==> old(history) != [] && old(history)[|old(history)| - 1] == Armed(hash)
      ensures echo <==> old(armed) == Some(hash)
      ensures Suppressed(history) == Suppressed(old(history)) + if echo then 1 else 0
    {
      echo := match armed case Some(h) => h == hash case None => false;
      armed, history := None, history + [Captured(hash)];
      assert history[..|history| - 1] == old(history);
    }

    method Clear() returns (wasArmed: bool)
      requires Valid()
      modifies this
      ensures Valid() && history == old(history) + [Cleared] && armed.None?
      ensures wasArmed <==> old(history) != [] && old(history)[|old(history)| - 1].Armed?
    {
      wasArmed := armed.Some?;
      armed, history := None, history + [Cleared];
    }
  }
}
