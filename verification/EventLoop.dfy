/** The event loop, as far as the watcher sees it: which sources are registered and which one is
    running its callback. */
module EventLoops {
  import opened Strings

  type Token = nat

  datatype Registration =
    | ReadSource(generation: nat, slot: nat)
    | ReadTimer(generation: nat)
    | WriteSource(id: nat)
    | WriteTimer(id: nat)

  /** A source that was asked to go from inside its own callback, and what it was registered for. */
  datatype Removal = Removal(token: Token, registration: Registration)

  class EventLoop {
    var live: map<Token, Registration>
    var nextToken: nat
    var dispatching: Option<Token>
    ghost var selfRemovals: seq<Removal>

    ghost predicate Valid()
      reads this`live, this`nextToken
    {
      forall t <- live.Keys :: t < nextToken
    }

    constructor ()
      ensures Valid() && live == map[] && dispatching.None? && selfRemovals == []
    {
      live, nextToken, dispatching, selfRemovals := map[], 0, None, [];
    }

    method Insert(registration: Registration) returns (token: Token)
      requires Valid()
      modifies this`live, this`nextToken
      ensures Valid() && token !in old(live) && live == old(live)[token := registration]
      ensures token == old(nextToken) && nextToken == token + 1
    {
      token := nextToken;
      live, nextToken := live[token := registration], nextToken + 1;
    }

    method Remove(token: Token)
      requires Valid() && token in live
      modifies this`live, this`selfRemovals
      ensures Valid() && live == old(live) - {token}
      ensures selfRemovals ==
              old(selfRemovals) + if dispatching == Some(token) then [Removal(token, old(live)[token])] else []
    {
      selfRemovals := selfRemovals + if dispatching == Some(token) then [Removal(token, live[token])] else [];
      live := live - {token};
    }

    method Begin(token: Token)
      requires Valid() && dispatching.None? && token in live
      modifies this`dispatching
      ensures Valid() && dispatching == Some(token)
    {
      dispatching := Some(token);
    }

    /** What the callback returned decides whether the loop drops the source. */
    method End(remove: bool)
      requires Valid() && dispatching.Some?
      modifies this`live, this`dispatching
      ensures Valid() && dispatching.None?
      ensures live == if remove then old(live) - {old(dispatching).value} else old(live)
    {
      if remove {
        live := live - {dispatching.value};
      }
      dispatching := None;
    }
  }
}
