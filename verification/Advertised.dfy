/** What one offer advertised, bounded, and which of it the watcher reads. */
module Advertised {
  import opened Mime

  /** How many types an offer may advertise before only interesting ones are recorded. */
  const MAX_ADVERTISED_MIMES: nat := 256

  predicate Seen(mimes: seq<string>, mime: string) {
    exists m <- mimes :: Same(m, mime)
  }

  /** The interesting types, first spelling of each, in the order they were advertised. */
  function Wanted(advertised: seq<string>): seq<string> {
    if advertised == [] then []
    else
      var init, last := advertised[..|advertised| - 1], advertised[|advertised| - 1];
      Wanted(init) + if IsInteresting(last) && !Seen(Wanted(init), last) then [last] else []
  }

  predicate Records(mimes: seq<string>, mime: string) {
    || |mimes| < MAX_ADVERTISED_MIMES
    || (IsInteresting(mime) && !Seen(mimes[MAX_ADVERTISED_MIMES..], mime))
  }

  /** What is recorded once everything in `advertised` has arrived, one at a time. */
  function Recorded(advertised: seq<string>): seq<string> {
    if advertised == [] then []
    else
      var kept, last := Recorded(advertised[..|advertised| - 1]), advertised[|advertised| - 1];
      kept + if Records(kept, last) then [last] else []
  }

  class AdvertisedMimes {
    var mimes: seq<string>
    var overflowed: bool
    ghost var arrived: seq<string>

    ghost predicate Valid()
      reads this
    {
      mimes == Recorded(arrived) && (overflowed <==> mimes != arrived)
    }

    constructor ()
      ensures Valid() && arrived == []
    {
      mimes, overflowed, arrived := [], false, [];
    }

    method Push(mime: string)
      requires Valid()
      modifies this
      ensures Valid() && arrived == old(arrived) + [mime]
      ensures old(mimes) <= mimes <= old(mimes) + [mime]
      ensures IsInteresting(mime) ==> Seen(mimes, mime)
    {
      arrived := arrived + [mime];
      assert arrived[..|arrived| - 1] == old(arrived);
      RecordedIsNoLonger(old(arrived));
      if |mimes| < MAX_ADVERTISED_MIMES {
        mimes := mimes + [mime];
        assert mime in mimes;
        return;
      }
      var tail := mimes[MAX_ADVERTISED_MIMES..];
      if IsInteresting(mime) && !Seen(tail, mime) {
        mimes := mimes + [mime];
        assert mime in mimes;
        return;
      }
      overflowed := true;
    }
  }

  lemma {:induction false} RecordedIsNoLonger(advertised: seq<string>)
    ensures |Recorded(advertised)| <= |advertised|
  {
    if advertised != [] {
      RecordedIsNoLonger(advertised[..|advertised| - 1]);
    }
  }

  /** `wanted` stands for `advertised`: every interesting type is in it in some spelling, nothing
      else is, and no two of its spellings are the same type. */
  ghost predicate StandsFor(wanted: seq<string>, advertised: seq<string>) {
    && (forall m <- wanted :: IsInteresting(m) && m in advertised)
    && (forall m <- advertised | IsInteresting(m) :: Seen(wanted, m))
    && PairwiseDistinct(wanted)
  }

  lemma {:induction false} SeenStays(mimes: seq<string>, more: seq<string>, mime: string)
    requires Seen(mimes, mime)
    ensures Seen(mimes + more, mime)
  {
    var m :| m in mimes && Same(m, mime);
    assert m in mimes + more;
  }

  lemma {:induction false} StandsForOneMore(wanted: seq<string>, advertised: seq<string>, mime: string)
    requires StandsFor(wanted, advertised)
    ensures StandsFor(wanted + if IsInteresting(mime) && !Seen(wanted, mime) then [mime] else [], advertised + [mime])
  {
    hide IsInteresting;
    var added := if IsInteresting(mime) && !Seen(wanted, mime) then [mime] else [];
    forall m <- advertised + [mime] | IsInteresting(m) ensures Seen(wanted + added, m) {
      if Seen(wanted, m) {
        SeenStays(wanted, added, m);
      } else {
        assert m == mime && mime in wanted + added;
      }
    }
  }

  lemma {:induction false} WantedStandsForAll(advertised: seq<string>)
    ensures StandsFor(Wanted(advertised), advertised)
  {
    if advertised == [] {
      assert StandsFor(Wanted([]), []);
    } else {
      hide IsInteresting;
      hide StandsFor;
      var init, last := advertised[..|advertised| - 1], advertised[|advertised| - 1];
      WantedStandsForAll(init);
      StandsForOneMore(Wanted(init), init, last);
      assert advertised == init + [last];
    }
  }

  /** Every interesting type that was advertised is wanted in some spelling, no two wanted ones
      are the same type, and there are never more of them than the list names. */
  lemma {:induction false} WantedIsCompleteAndBounded(advertised: seq<string>)
    ensures StandsFor(Wanted(advertised), advertised)
    ensures |Wanted(advertised)| <= |INTERESTING_MIMES|
  {
    WantedStandsForAll(advertised);
    Pigeonhole(Wanted(advertised));
  }

  /** Past the ceiling only interesting types are recorded, and no two that are the same. */
  lemma {:induction false} TailIsDistinct(advertised: seq<string>)
    ensures var kept := Recorded(advertised);
            && |kept| <= MAX_ADVERTISED_MIMES + |INTERESTING_MIMES|
            && (|kept| >= MAX_ADVERTISED_MIMES ==>
                  var tail := kept[MAX_ADVERTISED_MIMES..];
                  (forall m <- tail :: IsInteresting(m)) && PairwiseDistinct(tail))
  {
    if advertised != [] {
      TailIsDistinct(advertised[..|advertised| - 1]);
      var kept, all := Recorded(advertised[..|advertised| - 1]), Recorded(advertised);
      if |all| >= MAX_ADVERTISED_MIMES {
        var tail := all[MAX_ADVERTISED_MIMES..];
        if |kept| >= MAX_ADVERTISED_MIMES {
          var before := kept[MAX_ADVERTISED_MIMES..];
          if all != kept {
            assert tail == before + [advertised[|advertised| - 1]];
          }
        } else {
          assert tail == [];
        }
        Pigeonhole(tail);
      }
    }
  }

  lemma {:induction false} UnrecordedIsAlreadyWanted(kept: seq<string>, mime: string)
    requires !Records(kept, mime) && IsInteresting(mime)
    ensures Seen(Wanted(kept), mime)
  {
    var t :| t in kept[MAX_ADVERTISED_MIMES..] && Same(t, mime);
    InterestIgnoresSpelling(mime, t);
    assert t in kept;
    assert Seen(Wanted(kept), t) by {
      WantedIsCompleteAndBounded(kept);
    }
  }

  lemma {:induction false} WantedOfOneMore(advertised: seq<string>, mime: string)
    ensures Wanted(advertised + [mime]) ==
            Wanted(advertised) + if IsInteresting(mime) && !Seen(Wanted(advertised), mime) then [mime] else []
  {
    assert (advertised + [mime])[..|advertised|] == advertised;
  }

  /** The bounded list loses nothing the watcher would read: whatever is advertised, what is
      wanted of the recorded list is, string for string and in order, what is wanted of it all. */
  lemma {:induction false} BoundedListLosesNothing(advertised: seq<string>)
    ensures Wanted(Recorded(advertised)) == Wanted(advertised)
    ensures |Recorded(advertised)| <= MAX_ADVERTISED_MIMES + |INTERESTING_MIMES|
  {
    TailIsDistinct(advertised);
    if advertised != [] {
      var init, last := advertised[..|advertised| - 1], advertised[|advertised| - 1];
      BoundedListLosesNothing(init);
      assert advertised == init + [last];
      WantedOfOneMore(init, last);
      WantedOfOneMore(Recorded(init), last);
      if !Records(Recorded(init), last) {
        assert Recorded(advertised) == Recorded(init);
        if IsInteresting(last) {
          UnrecordedIsAlreadyWanted(Recorded(init), last);
        }
      }
    }
  }

  /** The loop that picks what to read. The arithmetic guard counts what it turns away, and it
      never turns anything away. */
  method InterestingFlavors(advertised: seq<string>) returns (wanted: seq<string>, refused: nat)
    ensures wanted == Wanted(advertised)
    ensures refused == 0
  {
    wanted, refused := [], 0;
    for k := 0 to |advertised|
      invariant wanted == Wanted(advertised[..k])
      invariant refused == 0
    {
      var mime := advertised[k];
      assert advertised[..k + 1][..k] == advertised[..k];
      WantedIsCompleteAndBounded(advertised[..k]);
      if !IsInteresting(mime) || Seen(wanted, mime) {
        continue;
      }
      Pigeonhole(wanted);
      if |wanted| == |INTERESTING_MIMES| {
        refused := refused + 1;
        continue;
      }
      wanted := wanted + [mime];
    }
    assert advertised[..|advertised|] == advertised;
  }
}
