/** The first of the best-ranked flavors, for any ranking of MIME types. */
module Ranked {
  import opened Strings
  import opened Entries

  /** Higher is better; `None` is no candidate at all. */
  type Ranking = string -> Option<nat>

  predicate Beats(rank: Ranking, mime: string, other: string) {
    && rank(mime).Some?
    && (rank(other).Some? ==> rank(mime).value > rank(other).value)
  }

  /** The flavor at `i` is the first of the best-ranked ones. */
  ghost predicate IsBest(rank: Ranking, flavors: seq<Flavor>, i: nat) {
    && i < |flavors|
    && rank(flavors[i].mime).Some?
    && (forall j | 0 <= j < i :: Beats(rank, flavors[i].mime, flavors[j].mime))
    && (forall j | i <= j < |flavors| :: !Beats(rank, flavors[j].mime, flavors[i].mime))
  }

  function Better(rank: Ranking, best: Option<Flavor>, other: Flavor): Option<Flavor> {
    if best.None? then (if rank(other.mime).Some? then Some(other) else None)
    else if Beats(rank, other.mime, best.value.mime) then Some(other) else best
  }

  function BestOf(rank: Ranking, flavors: seq<Flavor>): Option<Flavor> {
    if flavors == [] then None
    else Better(rank, BestOf(rank, flavors[..|flavors| - 1]), flavors[|flavors| - 1])
  }

  lemma {:induction false} BestIsUnique(rank: Ranking, flavors: seq<Flavor>, i: nat, j: nat)
    requires IsBest(rank, flavors, i) && IsBest(rank, flavors, j)
    ensures i == j
  {
  }

  lemma {:induction false} BestOfOneMore(rank: Ranking, flavors: seq<Flavor>, last: Flavor)
    ensures BestOf(rank, flavors + [last]) == Better(rank, BestOf(rank, flavors), last)
  {
    assert (flavors + [last])[..|flavors|] == flavors;
  }

  /** `best` is the first of the best-ranked flavors, or none is ranked at all. */
  ghost predicate IsBestOf(rank: Ranking, best: Option<Flavor>, flavors: seq<Flavor>) {
    match best
    case None => forall j | 0 <= j < |flavors| :: rank(flavors[j].mime).None?
    case Some(flavor) => exists i: nat :: IsBest(rank, flavors, i) && flavors[i] == flavor
  }

  lemma {:induction false} BestOfOneMoreIsBest(rank: Ranking, best: Option<Flavor>, flavors: seq<Flavor>, last: Flavor)
    requires IsBestOf(rank, best, flavors)
    ensures IsBestOf(rank, Better(rank, best, last), flavors + [last])
  {
    var all := flavors + [last];
    if best.Some? && !Beats(rank, last.mime, best.value.mime) {
      var i: nat :| IsBest(rank, flavors, i) && flavors[i] == best.value;
      assert IsBest(rank, all, i);
    } else if rank(last.mime).Some? {
      assert IsBest(rank, all, |flavors|);
    }
  }

  lemma {:induction false} BestOfIsSomeBest(rank: Ranking, flavors: seq<Flavor>)
    ensures IsBestOf(rank, BestOf(rank, flavors), flavors)
  {
    if flavors != [] {
      var init, last := flavors[..|flavors| - 1], flavors[|flavors| - 1];
      BestOfIsSomeBest(rank, init);
      BestOfOneMoreIsBest(rank, BestOf(rank, init), init, last);
      assert flavors == init + [last];
    }
  }

  /** The fold meets its declarative definition, and nothing else does. */
  lemma {:induction false} BestOfIsTheFirstBest(rank: Ranking, flavors: seq<Flavor>, i: nat)
    requires IsBest(rank, flavors, i)
    ensures BestOf(rank, flavors) == Some(flavors[i])
  {
    BestOfIsSomeBest(rank, flavors);
    var j: nat :| IsBest(rank, flavors, j) && BestOf(rank, flavors) == Some(flavors[j]);
    BestIsUnique(rank, flavors, i, j);
  }

  /** The fold gives one flavor, or none, exactly if that is the first of the best-ranked, or no flavor
      is ranked. */
  lemma {:induction false} BestOfIsExact(rank: Ranking, flavors: seq<Flavor>, best: Option<Flavor>)
    ensures BestOf(rank, flavors) == best <==> IsBestOf(rank, best, flavors)
  {
    BestOfIsSomeBest(rank, flavors);
    if IsBestOf(rank, best, flavors) && best.Some? {
      var i: nat :| IsBest(rank, flavors, i) && flavors[i] == best.value;
      BestOfIsTheFirstBest(rank, flavors, i);
    }
  }

  /** What is not best stays not best, and a new best beats whatever was kept of the others. */
  lemma {:induction false} BestOfOneMoreKept(rank: Ranking, flavors: seq<Flavor>, kept: seq<Flavor>, last: Flavor)
    requires forall f <- kept :: f in flavors
    requires IsBest(rank, flavors + [last], |flavors|)
    ensures BestOf(rank, kept + [last]) == Some(last)
  {
    BestOfOneMore(rank, kept, last);
    BestOfIsSomeBest(rank, kept);
    if BestOf(rank, kept).Some? {
      var i: nat :| i < |kept| && BestOf(rank, kept) == Some(kept[i]);
      assert kept[i] in flavors;
      var j :| 0 <= j < |flavors| && flavors[j] == kept[i];
      assert Beats(rank, last.mime, (flavors + [last])[j].mime);
    }
  }

  /** Filtering never changes which flavor is best, as long as that flavor stays, and leaves
      before it exactly what is left of the flavors that came before it. */
  lemma {:induction false} FilterKeepsTheBest(rank: Ranking, flavors: seq<Flavor>, keep: Flavor -> bool, i: nat)
    returns (k: nat)
    requires IsBest(rank, flavors, i) && keep(flavors[i])
    ensures var kept := Filter(flavors, keep);
            && IsBest(rank, kept, k) && kept[k] == flavors[i] && BestOf(rank, kept) == Some(flavors[i])
            && kept[..k] == Filter(flavors[..i], keep)
  {
    var before, after := Filter(flavors[..i], keep), Filter(flavors[i + 1..], keep);
    k := |before|;
    var kept := before + [flavors[i]] + after;
    assert Filter(flavors, keep) == kept by {
      assert flavors == flavors[..i] + [flavors[i]] + flavors[i + 1..];
      FilterDistributes(flavors[..i] + [flavors[i]], flavors[i + 1..], keep);
      FilterOfOneMore(flavors[..i], flavors[i], keep);
    }
    FilterKeepsExactly(flavors[..i], keep);
    FilterKeepsExactly(flavors[i + 1..], keep);
    forall j | 0 <= j < |kept|
      ensures j < k ==> Beats(rank, kept[k].mime, kept[j].mime)
      ensures j >= k ==> !Beats(rank, kept[j].mime, kept[k].mime)
    {
      if j < k {
        assert kept[j] in before;
      } else if j > k {
        assert kept[j] == after[j - k - 1];
        assert kept[j] in after;
      }
    }
    assert IsBest(rank, kept, k);
    BestOfIsTheFirstBest(rank, kept, k);
  }

  /** Nor does dropping repeats of a MIME type, as long as the best flavor is no repeat. */
  lemma {:induction false} FirstOfEachKeepsTheBest(
    rank: Ranking, flavors: seq<Flavor>, same: (string, string) -> bool, i: nat)
    requires IsBest(rank, flavors, i)
    requires forall j | 0 <= j < i :: !same(flavors[j].mime, flavors[i].mime)
    ensures BestOf(rank, FirstOfEach(flavors, same)) == Some(flavors[i])
  {
    var n := |flavors| - 1;
    var init, last := flavors[..n], flavors[n];
    assert flavors == init + [last];
    var firsts := FirstOfEach(init, same);
    if i < n {
      assert IsBest(rank, init, i) && !Beats(rank, flavors[n].mime, flavors[i].mime);
      FirstOfEachKeepsTheBest(rank, init, same, i);
      BestOfOneMore(rank, firsts, last);
      assert firsts + [] == firsts;
    } else {
      FirstOfEachIsAmong(init, same);
      assert !HasMime(firsts, last.mime, same);
      BestOfOneMoreKept(rank, init, firsts, last);
    }
  }

  /** The loop over a selection's flavors. */
  method FirstBest(rank: Ranking, flavors: seq<Flavor>) returns (flavor: Option<Flavor>)
    ensures flavor == BestOf(rank, flavors)
    ensures IsBestOf(rank, flavor, flavors)
  {
    var best: Option<(nat, Flavor)> := None;
    for k := 0 to |flavors|
      invariant best.None? ==> BestOf(rank, flavors[..k]).None?
      invariant best.Some? ==> BestOf(rank, flavors[..k]) == Some(best.value.1) &&
                               rank(best.value.1.mime) == Some(best.value.0)
    {
      assert flavors[..k + 1][..k] == flavors[..k];
      var candidate := rank(flavors[k].mime);
      if candidate.None? {
        continue;
      }
      var better := match best case None => true case Some(b) => candidate.value > b.0;
      if better {
        best := Some((candidate.value, flavors[k]));
      }
    }
    assert flavors[..|flavors|] == flavors;
    flavor := match best case None => None case Some(b) => Some(b.1);
    BestOfIsSomeBest(rank, flavors);
  }
}
