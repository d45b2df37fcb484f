/** Flavors, selections and entries, and the kind of entry a selection makes. */
module Entries {
  import opened Strings

  /** Least to most specific, as the derived order of the source's enum has them. */
  datatype EntryKind = Text | Html | Uris | Image {
    function Richness(): nat {
      match this
      case Text => 0
      case Html => 1
      case Uris => 2
      case Image => 3
    }
  }

  datatype Flavor = Flavor(mime: string, data: Bytes)

  /** A MIME type without its parameters, trimmed and lowercased. */
  function Essence(mime: string): string {
    Lowered(Trim(Before(mime, ';')))
  }

  lemma {:induction false} EssenceIgnoresCase(mime: string, other: string)
    requires Lowered(mime) == Lowered(other)
    ensures Essence(mime) == Essence(other)
  {
    var a, b := Before(mime, ';'), Before(other, ';');
    BeforeIgnoresCase(mime, other, ';');
    TrimStartIgnoresCase(a, b);
    TrimEndIgnoresCase(TrimStart(a), TrimStart(b));
  }

  function KindOfEssence(essence: string): Option<EntryKind> {
    if essence == "text/html" then Some(Html)
    else if essence == "text/uri-list" then Some(Uris)
    else if "image/" <= essence then Some(Image)
    else if "text/" <= essence then Some(Text)
    else None
  }

  /** The kind one MIME type implies, if it implies one. */
  function FromMime(mime: string): Option<EntryKind> {
    KindOfEssence(Essence(mime))
  }

  function Richer(best: Option<EntryKind>, other: Option<EntryKind>): Option<EntryKind> {
    if other.None? || (best.Some? && other.value.Richness() <= best.value.Richness()) then best else other
  }

  /** The richest kind present in a selection. */
  function ForFlavors(flavors: seq<Flavor>): Option<EntryKind> {
    if flavors == [] then None
    else Richer(ForFlavors(flavors[..|flavors| - 1]), FromMime(flavors[|flavors| - 1].mime))
  }

  /** `ForFlavors` is the maximum: some flavor implies it and none implies a richer one. */
  lemma {:induction false} ForFlavorsIsTheRichest(flavors: seq<Flavor>)
    ensures forall f <- flavors | FromMime(f.mime).Some? ::
              ForFlavors(flavors).Some? &&
              FromMime(f.mime).value.Richness() <= ForFlavors(flavors).value.Richness()
    ensures ForFlavors(flavors).Some? ==> exists f <- flavors :: FromMime(f.mime) == ForFlavors(flavors)
  {
    if flavors != [] {
      var init, last := flavors[..|flavors| - 1], flavors[|flavors| - 1];
      ForFlavorsIsTheRichest(init);
      assert flavors == init + [last];
      assert last in flavors && forall f <- init :: f in flavors;
    }
  }

  /** Dropping flavors leaves the kind alone as long as one of that kind stays. */
  lemma {:induction false} KindOfAThinnedSelection(flavors: seq<Flavor>, thinned: seq<Flavor>, kept: Flavor)
    requires kept in thinned && FromMime(kept.mime).Some? && FromMime(kept.mime) == ForFlavors(flavors)
    requires forall f <- thinned | FromMime(f.mime).Some? ::
               FromMime(f.mime).value.Richness() <= FromMime(kept.mime).value.Richness()
    ensures ForFlavors(thinned) == ForFlavors(flavors)
  {
    ForFlavorsIsTheRichest(thinned);
  }

  /** The flavors that satisfy `keep`, in order. */
  function Filter(flavors: seq<Flavor>, keep: Flavor -> bool): seq<Flavor> {
    if flavors == [] then []
    else
      var init, last := flavors[..|flavors| - 1], flavors[|flavors| - 1];
      Filter(init, keep) + if keep(last) then [last] else []
  }

  predicate HasMime(flavors: seq<Flavor>, mime: string, same: (string, string) -> bool) {
    exists f <- flavors :: same(f.mime, mime)
  }

  /** The first flavor of each MIME type, types being compared with `same`. */
  function FirstOfEach(flavors: seq<Flavor>, same: (string, string) -> bool): seq<Flavor> {
    if flavors == [] then []
    else
      var init, last := FirstOfEach(flavors[..|flavors| - 1], same), flavors[|flavors| - 1];
      init + if HasMime(init, last.mime, same) then [] else [last]
  }

  function Mimes(flavors: seq<Flavor>): seq<string> {
    seq(|flavors|, i requires 0 <= i < |flavors| => flavors[i].mime)
  }

  lemma {:induction false} FilterKeepsExactly(flavors: seq<Flavor>, keep: Flavor -> bool)
    ensures forall f :: f in Filter(flavors, keep) <==> f in flavors && keep(f)
  {
    if flavors != [] {
      var init, last := flavors[..|flavors| - 1], flavors[|flavors| - 1];
      FilterKeepsExactly(init, keep);
      assert flavors == init + [last];
    }
  }

  lemma {:induction false} FilterDistributes(flavors: seq<Flavor>, more: seq<Flavor>, keep: Flavor -> bool)
    ensures Filter(flavors + more, keep) == Filter(flavors, keep) + Filter(more, keep)
  {
    if more == [] {
      assert flavors + more == flavors;
    } else {
      var n := |more| - 1;
      FilterDistributes(flavors, more[..n], keep);
      assert (flavors + more)[..|flavors| + n] == flavors + more[..n];
    }
  }

  lemma {:induction false} FilterOfOneMore(flavors: seq<Flavor>, last: Flavor, keep: Flavor -> bool)
    ensures Filter(flavors + [last], keep) == Filter(flavors, keep) + if keep(last) then [last] else []
  {
    assert (flavors + [last])[..|flavors|] == flavors;
  }

  lemma {:induction false} FilterTwice(
      flavors: seq<Flavor>, keep: Flavor -> bool, also: Flavor -> bool, both: Flavor -> bool)
    requires forall f :: both(f) <==> keep(f) && also(f)
    ensures Filter(Filter(flavors, keep), also) == Filter(flavors, both)
  {
    if flavors != [] {
      var init, last := flavors[..|flavors| - 1], flavors[|flavors| - 1];
      FilterTwice(init, keep, also, both);
      FilterDistributes(Filter(init, keep), if keep(last) then [last] else [], also);
    }
  }

  lemma {:induction false} FirstOfEachIsAmong(flavors: seq<Flavor>, same: (string, string) -> bool)
    ensures forall f <- FirstOfEach(flavors, same) :: f in flavors
  {
    if flavors != [] {
      FirstOfEachIsAmong(flavors[..|flavors| - 1], same);
      assert flavors == flavors[..|flavors| - 1] + [flavors[|flavors| - 1]];
    }
  }

  /** Exact spelling: the comparison the store makes of MIME types. */
  function Identical(mime: string, other: string): bool {
    mime == other
  }

  const I64_MAX: int := 0x7FFF_FFFF_FFFF_FFFF
  const I64_MIN: int := -0x8000_0000_0000_0000

  type Millis = t: int | I64_MIN <= t <= I64_MAX witness 0

  function ClampedToI64(t: int): Millis {
    if t > I64_MAX then I64_MAX else if t < I64_MIN then I64_MIN else t
  }

  /** `Timestamp::saturating_sub`: the age is itself clamped before it is subtracted. */
  function SaturatingSub(now: Millis, age: nat): Millis {
    ClampedToI64(now - ClampedToI64(age))
  }
}
