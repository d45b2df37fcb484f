/** How clippo recognises its own copy-back: an entry put back on the clipboard is captured again
    with the kind and the hash it is stored under. */
module Echo {
  import opened Strings
  import opened Mime
  import opened Entries
  import opened Ranked
  import opened Dedup
  import opened Offer
  import opened Advertised

  predicate MayBeOffered(flavor: Flavor) {
    IsOfferable(flavor.mime)
  }

  predicate IsAdvertised(flavor: Flavor) {
    IsOfferable(flavor.mime) && HasMimeType(flavor)
  }

  /** What of an advertised flavor comes back: a type the watcher reads, within its read cap. */
  function IsReadBack(cap: nat): Flavor -> bool {
    (flavor: Flavor) => IsInteresting(flavor.mime) && |flavor.data| <= cap
  }

  /** One pipe per wanted type, each filled from the offer, each dropped if it is over the cap. */
  function ReadBack(offered: seq<Flavor>, wanted: seq<string>, cap: nat): seq<Flavor> {
    if wanted == [] then []
    else
      var mime := wanted[|wanted| - 1];
      ReadBack(offered, wanted[..|wanted| - 1], cap) +
      match BlobFor(offered, mime)
      case Some(data) => if |data| <= cap then [Flavor(mime, data)] else []
      case None => []
  }

  /** The round trip: filter the stored flavors, offer them, advertise them, pick what is
      interesting of what was recorded, and read that back. */
  function Recaptured(stored: seq<Flavor>, cap: nat): seq<Flavor> {
    var offered := Offered(Filter(stored, MayBeOffered));
    ReadBack(offered, Wanted(Recorded(Mimes(offered))), cap)
  }

  lemma {:induction false} ReadBackOfOneMore(offered: seq<Flavor>, wanted: seq<string>, flavor: Flavor, cap: nat)
    requires BlobFor(offered, flavor.mime) == Some(flavor.data)
    ensures ReadBack(offered, wanted + [flavor.mime], cap) ==
            ReadBack(offered, wanted, cap) + if |flavor.data| <= cap then [flavor] else []
  {
    assert (wanted + [flavor.mime])[..|wanted|] == wanted;
  }

  lemma {:induction false} NewTypeIsNotSeen(mimes: seq<string>, mime: string)
    requires PairwiseDistinct(mimes + [mime])
    ensures PairwiseDistinct(mimes) && !Seen(Wanted(mimes), mime)
  {
    var all := mimes + [mime];
    assert forall i | 0 <= i < |mimes| :: !Same(all[i], all[|mimes|]);
    assert forall i | 0 <= i < |mimes| :: all[i] == mimes[i];
    WantedIsCompleteAndBounded(mimes);
  }

  lemma {:induction false} ReadBackOfPart(offered: seq<Flavor>, part: seq<Flavor>, cap: nat)
    requires PairwiseDistinct(Mimes(part))
    requires forall k | 0 <= k < |part| :: BlobFor(offered, part[k].mime) == Some(part[k].data)
    ensures ReadBack(offered, Wanted(Mimes(part)), cap) == Filter(part, IsReadBack(cap))
  {
    if part != [] {
      var init, last := part[..|part| - 1], part[|part| - 1];
      assert part == init + [last] && Mimes(part) == Mimes(init) + [last.mime];
      NewTypeIsNotSeen(Mimes(init), last.mime);
      ReadBackOfPart(offered, init, cap);
      ReadBackOfLast(offered, Wanted(Mimes(init)), init, last, cap);
      WantedOfOneMore(Mimes(init), last.mime);
    }
  }

  lemma {:induction false} ReadBackOfLast(
      offered: seq<Flavor>, wanted: seq<string>, init: seq<Flavor>, last: Flavor, cap: nat)
    requires BlobFor(offered, last.mime) == Some(last.data)
    requires ReadBack(offered, wanted, cap) == Filter(init, IsReadBack(cap))
    ensures ReadBack(offered, wanted + (if IsInteresting(last.mime) then [last.mime] else []), cap) ==
            Filter(init + [last], IsReadBack(cap))
  {
    FilterOfOneMore(init, last, IsReadBack(cap));
    if IsInteresting(last.mime) {
      ReadBackOfOneMore(offered, wanted, last, cap);
    } else {
      assert wanted + [] == wanted;
    }
  }

  /** The whole round trip is one filter, one deduplication and one more filter. */
  lemma {:induction false} RecapturedIsAFilter(stored: seq<Flavor>, cap: nat)
    ensures Recaptured(stored, cap) == Filter(FirstOfEach(Filter(stored, IsAdvertised), Same), IsReadBack(cap))
  {
    var offered := Offered(Filter(stored, MayBeOffered));
    FilterTwice(stored, MayBeOffered, HasMimeType, IsAdvertised);
    NoTypeTwice(Filter(stored, IsAdvertised));
    BoundedListLosesNothing(Mimes(offered));
    forall k | 0 <= k < |offered| ensures BlobFor(offered, offered[k].mime) == Some(offered[k].data) {
      BlobForItsOwnType(offered, k);
    }
    ReadBackOfPart(offered, offered, cap);
  }

  /** What a caller can check before putting the entry back: the watcher reads its canonical type,
      the blob fits the read cap, and no earlier flavor spells that type another way. */
  predicate ComesBack(stored: seq<Flavor>, i: nat, cap: nat)
    requires i < |stored|
  {
    && IsReadBack(cap)(stored[i])
    && forall j | 0 <= j < i && IsAdvertised(stored[j]) :: !Same(stored[j].mime, stored[i].mime)
  }

  lemma {:induction false} VisibleSurvivesTrim(s: string, c: char)
    requires c in s && !IsWhitespace(c)
    ensures Trim(s) != []
  {
    TrimEndLeavesWhitespace(TrimStart(s));
    TrimStartLeavesWhitespace(s);
  }

  lemma {:induction false} TrimEndLeavesWhitespace(s: string)
    ensures TrimEnd(s) == [] ==> forall c <- s :: IsWhitespace(c)
  {
    if s != [] {
      TrimEndLeavesWhitespace(s[..|s| - 1]);
      assert s == s[..|s| - 1] + [s[|s| - 1]];
    }
  }

  lemma {:induction false} TrimStartLeavesWhitespace(s: string)
    ensures (forall c <- TrimStart(s) :: IsWhitespace(c)) ==> forall c <- s :: IsWhitespace(c)
  {
    if s != [] && IsWhitespace(s[0]) {
      TrimStartLeavesWhitespace(s[1..]);
      assert s == [s[0]] + s[1..];
    }
  }

  lemma {:induction false} SqueezedIsAmong(s: string)
    ensures forall c <- Squeezed(s) :: c in s
  {
    if s != [] {
      SqueezedIsAmong(s[1..]);
      assert s == [s[0]] + s[1..];
    }
  }

  lemma {:induction false} InterestingHasMimeType(flavor: Flavor)
    requires IsInteresting(flavor.mime)
    ensures HasMimeType(flavor)
  {
    var i :| 0 <= i < |INTERESTING_MIMES| && Lowered(INTERESTING_MIMES[i]) == NormalForm(flavor.mime);
    FormsStartWithALetter(i);
    var squeezed := Squeezed(flavor.mime);
    assert NormalForm(flavor.mime)[0] == Lower(squeezed[0]);
    SqueezedIsAmong(flavor.mime);
    VisibleSurvivesTrim(flavor.mime, squeezed[0]);
  }

  lemma {:induction false} FormsStartWithALetter(i: nat)
    requires i < |INTERESTING_MIMES|
    ensures INTERESTING_MIMES[i] != [] && 'a' <= Lowered(INTERESTING_MIMES[i])[0] <= 'z'
  {
  }

  /** Every recaptured flavor is one that was stored. */
  lemma {:induction false} RecapturedIsAmong(stored: seq<Flavor>, cap: nat)
    ensures forall f <- Recaptured(stored, cap) :: f in stored && IsReadBack(cap)(f)
  {
    var sent := Filter(stored, IsAdvertised);
    RecapturedIsAFilter(stored, cap);
    FilterKeepsExactly(stored, IsAdvertised);
    FirstOfEachIsAmong(sent, Same);
    FilterKeepsExactly(FirstOfEach(sent, Same), IsReadBack(cap));
  }

  lemma {:induction false} RankedIsOfferable(kind: EntryKind, flavor: Flavor)
    requires RankingFor(kind)(flavor.mime).Some?
    ensures IsOfferable(flavor.mime)
    ensures FromMime(flavor.mime) == Some(kind)
  {
  }

  lemma {:induction false} NoEarlierSpellingInTheOffer(stored: seq<Flavor>, i: nat, cap: nat, sent: seq<Flavor>, k: nat)
    requires i < |stored| && ComesBack(stored, i, cap)
    requires k < |sent| && sent[k] == stored[i] && sent[..k] == Filter(stored[..i], IsAdvertised)
    ensures forall j | 0 <= j < k :: !Same(sent[j].mime, sent[k].mime)
  {
    FilterKeepsExactly(stored[..i], IsAdvertised);
    forall j | 0 <= j < k ensures !Same(sent[j].mime, sent[k].mime) {
      assert sent[j] == sent[..k][j];
      assert sent[j] in sent[..k];
      var p :| 0 <= p < i && stored[p] == sent[j];
    }
  }

  /** If the canonical flavor is fit to come back, the recapture's canonical flavor is that one. */
  lemma {:induction false} ComesBackAsCanonical(kind: EntryKind, stored: seq<Flavor>, i: nat, cap: nat)
    requires IsCanonical(kind, stored, i) && ComesBack(stored, i, cap)
    ensures Canonical(kind, Recaptured(stored, cap)) == Some(stored[i])
    ensures stored[i] in Recaptured(stored, cap)
  {
    var rank := RankingFor(kind);
    RankedIsOfferable(kind, stored[i]);
    InterestingHasMimeType(stored[i]);
    var sent := Filter(stored, IsAdvertised);
    var k := FilterKeepsTheBest(rank, stored, IsAdvertised, i);
    NoEarlierSpellingInTheOffer(stored, i, cap, sent, k);
    FirstOfEachKeepsTheBest(rank, sent, Same, k);
    var offered := FirstOfEach(sent, Same);
    BestOfIsSomeBest(rank, offered);
    var p: nat :| IsBest(rank, offered, p) && offered[p] == stored[i];
    var q := FilterKeepsTheBest(rank, offered, IsReadBack(cap), p);
    RecapturedIsAFilter(stored, cap);
    assert Recaptured(stored, cap)[q] == stored[i];
  }

  /** If it is not, it is nowhere in the recapture. */
  lemma {:induction false} DoesNotComeBack(kind: EntryKind, stored: seq<Flavor>, i: nat, cap: nat)
    requires IsCanonical(kind, stored, i) && !ComesBack(stored, i, cap)
    ensures stored[i] !in Recaptured(stored, cap)
  {
    RecapturedIsAmong(stored, cap);
    if stored[i] in Recaptured(stored, cap) {
      var j :| 0 <= j < i && IsAdvertised(stored[j]) && Same(stored[j].mime, stored[i].mime);
      EarlierSpellingWins(kind, stored, i, j);
      RecapturedIsAFilter(stored, cap);
      FilterKeepsExactly(FirstOfEach(Filter(stored, IsAdvertised), Same), IsReadBack(cap));
    }
  }

  lemma {:induction false} EarlierSpellingWins(kind: EntryKind, stored: seq<Flavor>, i: nat, j: nat)
    requires IsCanonical(kind, stored, i) && j < i
    requires IsAdvertised(stored[j]) && Same(stored[j].mime, stored[i].mime)
    ensures stored[i] !in FirstOfEach(Filter(stored, IsAdvertised), Same)
  {
    var w := OfferedInstead(stored, i, j);
    var p :| 0 <= p < i && stored[p] == w;
    assert Beats(RankingFor(kind), stored[i].mime, stored[p].mime);
    NoTypeTwice(Filter(stored, IsAdvertised));
    if stored[i] in FirstOfEach(Filter(stored, IsAdvertised), Same) {
      OneOfEachType(FirstOfEach(Filter(stored, IsAdvertised), Same), w, stored[i]);
    }
  }

  /** The spelling that is offered in the place of both. */
  lemma {:induction false} OfferedInstead(stored: seq<Flavor>, i: nat, j: nat) returns (w: Flavor)
    requires j < i < |stored| && IsAdvertised(stored[j])
    ensures w in stored[..i] && Same(w.mime, stored[j].mime)
    ensures w in FirstOfEach(Filter(stored, IsAdvertised), Same)
  {
    hide IsAdvertised;
    hide FirstOfEach;
    hide Filter;
    var early := Filter(stored[..i], IsAdvertised);
    FilterKeepsExactly(stored[..i], IsAdvertised);
    assert stored[j] == stored[..i][j];
    EveryTypeOnce(early, stored[j]);
    var firsts := FirstOfEach(early, Same);
    var q :| 0 <= q < |firsts| && Same(firsts[q].mime, stored[j].mime);
    w := firsts[q];
    FirstOfEachIsAmong(early, Same);
    OfferGrows(stored, i);
    assert FirstOfEach(Filter(stored, IsAdvertised), Same)[q] == w;
  }

  lemma {:induction false} OfferGrows(stored: seq<Flavor>, i: nat)
    requires i <= |stored|
    ensures FirstOfEach(Filter(stored[..i], IsAdvertised), Same) <= FirstOfEach(Filter(stored, IsAdvertised), Same)
  {
    hide IsAdvertised;
    hide FirstOfEach;
    assert stored == stored[..i] + stored[i..];
    FilterDistributes(stored[..i], stored[i..], IsAdvertised);
    FirstOfEachGrows(Filter(stored[..i], IsAdvertised), Filter(stored[i..], IsAdvertised));
  }

  lemma {:induction false} OneOfEachType(offered: seq<Flavor>, f: Flavor, g: Flavor)
    requires PairwiseDistinct(Mimes(offered)) && f in offered && g in offered && Same(f.mime, g.mime)
    ensures f == g
  {
    var i :| 0 <= i < |offered| && offered[i] == f;
    var j :| 0 <= j < |offered| && offered[j] == g;
    assert i == j by {
      assert Mimes(offered)[i] == f.mime;
      assert Mimes(offered)[j] == g.mime;
    }
  }

  /** The very flavor an entry's identity rests on is that of the recapture, under the same kind, if
      and only if it is fit to come back. Then, and whatever BLAKE3 is, the hashes agree. */
  lemma {:induction false} CanonicalFlavorComesBack(
      blake3: Blake3, kind: EntryKind, stored: seq<Flavor>, i: nat, cap: nat)
    requires IsCanonical(kind, stored, i) && ForFlavors(stored) == Some(kind)
    ensures var back := Recaptured(stored, cap);
            ComesBack(stored, i, cap) <==>
            (ForFlavors(back) == Some(kind) && Canonical(kind, back) == Some(stored[i]))
    ensures ComesBack(stored, i, cap) ==>
              Hash(blake3, kind, Recaptured(stored, cap)) == Hash(blake3, kind, stored)
  {
    hide FromMime;
    hide Rank;
    var back := Recaptured(stored, cap);
    BestOfIsTheFirstBest(RankingFor(kind), stored, i);
    if ComesBack(stored, i, cap) {
      ComesBackAsCanonical(kind, stored, i, cap);
      RecapturedIsAmong(stored, cap);
      ForFlavorsIsTheRichest(stored);
      RankedIsOfferable(kind, stored[i]);
      KindOfAThinnedSelection(stored, back, stored[i]);
    } else {
      DoesNotComeBack(kind, stored, i, cap);
      BestOfIsSomeBest(RankingFor(kind), back);
    }
  }

  // ---- Recognition: the guard compares hashes, and nothing else ----

  /** Offered, read back, and under its own spelling. */
  predicate IsFit(stored: seq<Flavor>, j: nat, cap: nat)
    requires j < |stored|
  {
    IsAdvertised(stored[j]) && ComesBack(stored, j, cap)
  }

  function FitOnes(stored: seq<Flavor>, cap: nat): seq<Flavor> {
    if stored == [] then []
    else
      var n := |stored| - 1;
      FitOnes(stored[..n], cap) + if IsFit(stored, n, cap) then [stored[n]] else []
  }

  lemma {:induction false} FitInAPrefix(stored: seq<Flavor>, j: nat, cap: nat)
    requires j < |stored| - 1
    ensures IsFit(stored, j, cap) == IsFit(stored[..|stored| - 1], j, cap)
  {
  }

  lemma {:induction false} OfferedAlready(init: seq<Flavor>, mime: string)
    ensures HasMime(FirstOfEach(Filter(init, IsAdvertised), Same), mime, Same) <==>
            exists j :: 0 <= j < |init| && IsAdvertised(init[j]) && Same(init[j].mime, mime)
  {
    hide IsAdvertised;
    var sent := Filter(init, IsAdvertised);
    var firsts := FirstOfEach(sent, Same);
    FilterKeepsExactly(init, IsAdvertised);
    FirstOfEachIsAmong(sent, Same);
    if HasMime(firsts, mime, Same) {
      var f :| f in firsts && Same(f.mime, mime);
      assert f in init && IsAdvertised(f);
    }
    if j :| 0 <= j < |init| && IsAdvertised(init[j]) && Same(init[j].mime, mime) {
      assert init[j] in sent;
      EveryTypeOnce(sent, init[j]);
      var f :| f in firsts && Same(f.mime, init[j].mime);
      assert Same(f.mime, mime);
    }
  }

  lemma {:induction false} LastIsFit(stored: seq<Flavor>, cap: nat)
    requires stored != []
    ensures var n := |stored| - 1;
            IsFit(stored, n, cap) <==>
            && IsAdvertised(stored[n]) && IsReadBack(cap)(stored[n])
            && !HasMime(FirstOfEach(Filter(stored[..n], IsAdvertised), Same), stored[n].mime, Same)
  {
    hide IsAdvertised;
    hide IsReadBack;
    hide Same;
    hide Filter;
    hide FirstOfEach;
    hide HasMime;
    OfferedAlready(stored[..|stored| - 1], stored[|stored| - 1].mime);
  }

  lemma {:induction false} FirstsOfOneMore(flavors: seq<Flavor>, last: Flavor)
    ensures var firsts := FirstOfEach(flavors, Same);
            FirstOfEach(flavors + [last], Same) == firsts + if HasMime(firsts, last.mime, Same) then [] else [last]
  {
    assert (flavors + [last])[..|flavors|] == flavors;
  }

  /** The recapture, flavor by flavor: exactly what is fit to come back, in stored order. */
  lemma {:induction false} RecapturedIsWhatIsFit(stored: seq<Flavor>, cap: nat)
    ensures Filter(FirstOfEach(Filter(stored, IsAdvertised), Same), IsReadBack(cap)) == FitOnes(stored, cap)
  {
    hide IsFit;
    hide HasMime;
    hide IsAdvertised;
    hide IsReadBack;
    if stored != [] {
      hide FirstOfEach;
      var n := |stored| - 1;
      var last := stored[n];
      RecapturedIsWhatIsFit(stored[..n], cap);
      LastIsFit(stored, cap);
      var sent := Filter(stored[..n], IsAdvertised);
      var firsts := FirstOfEach(sent, Same);
      FirstsOfOneMore(sent, last);
      FilterOfOneMore(firsts, last, IsReadBack(cap));
      assert sent + [] == sent && firsts + [] == firsts;
    }
  }

  /** The flavor at `j` is the first of the best-ranked among those that are fit. */
  ghost predicate IsBestFit(rank: Ranking, stored: seq<Flavor>, cap: nat, j: nat) {
    && j < |stored| && IsFit(stored, j, cap) && rank(stored[j].mime).Some?
    && (forall k | 0 <= k < j && IsFit(stored, k, cap) :: Beats(rank, stored[j].mime, stored[k].mime))
    && (forall k | j <= k < |stored| && IsFit(stored, k, cap) :: !Beats(rank, stored[k].mime, stored[j].mime))
  }

  lemma {:induction false} BestFitIsUnique(rank: Ranking, stored: seq<Flavor>, cap: nat, j: nat, k: nat)
    requires IsBestFit(rank, stored, cap, j) && IsBestFit(rank, stored, cap, k)
    ensures j == k
  {
    hide IsFit;
  }

  lemma {:induction false} BestFitIsTheBest(rank: Ranking, stored: seq<Flavor>, cap: nat)
    ensures match BestOf(rank, FitOnes(stored, cap))
            case None => forall j | 0 <= j < |stored| && IsFit(stored, j, cap) :: rank(stored[j].mime).None?
            case Some(flavor) => exists j: nat :: IsBestFit(rank, stored, cap, j) && stored[j] == flavor
  {
    hide IsFit;
    if stored != [] {
      var n := |stored| - 1;
      var init, last := stored[..n], stored[n];
      var fit := FitOnes(init, cap);
      BestFitIsTheBest(rank, init, cap);
      forall j: nat | j < n ensures IsFit(stored, j, cap) == IsFit(init, j, cap) && stored[j] == init[j] {
        FitInAPrefix(stored, j, cap);
      }
      BestOfOneMore(rank, fit, last);
      assert fit + [] == fit;
      var best := BestOf(rank, fit);
      if best.Some? {
        var j: nat :| IsBestFit(rank, init, cap, j) && init[j] == best.value;
        var k := if IsFit(stored, n, cap) && Beats(rank, last.mime, init[j].mime) then n else j;
        assert IsBestFit(rank, stored, cap, k);
      } else if IsFit(stored, n, cap) && rank(last.mime).Some? {
        assert IsBestFit(rank, stored, cap, n);
      }
    }
  }

  /** What the hash is taken of. */
  predicate SameIdentity(f: Flavor, g: Flavor) {
    Essence(f.mime) == Essence(g.mime) && f.data == g.data
  }

  /** No two of these flavors hash alike without being the same content of the same type. */
  ghost predicate NoCollision(blake3: Blake3, flavors: seq<Flavor>) {
    forall f <- flavors, g <- flavors | HashFlavor(blake3, f) == HashFlavor(blake3, g) :: SameIdentity(f, g)
  }

  /** What the guard asks of a capture: it has a kind and, under that kind, this hash. */
  predicate IsRecognised(blake3: Blake3, captured: seq<Flavor>, hash: Option<string>) {
    hash.Some? && ForFlavors(captured).Some? && Hash(blake3, ForFlavors(captured).value, captured) == hash
  }

  /** What decides recognition: the best-ranked of the flavors that are fit to come back has the
      content and the type of the canonical one. */
  ghost predicate StandsIn(kind: EntryKind, stored: seq<Flavor>, i: nat, cap: nat)
    requires i < |stored|
  {
    exists j: nat :: IsBestFit(RankingFor(kind), stored, cap, j) && SameIdentity(stored[j], stored[i])
  }

  lemma {:induction false} SameEssenceSameKind(f: Flavor, g: Flavor, kind: EntryKind)
    requires SameIdentity(f, g) && RankingFor(kind)(g.mime).Some?
    ensures FromMime(f.mime) == Some(kind)
  {
    RankedIsOfferable(kind, g);
  }

  /** The kind of a recapture is never richer, and is the stored one if a flavor of it is there. */
  lemma {:induction false} KindOfTheRecapture(kind: EntryKind, stored: seq<Flavor>, cap: nat, f: Flavor)
    requires ForFlavors(stored) == Some(kind) && f in Recaptured(stored, cap) && FromMime(f.mime) == Some(kind)
    ensures ForFlavors(Recaptured(stored, cap)) == Some(kind)
  {
    hide FromMime;
    RecapturedIsAmong(stored, cap);
    ForFlavorsIsTheRichest(stored);
    KindOfAThinnedSelection(stored, Recaptured(stored, cap), f);
  }

  /** The canonical flavor of a recapture, under any kind. */
  lemma {:induction false} CanonicalOfTheRecapture(kind: EntryKind, stored: seq<Flavor>, cap: nat)
    ensures match Canonical(kind, Recaptured(stored, cap))
            case None => forall j: nat :: !IsBestFit(RankingFor(kind), stored, cap, j)
            case Some(flavor) =>
              && flavor in Recaptured(stored, cap) && flavor in stored && RankingFor(kind)(flavor.mime).Some?
              && exists j: nat :: IsBestFit(RankingFor(kind), stored, cap, j) && stored[j] == flavor
  {
    hide IsFit;
    hide Rank;
    hide IsReadBack;
    hide IsAdvertised;
    RecapturedIsAFilter(stored, cap);
    RecapturedIsWhatIsFit(stored, cap);
    RecapturedIsAmong(stored, cap);
    BestFitIsTheBest(RankingFor(kind), stored, cap);
    BestOfIsSomeBest(RankingFor(kind), Recaptured(stored, cap));
  }

  /** Echo identity, exactly. An entry put back on the clipboard is recognised if the best of what is
      fit to come back has the canonical flavor's content and type, whatever BLAKE3 is; and, as long
      as BLAKE3 does not collide on what the entry holds, only if. */
  lemma {:induction false} EchoIdentity(blake3: Blake3, kind: EntryKind, stored: seq<Flavor>, i: nat, cap: nat)
    requires IsCanonical(kind, stored, i) && ForFlavors(stored) == Some(kind)
    ensures StandsIn(kind, stored, i, cap) ==>
              && ForFlavors(Recaptured(stored, cap)) == Some(kind)
              && IsRecognised(blake3, Recaptured(stored, cap), Hash(blake3, kind, stored))
    ensures NoCollision(blake3, stored) ==>
              (StandsIn(kind, stored, i, cap) <==>
               IsRecognised(blake3, Recaptured(stored, cap), Hash(blake3, kind, stored)))
  {
    hide FromMime;
    hide Rank;
    hide Recaptured;
    hide IsBestFit;
    var back := Recaptured(stored, cap);
    BestOfIsTheFirstBest(RankingFor(kind), stored, i);
    CanonicalOfTheRecapture(kind, stored, cap);
    if StandsIn(kind, stored, i, cap) {
      StandInIsRecognised(blake3, kind, stored, i, cap);
    }
    if NoCollision(blake3, stored) && IsRecognised(blake3, back, Hash(blake3, kind, stored)) {
      RecognisedStandsIn(blake3, kind, stored, i, cap);
    }
  }

  lemma {:induction false} StandInIsRecognised(
      blake3: Blake3, kind: EntryKind, stored: seq<Flavor>, i: nat, cap: nat)
    requires IsCanonical(kind, stored, i) && ForFlavors(stored) == Some(kind) && StandsIn(kind, stored, i, cap)
    ensures ForFlavors(Recaptured(stored, cap)) == Some(kind)
    ensures IsRecognised(blake3, Recaptured(stored, cap), Hash(blake3, kind, stored))
  {
    hide FromMime;
    hide Rank;
    hide Recaptured;
    hide IsFit;
    var rank := RankingFor(kind);
    BestOfIsTheFirstBest(rank, stored, i);
    CanonicalOfTheRecapture(kind, stored, cap);
    var j: nat :| IsBestFit(rank, stored, cap, j) && SameIdentity(stored[j], stored[i]);
    var flavor := Canonical(kind, Recaptured(stored, cap)).value;
    var k: nat :| IsBestFit(rank, stored, cap, k) && stored[k] == flavor;
    BestFitIsUnique(rank, stored, cap, j, k);
    RankedIsOfferable(kind, flavor);
    KindOfTheRecapture(kind, stored, cap, flavor);
  }

  lemma {:induction false} RecognisedStandsIn(
      blake3: Blake3, kind: EntryKind, stored: seq<Flavor>, i: nat, cap: nat)
    requires IsCanonical(kind, stored, i) && NoCollision(blake3, stored)
    requires IsRecognised(blake3, Recaptured(stored, cap), Hash(blake3, kind, stored))
    ensures StandsIn(kind, stored, i, cap)
  {
    hide FromMime;
    hide Rank;
    hide Recaptured;
    hide IsFit;
    BestOfIsTheFirstBest(RankingFor(kind), stored, i);
    var other := ForFlavors(Recaptured(stored, cap)).value;
    CanonicalOfTheRecapture(other, stored, cap);
    var flavor := Canonical(other, Recaptured(stored, cap)).value;
    assert stored[i] in stored && SameIdentity(flavor, stored[i]);
    RankedIsOfferable(other, flavor);
    SameEssenceSameKind(flavor, stored[i], kind);
  }

  /** Spellings free of whitespace always come back. */
  lemma {:induction false} CompactSpellingsComeBack(kind: EntryKind, stored: seq<Flavor>, i: nat, cap: nat)
    requires IsCanonical(kind, stored, i) && IsReadBack(cap)(stored[i])
    requires forall f <- stored | IsOfferable(f.mime) :: Compact(f.mime)
    ensures ComesBack(stored, i, cap)
  {
    RankedIsOfferable(kind, stored[i]);
    assert Compact(stored[i].mime);
    forall j | 0 <= j < i && IsAdvertised(stored[j]) ensures !Same(stored[j].mime, stored[i].mime) {
      assert Beats(RankingFor(kind), stored[i].mime, stored[j].mime);
      assert stored[j] in stored && Compact(stored[j].mime);
      if Same(stored[j].mime, stored[i].mime) {
        CompactSpellingsRankAlike(kind, stored[j].mime, stored[i].mime);
        assert false;
      }
    }
  }

  /** So do flavors of which no two offerable ones name the same type, whitespace or not: that is
      what the watcher captures. */
  lemma {:induction false} DistinctTypesComeBack(stored: seq<Flavor>, i: nat, cap: nat)
    requires i < |stored| && IsReadBack(cap)(stored[i])
    requires forall a, b | 0 <= a < b < |stored| && IsOfferable(stored[a].mime) :: !Same(stored[a].mime, stored[b].mime)
    ensures ComesBack(stored, i, cap)
  {
  }

  /** Nothing stands in for a canonical flavor that is over the read cap: what has its content is as
      large. */
  lemma {:induction false} OverTheCapIsNotRecognised(
      blake3: Blake3, kind: EntryKind, stored: seq<Flavor>, i: nat, cap: nat)
    requires IsCanonical(kind, stored, i) && ForFlavors(stored) == Some(kind)
    requires |stored[i].data| > cap && NoCollision(blake3, stored)
    ensures !IsRecognised(blake3, Recaptured(stored, cap), Hash(blake3, kind, stored))
  {
    hide Rank;
    hide Recaptured;
    hide IsRecognised;
    EchoIdentity(blake3, kind, stored, i, cap);
  }

  /** A flavor that is fit but stands for another one is not recognised either: an earlier spelling
      with a space in it is a worse `text` flavor, is offered in place of the canonical one, and does
      not hash like it, whatever the two hold. */
  lemma {:induction false} AnEarlierSpellingLosesTheEcho(blake3: Blake3, spaced: Flavor, plain: Flavor, cap: nat)
    requires spaced.mime == "text/ plain" && plain.mime == "text/plain"
    requires NoCollision(blake3, [spaced, plain])
    ensures IsCanonical(Text, [spaced, plain], 1) && ForFlavors([spaced, plain]) == Some(Text)
    ensures plain !in Recaptured([spaced, plain], cap)
    ensures !IsRecognised(blake3, Recaptured([spaced, plain], cap), Hash(blake3, Text, [spaced, plain]))
  {
    TwoSpellings(spaced.mime, plain.mime);
    TwoEssences(blake3, spaced, plain, cap);
  }

  lemma {:induction false} TwoEssences(blake3: Blake3, spaced: Flavor, plain: Flavor, cap: nat)
    requires Same(spaced.mime, plain.mime) && IsOfferable(spaced.mime) && Trim(spaced.mime) != []
    requires FromMime(spaced.mime) == FromMime(plain.mime) == Some(Text)
    requires Beats(RankingFor(Text), plain.mime, spaced.mime) && Essence(spaced.mime) != Essence(plain.mime)
    requires NoCollision(blake3, [spaced, plain])
    ensures IsCanonical(Text, [spaced, plain], 1) && ForFlavors([spaced, plain]) == Some(Text)
    ensures plain !in Recaptured([spaced, plain], cap)
    ensures !IsRecognised(blake3, Recaptured([spaced, plain], cap), Hash(blake3, Text, [spaced, plain]))
  {
    hide Rank;
    hide Essence;
    hide FromMime;
    hide Recaptured;
    hide IsRecognised;
    hide IsOfferable;
    hide NormalForm;
    hide Trim;
    hide IsReadBack;
    var stored := [spaced, plain];
    KindOfTwo(spaced, plain);
    BestOfTwo(RankingFor(Text), spaced, plain);
    assert IsAdvertised(stored[0]) && !ComesBack(stored, 1, cap);
    DoesNotComeBack(Text, stored, 1, cap);
    EchoIdentity(blake3, Text, stored, 1, cap);
  }

  lemma {:induction false} BestOfTwo(rank: Ranking, a: Flavor, b: Flavor)
    requires Beats(rank, b.mime, a.mime)
    ensures IsBest(rank, [a, b], 1)
  {
  }

  lemma {:induction false} KindOfTwo(a: Flavor, b: Flavor)
    requires FromMime(a.mime) == FromMime(b.mime)
    ensures ForFlavors([a, b]) == FromMime(a.mime)
  {
    assert [a, b][..1] == [a] && [a][..0] == [];
    assert ForFlavors([a]) == Richer(ForFlavors([]), FromMime(a.mime));
  }

  lemma {:induction false} PlainEssence(mime: string)
    requires mime != [] && !IsWhitespace(mime[0]) && !IsWhitespace(mime[|mime| - 1])
    requires ';' !in mime && Lowered(mime) == mime
    ensures Essence(mime) == mime && Trim(mime) == mime
  {
    BeforeWhatIsNotThere(mime, ';');
  }

  lemma {:induction false} BeforeWhatIsNotThere(s: string, c: char)
    requires c !in s
    ensures Before(s, c) == s
  {
    if s != [] {
      assert c !in s[1..];
      BeforeWhatIsNotThere(s[1..], c);
    }
  }

  lemma {:induction false} SqueezedOfTwo(s: string, t: string)
    requires Compact(s) && Compact(t)
    ensures Squeezed(s + " " + t) == s + t
  {
    if s == [] {
      CompactIsItsOwnSqueeze(t);
      assert (s + " " + t)[1..] == t;
    } else {
      assert s[0] in s && forall c <- s[1..] :: c in s;
      SqueezedOfTwo(s[1..], t);
      assert (s + " " + t)[1..] == s[1..] + " " + t;
    }
  }

  lemma {:induction false} TwoSpellings(spaced: string, plain: string)
    requires spaced == "text/ plain" && plain == "text/plain"
    ensures Same(spaced, plain) && IsOfferable(spaced) && Trim(spaced) != []
    ensures FromMime(spaced) == FromMime(plain) == Some(Text)
    ensures Beats(RankingFor(Text), plain, spaced) && Essence(spaced) != Essence(plain)
  {
    PlainEssence(spaced);
    PlainEssence(plain);
    SameForms(spaced, plain, "text/", "plain");
    ShortForm(spaced);
    ShortForm(plain);
    RankedByEssence(spaced);
    RankedByEssence(plain);
  }

  lemma {:induction false} SameForms(spaced: string, plain: string, front: string, back: string)
    requires spaced == front + " " + back && plain == front + back && Compact(front) && Compact(back)
    ensures NormalForm(spaced) == NormalForm(plain) == Lowered(plain)
  {
    SqueezedOfTwo(front, back);
    CompactIsItsOwnSqueeze(plain);
  }

  /** Too short to be the thumbnail's type or to name a character set. */
  lemma {:induction false} ShortForm(mime: string)
    requires |NormalForm(mime)| == 10
    ensures !IsThumbnail(mime) && IsOfferable(mime)
    ensures !Contains(NormalForm(mime), "charset=utf-8")
  {
  }

  lemma {:induction false} RankedByEssence(mime: string)
    requires Essence(mime) == mime && ("text/ " <= mime || mime == "text/plain")
    requires !IsThumbnail(mime) && !Contains(NormalForm(mime), "charset=utf-8")
    ensures FromMime(mime) == Some(Text)
    ensures RankingFor(Text)(mime) == Some(if mime == "text/plain" then 2 else 1)
  {
    KindOfTheTwoEssences(mime);
  }

  lemma {:induction false} KindOfTheTwoEssences(essence: string)
    requires "text/ " <= essence || essence == "text/plain"
    ensures KindOfEssence(essence) == Some(Text)
  {
    assert essence[0] == 't' && essence[5] in {' ', 'p'};
    assert "text/" <= essence;
  }
}
