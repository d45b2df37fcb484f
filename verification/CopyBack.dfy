/** From a capture, through the store, back onto the clipboard, and round to the capture again. */
module CopyBack {
  import opened Strings
  import opened Mime
  import opened Entries
  import opened Ranked
  import opened Dedup
  import opened Flavors
  import opened Storage
  import opened Advertised
  import opened Echo
  import opened Offer

  /** What a selection captured by the watcher looks like: types it reads, no type twice, nothing
      over the read cap. */
  ghost predicate IsWatched(captured: seq<Flavor>, cap: nat) {
    && PairwiseDistinct(Mimes(captured))
    && forall f <- captured :: IsReadBack(cap)(f)
  }

  lemma {:induction false} CapturedAreAmong(slots: seq<Slot>)
    ensures forall f <- Captured(slots) :: Done(f) in slots
  {
    if slots != [] {
      var init, last := slots[..|slots| - 1], slots[|slots| - 1];
      CapturedAreAmong(init);
      assert slots == init + [last];
    }
  }

  lemma {:induction false} CapturedAreDistinct(slots: seq<Slot>)
    requires PairwiseDistinct(MimesOf(slots))
    ensures PairwiseDistinct(Mimes(Captured(slots)))
  {
    if slots != [] {
      var n := |slots| - 1;
      var init, last := slots[..n], slots[n];
      assert MimesOf(slots) == MimesOf(init) + [MimeOf(last)];
      forall i, j | 0 <= i < j < n ensures !Same(MimesOf(init)[i], MimesOf(init)[j]) {
        assert !Same(MimesOf(slots)[i], MimesOf(slots)[j]);
      }
      CapturedAreDistinct(init);
      var captured := Captured(init);
      if last.Done? {
        CapturedAreAmong(init);
        forall m <- Mimes(captured) ensures !Same(m, last.flavor.mime) {
          var k :| 0 <= k < |captured| && captured[k].mime == m;
          var f := captured[k];
          assert f in captured && Done(f) in init;
          var p :| 0 <= p < n && slots[p] == Done(f);
          assert !Same(MimesOf(slots)[p], MimesOf(slots)[n]);
        }
        assert Mimes(captured + [last.flavor]) == Mimes(captured) + [last.flavor.mime];
        DistinctWithOneMore(Mimes(captured), last.flavor.mime);
      } else {
        assert captured + [] == captured;
      }
    }
  }

  lemma {:induction false} WantedReadsAreWatched(advertised: seq<string>, slots: seq<Slot>, cap: nat)
    requires MimesOf(slots) == Wanted(advertised)
    requires forall s <- slots | s.Done? :: |s.flavor.data| <= cap
    ensures IsWatched(Captured(slots), cap)
  {
    WantedIsCompleteAndBounded(advertised);
    CapturedAreDistinct(slots);
    CapturedAreAmong(slots);
    forall f <- Captured(slots) ensures IsReadBack(cap)(f) {
      var p :| 0 <= p < |slots| && slots[p] == Done(f);
      assert MimesOf(slots)[p] == f.mime;
    }
  }

  lemma {:induction false} FilteredStayDistinct(flavors: seq<Flavor>, keep: Flavor -> bool)
    requires PairwiseDistinct(Mimes(flavors))
    ensures PairwiseDistinct(Mimes(Filter(flavors, keep)))
  {
    if flavors != [] {
      var n := |flavors| - 1;
      var init, last := flavors[..n], flavors[n];
      forall i, j | 0 <= i < j < n ensures !Same(Mimes(init)[i], Mimes(init)[j]) {
        assert !Same(Mimes(flavors)[i], Mimes(flavors)[j]);
      }
      FilteredStayDistinct(init, keep);
      FilterKeepsExactly(init, keep);
      var kept := Filter(init, keep);
      if keep(last) {
        forall m <- Mimes(kept) ensures !Same(m, last.mime) {
          var k :| 0 <= k < |kept| && kept[k].mime == m;
          assert kept[k] in kept;
          var p :| 0 <= p < n && flavors[p] == kept[k];
          assert !Same(Mimes(flavors)[p], Mimes(flavors)[n]);
        }
        assert Mimes(kept + [last]) == Mimes(kept) + [last.mime];
        DistinctWithOneMore(Mimes(kept), last.mime);
      } else {
        assert kept + [] == kept;
      }
    }
  }

  /** What is read back of clippo's own offer is such a selection too. */
  lemma {:induction false} ReadBackIsWatched(stored: seq<Flavor>, cap: nat)
    ensures IsWatched(Recaptured(stored, cap), cap)
  {
    hide IsReadBack;
    hide IsAdvertised;
    hide Recaptured;
    hide Same;
    RecapturedIsAFilter(stored, cap);
    var sent := FirstOfEach(Filter(stored, IsAdvertised), Same);
    NoTypeTwice(Filter(stored, IsAdvertised));
    FilteredStayDistinct(sent, IsReadBack(cap));
    FilterKeepsExactly(sent, IsReadBack(cap));
  }

  /** Reading what is wanted of an offer gives such a selection, whatever was advertised and
      whichever reads failed. */
  lemma {:induction false} ReadsAreWatched(advertised: seq<string>, slots: seq<Slot>, cap: nat)
    requires MimesOf(slots) == Wanted(Recorded(advertised))
    requires forall s <- slots | s.Done? :: |s.flavor.data| <= cap
    ensures IsWatched(Captured(slots), cap)
  {
    BoundedListLosesNothing(advertised);
    WantedReadsAreWatched(Recorded(advertised), slots, cap);
  }

  lemma {:induction false} ThumbnailIsNotRanked(kind: EntryKind, flavor: Flavor)
    requires flavor.mime == THUMBNAIL_MIME
    ensures RankingFor(kind)(flavor.mime).None? && !IsAdvertised(flavor)
  {
    hide NormalForm;
    hide Preference;
    ThumbnailIsItsOwnForm(flavor.mime);
  }

  lemma {:induction false} StoredKind(
    kind: EntryKind, captured: seq<Flavor>, cap: nat, thumbnailer: Thumbnailer, canonical: Flavor)
    requires StorableFlavors(kind, captured, cap).Storable? && ForFlavors(captured) == Some(kind)
    requires FromMime(canonical.mime) == Some(kind)
    requires canonical in StoredFlavors(kind, captured, cap, thumbnailer)
    ensures ForFlavors(StoredFlavors(kind, captured, cap, thumbnailer)) == Some(kind)
  {
    hide FromMime;
    hide Canonical;
    var kept := StorableFlavors(kind, captured, cap).flavors;
    var stored := StoredFlavors(kind, captured, cap, thumbnailer);
    FirstOfEachIsAmong(captured, Identical);
    FilterKeepsExactly(FirstOfEach(captured, Identical), FitsImageCap(cap));
    ForFlavorsIsTheRichest(captured);
    forall f <- stored | FromMime(f.mime).Some? ensures FromMime(f.mime).value.Richness() <= kind.Richness() {
      if f !in kept {
        assert ThumbnailFor(thumbnailer, kind, kept) != [];
      }
    }
    KindOfAThinnedSelection(captured, stored, canonical);
  }

  function StoredFlavors(kind: EntryKind, captured: seq<Flavor>, cap: nat, thumbnailer: Thumbnailer): seq<Flavor>
    requires StorableFlavors(kind, captured, cap).Storable?
  {
    var kept := StorableFlavors(kind, captured, cap).flavors;
    kept + ThumbnailFor(thumbnailer, kind, kept)
  }

  /** Stored flavors that, put back on the clipboard, are captured under the kind and hash they are
      stored under. */
  ghost predicate ComesHome(blake3: Blake3, kind: EntryKind, hash: string, stored: seq<Flavor>, cap: nat) {
    && ForFlavors(stored) == Some(kind) && Hash(blake3, kind, stored) == Some(hash)
    && exists i: nat :: i < |stored| && IsCanonical(kind, stored, i) && ComesBack(stored, i, cap)
  }

  /** Whatever the watcher captured, if the store took it then what is stored of it comes home. No
      spelling of a type is excluded. */
  lemma {:induction false} WatchedComesHome(
    blake3: Blake3, thumbnailer: Thumbnailer, kind: EntryKind, captured: seq<Flavor>, imageCap: nat, readCap: nat)
    requires IsWatched(captured, readCap)
    requires ForFlavors(captured) == Some(kind) && Canonical(kind, captured).Some?
    requires StorableFlavors(kind, captured, imageCap).Storable?
    ensures ComesHome(blake3, kind, Hash(blake3, kind, captured).value,
                      StoredFlavors(kind, captured, imageCap, thumbnailer), readCap)
  {
    hide StorableFlavors;
    hide ThumbnailFor;
    hide Rank;
    hide IsReadBack;
    hide DistinctMimes;
    var stored := StoredFlavors(kind, captured, imageCap, thumbnailer);
    StoringKeepsTheCanonicalFlavor(kind, captured, imageCap, thumbnailer);
    BestOfIsSomeBest(RankingFor(kind), stored);
    var i: nat :| IsBest(RankingFor(kind), stored, i) && Canonical(kind, stored) == Some(stored[i]);
    RankedIsOfferable(kind, stored[i]);
    StoredKind(kind, captured, imageCap, thumbnailer, stored[i]);
    WatchedComesBack(kind, captured, stored, i, readCap);
  }

  lemma {:induction false} CanonicalMayBeOffered(kind: EntryKind, stored: seq<Flavor>, i: nat)
    requires i < |stored| && IsCanonical(kind, stored, i)
    ensures MayBeOffered(stored[i])
  {
    hide Rank;
    hide IsOfferable;
    RankedIsOfferable(kind, stored[i]);
  }

  /** What comes home is offered, and is recognised when it is read back. */
  lemma {:induction false} WhatComesHomeIsRecognised(
    blake3: Blake3, kind: EntryKind, hash: string, stored: seq<Flavor>, cap: nat)
    requires ComesHome(blake3, kind, hash, stored, cap)
    ensures var back := Recaptured(stored, cap);
            ForFlavors(back) == Some(kind) && Hash(blake3, kind, back) == Some(hash)
    ensures Filter(stored, MayBeOffered) != []
  {
    hide IsCanonical;
    hide ComesBack;
    hide ForFlavors;
    hide Canonical;
    hide HashFlavor;
    hide Recaptured;
    hide MayBeOffered;
    hide Filter;
    var i: nat :| i < |stored| && IsCanonical(kind, stored, i) && ComesBack(stored, i, cap);
    CanonicalFlavorComesBack(blake3, kind, stored, i, cap);
    CanonicalMayBeOffered(kind, stored, i);
    FilterKeepsExactly(stored, MayBeOffered);
    assert stored[i] in stored;
  }

  /** From the capture to the second capture in one line: kind and hash are those of the first. */
  lemma {:induction false} CopyBackIsRecognised(
    blake3: Blake3, thumbnailer: Thumbnailer, kind: EntryKind, captured: seq<Flavor>, imageCap: nat, readCap: nat)
    requires IsWatched(captured, readCap)
    requires ForFlavors(captured) == Some(kind) && Canonical(kind, captured).Some?
    requires StorableFlavors(kind, captured, imageCap).Storable?
    ensures var back := Recaptured(StoredFlavors(kind, captured, imageCap, thumbnailer), readCap);
            ForFlavors(back) == Some(kind) && Hash(blake3, kind, back) == Hash(blake3, kind, captured)
  {
    hide StorableFlavors;
    hide Recaptured;
    hide Rank;
    hide IsReadBack;
    hide ComesHome;
    WatchedComesHome(blake3, thumbnailer, kind, captured, imageCap, readCap);
    WhatComesHomeIsRecognised(blake3, kind, Hash(blake3, kind, captured).value,
                              StoredFlavors(kind, captured, imageCap, thumbnailer), readCap);
  }

  /** An entry the watcher captured under one read cap is recognised under another exactly if its
      canonical flavor fits that one, as long as BLAKE3 does not collide on what the entry holds. */
  lemma {:induction false} WatchedIsRecognisedIfItFits(
    blake3: Blake3, thumbnailer: Thumbnailer, kind: EntryKind, captured: seq<Flavor>, imageCap: nat, wide: nat,
    cap: nat)
    requires IsWatched(captured, wide)
    requires ForFlavors(captured) == Some(kind) && Canonical(kind, captured).Some?
    requires StorableFlavors(kind, captured, imageCap).Storable?
    requires NoCollision(blake3, StoredFlavors(kind, captured, imageCap, thumbnailer))
    ensures IsRecognised(blake3, Recaptured(StoredFlavors(kind, captured, imageCap, thumbnailer), cap),
                         Hash(blake3, kind, captured)) <==>
            |Canonical(kind, captured).value.data| <= cap
  {
    hide StorableFlavors;
    hide ThumbnailFor;
    hide StoredFlavors;
    hide Recaptured;
    hide Rank;
    hide FromMime;
    hide IsRecognised;
    var stored := StoredFlavors(kind, captured, imageCap, thumbnailer);
    WatchedComesHome(blake3, thumbnailer, kind, captured, imageCap, wide);
    StoredCanonical(thumbnailer, kind, captured, imageCap);
    var i: nat :| i < |stored| && IsCanonical(kind, stored, i) && ComesBack(stored, i, wide);
    BestOfIsTheFirstBest(RankingFor(kind), stored, i);
    if |stored[i].data| <= cap {
      CanonicalFlavorComesBack(blake3, kind, stored, i, cap);
      assert IsRecognised(blake3, Recaptured(stored, cap), Hash(blake3, kind, stored)) by {
        SameHashIsRecognised(blake3, kind, Recaptured(stored, cap), Hash(blake3, kind, stored));
      }
    } else {
      OverTheCapIsNotRecognised(blake3, kind, stored, i, cap);
    }
  }

  lemma {:induction false} SameHashIsRecognised(
    blake3: Blake3, kind: EntryKind, captured: seq<Flavor>, hash: Option<string>)
    requires ForFlavors(captured) == Some(kind) && Hash(blake3, kind, captured) == hash && hash.Some?
    ensures IsRecognised(blake3, captured, hash)
  {
  }

  lemma {:induction false} StoredCanonical(
    thumbnailer: Thumbnailer, kind: EntryKind, captured: seq<Flavor>, imageCap: nat)
    requires Canonical(kind, captured).Some? && StorableFlavors(kind, captured, imageCap).Storable?
    ensures Canonical(kind, StoredFlavors(kind, captured, imageCap, thumbnailer)) == Canonical(kind, captured)
  {
    hide StorableFlavors;
    hide ThumbnailFor;
    hide Canonical;
    StoringKeepsTheCanonicalFlavor(kind, captured, imageCap, thumbnailer);
  }

  /** A reachable one that is not: a text captured under a larger cap than the present one. Nothing of
      it is read back, so there is nothing to recognise. */
  lemma {:induction false} AnEntryOfALargerCapIsLost(
    blake3: Blake3, thumbnailer: Thumbnailer, plain: Flavor, imageCap: nat, wide: nat, cap: nat)
    requires plain.mime == "text/plain" && cap < |plain.data| <= wide
    ensures IsWatched([plain], wide) && ForFlavors([plain]) == Some(Text)
    ensures StorableFlavors(Text, [plain], imageCap) == Storable([plain])
    ensures StoredFlavors(Text, [plain], imageCap, thumbnailer) == [plain] && Hash(blake3, Text, [plain]).Some?
    ensures Recaptured([plain], cap) == []
    ensures !IsRecognised(blake3, Recaptured([plain], cap), Hash(blake3, Text, [plain]))
  {
    hide FromMime;
    hide Rank;
    hide IsInteresting;
    hide Recaptured;
    hide StorableFlavors;
    PlainTextIsText(plain);
    OneTextIsStored(thumbnailer, plain, imageCap);
    NothingIsReadBack(plain, cap);
  }

  lemma {:induction false} NothingIsReadBack(flavor: Flavor, cap: nat)
    requires |flavor.data| > cap
    ensures Recaptured([flavor], cap) == []
  {
    hide Recaptured;
    hide IsAdvertised;
    RecapturedIsAFilter([flavor], cap);
    RecapturedIsWhatIsFit([flavor], cap);
    assert [flavor][..0] == [] && !IsFit([flavor], 0, cap);
  }

  lemma {:induction false} PlainTextIsText(plain: Flavor)
    requires plain.mime == "text/plain"
    ensures FromMime(plain.mime) == Some(Text) && IsInteresting(plain.mime)
    ensures ForFlavors([plain]) == Some(Text) && Canonical(Text, [plain]) == Some(plain)
  {
    hide Rank;
    hide FromMime;
    hide Squeezed;
    PlainTextIsInteresting(plain.mime);
    PlainTextIsRanked(plain.mime);
    OfOne(Text, plain);
  }

  lemma {:induction false} PlainTextIsInteresting(mime: string)
    requires mime == "text/plain"
    ensures IsInteresting(mime) && NormalForm(mime) == mime
  {
    hide NormalForm;
    PlainIsItsOwnForm(mime);
    assert Lowered(INTERESTING_MIMES[1]) == mime;
  }

  lemma {:induction false} PlainTextIsRanked(mime: string)
    requires mime == "text/plain"
    ensures FromMime(mime) == Some(Text) && RankingFor(Text)(mime).Some?
  {
    hide NormalForm;
    hide Essence;
    hide Rank;
    hide FromMime;
    hide IsInteresting;
    hide IsThumbnail;
    hide Contains;
    PlainTextIsInteresting(mime);
    PlainEssence(mime);
    ShortForm(mime);
    RankedByEssence(mime);
  }

  lemma {:induction false} OfOne(kind: EntryKind, flavor: Flavor)
    requires FromMime(flavor.mime) == Some(kind) && RankingFor(kind)(flavor.mime).Some?
    ensures ForFlavors([flavor]) == Some(kind) && Canonical(kind, [flavor]) == Some(flavor)
  {
    hide Rank;
    hide FromMime;
    assert [flavor][..0] == [];
    assert ForFlavors([]).None? && BestOf(RankingFor(kind), []).None?;
  }

  lemma {:induction false} OneTextIsStored(thumbnailer: Thumbnailer, plain: Flavor, imageCap: nat)
    requires FromMime(plain.mime) == Some(Text) && Canonical(Text, [plain]) == Some(plain)
    ensures StorableFlavors(Text, [plain], imageCap) == Storable([plain])
    ensures StoredFlavors(Text, [plain], imageCap, thumbnailer) == [plain]
  {
    hide FromMime;
    hide Canonical;
    assert [plain][..0] == [];
    assert FirstOfEach([], Identical) == [] && FirstOfEach([plain], Identical) == [plain];
    assert Filter([], FitsImageCap(imageCap)) == [] && Filter([plain], FitsImageCap(imageCap)) == [plain];
    assert [plain] + [] == [plain];
  }

  lemma {:induction false} WatchedComesBack(
      kind: EntryKind, captured: seq<Flavor>, stored: seq<Flavor>, i: nat, cap: nat)
    requires IsWatched(captured, cap) && DistinctMimes(stored) && IsCanonical(kind, stored, i)
    requires forall f <- stored :: f in captured || f.mime == THUMBNAIL_MIME
    ensures ComesBack(stored, i, cap)
  {
    hide Rank;
    hide IsReadBack;
    hide IsAdvertised;
    var canonical := stored[i];
    assert canonical in stored;
    if canonical.mime == THUMBNAIL_MIME {
      ThumbnailIsNotRanked(kind, canonical);
    }
    forall j | 0 <= j < i && IsAdvertised(stored[j]) ensures !Same(stored[j].mime, canonical.mime) {
      var earlier := stored[j];
      assert earlier in stored && earlier.mime != canonical.mime;
      if earlier.mime == THUMBNAIL_MIME {
        ThumbnailIsNotRanked(kind, earlier);
      } else if Same(earlier.mime, canonical.mime) {
        OneOfEachType(captured, earlier, canonical);
      }
    }
  }
}
