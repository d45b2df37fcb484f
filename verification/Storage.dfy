/** Which flavors of a copy are stored, and the `flavors` table. */
module Storage {
  import opened Strings
  import opened Mime
  import opened Entries
  import opened Ranked
  import opened Dedup
  import opened History

  /** What an insert is given. */
  datatype NewEntry = NewEntry(
    createdAt: Millis, kind: EntryKind, preview: string, hash: string, sensitive: bool, flavors: seq<Flavor>)

  /** Downscaling a picture: library code, which may fail to decode it. */
  type Thumbnailer = Bytes -> Option<Bytes>

  datatype Storable = Storable(flavors: seq<Flavor>) | TooLarge(mime: string, bytes: nat, cap: nat)

  predicate IsOverImageCap(flavor: Flavor, cap: nat) {
    FromMime(flavor.mime) == Some(Image) && |flavor.data| > cap
  }

  function FitsImageCap(cap: nat): Flavor -> bool {
    (flavor: Flavor) => !IsOverImageCap(flavor, cap)
  }

  /** The flavors of a copy that are written: the first of each MIME type, less the images over the
      cap; or none at all if the canonical one is over it. */
  function StorableFlavors(kind: EntryKind, flavors: seq<Flavor>, cap: nat): Storable {
    var distinct := FirstOfEach(flavors, Identical);
    var canonical := Canonical(kind, distinct);
    if canonical.Some? && IsOverImageCap(canonical.value, cap) then
      TooLarge(canonical.value.mime, |canonical.value.data|, cap)
    else Storable(Filter(distinct, FitsImageCap(cap)))
  }

  /** The thumbnail stored beside an image, if there is one to derive. */
  function ThumbnailFor(thumbnailer: Thumbnailer, kind: EntryKind, flavors: seq<Flavor>): seq<Flavor> {
    if kind != Image || (exists f <- flavors :: IsThumbnail(f.mime)) then []
    else
      match Canonical(Image, flavors)
      case None => []
      case Some(source) =>
        match thumbnailer(source.data)
        case None => []
        case Some(png) => [Flavor(THUMBNAIL_MIME, png)]
  }

  predicate DistinctMimes(flavors: seq<Flavor>) {
    forall i, j | 0 <= i < j < |flavors| :: flavors[i].mime != flavors[j].mime
  }

  /** The loop that drops exact repeats of a MIME type. */
  method DistinctFlavors(flavors: seq<Flavor>) returns (kept: seq<Flavor>)
    ensures kept == FirstOfEach(flavors, Identical)
  {
    kept := [];
    for k := 0 to |flavors|
      invariant kept == FirstOfEach(flavors[..k], Identical)
    {
      assert flavors[..k + 1][..k] == flavors[..k];
      if HasMime(kept, flavors[k].mime, Identical) {
        continue;
      }
      kept := kept + [flavors[k]];
    }
    assert flavors[..|flavors|] == flavors;
  }

  lemma {:induction false} FirstsAreDistinct(flavors: seq<Flavor>)
    ensures DistinctMimes(FirstOfEach(flavors, Identical))
  {
    if flavors != [] {
      FirstsAreDistinct(flavors[..|flavors| - 1]);
      var firsts := FirstOfEach(flavors[..|flavors| - 1], Identical);
      assert forall i | 0 <= i < |firsts| :: firsts[i] in firsts;
    }
  }

  lemma {:induction false} FilteredAreDistinct(flavors: seq<Flavor>, keep: Flavor -> bool)
    requires DistinctMimes(flavors)
    ensures DistinctMimes(Filter(flavors, keep))
  {
    if flavors != [] {
      var init, last := flavors[..|flavors| - 1], flavors[|flavors| - 1];
      FilteredAreDistinct(init, keep);
      FilterKeepsExactly(init, keep);
      var kept := Filter(init, keep);
      forall i | 0 <= i < |kept| ensures kept[i].mime != last.mime {
        assert kept[i] in init;
      }
    }
  }

  /** Exact repeats, over-cap images that are not canonical and the thumbnail all come and go
      without changing which flavor is canonical, and every stored MIME type is stored once. */
  lemma {:induction false} StoringKeepsTheCanonicalFlavor(
    kind: EntryKind, flavors: seq<Flavor>, cap: nat, thumbnailer: Thumbnailer)
    requires StorableFlavors(kind, flavors, cap).Storable?
    ensures var kept := StorableFlavors(kind, flavors, cap).flavors;
            var stored := kept + ThumbnailFor(thumbnailer, kind, kept);
            && (Canonical(kind, flavors).Some? ==> Canonical(kind, stored) == Canonical(kind, flavors))
            && DistinctMimes(stored)
            && (forall f <- stored :: f in flavors || f.mime == THUMBNAIL_MIME)
  {
    var rank := RankingFor(kind);
    var distinct := FirstOfEach(flavors, Identical);
    var kept := StorableFlavors(kind, flavors, cap).flavors;
    FirstOfEachIsAmong(flavors, Identical);
    FilterKeepsExactly(distinct, FitsImageCap(cap));
    FirstsAreDistinct(flavors);
    FilteredAreDistinct(distinct, FitsImageCap(cap));
    WithThumbnail(thumbnailer, kind, kept);
    BestOfIsSomeBest(rank, flavors);
    if Canonical(kind, flavors).Some? {
      var i: nat :| IsBest(rank, flavors, i) && Canonical(kind, flavors) == Some(flavors[i]);
      forall j | 0 <= j < i ensures !Identical(flavors[j].mime, flavors[i].mime) {
        assert Beats(rank, flavors[i].mime, flavors[j].mime);
      }
      FirstOfEachKeepsTheBest(rank, flavors, Identical, i);
      BestOfIsSomeBest(rank, distinct);
      var p: nat :| IsBest(rank, distinct, p) && distinct[p] == flavors[i];
      var q := FilterKeepsTheBest(rank, distinct, FitsImageCap(cap), p);
    }
  }

  lemma {:induction false} WithThumbnail(thumbnailer: Thumbnailer, kind: EntryKind, kept: seq<Flavor>)
    ensures var stored := kept + ThumbnailFor(thumbnailer, kind, kept);
            && Canonical(kind, stored) == Canonical(kind, kept)
            && (DistinctMimes(kept) ==> DistinctMimes(stored))
            && (forall f <- stored :: f in kept || f.mime == THUMBNAIL_MIME)
  {
    hide Canonical;
    hide IsThumbnail;
    var thumbnail := ThumbnailFor(thumbnailer, kind, kept);
    if thumbnail == [] {
      assert kept + thumbnail == kept;
    } else {
      assert thumbnail == [thumbnail[0]] && thumbnail[0].mime == THUMBNAIL_MIME;
      WithOneThumbnail(kind, kept, thumbnail[0]);
    }
  }

  lemma {:induction false} WithOneThumbnail(kind: EntryKind, kept: seq<Flavor>, thumbnail: Flavor)
    requires thumbnail.mime == THUMBNAIL_MIME && !exists f <- kept :: IsThumbnail(f.mime)
    ensures Canonical(kind, kept + [thumbnail]) == Canonical(kind, kept)
    ensures DistinctMimes(kept) ==> DistinctMimes(kept + [thumbnail])
  {
    hide NormalForm;
    ThumbnailIsItsOwnForm(thumbnail.mime);
    BestOfOneMore(RankingFor(kind), kept, thumbnail);
    assert forall i | 0 <= i < |kept| :: kept[i] in kept;
  }

  /** One row of the `flavors` table, which is kept in row order. */
  datatype FlavorRow = FlavorRow(entry: int, flavor: Flavor)

  /** The flavors of one entry, in row order. */
  function FlavorsOf(rows: seq<FlavorRow>, id: int): seq<Flavor> {
    if rows == [] then []
    else
      FlavorsOf(rows[..|rows| - 1], id) + if rows[|rows| - 1].entry == id then [rows[|rows| - 1].flavor] else []
  }

  /** The rows that are left once entries have been deleted: the foreign key's cascade. */
  function Cascade(rows: seq<FlavorRow>, entries: Table): seq<FlavorRow> {
    if rows == [] then []
    else
      Cascade(rows[..|rows| - 1], entries) + if rows[|rows| - 1].entry in entries then [rows[|rows| - 1]] else []
  }

  function RowsFor(id: int, flavors: seq<Flavor>): seq<FlavorRow> {
    seq(|flavors|, i requires 0 <= i < |flavors| => FlavorRow(id, flavors[i]))
  }

  lemma {:induction false} FlavorsOfOneMore(rows: seq<FlavorRow>, row: FlavorRow, id: int)
    ensures FlavorsOf(rows + [row], id) == FlavorsOf(rows, id) + if row.entry == id then [row.flavor] else []
  {
    assert (rows + [row])[..|rows|] == rows;
  }

  lemma {:induction false} CascadeLeavesNoOrphans(rows: seq<FlavorRow>, entries: Table)
    ensures forall r <- Cascade(rows, entries) :: r.entry in entries && r in rows
  {
    if rows != [] {
      CascadeLeavesNoOrphans(rows[..|rows| - 1], entries);
      assert rows == rows[..|rows| - 1] + [rows[|rows| - 1]];
    }
  }

  /** The cascade takes the flavors of what was deleted and no others. */
  lemma {:induction false} FlavorsAfterCascade(rows: seq<FlavorRow>, entries: Table, id: int)
    ensures FlavorsOf(Cascade(rows, entries), id) == if id in entries then FlavorsOf(rows, id) else []
  {
    if rows != [] {
      var init, last := rows[..|rows| - 1], rows[|rows| - 1];
      var kept := Cascade(init, entries);
      FlavorsAfterCascade(init, entries, id);
      FlavorsOfOneMore(kept, last, id);
      assert kept + [] == kept;
    }
  }

  lemma {:induction false} FlavorsOfAppended(rows: seq<FlavorRow>, id: int, flavors: seq<Flavor>, other: int)
    ensures FlavorsOf(rows + RowsFor(id, flavors), other) == FlavorsOf(rows, other) +
            if other == id then flavors else []
  {
    if flavors == [] {
      assert rows + RowsFor(id, flavors) == rows;
    } else {
      var init, last := flavors[..|flavors| - 1], flavors[|flavors| - 1];
      FlavorsOfAppended(rows, id, init, other);
      assert flavors == init + [last];
      assert rows + RowsFor(id, flavors) == (rows + RowsFor(id, init)) + [FlavorRow(id, last)];
      FlavorsOfOneMore(rows + RowsFor(id, init), FlavorRow(id, last), other);
    }
  }

  lemma {:induction false} FlavorsOfNobody(rows: seq<FlavorRow>, id: int)
    requires forall r <- rows :: r.entry != id
    ensures FlavorsOf(rows, id) == []
  {
    if rows != [] {
      var last := rows[|rows| - 1];
      assert last in rows;
      assert forall r <- rows[..|rows| - 1] :: r in rows;
      FlavorsOfNobody(rows[..|rows| - 1], id);
    }
  }
}
