/** The identity of a copy: its canonical flavor, and the hash of that. */
module Dedup {
  import opened Strings
  import opened Mime
  import opened Entries
  import opened Ranked

  /** BLAKE3 over the domain prefix, an essence and a blob, as hex; nothing else is known of it. */
  type Blake3 = (string, Bytes) -> string

  const THUMBNAIL_MIME: string := "image/png;clippo-thumb"
  const NEVER_OFFERED: seq<string> := [THUMBNAIL_MIME]

  /** `same_mime` with the thumbnail's type, which is its own normal form. */
  predicate IsThumbnail(mime: string) {
    NormalForm(mime) == THUMBNAIL_MIME
  }

  /** The flavors an offer can be made of: not the stored thumbnail. */
  predicate IsOfferable(mime: string) {
    NormalForm(mime) !in NEVER_OFFERED
  }

  /** Both predicates ask the question the watcher asks of two types: everything but the same type
      as the thumbnail may be offered. */
  lemma {:induction false} OnlyTheThumbnailIsHeldBack(mime: string, thumbnail: string)
    requires thumbnail == THUMBNAIL_MIME
    ensures IsThumbnail(mime) <==> Same(mime, thumbnail)
    ensures IsOfferable(mime) <==> !Same(mime, thumbnail)
  {
    ThumbnailIsItsOwnForm(thumbnail);
  }

  lemma {:induction false} ThumbnailIsItsOwnForm(thumbnail: string)
    requires thumbnail == THUMBNAIL_MIME
    ensures NormalForm(thumbnail) == thumbnail
  {
    hide NormalForm;
    PlainIsItsOwnForm(thumbnail);
  }

  /** The preference table: higher is better, `None` is no candidate at all. */
  function Preference(kind: EntryKind, essence: string, utf8: bool): Option<nat> {
    if KindOfEssence(essence) != Some(kind) then None
    else
      match kind
      case Text => Some(if essence != "text/plain" then 1 else if utf8 then 3 else 2)
      case Html => Some(1)
      case Uris => Some(1)
      case Image => Some(if essence == "image/png" then 3 else if essence == "image/jpeg" then 2 else 1)
  }

  /** The rank of a MIME type among the flavors of one kind; `None` can never be canonical. */
  function Rank(kind: EntryKind, mime: string): Option<nat> {
    if IsThumbnail(mime) then None
    else Preference(kind, Essence(mime), Contains(NormalForm(mime), "charset=utf-8"))
  }

  function RankingFor(kind: EntryKind): Ranking {
    mime => Rank(kind, mime)
  }

  /** The flavor at `i` is the one the entry's identity rests on. */
  ghost predicate IsCanonical(kind: EntryKind, flavors: seq<Flavor>, i: nat) {
    IsBest(RankingFor(kind), flavors, i)
  }

  function Canonical(kind: EntryKind, flavors: seq<Flavor>): Option<Flavor> {
    BestOf(RankingFor(kind), flavors)
  }

  function HashFlavor(blake3: Blake3, flavor: Flavor): string {
    blake3(Essence(flavor.mime), flavor.data)
  }

  function Hash(blake3: Blake3, kind: EntryKind, flavors: seq<Flavor>): Option<string> {
    match Canonical(kind, flavors)
    case None => None
    case Some(flavor) => Some(HashFlavor(blake3, flavor))
  }

  /** Spellings that differ in ASCII case alone rank alike. */
  lemma {:induction false} CompactSpellingsRankAlike(kind: EntryKind, mime: string, other: string)
    requires Compact(mime) && Compact(other) && Same(mime, other)
    ensures Essence(mime) == Essence(other)
    ensures Rank(kind, mime) == Rank(kind, other)
  {
    CompactIsItsOwnSqueeze(mime);
    CompactIsItsOwnSqueeze(other);
    EssenceIgnoresCase(mime, other);
  }
}
