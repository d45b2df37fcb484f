/** The summary of an entry, which carries no flavor. */
module Summaries {
  import opened Strings
  import opened Entries
  import opened History

  /** Everything of an entry but its hash. */
  datatype EntrySummary = EntrySummary(
    id: int, createdAt: Millis, lastUsedAt: Millis, kind: EntryKind, preview: string, pinned: bool, sensitive: bool)

  function Summarize(id: int, entry: Entry): EntrySummary {
    EntrySummary(id, entry.createdAt, entry.lastUsedAt, entry.kind, entry.preview, entry.pinned, entry.sensitive)
  }

  ghost predicate UniqueIds(rows: seq<EntrySummary>) {
    forall i, j | 0 <= i < j < |rows| :: rows[i].id != rows[j].id
  }

  predicate IsRow(id: int, rows: seq<EntrySummary>) {
    exists i | 0 <= i < |rows| :: rows[i].id == id
  }

  /** The first row with this id. */
  function RowOf(id: int, rows: seq<EntrySummary>): (row: Option<nat>)
    ensures row.Some? <==> IsRow(id, rows)
    ensures row.Some? ==> row.value < |rows| && rows[row.value].id == id
    ensures row.Some? ==> forall i | 0 <= i < row.value :: rows[i].id != id
  {
    if rows == [] then None
    else if rows[0].id == id then assert IsRow(id, rows); Some(0)
    else
      var later := RowOf(id, rows[1..]);
      assert later.Some? ==> rows[later.value + 1].id == id;
      assert forall i | 0 <= i < |rows| :: i > 0 ==> rows[i] == rows[1..][i - 1];
      match later case None => None case Some(row) => Some(row + 1)
  }
}
