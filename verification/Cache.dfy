/** The daemon's previews: pages of the history and ranked searches over it. */
module Cache {
  import opened Strings
  import opened History
  import opened Stores
  import opened Summaries

  const MAX_QUERY_CHARS: nat := 1024

  /** The score of a preview against a query, or that it does not match. */
  type Scorer = (string, string) -> Option<nat>

  /** The length of a character in UTF-8. */
  function Utf8Width(c: char): nat {
    if c as int < 0x80 then 1 else if c as int < 0x800 then 2 else if c as int < 0x10000 then 3 else 4
  }

  function Utf8Length(s: string): nat {
    if s == [] then 0 else Utf8Width(s[0]) + Utf8Length(s[1..])
  }

  lemma {:induction false} BytesBoundCharacters(s: string)
    ensures |s| <= Utf8Length(s)
  {
    if s != [] {
      BytesBoundCharacters(s[1..]);
    }
  }

  /** Counting bytes first never refuses, and never admits, what counting characters would not. */
  method CheckQuery(query: string) returns (accepted: bool)
    ensures accepted <==> |query| <= MAX_QUERY_CHARS
  {
    BytesBoundCharacters(query);
    if Utf8Length(query) <= MAX_QUERY_CHARS {
      return true;
    }
    return |query| <= MAX_QUERY_CHARS;
  }

  /** A page of `rows`, unlimited if the limit is 0. */
  function PageOf<T>(rows: seq<T>, limit: nat, offset: nat): seq<T> {
    Slice(rows, if limit == 0 then |rows| else limit, offset)
  }

  datatype Scored = Scored(score: nat, row: EntrySummary)

  /** The rows that match, with their scores, in history order. */
  function Matching(rows: seq<EntrySummary>, query: string, score: Scorer): seq<Scored> {
    if rows == [] then []
    else
      var last := rows[|rows| - 1];
      Matching(rows[..|rows| - 1], query, score) +
      match score(query, last.preview) case None => [] case Some(s) => [Scored(s, last)]
  }

  /** Insert behind everything that scores at least as much. */
  function Ranked(sorted: seq<Scored>, item: Scored): seq<Scored> {
    if sorted == [] || sorted[|sorted| - 1].score >= item.score then sorted + [item]
    else Ranked(sorted[..|sorted| - 1], item) + [sorted[|sorted| - 1]]
  }

  /** `sort_by` on descending score: stable. */
  function Sorted(items: seq<Scored>): seq<Scored> {
    if items == [] then [] else Ranked(Sorted(items[..|items| - 1]), items[|items| - 1])
  }

  function Rows(items: seq<Scored>): seq<EntrySummary> {
    seq(|items|, i requires 0 <= i < |items| => items[i].row)
  }

  function Found(rows: seq<EntrySummary>, query: string, score: Scorer, limit: nat): seq<EntrySummary> {
    Rows(PageOf(Sorted(Matching(rows, query, score)), limit, 0))
  }

  class PreviewCache {
    var entries: seq<EntrySummary>

    constructor ()
      ensures entries == []
    {
      entries := [];
    }

    /** Drop the rows there were and summarise the given history instead. */
    method Replace(history: seq<(int, Entry)>)
      modifies this
      ensures |entries| == |history|
      ensures forall k | 0 <= k < |history| :: entries[k] == Summarize(history[k].0, history[k].1)
    {
      entries := seq(|history|, k requires 0 <= k < |history| => Summarize(history[k].0, history[k].1));
    }

    function Page(limit: nat, offset: nat): seq<EntrySummary>
      reads this
    {
      PageOf(entries, limit, offset)
    }

    /** The entries whose preview matches, best first; a query that is too long is refused before
        anything is scored. */
    method Search(query: string, limit: nat, score: Scorer) returns (found: Option<seq<EntrySummary>>)
      ensures found == if |query| > MAX_QUERY_CHARS then None else Some(Found(entries, query, score, limit))
    {
      var accepted := CheckQuery(query);
      if !accepted {
        return None;
      }
      var scored: seq<Scored> := [];
      for i := 0 to |entries|
        invariant scored == Matching(entries[..i], query, score)
      {
        assert entries[..i + 1][..i] == entries[..i];
        var points := score(query, entries[i].preview);
        if points.Some? {
          scored := scored + [Scored(points.value, entries[i])];
        }
      }
      assert entries[..|entries|] == entries;
      var sorted := Sorted(scored);
      var take := if limit == 0 || limit >= |sorted| then |sorted| else limit;
      assert sorted[0..] == sorted && sorted[..|sorted|] == sorted;
      return Some(Rows(sorted[..take]));
    }
  }

  /** The cache agrees with the store: once it holds the whole listing, a page of it is the page the
      store itself would give. */
  method PagesAgree(cache: PreviewCache, store: Store, limit: nat, offset: nat)
    returns (page: seq<EntrySummary>, listed: seq<(int, Entry)>)
    requires store.Valid() && limit > 0
    modifies cache
    ensures |page| == |listed| && forall k | 0 <= k < |page| :: page[k] == Summarize(listed[k].0, listed[k].1)
    ensures |listed| == |Slice(Listing(store.entries), limit, offset)|
    ensures forall k | 0 <= k < |listed| ::
              listed[k].0 == Slice(Listing(store.entries), limit, offset)[k] && listed[k].0 in store.entries &&
              listed[k].1 == store.entries[listed[k].0]
  {
    hide Store.Valid;
    hide Listing;
    ListingLists(store.entries);
    var all := store.List(|store.entries|, 0);
    assert Slice(Listing(store.entries), |store.entries|, 0) == Listing(store.entries);
    cache.Replace(all);
    page := cache.Page(limit, offset);
    listed := store.List(limit, offset);
  }

  // ---- Paging ----

  /** The first `count` pages, one after another. */
  function Pages<T>(rows: seq<T>, limit: nat, count: nat): seq<T> {
    if count == 0 then [] else Pages(rows, limit, count - 1) + PageOf(rows, limit, (count - 1) * limit)
  }

  /** Consecutive pages tile the history: each entry is on one page, in order, until they run out. */
  lemma {:induction false} PagesTile<T>(rows: seq<T>, limit: nat, count: nat)
    requires limit > 0
    ensures Pages(rows, limit, count) == if count * limit < |rows| then rows[..count * limit] else rows
  {
    if count == 0 {
      assert Pages(rows, limit, 0) == [];
      assert 0 < |rows| ==> rows[..0] == [];
    } else {
      PagesTile(rows, limit, count - 1);
      var start := (count - 1) * limit;
      assert count * limit == start + limit;
      if start >= |rows| {
        assert rows + [] == rows;
      } else if start + limit < |rows| {
        assert rows[start..][..limit] == rows[start..start + limit];
        assert rows[..start] + rows[start..start + limit] == rows[..start + limit];
      } else {
        assert rows[..start] + rows[start..] == rows;
      }
    }
  }

  // ---- Ranking ----

  ghost predicate Descending(items: seq<Scored>) {
    forall i, j | 0 <= i < j < |items| :: items[i].score >= items[j].score
  }

  /** The items with one score, in the order they stand. */
  function WithScore(items: seq<Scored>, score: nat): seq<Scored> {
    if items == [] then []
    else
      var last := items[|items| - 1];
      WithScore(items[..|items| - 1], score) + if last.score == score then [last] else []
  }

  lemma {:induction false} RankedHolds(sorted: seq<Scored>, item: Scored)
    ensures forall other <- Ranked(sorted, item) :: other == item || other in sorted
  {
    if sorted != [] && sorted[|sorted| - 1].score < item.score {
      RankedHolds(sorted[..|sorted| - 1], item);
      assert sorted == sorted[..|sorted| - 1] + [sorted[|sorted| - 1]];
    }
  }

  lemma {:induction false} DescendingWithOneMore(items: seq<Scored>, item: Scored)
    requires Descending(items) && forall other <- items :: other.score >= item.score
    ensures Descending(items + [item])
  {
  }

  lemma {:induction false} RankedInserts(sorted: seq<Scored>, item: Scored)
    requires Descending(sorted)
    ensures Descending(Ranked(sorted, item))
  {
    var n := |sorted| - 1;
    if sorted == [] || sorted[n].score >= item.score {
      DescendingWithOneMore(sorted, item);
    } else {
      RankedInserts(sorted[..n], item);
      RankedHolds(sorted[..n], item);
      DescendingWithOneMore(Ranked(sorted[..n], item), sorted[n]);
    }
  }

  lemma {:induction false} RankedIsBehindItsEquals(sorted: seq<Scored>, item: Scored, score: nat)
    requires Descending(sorted)
    ensures WithScore(Ranked(sorted, item), score) == WithScore(sorted, score) +
            if item.score == score then [item] else []
  {
    var ranked := Ranked(sorted, item);
    if sorted == [] || sorted[|sorted| - 1].score >= item.score {
      assert ranked[..|sorted|] == sorted;
    } else {
      var n := |sorted| - 1;
      var init, last := sorted[..n], sorted[n];
      RankedIsBehindItsEquals(init, item, score);
      var inner := Ranked(init, item);
      assert ranked[..|inner|] == inner && ranked[|inner|] == last;
      if last.score == score {
        assert item.score != score;
      }
    }
  }

  /** Best score first, equal scores in history order, nothing lost and nothing added. */
  lemma {:induction false} SortedIsStable(items: seq<Scored>, score: nat)
    ensures Descending(Sorted(items)) && WithScore(Sorted(items), score) == WithScore(items, score)
  {
    hide Ranked;
    hide Descending;
    if items != [] {
      var n := |items| - 1;
      SortedIsStable(items[..n], score);
      RankedInserts(Sorted(items[..n]), items[n]);
      RankedIsBehindItsEquals(Sorted(items[..n]), items[n], score);
    } else {
      assert Descending([]) by { NothingDescends(); }
    }
  }

  lemma {:induction false} NothingDescends()
    ensures Descending([])
  {
  }

  lemma {:induction false} SortedHoldsTheSame(items: seq<Scored>, item: Scored)
    ensures item in Sorted(items) <==> item in items
  {
    hide Sorted;
    SortedIsStable(items, item.score);
    WithScoreIsWhatScores(items, item);
    WithScoreIsWhatScores(Sorted(items), item);
  }

  lemma {:induction false} WithScoreIsWhatScores(items: seq<Scored>, item: Scored)
    ensures item in WithScore(items, item.score) <==> item in items
  {
    if items != [] {
      var n := |items| - 1;
      WithScoreIsWhatScores(items[..n], item);
      assert items == items[..n] + [items[n]];
    }
  }

  lemma {:induction false} LastHasTheLeastScore(items: seq<Scored>, other: seq<Scored>)
    requires Descending(items) && Descending(other) && items != [] && other != []
    requires forall score: nat :: WithScore(items, score) == WithScore(other, score)
    ensures items[|items| - 1].score >= other[|other| - 1].score
  {
    var last := items[|items| - 1];
    WithScoreIsWhatScores(items, last);
    WithScoreIsWhatScores(other, last);
    assert last in items && WithScore(items, last.score) == WithScore(other, last.score);
    var k :| 0 <= k < |other| && other[k] == last;
  }

  lemma {:induction false} EmptyTogether(items: seq<Scored>, other: seq<Scored>)
    requires forall score: nat :: WithScore(items, score) == WithScore(other, score)
    ensures items != [] ==> other != []
  {
    if items != [] {
      WithScoreIsWhatScores(items, items[0]);
      WithScoreIsWhatScores(other, items[0]);
      assert WithScore(items, items[0].score) == WithScore(other, items[0].score);
      assert items[0] in other;
    }
  }

  /** Those two properties leave no choice: there is one such order. */
  lemma {:induction false} OnlyOneRanking(items: seq<Scored>, other: seq<Scored>)
    requires Descending(items) && Descending(other)
    requires forall score: nat :: WithScore(items, score) == WithScore(other, score)
    ensures items == other
  {
    EmptyTogether(items, other);
    EmptyTogether(other, items);
    if items != [] {
      var n, m := |items| - 1, |other| - 1;
      LastHasTheLeastScore(items, other);
      LastHasTheLeastScore(other, items);
      var least := items[n].score;
      assert WithScore(items, least) == WithScore(items[..n], least) + [items[n]];
      assert WithScore(other, least) == WithScore(other[..m], least) + [other[m]];
      assert WithScore(items, least)[|WithScore(items, least)| - 1] == items[n];
      forall score: nat ensures WithScore(items[..n], score) == WithScore(other[..m], score) {
        assert WithScore(items, score) == WithScore(other, score);
        if score == least {
          var these := WithScore(items[..n], least);
          assert (these + [items[n]])[..|these|] == these;
          var those := WithScore(other[..m], least);
          assert (those + [other[m]])[..|those|] == those;
        } else {
          assert WithScore(items[..n], score) + [] == WithScore(items[..n], score);
          assert WithScore(other[..m], score) + [] == WithScore(other[..m], score);
        }
      }
      OnlyOneRanking(items[..n], other[..m]);
      assert items == items[..n] + [items[n]] && other == other[..m] + [other[m]];
    }
  }

  lemma {:induction false} MatchingIsExact(rows: seq<EntrySummary>, query: string, score: Scorer, item: Scored)
    ensures item in Matching(rows, query, score) <==>
            item.row in rows && score(query, item.row.preview) == Some(item.score)
  {
    if rows != [] {
      var n := |rows| - 1;
      MatchingIsExact(rows[..n], query, score, item);
      assert rows == rows[..n] + [rows[n]];
    }
  }

  ghost predicate Ranks(sorted: seq<Scored>, items: seq<Scored>) {
    Descending(sorted) && forall points: nat :: WithScore(sorted, points) == WithScore(items, points)
  }

  /** A search ranks what matches: best first, equally good in history order; and no other list does. */
  lemma {:induction false} SearchIsTheRanking(
      rows: seq<EntrySummary>, query: string, score: Scorer, sorted: seq<Scored>)
    ensures var matching := Matching(rows, query, score);
            sorted == Sorted(matching) <==> Ranks(sorted, matching)
  {
    hide Sorted;
    hide Matching;
    hide WithScore;
    hide Descending;
    var matching := Matching(rows, query, score);
    TheRanking(matching);
    if Ranks(sorted, matching) {
      forall points: nat ensures WithScore(sorted, points) == WithScore(Sorted(matching), points) {
        assert WithScore(sorted, points) == WithScore(matching, points);
      }
      OnlyOneRanking(sorted, Sorted(matching));
    }
  }

  lemma {:induction false} TheRanking(items: seq<Scored>)
    ensures Descending(Sorted(items))
    ensures forall points: nat :: WithScore(Sorted(items), points) == WithScore(items, points)
  {
    SortedIsStable(items, 0);
    forall points: nat ensures WithScore(Sorted(items), points) == WithScore(items, points) {
      SortedIsStable(items, points);
    }
  }

  /** And it finds exactly what matches. */
  lemma {:induction false} FoundIsExact(rows: seq<EntrySummary>, query: string, score: Scorer, row: EntrySummary)
    ensures row in Found(rows, query, score, 0) <==> row in rows && score(query, row.preview).Some?
  {
    hide Sorted;
    hide Matching;
    var matching := Matching(rows, query, score);
    var best := Sorted(matching);
    if row in Found(rows, query, score, 0) {
      var k :| 0 <= k < |best| && best[k].row == row;
      MatchingIsExact(rows, query, score, best[k]);
      SortedHoldsTheSame(matching, best[k]);
    }
    if row in rows && score(query, row.preview).Some? {
      var item := Scored(score(query, row.preview).value, row);
      MatchingIsExact(rows, query, score, item);
      SortedHoldsTheSame(matching, item);
      var k :| 0 <= k < |best| && best[k] == item;
      assert Rows(best)[k] == row;
    }
  }

  lemma {:induction false} EveryRowScores(rows: seq<EntrySummary>, query: string, score: Scorer, points: nat)
    requires forall row <- rows :: score(query, row.preview) == Some(points)
    ensures Rows(Matching(rows, query, score)) == rows && Descending(Matching(rows, query, score))
    ensures forall item <- Matching(rows, query, score) :: item.score == points
  {
    if rows != [] {
      var n := |rows| - 1;
      assert rows == rows[..n] + [rows[n]];
      EveryRowScores(rows[..n], query, score, points);
    }
  }

  /** When nothing distinguishes the entries, a search is the history in its own order. */
  lemma {:induction false} EqualScoresAreTheHistory(
      rows: seq<EntrySummary>, query: string, score: Scorer, points: nat, limit: nat)
    requires forall row <- rows :: score(query, row.preview) == Some(points)
    ensures Found(rows, query, score, limit) == PageOf(rows, limit, 0)
  {
    hide Sorted;
    hide Matching;
    hide WithScore;
    hide Descending;
    EveryRowScores(rows, query, score, points);
    var matching := Matching(rows, query, score);
    TheRanking(matching);
    OnlyOneRanking(Sorted(matching), matching);
    assert Rows(matching) == rows;
  }
}
