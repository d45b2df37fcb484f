/** Which entry a typed word names: decimal ids in full or by a prefix only one of them has. */
module Ids {
  import opened Strings
  import opened Display
  import opened Summaries

  const CANDIDATE_PREVIEW_CHARS: nat := 40

  function DigitChar(d: nat): char
    requires d < 10
  {
    (d + '0' as int) as char
  }

  function Digits(n: nat): string {
    if n < 10 then [DigitChar(n)] else Digits(n / 10) + [DigitChar(n % 10)]
  }

  /** `i64::to_string`. */
  function Decimal(id: int): string {
    if id < 0 then "-" + Digits(-id) else Digits(id)
  }

  predicate IsDigit(c: char) {
    '0' <= c <= '9'
  }

  /** One or more decimal digits. */
  predicate IsNumber(typed: string) {
    typed != "" && forall c <- typed :: IsDigit(c)
  }

  function ValueOf(digits: string): nat
    requires forall c <- digits :: IsDigit(c)
  {
    if digits == "" then 0
    else
      var n := |digits| - 1;
      assert digits[n] in digits;
      assert forall c <- digits[..n] :: c in digits;
      assert IsDigit(digits[n]);
      10 * ValueOf(digits[..n]) + (digits[n] as int - '0' as int)
  }

  /** Reading a spelling back gives the number. */
  lemma {:induction false} DigitsReadBack(n: nat)
    ensures IsNumber(Digits(n)) && ValueOf(Digits(n)) == n
  {
    if n >= 10 {
      DigitsReadBack(n / 10);
      assert Digits(n)[..|Digits(n)| - 1] == Digits(n / 10);
    } else {
      assert ValueOf("") == 0;
      assert Digits(n)[..0] == "";
    }
  }

  lemma {:induction false} SignShows(id: int)
    ensures Decimal(id) != "" && (Decimal(id)[0] == '-' <==> id < 0)
  {
    DigitsReadBack(if id < 0 then -id else id);
    if id >= 0 {
      assert Digits(id)[0] in Digits(id);
    }
  }

  /** No two ids are spelled alike. */
  lemma {:induction false} SpellingsDiffer(a: int, b: int)
    requires Decimal(a) == Decimal(b)
    ensures a == b
  {
    SignShows(a);
    SignShows(b);
    DigitsReadBack(if a < 0 then -a else a);
    DigitsReadBack(if b < 0 then -b else b);
    if a < 0 {
      assert Decimal(a)[1..] == Digits(-a) && Decimal(b)[1..] == Digits(-b);
    }
  }

  datatype Candidate = Candidate(id: int, preview: string)

  datatype Resolution =
    | Found(id: int)
    | NotAnId(typed: string)
    | NoSuchEntry(typed: string, historyEmpty: bool)
    | Ambiguous(typed: string, candidates: seq<Candidate>)

  /** The first entry spelled exactly so. */
  function Exact(typed: string, rows: seq<EntrySummary>): Option<int> {
    if rows == [] then None
    else if Decimal(rows[0].id) == typed then Some(rows[0].id)
    else Exact(typed, rows[1..])
  }

  /** The entries whose spelling starts so, in history order. */
  function Starting(typed: string, rows: seq<EntrySummary>): seq<EntrySummary> {
    if rows == [] then []
    else (if typed <= Decimal(rows[0].id) then [rows[0]] else []) + Starting(typed, rows[1..])
  }

  function Resolve(typed: string, rows: seq<EntrySummary>): Resolution {
    if !IsNumber(typed) then NotAnId(typed)
    else
      match Exact(typed, rows)
      case Some(id) => Found(id)
      case None =>
        var matches := Starting(typed, rows);
        if matches == [] then NoSuchEntry(typed, rows == [])
        else if |matches| == 1 then Found(matches[0].id)
        else
          Ambiguous(typed, seq(|matches|, i requires 0 <= i < |matches| =>
            Candidate(matches[i].id, OneLine(matches[i].preview, CANDIDATE_PREVIEW_CHARS))))
  }

  lemma {:induction false} ExactIsTheSpelling(typed: string, rows: seq<EntrySummary>)
    ensures Exact(typed, rows).Some? ==>
              IsRow(Exact(typed, rows).value, rows) && Decimal(Exact(typed, rows).value) == typed
    ensures Exact(typed, rows).None? ==> forall row <- rows :: Decimal(row.id) != typed
  {
    if rows != [] {
      var rest := rows[1..];
      ExactIsTheSpelling(typed, rest);
      assert rows == [rows[0]] + rest;
      if Decimal(rows[0].id) != typed && Exact(typed, rest).Some? {
        var i :| 0 <= i < |rest| && rest[i].id == Exact(typed, rest).value;
        assert rows[i + 1].id == Exact(typed, rows).value;
      }
    }
  }

  /** Those that start so are a part of the history, in its order. */
  lemma {:induction false} StartingIsExact(typed: string, rows: seq<EntrySummary>)
    ensures forall row :: row in Starting(typed, rows) <==> row in rows && typed <= Decimal(row.id)
    ensures UniqueIds(rows) ==> UniqueIds(Starting(typed, rows))
  {
    if rows != [] {
      var rest, more := rows[1..], Starting(typed, rows[1..]);
      StartingIsExact(typed, rest);
      assert rows == [rows[0]] + rest;
      if UniqueIds(rows) {
        assert UniqueIds(rest) by {
          forall i, j | 0 <= i < j < |rest| ensures rest[i].id != rest[j].id {
            assert rows[i + 1].id != rows[j + 1].id;
          }
        }
        forall i | 0 <= i < |more| ensures more[i].id != rows[0].id {
          assert more[i] in rest;
          var k :| 0 <= k < |rest| && rest[k] == more[i];
          assert rows[k + 1].id != rows[0].id;
        }
      }
    }
  }

  /** The one entry it could mean. */
  ghost predicate Names(typed: string, id: int, rows: seq<EntrySummary>) {
    && IsRow(id, rows)
    && (|| Decimal(id) == typed
        || (typed <= Decimal(id) && forall row <- rows | typed <= Decimal(row.id) :: row.id == id))
  }

  lemma {:induction false} NamesExactly(typed: string, rows: seq<EntrySummary>, id: int)
    requires Exact(typed, rows).Some?
    ensures Exact(typed, rows) == Some(id) <==> Names(typed, id, rows)
  {
    hide Decimal;
    ExactIsTheSpelling(typed, rows);
    var named := Exact(typed, rows).value;
    if Decimal(id) == typed {
      SpellingsDiffer(id, named);
    }
    var k :| 0 <= k < |rows| && rows[k].id == named;
    assert rows[k] in rows && typed <= Decimal(rows[k].id);
  }

  lemma {:induction false} NamesByItsStart(typed: string, rows: seq<EntrySummary>, id: int)
    requires Exact(typed, rows).None? && UniqueIds(rows)
    ensures var matches := Starting(typed, rows);
            |matches| == 1 && matches[0].id == id <==> Names(typed, id, rows)
  {
    hide Decimal;
    hide Starting;
    ExactIsTheSpelling(typed, rows);
    StartingIsExact(typed, rows);
    var matches := Starting(typed, rows);
    if IsRow(id, rows) {
      var k :| 0 <= k < |rows| && rows[k].id == id;
      assert rows[k] in rows && (rows[k] in matches <==> typed <= Decimal(id));
    }
    if |matches| > 1 {
      assert matches[0] in matches && matches[1] in matches && matches[0].id != matches[1].id;
    } else if |matches| == 1 {
      assert matches[0] in matches;
      var k :| 0 <= k < |rows| && rows[k] == matches[0];
      assert rows[k].id == matches[0].id;
      assert forall row <- rows | typed <= Decimal(row.id) :: row in matches;
    }
  }

  /** What was typed resolves to an entry exactly when it is that entry's id, or the start of that
      entry's id and of no other's. */
  lemma {:induction false} ResolvesWhatItNames(typed: string, rows: seq<EntrySummary>, id: int)
    requires UniqueIds(rows)
    ensures Resolve(typed, rows) == Found(id) <==> IsNumber(typed) && Names(typed, id, rows)
  {
    hide Names;
    hide Exact;
    hide Starting;
    hide OneLine;
    if Exact(typed, rows).Some? {
      NamesExactly(typed, rows, id);
    } else {
      NamesByItsStart(typed, rows, id);
    }
  }

  /** Whatever else is in the history, the id of an entry means that entry; only a negative id, which
      the store never gives out, is not even an id. */
  lemma {:induction false} AnIdNamesItself(id: int, rows: seq<EntrySummary>)
    requires IsRow(id, rows)
    ensures Resolve(Decimal(id), rows) == Found(id) <==> id >= 0
  {
    DigitsReadBack(if id < 0 then -id else id);
    ExactIsTheSpelling(Decimal(id), rows);
    if id < 0 {
      assert Decimal(id)[0] == '-' && Decimal(id)[0] in Decimal(id);
    } else {
      var k :| 0 <= k < |rows| && rows[k].id == id;
      assert rows[k] in rows;
      SpellingsDiffer(id, Exact(Decimal(id), rows).value);
    }
  }

  /** An ambiguity names every entry that starts so, at least two, and none of them exactly. */
  lemma {:induction false} AmbiguityNamesEveryMatch(typed: string, rows: seq<EntrySummary>)
    requires Resolve(typed, rows).Ambiguous?
    ensures var r := Resolve(typed, rows);
            && r.typed == typed && |r.candidates| >= 2
            && (forall c <- r.candidates :: typed < Decimal(c.id))
            && forall row <- rows | typed <= Decimal(row.id) ::
                 Candidate(row.id, OneLine(row.preview, CANDIDATE_PREVIEW_CHARS)) in r.candidates
  {
    hide Decimal;
    hide OneLine;
    ExactIsTheSpelling(typed, rows);
    StartingIsExact(typed, rows);
    var matches, candidates := Starting(typed, rows), Resolve(typed, rows).candidates;
    forall row <- rows | typed <= Decimal(row.id)
      ensures Candidate(row.id, OneLine(row.preview, CANDIDATE_PREVIEW_CHARS)) in candidates
    {
      assert row in matches;
      var k :| 0 <= k < |matches| && matches[k] == row;
      assert candidates[k] == Candidate(row.id, OneLine(row.preview, CANDIDATE_PREVIEW_CHARS));
    }
    forall c <- candidates ensures typed < Decimal(c.id) {
      var k :| 0 <= k < |candidates| && candidates[k] == c;
      assert matches[k] in matches && matches[k] in rows;
    }
  }

  /** Every other answer, and when it is given. */
  lemma {:induction false} OtherAnswers(typed: string, rows: seq<EntrySummary>)
    ensures Resolve(typed, rows) == NotAnId(typed) <==> !IsNumber(typed)
    ensures Resolve(typed, rows) == NoSuchEntry(typed, rows == []) <==>
            IsNumber(typed) && forall row <- rows :: !(typed <= Decimal(row.id))
  {
    hide Decimal;
    ExactIsTheSpelling(typed, rows);
    StartingIsExact(typed, rows);
    var matches := Starting(typed, rows);
    if matches != [] {
      assert matches[0] in matches;
    }
    if Exact(typed, rows).Some? {
      var k :| 0 <= k < |rows| && rows[k].id == Exact(typed, rows).value;
      assert rows[k] in rows;
    }
  }

  // ---- Several at once ----

  datatype Outcome = Resolved(ids: seq<int>) | Refused(why: Resolution)

  function ResolveAll(typed: seq<string>, rows: seq<EntrySummary>): Outcome {
    if typed == [] then Resolved([])
    else
      match ResolveAll(typed[..|typed| - 1], rows)
      case Refused(why) => Refused(why)
      case Resolved(ids) =>
        var last := Resolve(typed[|typed| - 1], rows);
        if !last.Found? then Refused(last)
        else if last.id in ids then Resolved(ids)
        else Resolved(ids + [last.id])
  }

  /** Each named entry once, or the first reference that names none, and then nothing. */
  method ResolveEach(typed: seq<string>, rows: seq<EntrySummary>) returns (outcome: Outcome)
    ensures outcome == ResolveAll(typed, rows)
  {
    var ids: seq<int> := [];
    for i := 0 to |typed|
      invariant ResolveAll(typed[..i], rows) == Resolved(ids)
    {
      assert typed[..i + 1][..i] == typed[..i];
      var one := Resolve(typed[i], rows);
      if !one.Found? {
        RefusalStands(typed, i + 1, rows);
        return Refused(one);
      }
      if one.id !in ids {
        ids := ids + [one.id];
      }
    }
    assert typed[..|typed|] == typed;
    outcome := Resolved(ids);
  }

  lemma {:induction false} RefusalStands(typed: seq<string>, k: nat, rows: seq<EntrySummary>)
    requires k <= |typed| && ResolveAll(typed[..k], rows).Refused?
    ensures ResolveAll(typed, rows) == ResolveAll(typed[..k], rows)
    decreases |typed|
  {
    if k == |typed| {
      assert typed[..k] == typed;
    } else {
      var n := |typed| - 1;
      assert typed[..n][..k] == typed[..k];
      RefusalStands(typed[..n], k, rows);
    }
  }

  /** Where an entry is first mentioned, if anywhere. */
  function FirstMention(typed: seq<string>, rows: seq<EntrySummary>, id: int): (k: nat)
    ensures k <= |typed|
    ensures k < |typed| ==> Resolve(typed[k], rows) == Found(id)
    ensures forall j | 0 <= j < k :: Resolve(typed[j], rows) != Found(id)
  {
    if typed == [] then 0
    else if Resolve(typed[0], rows) == Found(id) then 0
    else
      var later := FirstMention(typed[1..], rows, id);
      assert forall j | 1 <= j < |typed| :: typed[j] == typed[1..][j - 1];
      1 + later
  }

  lemma {:induction false} FirstMentionStays(typed: seq<string>, rows: seq<EntrySummary>, id: int, more: string)
    requires FirstMention(typed, rows, id) < |typed|
    ensures FirstMention(typed + [more], rows, id) == FirstMention(typed, rows, id)
  {
    var all := typed + [more];
    assert forall i | 0 <= i < |typed| :: all[i] == typed[i];
  }

  /** `why` is the answer for the first reference that names no entry. */
  ghost predicate RefusesTheFirst(typed: seq<string>, rows: seq<EntrySummary>, why: Resolution) {
    exists k :: 0 <= k < |typed| && why == Resolve(typed[k], rows) && !why.Found? &&
                forall j | 0 <= j < k :: Resolve(typed[j], rows).Found?
  }

  /** Every reference names one of `ids`, every one of them is named, none twice, and they stand in
      the order they were first mentioned. */
  ghost predicate NamesInOrder(typed: seq<string>, rows: seq<EntrySummary>, ids: seq<int>) {
    && (forall k | 0 <= k < |typed| :: Resolve(typed[k], rows).Found? && Resolve(typed[k], rows).id in ids)
    && (forall i | 0 <= i < |ids| :: FirstMention(typed, rows, ids[i]) < |typed|)
    && (forall i, j | 0 <= i < j < |ids| :: FirstMention(typed, rows, ids[i]) < FirstMention(typed, rows, ids[j]))
  }

  lemma {:induction false} OneMoreNamed(typed: seq<string>, rows: seq<EntrySummary>, ids: seq<int>, more: string)
    requires NamesInOrder(typed, rows, ids) && Resolve(more, rows).Found?
    ensures var id := Resolve(more, rows).id;
            NamesInOrder(typed + [more], rows, if id in ids then ids else ids + [id])
  {
    hide Resolve;
    var id, all := Resolve(more, rows).id, typed + [more];
    forall i | 0 <= i < |ids| ensures FirstMention(all, rows, ids[i]) == FirstMention(typed, rows, ids[i]) {
      FirstMentionStays(typed, rows, ids[i], more);
    }
    if id !in ids {
      assert all[|typed|] == more && forall k | 0 <= k < |typed| :: all[k] == typed[k];
      assert FirstMention(all, rows, id) == |typed|;
    }
  }

  /** Either the answer for the first reference that names no entry, and nothing else, or exactly the
      named entries, each once. */
  lemma {:induction false} NamedOnceInOrder(typed: seq<string>, rows: seq<EntrySummary>)
    ensures match ResolveAll(typed, rows)
            case Refused(why) => RefusesTheFirst(typed, rows, why)
            case Resolved(ids) => NamesInOrder(typed, rows, ids)
  {
    hide Resolve;
    hide NamesInOrder;
    hide RefusesTheFirst;
    if typed == [] {
      NothingNamed(rows);
    } else {
      var n := |typed| - 1;
      var init, last := typed[..n], typed[n];
      NamedOnceInOrder(init, rows);
      assert typed == init + [last];
      match ResolveAll(init, rows) {
        case Refused(why) => StillRefused(init, rows, why, last);
        case Resolved(ids) =>
          if Resolve(last, rows).Found? {
            OneMoreNamed(init, rows, ids, last);
          } else {
            RefusedAtLast(init, rows, ids, last);
          }
      }
    }
  }

  lemma {:induction false} NothingNamed(rows: seq<EntrySummary>)
    ensures NamesInOrder([], rows, [])
  {
  }

  lemma {:induction false} StillRefused(typed: seq<string>, rows: seq<EntrySummary>, why: Resolution, more: string)
    requires RefusesTheFirst(typed, rows, why)
    ensures RefusesTheFirst(typed + [more], rows, why)
  {
    hide Resolve;
    var k :| 0 <= k < |typed| && why == Resolve(typed[k], rows) && !why.Found? &&
             forall j | 0 <= j < k :: Resolve(typed[j], rows).Found?;
    assert (typed + [more])[k] == typed[k];
  }

  lemma {:induction false} RefusedAtLast(typed: seq<string>, rows: seq<EntrySummary>, ids: seq<int>, more: string)
    requires NamesInOrder(typed, rows, ids) && !Resolve(more, rows).Found?
    ensures RefusesTheFirst(typed + [more], rows, Resolve(more, rows))
  {
    hide Resolve;
    hide FirstMention;
    var all := typed + [more];
    assert all[|typed|] == more && forall j | 0 <= j < |typed| :: all[j] == typed[j];
  }
}
