/** The picker's selection: where the highlight lands when the list changes underneath it, and when
    a revealed value stops being drawn. */
module Picker {
  import opened Strings
  import opened Summaries

  datatype Status = Connected | DaemonUnavailable | DaemonUntrusted(why: string)

  datatype Revealed = Revealed(id: int, value: string)

  /** What the model holds; when `renewed`, the list to come answers another query than the last. */
  datatype View = View(
    query: string, rows: seq<EntrySummary>, selected: Option<int>, held: Option<Revealed>, status: Status,
    renewed: bool)

  /** Whether the landing rule places the highlight when these rows arrive. */
  predicate Places(view: View, rows: seq<EntrySummary>) {
    view.renewed || view.selected.None? || !IsRow(view.selected.value, rows)
  }

  /** The row the rule places it on: the top of a new ranking, else as near as can be to where it was. */
  function Landing(view: View, rows: seq<EntrySummary>): nat {
    if view.renewed || view.selected.None? || rows == [] then 0
    else
      match RowOf(view.selected.value, view.rows)
      case None => 0
      case Some(row) => if row < |rows| then row else |rows| - 1
  }

  function IdAt(rows: seq<EntrySummary>, row: nat): Option<int> {
    if row < |rows| then Some(rows[row].id) else None
  }

  /** The model once `rows` are its list. */
  function Answered(view: View, rows: seq<EntrySummary>): View {
    view.(rows := rows, renewed := false, held := None,
          selected := if Places(view, rows) then IdAt(rows, Landing(view, rows)) else view.selected)
  }

  function Disconnected(view: View): View {
    view.(rows := [], selected := None, held := None)
  }

  /** The highlight one row up or down, stopping at the ends. */
  function Stepped(view: View, down: bool): View {
    if view.rows == [] then view.(selected := None)
    else
      var row := match view.selected
                 case None => 0
                 case Some(id) => (match RowOf(id, view.rows) case None => 0 case Some(r) => r);
      var last := |view.rows| - 1;
      view.(selected := IdAt(view.rows,
            if down then (if row < last then row + 1 else last) else if row > 0 then row - 1 else 0))
  }

  /** The value that is drawn, if any: the held one, while its entry is selected. */
  function Drawn(view: View): Option<string> {
    if view.held.Some? && view.selected == Some(view.held.value.id) then Some(view.held.value.value) else None
  }

  class Model {
    var query: string
    var entries: seq<EntrySummary>
    var selected: Option<int>
    var revealed: Option<Revealed>
    var status: Status
    var landAtTop: bool

    function Shown(): View
      reads this
    {
      View(query, entries, selected, revealed, status, landAtTop)
    }

    constructor ()
      ensures Shown() == View("", [], None, None, Connected, false)
    {
      query, entries, selected, revealed, status, landAtTop := "", [], None, None, Connected, false;
    }

    /** Any status but connected leaves no rows, no selection and no held value. */
    method SetStatus(status: Status)
      modifies this
      ensures Shown() == (if status.Connected? then old(Shown()) else Disconnected(old(Shown()))).(status := status)
    {
      if !status.Connected? {
        entries, selected := [], None;
        ForgetRevealed();
      }
      this.status := status;
    }

    /** Only a real change makes the next list a new ranking. */
    method SetQuery(query: string)
      modifies this`query, this`landAtTop
      ensures Shown() == old(Shown()).(query := query, renewed := old(landAtTop) || query != old(this.query))
    {
      if query != this.query {
        landAtTop := true;
      }
      this.query := query;
    }

    method Restart()
      modifies this`landAtTop
      ensures Shown() == old(Shown()).(renewed := true)
    {
      landAtTop := true;
    }

    predicate Accepts(query: string)
      reads this`query
    {
      query == this.query
    }

    function SelectedIndex(): Option<nat>
      reads this`selected, this`entries
    {
      match selected case None => None case Some(id) => RowOf(id, entries)
    }

    /** Replace the rows, and say whether the landing rule placed the highlight. */
    method SetEntries(entries: seq<EntrySummary>) returns (placed: bool)
      modifies this
      ensures Shown() == Answered(old(Shown()), entries)
      ensures placed <==> Places(old(Shown()), entries)
    {
      var previous := SelectedIndex();
      var fromTheTop := landAtTop;
      landAtTop := false;
      this.entries := entries;
      var stillThere := !fromTheTop && selected.Some? && IsRow(selected.value, entries);
      if !stillThere {
        var last := if |entries| == 0 then 0 else |entries| - 1;
        var landing := if fromTheTop || previous.None? then 0
          else if previous.value < last then previous.value else last;
        selected := IdAt(entries, landing);
      }
      ForgetRevealed();
      return !stillThere;
    }

    /** Select a row by its id; an id without a row changes nothing. */
    method Select(id: int)
      modifies this`selected
      ensures Shown() == if IsRow(id, old(entries)) then old(Shown()).(selected := Some(id)) else old(Shown())
    {
      if IsRow(id, entries) {
        selected := Some(id);
      }
    }

    method Step(down: bool)
      modifies this`selected
      ensures Shown() == Stepped(old(Shown()), down)
    {
      if entries == [] {
        selected := None;
        return;
      }
      var index := SelectedIndex();
      var current: int := if index.Some? then index.value else 0;
      var last := |entries| - 1;
      var next: int := if down then current + 1 else current - 1;
      next := if next < 0 then 0 else if next > last then last else next;
      selected := IdAt(entries, next);
    }

    method SetRevealed(id: int, value: string)
      modifies this`revealed
      ensures Shown() == old(Shown()).(held := Some(Revealed(id, value)))
    {
      revealed := Some(Revealed(id, value));
    }

    /** The value to draw. */
    function RevealedValue(): (value: Option<string>)
      reads this
      ensures value == Drawn(Shown())
    {
      if revealed.None? then None
      else if Some(revealed.value.id) == selected then Some(revealed.value.value) else None
    }

    method ForgetRevealed()
      modifies this`revealed
      ensures Shown() == old(Shown()).(held := None)
    {
      revealed := None;
    }

    /** One thing that happens to the picker. */
    method Handle(event: PickerEvent)
      modifies this
      ensures Shown() == AfterEvent(old(Shown()), event)
    {
      match event {
        case Types(query) => SetQuery(query);
        case Opens =>
          SetQuery("");
          Restart();
        case Closes => ForgetRevealed();
        case Arrow(down) => Step(down);
        case Clicks(id) => Select(id);
        case Answers(query, rows) =>
          if Accepts(query) {
            var _ := SetEntries(rows);
          }
        case Reveals(id, value) => SetRevealed(id, value);
        case Daemon(status) => SetStatus(status);
      }
    }
  }

  datatype PickerEvent =
    | Types(query: string) | Opens | Closes
    | Arrow(down: bool) | Clicks(id: int)
    | Answers(query: string, rows: seq<EntrySummary>)
    | Reveals(id: int, value: string)
    | Daemon(status: Status)

  /** The view after one event. A list that answers another query than the present one is ignored. */
  function AfterEvent(view: View, event: PickerEvent): View {
    match event
    case Types(query) => view.(query := query, renewed := view.renewed || query != view.query)
    case Opens => view.(query := "", renewed := true)
    case Closes => view.(held := None)
    case Arrow(down) => Stepped(view, down)
    case Clicks(id) => if IsRow(id, view.rows) then view.(selected := Some(id)) else view
    case Answers(query, rows) => if query == view.query then Answered(view, rows) else view
    case Reveals(id, value) => view.(held := Some(Revealed(id, value)))
    case Daemon(status) => (if status.Connected? then view else Disconnected(view)).(status := status)
  }

  function ViewAfter(events: seq<PickerEvent>): View {
    if events == [] then View("", [], None, None, Connected, false)
    else AfterEvent(ViewAfter(events[..|events| - 1]), events[|events| - 1])
  }

  /** The model over a whole session, and the value it draws after each event. */
  method Session(events: seq<PickerEvent>) returns (model: Model, drawn: seq<Option<string>>)
    ensures fresh(model) && model.Shown() == ViewAfter(events)
    ensures |drawn| == |events|
    ensures forall k | 0 <= k < |events| :: drawn[k] == Drawn(ViewAfter(events[..k + 1]))
  {
    model := new Model();
    drawn := [];
    for i := 0 to |events|
      invariant fresh(model) && model.Shown() == ViewAfter(events[..i]) && |drawn| == i
      invariant forall k | 0 <= k < i :: drawn[k] == Drawn(ViewAfter(events[..k + 1]))
    {
      assert events[..i + 1][..i] == events[..i];
      model.Handle(events[i]);
      drawn := drawn + [model.RevealedValue()];
    }
    assert events[..|events|] == events;
  }

  // ---- What holds over any session ----

  /** Something is selected exactly when there are rows, and it is one of them. */
  ghost predicate Consistent(view: View) {
    && UniqueIds(view.rows)
    && (view.selected.Some? <==> view.rows != [])
    && (view.selected.Some? ==> IsRow(view.selected.value, view.rows))
  }

  lemma {:induction false} RowsHaveIds(rows: seq<EntrySummary>, row: nat)
    ensures IdAt(rows, row).Some? <==> row < |rows|
    ensures row < |rows| ==> IsRow(IdAt(rows, row).value, rows)
    ensures row < |rows| && UniqueIds(rows) ==> RowOf(IdAt(rows, row).value, rows) == Some(row)
  {
    if row < |rows| {
      assert rows[row].id == IdAt(rows, row).value;
    }
  }

  lemma {:induction false} SelectionIsAlwaysARow(events: seq<PickerEvent>)
    requires forall e <- events | e.Answers? :: UniqueIds(e.rows)
    ensures Consistent(ViewAfter(events))
  {
    if events != [] {
      var n := |events| - 1;
      var view, event := ViewAfter(events[..n]), events[n];
      SelectionIsAlwaysARow(events[..n]);
      assert event in events;
      match event {
        case Answers(query, rows) =>
          RowsHaveIds(rows, Landing(view, rows));
        case Arrow(down) =>
          forall row: nat ensures row < |view.rows| ==> IsRow(IdAt(view.rows, row).value, view.rows) {
            RowsHaveIds(view.rows, row);
          }
        case _ =>
      }
    }
  }

  /** The landing rule, for a list that was shown and the one that replaces it. */
  lemma {:induction false} LandingRule(view: View, rows: seq<EntrySummary>)
    requires Consistent(view) && UniqueIds(rows) && rows != []
    ensures var after := Answered(view, rows).selected;
            && after.Some?
            && (view.renewed ==> RowOf(after.value, rows) == Some(0))
            && (!view.renewed && view.rows == [] ==> RowOf(after.value, rows) == Some(0))
            && (!view.renewed && view.rows != [] ==>
                  if IsRow(view.selected.value, rows) then after == view.selected
                  else
                    var row := RowOf(view.selected.value, view.rows).value;
                    RowOf(after.value, rows) == Some(if row < |rows| then row else |rows| - 1))
    ensures !Places(view, rows) ==> Answered(view, rows).selected == view.selected
  {
    RowsHaveIds(rows, Landing(view, rows));
  }

  /** Deleting the selected row hands the highlight to the row that moves up into its place, or to
      the new last row. */
  lemma {:induction false} DeletingTheSelectedRow(view: View, row: nat)
    requires Consistent(view) && !view.renewed && row < |view.rows| && view.selected == Some(view.rows[row].id)
    ensures var rows := view.rows[..row] + view.rows[row + 1..];
            && Places(view, rows)
            && Answered(view, rows).selected ==
               if row + 1 < |view.rows| then Some(view.rows[row + 1].id)
               else if row > 0 then Some(view.rows[row - 1].id) else None
  {
    var rows := view.rows[..row] + view.rows[row + 1..];
    RowsHaveIds(view.rows, row);
    assert IdAt(view.rows, row) == view.selected;
    forall i | 0 <= i < |rows| ensures rows[i].id != view.rows[row].id {
      assert rows[i] == if i < row then view.rows[i] else view.rows[i + 1];
    }
  }

  /** A copy made elsewhere arrives on top: the highlight stays on its entry, and nothing placed it. */
  lemma {:induction false} AnArrivalMovesNothing(view: View, arrival: EntrySummary)
    requires Consistent(view) && !view.renewed && view.rows != [] && !IsRow(arrival.id, view.rows)
    ensures var rows := [arrival] + view.rows;
            && !Places(view, rows) && Answered(view, rows).selected == view.selected
            && RowOf(view.selected.value, rows) == Some(RowOf(view.selected.value, view.rows).value + 1)
  {
    var rows, row := [arrival] + view.rows, RowOf(view.selected.value, view.rows).value;
    assert rows[row + 1].id == view.selected.value;
    var after := RowOf(view.selected.value, rows).value;
    assert view.rows[row].id == view.selected.value;
    assert after > 0;
    assert rows[after] == view.rows[after - 1];
  }

  predicate AcceptedAt(events: seq<PickerEvent>, k: nat)
    requires k < |events|
  {
    events[k].Answers? && events[k].query == ViewAfter(events[..k]).query
  }

  /** The query changed here, or the picker was reopened. */
  predicate StartsOver(events: seq<PickerEvent>, k: nat)
    requires k < |events|
  {
    events[k].Opens? || (events[k].Types? && events[k].query != ViewAfter(events[..k]).query)
  }

  /** The next accepted list is a new ranking exactly when the query changed or the picker was
      reopened and no list has been accepted since. */
  lemma {:induction false} FreshUntilAnswered(events: seq<PickerEvent>)
    ensures ViewAfter(events).renewed <==>
            exists k: nat :: k < |events| && StartsOver(events, k) &&
                             forall j: nat | k < j < |events| :: !AcceptedAt(events, j)
  {
    if events != [] {
      var n := |events| - 1;
      var init := events[..n];
      FreshUntilAnswered(init);
      forall k: nat | k < n
        ensures StartsOver(events, k) == StartsOver(init, k) && AcceptedAt(events, k) == AcceptedAt(init, k)
      {
        assert init[..k] == events[..k];
      }
      if StartsOver(events, n) {
        assert ViewAfter(events).renewed;
      } else if AcceptedAt(events, n) {
        assert !ViewAfter(events).renewed;
      } else if ViewAfter(init).renewed {
        var k: nat :| k < n && StartsOver(init, k) && forall j: nat | k < j < n :: !AcceptedAt(init, j);
        assert StartsOver(events, k);
      }
    }
  }

  /** A list was accepted, the daemon went away, the popup closed, or another value was revealed. */
  predicate DropsTheValue(events: seq<PickerEvent>, k: nat)
    requires k < |events|
  {
    || AcceptedAt(events, k)
    || (events[k].Daemon? && !events[k].status.Connected?)
    || events[k].Closes? || events[k].Reveals?
  }

  ghost predicate RevealedAt(events: seq<PickerEvent>, k: nat, id: int, value: string)
    requires k < |events|
  {
    events[k] == Reveals(id, value) && forall j: nat | k < j < |events| :: !DropsTheValue(events, j)
  }

  lemma {:induction false} DropsInAPrefix(events: seq<PickerEvent>, k: nat)
    requires k < |events| - 1
    ensures DropsTheValue(events, k) == DropsTheValue(events[..|events| - 1], k)
  {
    assert events[..|events| - 1][..k] == events[..k];
  }

  lemma {:induction false} RevealedInAPrefix(events: seq<PickerEvent>, k: nat, id: int, value: string)
    requires k < |events| - 1
    ensures RevealedAt(events, k, id, value) <==>
            RevealedAt(events[..|events| - 1], k, id, value) && !DropsTheValue(events, |events| - 1)
  {
    hide DropsTheValue;
    var n := |events| - 1;
    var init := events[..n];
    forall j: nat | k < j < n ensures DropsTheValue(events, j) == DropsTheValue(init, j) {
      DropsInAPrefix(events, j);
    }
    assert init[k] == events[k];
    if RevealedAt(events, k, id, value) {
      forall j: nat | k < j < |init| ensures !DropsTheValue(init, j) {
        assert !DropsTheValue(events, j);
      }
    }
    if RevealedAt(init, k, id, value) && !DropsTheValue(events, n) {
      forall j: nat | k < j < |events| ensures !DropsTheValue(events, j) {
        assert j < n ==> !DropsTheValue(init, j);
      }
    }
  }

  lemma {:induction false} HeldAfterOneMore(view: View, events: seq<PickerEvent>, id: int, value: string)
    requires events != [] && view == ViewAfter(events[..|events| - 1])
    ensures var event := events[|events| - 1];
            AfterEvent(view, event).held == Some(Revealed(id, value)) <==>
            || event == Reveals(id, value)
            || (!DropsTheValue(events, |events| - 1) && view.held == Some(Revealed(id, value)))
  {
    hide ViewAfter;
    hide RowOf;
    hide IsRow;
    hide Places;
    hide Landing;
  }

  lemma {:induction false} HeldSinceItWasRevealed(events: seq<PickerEvent>, id: int, value: string)
    ensures ViewAfter(events).held == Some(Revealed(id, value)) <==>
            exists k: nat :: k < |events| && RevealedAt(events, k, id, value)
  {
    hide AfterEvent;
    hide DropsTheValue;
    if events != [] {
      var n := |events| - 1;
      HeldSinceItWasRevealed(events[..n], id, value);
      HeldAfterOneMore(ViewAfter(events[..n]), events, id, value);
      forall k: nat | k < n
        ensures RevealedAt(events, k, id, value) <==> RevealedAt(events[..n], k, id, value) && !DropsTheValue(events, n)
      {
        RevealedInAPrefix(events, k, id, value);
      }
      assert RevealedAt(events, n, id, value) <==> events[n] == Reveals(id, value);
      if !DropsTheValue(events, n) && ViewAfter(events[..n]).held == Some(Revealed(id, value)) {
        var k: nat :| k < n && RevealedAt(events[..n], k, id, value);
        assert RevealedAt(events, k, id, value);
      }
    }
  }

  /** A value is drawn exactly while the entry it was revealed for is selected and nothing has
      dropped it since. */
  lemma {:induction false} DrawnOnlyWhileSelected(events: seq<PickerEvent>, value: string)
    ensures Drawn(ViewAfter(events)) == Some(value) <==>
            && ViewAfter(events).selected.Some?
            && exists k: nat :: k < |events| && RevealedAt(events, k, ViewAfter(events).selected.value, value)
  {
    if ViewAfter(events).selected.Some? {
      HeldSinceItWasRevealed(events, ViewAfter(events).selected.value, value);
    }
  }
}
