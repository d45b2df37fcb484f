/** The rules of `ext_data_control_v1` a client has to keep, as automata over what goes over the
    wire. */
module Protocol {
  import opened Strings

  type OfferId = nat
  type SourceId = nat

  /** Requests clippo sends, and the events that move the objects they are about. */
  datatype Message =
    | OfferIntroduced(offer: OfferId)
    | OfferSelected(offer: OfferId)
    | Receive(offer: OfferId, mime: string)
    | DestroyOffer(offer: OfferId)
    | CreateSource(source: SourceId)
    | OfferType(source: SourceId, mime: string)
    | SetSelection(holder: Option<SourceId>)
    | SourceCancelled(source: SourceId)
    | DestroySource(source: SourceId)
    | DestroyDevice

  type Trace = seq<Message>

  datatype SourceState = Building | Used | Destroyed

  /** `holder` is the source whose contents are the clipboard, as far as clippo knows. */
  datatype Sources = Sources(states: map<SourceId, SourceState>, holder: Option<SourceId>, device: bool) | SourceError

  /** Types are advertised before the source is used, a source is used once, it is destroyed once,
      and never while it holds the selection; nothing is selected on a destroyed device. */
  function AfterMessage(sources: Sources, message: Message): Sources {
    if sources.SourceError? then SourceError
    else
      var states := sources.states;
      match message
      case CreateSource(s) =>
        if s in states then SourceError else sources.(states := states[s := Building])
      case OfferType(s, _) =>
        if s in states && states[s].Building? then sources else SourceError
      case SetSelection(None) =>
        if sources.device then sources.(holder := None) else SourceError
      case SetSelection(Some(s)) =>
        if sources.device && s in states && states[s].Building?
        then sources.(states := states[s := Used], holder := Some(s)) else SourceError
      case SourceCancelled(s) =>
        if sources.holder == Some(s) then sources.(holder := None) else sources
      case DestroySource(s) =>
        if s in states && !states[s].Destroyed? && sources.holder != Some(s)
        then sources.(states := states[s := Destroyed]) else SourceError
      case DestroyDevice =>
        if sources.device then sources.(device := false) else SourceError
      case _ => sources
  }

  function SourcesAfter(trace: Trace): Sources {
    if trace == [] then Sources(map[], None, true)
    else AfterMessage(SourcesAfter(trace[..|trace| - 1]), trace[|trace| - 1])
  }

  datatype OfferState = Tracked | InUse | Gone

  /** The compositor's side of the contract can break, or the client's. */
  datatype Ledger = Ledger(offers: map<OfferId, OfferState>) | CompositorBroke | ClientBroke

  /** The compositor introduces an offer once and selects it at most once, while it is tracked. The
      client asks only the offer in use for its contents, and destroys each offer once. */
  function LedgerAfterMessage(ledger: Ledger, message: Message): Ledger {
    if !ledger.Ledger? then ledger
    else
      var offers := ledger.offers;
      match message
      case OfferIntroduced(o) =>
        if o in offers then CompositorBroke else Ledger(offers[o := Tracked])
      case OfferSelected(o) =>
        if o in offers && offers[o].Tracked? then Ledger(offers[o := InUse]) else CompositorBroke
      case Receive(o, _) =>
        if o in offers && offers[o].InUse? then ledger else ClientBroke
      case DestroyOffer(o) =>
        if o in offers && !offers[o].Gone? then Ledger(offers[o := Gone]) else ClientBroke
      case _ => ledger
  }

  function LedgerAfter(trace: Trace): Ledger {
    if trace == [] then Ledger(map[])
    else LedgerAfterMessage(LedgerAfter(trace[..|trace| - 1]), trace[|trace| - 1])
  }

  lemma {:induction false} OneMoreMessage(trace: Trace, message: Message)
    ensures SourcesAfter(trace + [message]) == AfterMessage(SourcesAfter(trace), message)
    ensures LedgerAfter(trace + [message]) == LedgerAfterMessage(LedgerAfter(trace), message)
  {
    assert (trace + [message])[..|trace|] == trace;
  }

  /** As long as the compositor keeps its side, each offer is exactly one of tracked, in use, or
      destroyed; and clippo never breaks its side first. */
  ghost predicate LedgerShows(ledger: Ledger, tracked: set<OfferId>, inUse: Option<OfferId>) {
    && !ledger.ClientBroke?
    && (ledger.Ledger? ==>
          forall o: OfferId {:trigger o in ledger.offers} {:trigger o in tracked} ::
            && (o in ledger.offers && ledger.offers[o].Tracked? <==> o in tracked)
            && (o in ledger.offers && ledger.offers[o].InUse? <==> inUse == Some(o)))
  }

  /** Every source is legal, the one that is owned holds the selection, and all others are gone. */
  ghost predicate SourcesShow(sources: Sources, owned: Option<SourceId>, next: SourceId, device: bool) {
    && sources.Sources? && sources.holder == owned && sources.device == device
    && (owned.Some? ==> owned.value in sources.states)
    && forall s <- sources.states.Keys ::
         s < next && sources.states[s] == if owned == Some(s) then Used else Destroyed
  }
}
