/** The archive page: lists the archived cards (or an empty-state message) and offers
    restore and delete, each behind a confirmation. */
module ArchivePage {
  import opened Wrappers
  import opened Seqs
  import opened Api
  import opened Cards

  predicate IsArchived(c: Card) {
    c.columnName == "archive"
  }

  /** What the archive grid shows. */
  datatype ArchiveGrid = EmptyState | Shown(cards: seq<Card>)

  /** The grid after the card list arrived: the archived cards in fetched order, or the
      empty-state message when there are none. */
  function ArchiveView(fetched: seq<Card>): (g: ArchiveGrid)
    ensures g.EmptyState? <==> forall i :: 0 <= i < |fetched| ==> !IsArchived(fetched[i])
    ensures g.Shown? ==> |g.cards| > 0
    ensures g.Shown? ==> forall c :: multiset(g.cards)[c] == if IsArchived(c) then multiset(fetched)[c] else 0
    ensures g.Shown? ==> IsSubsequence(g.cards, fetched)
  {
    var archived := Filter(fetched, IsArchived);
    FilterEmpty(fetched, IsArchived);
    FilterKeepsOrder(fetched, IsArchived);
    forall c
      ensures multiset(archived)[c] == if IsArchived(c) then multiset(fetched)[c] else 0
    {
      FilterCount(fetched, IsArchived, c);
    }
    if |archived| == 0 then EmptyState else Shown(archived)
  }

  /** Loading the archive: when fetching or decoding the list fails the error is only logged
      and the grid keeps what it showed; otherwise the grid is rebuilt from the list. */
  function LoadArchived(previous: ArchiveGrid, fetched: Option<seq<Card>>): (g: ArchiveGrid)
    ensures fetched.None? ==> g == previous
    ensures fetched.Some? ==> g == ArchiveView(fetched.value)
  {
    match fetched
    case None => previous
    case Some(cards) => ArchiveView(cards)
  }

  /** What one archive-page action does: the request it sends, if any, and whether the
      list is reloaded afterwards. */
  datatype Effect = Effect(request: Option<Request>, reload: bool)

  /** The result of sending a request: the HTTP status, or `None` when `fetch` threw. */
  type Outcome = Option<int>

  /** Reload only after a response that is `ok`; a thrown `fetch` is caught and reported. */
  function ReloadAfter(request: Option<Request>, outcome: Outcome): (reload: bool)
    ensures reload ==> request.Some?
    ensures request.Some? ==> (reload <==> outcome.Some? && IsOk(outcome.value))
  {
    request.Some? && outcome.Some? && IsOk(outcome.value)
  }

  /** The body of a restore: only the column, set to `done`. */
  const RestoreBody: Object := map["column_name" := Str("done")]

  /** `restoreCard`: nothing at all unless the user confirms; then a PATCH of the card whose
      only field is `column_name: 'done'`, and a reload when the response is ok. */
  function Restore(cardId: int, confirmed: bool, outcome: Outcome): (e: Effect)
    ensures e.request.None? <==> !confirmed
    ensures e.request.Some? ==>
      && e.request.value.PatchCard?
      && e.request.value.id == cardId
      && e.request.value.body.Keys == {"column_name"}
      && e.request.value.body["column_name"] == Str("done")
    ensures e.reload <==> confirmed && outcome.Some? && IsOk(outcome.value)
  {
    var request := if confirmed then Some(PatchCard(cardId, RestoreBody)) else None;
    Effect(request, ReloadAfter(request, outcome))
  }

  /** `deleteCard`: nothing at all unless the user confirms; then a DELETE of the card, and
      a reload when the response is ok. */
  function Delete(cardId: int, confirmed: bool, outcome: Outcome): (e: Effect)
    ensures e.request.None? <==> !confirmed
    ensures e.request.Some? ==> e.request.value == DeleteCard(cardId)
    ensures e.reload <==> confirmed && outcome.Some? && IsOk(outcome.value)
  {
    var request := if confirmed then Some(DeleteCard(cardId)) else None;
    Effect(request, ReloadAfter(request, outcome))
  }
}
