/** How the pages' requests meet the server's handlers: what a restore, a delete, a new
    card or a comment sent from a page does to the store, and what the pages then show. */
module Interplay {
  import opened Wrappers
  import opened Seqs
  import opened Api
  import opened Cards
  import Server
  import ArchivePage
  import Forms

  /** The client's reading of a stored row: string columns become strings (anything else
      reads as empty), a string due date is kept and anything else reads as no due date. */
  function ToCard(id: int, row: Server.Row): (c: Card)
    ensures c.id == id
    ensures "column_name" in row && row["column_name"].Str? ==> c.columnName == row["column_name"].s
  {
    Card(id,
         if "title" in row && row["title"].Str? then row["title"].s else "",
         if "column_name" in row && row["column_name"].Str? then row["column_name"].s else "",
         if "due_date" in row && row["due_date"].Str? then Some(row["due_date"].s) else None)
  }

  /** `order` is the database's ordering of the stored cards: every stored id exactly once. */
  predicate ListsEachOnce(store: Server.Store, order: seq<int>) {
    && (forall k :: k in store ==> k in order)
    && (forall i :: 0 <= i < |order| ==> order[i] in store)
    && (forall a, b :: 0 <= a < b < |order| ==> order[a] != order[b])
  }

  /** The card list `GET /api/cards` returns: every stored row once, in the database's
      order `order` (the server asks for newest first). */
  function Listing(store: Server.Store, order: seq<int>): (cards: seq<Card>)
    requires ListsEachOnce(store, order)
    ensures |cards| == |order|
    ensures forall i :: 0 <= i < |order| ==> cards[i] == ToCard(order[i], store[order[i]])
  {
    seq(|order|, i requires 0 <= i < |order| => ToCard(order[i], store[order[i]]))
  }

  /** Every stored card is in the listing exactly once. */
  lemma ListingHasEachCardOnce(store: Server.Store, order: seq<int>, id: int)
    requires ListsEachOnce(store, order) && id in store
    ensures exists i :: 0 <= i < |order| && Listing(store, order)[i] == ToCard(id, store[id])
    ensures forall i, j ::
      (0 <= i < |order| && 0 <= j < |order| &&
       Listing(store, order)[i].id == id && Listing(store, order)[j].id == id) ==> i == j
  {
    var i :| 0 <= i < |order| && order[i] == id;
    assert Listing(store, order)[i] == ToCard(id, store[id]);
  }

  /** The archive page's restore is sent as a PATCH, which the update handler applies with
      exactly the effect of the dedicated restore endpoint; the page reloads iff the card
      existed. */
  lemma RestoreThroughPatch(store: Server.Store, id: int)
    ensures ArchivePage.Restore(id, true, Some(Server.Status(Server.UpdateCard(store, id, ArchivePage.RestoreBody).response))).request
      == Some(PatchCard(id, ArchivePage.RestoreBody))
    ensures Server.UpdateCard(store, id, ArchivePage.RestoreBody) == Server.RestoreCard(store, id)
    ensures ArchivePage.Restore(id, true, Some(Server.Status(Server.UpdateCard(store, id, ArchivePage.RestoreBody).response))).reload
      <==> id in store
  {
    var viaPatch := Server.UpdateCard(store, id, ArchivePage.RestoreBody);
    var viaEndpoint := Server.RestoreCard(store, id);
    if id in store {
      assert viaPatch.store[id] == viaEndpoint.store[id];
    }
  }

  /** A confirmed delete always gets an ok answer, so the archive page always reloads, and
      the card is gone from the store. */
  lemma DeleteAlwaysReloads(store: Server.Store, id: int)
    ensures ArchivePage.Delete(id, true, Some(Server.Status(Server.DeleteCard(store, id).response))).reload
    ensures id !in Server.DeleteCard(store, id).store
  {
  }

  /** A card created from the new-card form is stored with every form field as typed, a
      null due date exactly when the field was blank, position 0 and no label. */
  lemma CreateFromForm(store: Server.Store, newId: int, f: Forms.CardForm)
    requires newId !in store
    ensures var row := Server.CreateCard(store, newId, Forms.FormBody(f)).store[newId];
      && "label" !in row
      && row["position"] == Int(0)
      && (row["due_date"] == Null <==> f.dueDate == "")
      && (f.dueDate != "" ==> row["due_date"] == Str(f.dueDate))
      && row["title"] == Str(f.title)
      && row["description"] == Str(f.description)
      && row["assignee"] == Str(f.assignee)
      && row["git_issue"] == Str(f.gitIssue)
      && row["column_name"] == Str(f.columnName)
      && row["issue_type"] == Str(f.issueType)
      && row["priority"] == Str(f.priority)
  {
    var body := Forms.FormBody(f);
    assert "position" !in body;
    assert "label" !in body;
  }

  /** A created card shows up in its column's bucket on the next board load. */
  lemma CreatedCardListed(store: Server.Store, newId: int, f: Forms.CardForm, order: seq<int>, i: int)
    requires newId !in store
    requires ListsEachOnce(Server.CreateCard(store, newId, Forms.FormBody(f)).store, order)
    requires 0 <= i < |order| && order[i] == newId
    ensures var s := Server.CreateCard(store, newId, Forms.FormBody(f)).store;
      Listing(s, order)[i] == Card(newId, f.title, f.columnName, if f.dueDate == "" then None else Some(f.dueDate))
  {
  }

  /** Whenever the comment box sends a request, the server accepts it (the handler's key
      lookups cannot fail) and stores exactly the typed name and text. */
  lemma CommentAccepted(comments: seq<Server.Comment>, cardId: int, author: string, content: string)
    requires author != "" && content != ""
    ensures var req := Forms.CommentRequest(cardId, author, content).value;
      Server.AddComment(comments, req.cardId, req.body).response
        == Server.CreatedComment(Server.Comment(cardId, Str(author), Str(content)))
  {
  }

  /** An archived card appears on the archive page's next load. */
  lemma ArchivedCardOnPage(store: Server.Store, id: int, order: seq<int>)
    requires id in store
    requires ListsEachOnce(store, order)
    ensures var g := ArchivePage.ArchiveView(Listing(Server.ArchiveCard(store, id).store, order));
      g.Shown? && exists c :: c in g.cards && c.id == id
  {
    var s1 := Server.ArchiveCard(store, id).store;
    var l1 := Listing(s1, order);
    var i :| 0 <= i < |order| && order[i] == id;
    var c := l1[i];
    assert s1[id]["column_name"] == Str("archive");
    assert c.id == id && ArchivePage.IsArchived(c);
    var g1 := ArchivePage.ArchiveView(l1);
    assert multiset(l1)[c] > 0;
    assert g1.Shown?;
    assert multiset(g1.cards)[c] > 0;
  }

  /** A restored card is not on the archive page's next load. */
  lemma RestoredCardOffPage(store: Server.Store, id: int, order: seq<int>)
    requires id in store
    requires ListsEachOnce(store, order)
    ensures var g := ArchivePage.ArchiveView(Listing(Server.RestoreCard(store, id).store, order));
      g.Shown? ==> forall c :: c in g.cards ==> c.id != id
  {
    var s2 := Server.RestoreCard(store, id).store;
    var l2 := Listing(s2, order);
    var g2 := ArchivePage.ArchiveView(l2);
    assert s2[id]["column_name"] == Str("done");
    forall k | 0 <= k < |order| && order[k] == id
      ensures !ArchivePage.IsArchived(l2[k])
    {
    }
    if g2.Shown? {
      forall c | c in g2.cards
        ensures c.id != id
      {
        assert multiset(g2.cards)[c] > 0;
        assert ArchivePage.IsArchived(c) && c in l2;
      }
    }
  }
}
