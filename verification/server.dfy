/** The card and comment endpoints of the server, over an abstract store: a map from card id
    to the stored row stands in for the cards table, and a sequence of comments in creation
    order stands in for the comments table. */
module Server {
  import opened Api
  import opened Seqs

  type Row = Object
  type Store = map<int, Row>

  datatype Comment = Comment(cardId: int, author: Value, content: Value)

  datatype Response =
    | CardBody(id: int, row: Row)          // 200, the card
    | CreatedCard(id: int, row: Row)       // 201, the inserted card
    | NotFound                             // 404, {"error": "Card not found"}
    | Deleted                              // 200, {"success": true}
    | CommentList(comments: seq<Comment>)  // 200, the card's comments
    | CreatedComment(comment: Comment)     // 201, the inserted comment
    | InternalError                        // 500, an exception escaped the handler

  function Status(r: Response): (code: int)
    ensures IsOk(code) <==> !r.NotFound? && !r.InternalError?
  {
    match r
    case CardBody(_, _) => 200
    case CreatedCard(_, _) => 201
    case NotFound => 404
    case Deleted => 200
    case CommentList(_) => 200
    case CreatedComment(_) => 201
    case InternalError => 500
  }

  datatype Reply = Reply(store: Store, response: Response)

  /** The columns `create_card` copies from a request body (besides `label`). */
  const Whitelist: set<string> :=
    {"title", "description", "column_name", "assignee", "issue_type",
     "git_issue", "priority", "due_date", "position"}

  /** The value a whitelisted column takes when the request leaves it out. */
  function Default(key: string): Value
    requires key in Whitelist
  {
    match key
    case "description" => Str("")
    case "column_name" => Str("todo")
    case "assignee" => Str("")
    case "issue_type" => Str("task")
    case "git_issue" => Str("")
    case "priority" => Str("medium")
    case "position" => Int(0)
    case _ => Null   // title and due_date
  }

  /** `dict.get(key, default)`. */
  function GetOr(body: Object, key: string, default: Value): Value {
    if key in body then body[key] else default
  }

  /** The row `create_card` inserts: the whitelisted columns, each copied from the body or
      defaulted, and `label` only when the body has it; every other key is dropped. */
  function CreateRecord(body: Object): (row: Row)
    ensures row.Keys == Whitelist + (if "label" in body then {"label"} else {})
    ensures forall k :: k in Whitelist ==> row[k] == if k in body then body[k] else Default(k)
    ensures "label" in body ==> row["label"] == body["label"]
  {
    var row := map[
      "title" := GetOr(body, "title", Null),
      "description" := GetOr(body, "description", Str("")),
      "column_name" := GetOr(body, "column_name", Str("todo")),
      "assignee" := GetOr(body, "assignee", Str("")),
      "issue_type" := GetOr(body, "issue_type", Str("task")),
      "git_issue" := GetOr(body, "git_issue", Str("")),
      "priority" := GetOr(body, "priority", Str("medium")),
      "due_date" := GetOr(body, "due_date", Null),
      "position" := GetOr(body, "position", Int(0))
    ];
    CreateRecordSpec(body, row);
    if "label" in body then row["label" := body["label"]] else row
  }

  lemma CreateRecordSpec(body: Object, row: Row)
    requires row == map[
      "title" := GetOr(body, "title", Null),
      "description" := GetOr(body, "description", Str("")),
      "column_name" := GetOr(body, "column_name", Str("todo")),
      "assignee" := GetOr(body, "assignee", Str("")),
      "issue_type" := GetOr(body, "issue_type", Str("task")),
      "git_issue" := GetOr(body, "git_issue", Str("")),
      "priority" := GetOr(body, "priority", Str("medium")),
      "due_date" := GetOr(body, "due_date", Null),
      "position" := GetOr(body, "position", Int(0))
    ]
    ensures row.Keys == Whitelist
    ensures forall k :: k in Whitelist ==> row[k] == GetOr(body, k, Default(k))
  {
    forall k | k in Whitelist
      ensures row[k] == GetOr(body, k, Default(k))
    {
      if k == "title" {
      } else if k == "description" {
      } else if k == "column_name" {
      } else if k == "assignee" {
      } else if k == "issue_type" {
      } else if k == "git_issue" {
      } else if k == "priority" {
      } else if k == "due_date" {
      } else {
        assert k == "position";
      }
    }
  }

  /** Creating from a stored row gives back that row: the whitelist keeps everything it made. */
  lemma CreateRecordIdempotent(body: Object)
    ensures CreateRecord(CreateRecord(body)) == CreateRecord(body)
  {
    var row := CreateRecord(body);
    var again := CreateRecord(row);
    assert again.Keys == row.Keys;
  }

  /** `create_card`: inserts the row under the id the database assigns (one not yet used)
      and answers 201 with it. */
  function CreateCard(store: Store, newId: int, body: Object): (r: Reply)
    requires newId !in store
    ensures r.store.Keys == store.Keys + {newId}
    ensures forall k :: k in store ==> r.store[k] == store[k]
    ensures r.store[newId] == CreateRecord(body)
    ensures r.response == CreatedCard(newId, r.store[newId]) && Status(r.response) == 201
  {
    var row := CreateRecord(body);
    Reply(store[newId := row], CreatedCard(newId, row))
  }

  /** `get_card`: the card with that id, or 404. */
  function GetCard(store: Store, id: int): (r: Response)
    ensures r.CardBody? <==> id in store
    ensures r.CardBody? ==> r.id == id && r.row == store[id]
    ensures !r.CardBody? ==> r == NotFound
  {
    if id in store then CardBody(id, store[id]) else NotFound
  }

  /** `update_card`: overwrites exactly the body's keys of the card with that id and answers
      with the updated card; with no such card, 404 and nothing changes. */
  function UpdateCard(store: Store, id: int, body: Object): (r: Reply)
    ensures id !in store ==> r == Reply(store, NotFound)
    ensures r.store.Keys == store.Keys
    ensures forall k :: k in store && k != id ==> r.store[k] == store[k]
    ensures id in store ==>
      && r.store[id].Keys == store[id].Keys + body.Keys
      && (forall f :: f in body ==> r.store[id][f] == body[f])
      && (forall f :: f in store[id] && f !in body ==> r.store[id][f] == store[id][f])
      && r.response == CardBody(id, r.store[id])
  {
    if id in store then
      var row := store[id] + body;
      Reply(store[id := row], CardBody(id, row))
    else Reply(store, NotFound)
  }

  /** Sending the same update twice is the same as sending it once. */
  lemma UpdateIdempotent(store: Store, id: int, body: Object)
    ensures UpdateCard(UpdateCard(store, id, body).store, id, body) == UpdateCard(store, id, body)
  {
    if id in store {
      var row := store[id] + body;
      assert row + body == row;
    }
  }

  /** `delete_card`: removes the card if there is one and reports success either way. */
  function DeleteCard(store: Store, id: int): (r: Reply)
    ensures r.store.Keys == store.Keys - {id}
    ensures forall k :: k in r.store ==> r.store[k] == store[k]
    ensures r.response == Deleted && Status(r.response) == 200
  {
    Reply(store - {id}, Deleted)
  }

  /** Moves a card to a column with the single-column update both action endpoints send. */
  function SetColumn(store: Store, id: int, column: string): Reply {
    UpdateCard(store, id, map["column_name" := Str(column)])
  }

  /** `archive_card`: the card's column becomes `archive`; no other field and no other card
      changes; with no such card, 404 and nothing changes. */
  function ArchiveCard(store: Store, id: int): (r: Reply)
    ensures id !in store ==> r == Reply(store, NotFound)
    ensures r.store.Keys == store.Keys
    ensures forall k :: k in store && k != id ==> r.store[k] == store[k]
    ensures id in store ==>
      && r.store[id] == store[id]["column_name" := Str("archive")]
      && r.response == CardBody(id, r.store[id])
  {
    var r := SetColumn(store, id, "archive");
    assert id in store ==> r.store[id] == store[id]["column_name" := Str("archive")];
    r
  }

  /** `restore_card`: the card's column becomes `done`; no other field and no other card
      changes; with no such card, 404 and nothing changes. */
  function RestoreCard(store: Store, id: int): (r: Reply)
    ensures id !in store ==> r == Reply(store, NotFound)
    ensures r.store.Keys == store.Keys
    ensures forall k :: k in store && k != id ==> r.store[k] == store[k]
    ensures id in store ==>
      && r.store[id] == store[id]["column_name" := Str("done")]
      && r.response == CardBody(id, r.store[id])
  {
    var r := SetColumn(store, id, "done");
    assert id in store ==> r.store[id] == store[id]["column_name" := Str("done")];
    r
  }

  /** Archiving a card from the `done` column and restoring it gives back the original store. */
  lemma ArchiveRestoreRoundTrip(store: Store, id: int)
    requires id in store && "column_name" in store[id] && store[id]["column_name"] == Str("done")
    ensures RestoreCard(ArchiveCard(store, id).store, id).store == store
  {
    var after := RestoreCard(ArchiveCard(store, id).store, id).store;
    assert after[id] == store[id];
  }

  /** After a delete the card is gone: reading it is a 404, and deleting again changes nothing. */
  lemma DeleteThenGet(store: Store, id: int)
    ensures GetCard(DeleteCard(store, id).store, id) == NotFound
    ensures DeleteCard(DeleteCard(store, id).store, id) == DeleteCard(store, id)
  {
  }

  /** A created card reads back as the row that was inserted, and an updated card as its
      old row overwritten by the body. */
  lemma WriteThenGet(store: Store, newId: int, body: Object, id: int, patch: Object)
    requires newId !in store
    ensures GetCard(CreateCard(store, newId, body).store, newId) == CardBody(newId, CreateRecord(body))
    ensures id in store ==> GetCard(UpdateCard(store, id, patch).store, id) == CardBody(id, store[id] + patch)
  {
  }

  /** `get_comments`: the comments of that card, in creation order. */
  function GetComments(comments: seq<Comment>, cardId: int): (r: Response)
    ensures r.CommentList?
    ensures forall x :: multiset(r.comments)[x] == if x.cardId == cardId then multiset(comments)[x] else 0
    ensures IsSubsequence(r.comments, comments)
  {
    var kept := Filter(comments, (x: Comment) => x.cardId == cardId);
    forall x
      ensures multiset(kept)[x] == if x.cardId == cardId then multiset(comments)[x] else 0
    {
      FilterCount(comments, (x: Comment) => x.cardId == cardId, x);
    }
    FilterKeepsOrder(comments, (x: Comment) => x.cardId == cardId);
    CommentList(kept)
  }

  datatype CommentReply = CommentReply(comments: seq<Comment>, response: Response)

  /** `add_comment`: appends a comment for the card from the body's `author` and `content`;
      a body missing either key raises, which the framework answers with a 500. */
  function AddComment(comments: seq<Comment>, cardId: int, body: Object): (r: CommentReply)
    ensures "author" in body && "content" in body ==>
      && r.comments == comments + [Comment(cardId, body["author"], body["content"])]
      && r.response == CreatedComment(Comment(cardId, body["author"], body["content"]))
    ensures !("author" in body && "content" in body) ==> r == CommentReply(comments, InternalError)
  {
    if "author" in body && "content" in body then
      var c := Comment(cardId, body["author"], body["content"]);
      CommentReply(comments + [c], CreatedComment(c))
    else CommentReply(comments, InternalError)
  }

  /** An added comment shows up last in its card's thread; other cards' threads do not change. */
  lemma AddThenGetComments(comments: seq<Comment>, cardId: int, body: Object, other: int)
    requires "author" in body && "content" in body
    requires other != cardId
    ensures GetComments(AddComment(comments, cardId, body).comments, cardId).comments
      == GetComments(comments, cardId).comments + [Comment(cardId, body["author"], body["content"])]
    ensures GetComments(AddComment(comments, cardId, body).comments, other) == GetComments(comments, other)
  {
    var c := Comment(cardId, body["author"], body["content"]);
    assert (comments + [c])[..|comments + [c]| - 1] == comments;
  }
}
