/** The main page's inputs: the new-card form, the comment box, and the delete button of
    the detail view. */
module Forms {
  import opened Wrappers
  import opened Api

  /** The new-card form's field values, as typed (an empty field is the empty string). */
  datatype CardForm = CardForm(
    title: string, description: string, assignee: string, issueType: string,
    priority: string, dueDate: string, columnName: string, gitIssue: string)

  /** The body the form posts: every field as a string, except that a blank due date is
      sent as `null`. */
  function FormBody(f: CardForm): (body: Object)
    ensures body.Keys == {"title", "description", "assignee", "issue_type", "priority",
                          "due_date", "column_name", "git_issue"}
    ensures body["due_date"] == Null <==> f.dueDate == ""
    ensures f.dueDate != "" ==> body["due_date"] == Str(f.dueDate)
    ensures body["title"] == Str(f.title) && body["column_name"] == Str(f.columnName)
    ensures body["description"] == Str(f.description) && body["assignee"] == Str(f.assignee)
    ensures body["issue_type"] == Str(f.issueType) && body["priority"] == Str(f.priority)
    ensures body["git_issue"] == Str(f.gitIssue)
  {
    map[
      "title" := Str(f.title),
      "description" := Str(f.description),
      "assignee" := Str(f.assignee),
      "issue_type" := Str(f.issueType),
      "priority" := Str(f.priority),
      "due_date" := if f.dueDate == "" then Null else Str(f.dueDate),
      "column_name" := Str(f.columnName),
      "git_issue" := Str(f.gitIssue)
    ]
  }

  /** `addComment`: with an empty name or an empty comment nothing is sent (the user is
      alerted); otherwise both are posted for the card, unchanged. */
  function CommentRequest(cardId: int, author: string, content: string): (r: Option<Request>)
    ensures r.None? <==> author == "" || content == ""
    ensures r.Some? ==>
      && r.value.PostComment?
      && r.value.cardId == cardId
      && r.value.body.Keys == {"author", "content"}
      && r.value.body["author"] == Str(author)
      && r.value.body["content"] == Str(content)
  {
    if author == "" || content == "" then None
    else Some(PostComment(cardId, map["author" := Str(author), "content" := Str(content)]))
  }

  /** The detail view's delete: nothing unless the user confirms; then a DELETE, after which
      the board reloads once the request completes, whatever its status (only a thrown
      `fetch` prevents it). */
  function DeleteFromBoard(cardId: int, confirmed: bool, completed: bool): (r: (Option<Request>, bool))
    ensures r.0.None? <==> !confirmed
    ensures r.0.Some? ==> r.0.value == DeleteCard(cardId)
    ensures r.1 <==> confirmed && completed
  {
    if confirmed then (Some(DeleteCard(cardId)), completed) else (None, false)
  }
}
