/**
 * The comment controller: the check order and ownership rule of deleting
 * a comment and of editing its body.
 */
module CommentController {
  import opened Prelude
  import opened AppErrors
  import opened Store
  import CommentModel
  import AuthMiddleware

  const NotCommentOwner: Thrown := Fail(Forbidden, "Forbidden - user does not own the comment")

  /** The lookup by id that the controller starts with: a malformed id
      fails the cast, an unknown id is 404. */
  function SelectCommentById(db: Db, idText: string): (r: Result<Comment, Thrown>)
    ensures CastId(idText).Err? ==> r == Err(CastId(idText).error)
    ensures CastId(idText).Ok? ==>
      var id := CastId(idText).value;
      && (r.Err? <==> forall i :: 0 <= i < |db.comments| ==> db.comments[i].commentId != id)
      && (r.Err? ==> r.error == CommentModel.CommentNotFound)
      && (r.Ok? ==> r.value in db.comments && r.value.commentId == id)
  {
    var id :- CastId(idText);
    match CommentWithId(db, id)
    case None => Err(CommentModel.CommentNotFound)
    case Some(c) => Ok(c)
  }

  /** `deleteCommentById`: lookup (404), then ownership (403), then the
      removal. */
  function DeleteCommentById(db: Db, idText: string, caller: AuthMiddleware.Identity): (r: Outcome<Unit>)
    ensures SelectCommentById(db, idText).Err? ==> r == Err(SelectCommentById(db, idText).error)
    ensures SelectCommentById(db, idText).Ok? ==>
      var c := SelectCommentById(db, idText).value;
      && (c.author != caller.username ==> r == Err(NotCommentOwner))
      && (c.author == caller.username ==>
            r == Ok((db.(comments := CommentModel.WithoutComment(db.comments, c.commentId)), Reply(204, Unit))))
  {
    var c :- SelectCommentById(db, idText);
    if c.author != caller.username then Err(NotCommentOwner)
    else
      match CommentModel.RemoveCommentById(db, idText)
      case Ok((db', _)) => Ok((db', Reply(204, Unit)))
      case Err(e) => Err(e)
  }

  /** After the owner's delete, a second delete of the same id is 404. */
  lemma SecondDeleteNotFound(db: Db, idText: string, caller: AuthMiddleware.Identity)
    requires DeleteCommentById(db, idText, caller).Ok?
    ensures var db' := DeleteCommentById(db, idText, caller).value.0;
      DeleteCommentById(db', idText, caller) == Err(CommentModel.CommentNotFound)
  {
    var db' := DeleteCommentById(db, idText, caller).value.0;
    var id := CastId(idText).value;
    forall i | 0 <= i < |db'.comments| ensures db'.comments[i].commentId != id {
      assert db'.comments[i] in db'.comments;
    }
  }

  /** `SET body = <text> WHERE comment_id = <id>`. */
  function SetCommentBody(comments: seq<Comment>, id: int, body: string): (r: seq<Comment>)
    ensures |r| == |comments|
    ensures forall i :: 0 <= i < |comments| ==>
      r[i] == if comments[i].commentId == id then comments[i].(body := body) else comments[i]
  {
    MapWhere(comments, (x: Comment) => x.commentId == id, (x: Comment) => x.(body := body))
  }

  /** `updateCommentBody`: a blank body is 400 before the lookup, then 404,
      then 403; the owner's edit replaces the body only. */
  function UpdateCommentBody(db: Db, idText: string, body: Option<string>, caller: AuthMiddleware.Identity)
    : (r: Outcome<Comment>)
    ensures Blank(body) ==> r == Err(Fail(BadRequest, "Bad request"))
    ensures !Blank(body) && SelectCommentById(db, idText).Err? ==> r == Err(SelectCommentById(db, idText).error)
    ensures !Blank(body) && SelectCommentById(db, idText).Ok? ==>
      var c := SelectCommentById(db, idText).value;
      && (c.author != caller.username ==> r == Err(NotCommentOwner))
      && (c.author == caller.username ==>
            r == Ok((db.(comments := SetCommentBody(db.comments, c.commentId, body.value)),
                     Reply(200, c.(body := body.value)))))
  {
    if Blank(body) then Err(Fail(BadRequest, "Bad request"))
    else
      var c :- SelectCommentById(db, idText);
      if c.author != caller.username then Err(NotCommentOwner)
      else Ok((db.(comments := SetCommentBody(db.comments, c.commentId, body.value)), Reply(200, c.(body := body.value))))
  }

  /** An edit keeps the comment's id, article, author, votes and date, and
      every other comment as it was; comment ids stay unique. */
  lemma EditKeepsIdentity(db: Db, idText: string, body: Option<string>, caller: AuthMiddleware.Identity)
    requires WellFormed(db)
    requires UpdateCommentBody(db, idText, body, caller).Ok?
    ensures var (db', reply) := UpdateCommentBody(db, idText, body, caller).value;
      var prior := SelectCommentById(db, idText).value;
      && WellFormed(db')
      && reply.body == Comment(prior.commentId, prior.articleId, prior.author, body.value, prior.votes, prior.createdAt)
      && (forall i :: 0 <= i < |db.comments| && db.comments[i].commentId != prior.commentId ==>
            db'.comments[i] == db.comments[i])
  {
    var c := SelectCommentById(db, idText).value;
    var db' := UpdateCommentBody(db, idText, body, caller).value.0;
    MapWhereUnique(db.comments, (x: Comment) => x.commentId == c.commentId, (x: Comment) => x.(body := body.value), CommentKey);
    assert db'.comments == SetCommentBody(db.comments, c.commentId, body.value);
  }
}
