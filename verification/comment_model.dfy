/**
 * The comment model: deleting a comment by id.
 */
module CommentModel {
  import opened Prelude
  import opened AppErrors
  import opened Store

  const CommentNotFound: Thrown := Fail(NotFound, "Comment not found")

  /** The comment table without the rows of `id`. */
  function WithoutComment(comments: seq<Comment>, id: int): (r: seq<Comment>)
    ensures forall c :: c in r <==> c in comments && c.commentId != id
    ensures forall c: Comment :: c.commentId != id ==> multiset(r)[c] == multiset(comments)[c]
  {
    Filter(comments, (c: Comment) => c.commentId != id)
  }

  /** `removeCommentById`: `DELETE ... RETURNING *`; a malformed id fails
      the cast, no deleted row is 404, otherwise the deleted row. */
  function RemoveCommentById(db: Db, idText: string): (r: Result<(Db, Comment), Thrown>)
    ensures CastId(idText).Err? ==> r == Err(CastId(idText).error)
    ensures CastId(idText).Ok? ==>
      var id := CastId(idText).value;
      && (r.Err? <==> forall i :: 0 <= i < |db.comments| ==> db.comments[i].commentId != id)
      && (r.Err? ==> r.error == CommentNotFound)
      && (r.Ok? ==> r.value.1 in db.comments && r.value.1.commentId == id
                    && r.value.0 == db.(comments := WithoutComment(db.comments, id)))
  {
    var id :- CastId(idText);
    match CommentWithId(db, id)
    case None => Err(CommentNotFound)
    case Some(c) => Ok((db.(comments := WithoutComment(db.comments, id)), c))
  }

  /** Removing a comment removes exactly that id: every other comment keeps
      its multiplicity, the other tables are untouched, the keys stay
      unique, and removing it again is 404. */
  lemma RemoveExactlyThatComment(db: Db, idText: string)
    requires WellFormed(db)
    requires RemoveCommentById(db, idText).Ok?
    ensures var (db', c) := RemoveCommentById(db, idText).value;
      && WellFormed(db')
      && db'.users == db.users && db'.articles == db.articles && db'.topics == db.topics
      && (forall x: Comment :: x.commentId != c.commentId ==> multiset(db'.comments)[x] == multiset(db.comments)[x])
      && c !in db'.comments
      && RemoveCommentById(db', idText) == Err(CommentNotFound)
  {
    var (db', c) := RemoveCommentById(db, idText).value;
    var id := CastId(idText).value;
    FilterUnique(db.comments, (x: Comment) => x.commentId != id, CommentKey);
    forall i | 0 <= i < |db'.comments| ensures db'.comments[i].commentId != id {
      assert db'.comments[i] in db'.comments;
    }
    forall i | 0 <= i < |db'.comments| ensures db'.comments[i].commentId < db'.nextCommentId {
      assert db'.comments[i] in db.comments;
    }
  }
}
