/**
 * The article model: the article listing with its sort/order validation and
 * topic filter, a single article with its comment count, an article's
 * comments newest first, posting a comment, and voting on an article.
 *
 * Path ids and vote deltas are bound as text and cast by the database
 * (`Store.CastId`, `NumberParsing.PgInt4`).
 */
module ArticleModel {
  import opened Prelude
  import opened AppErrors
  import Text
  import NumberParsing
  import opened Store
  import AuthModel

  // ---------------------------------------------------------------------
  // Listing

  /** A row of the article listing: every column but the body, plus the
      number of comments rendered as text. */
  datatype Listing = Listing(
    author: string, title: string, articleId: int, topic: string, createdAt: int,
    votes: int, imgUrl: string, commentCount: string)

  const SortColumns: seq<string> := ["article_id", "title", "topic", "author", "created_at", "votes"]

  /** The comments of one article, in table order. */
  function CommentsOf(db: Db, articleId: int): (r: seq<Comment>)
    ensures forall c :: c in r <==> c in db.comments && c.articleId == articleId
  {
    Filter(db.comments, (c: Comment) => c.articleId == articleId)
  }

  /** `COUNT(comments.comment_id)::TEXT` over the `LEFT JOIN`. */
  function CommentCount(db: Db, articleId: int): string {
    Text.IntToDecimal(|CommentsOf(db, articleId)|)
  }

  function ToListing(db: Db, a: Article): (l: Listing)
    ensures l.articleId == a.articleId && l.topic == a.topic && l.author == a.author
  {
    Listing(a.author, a.title, a.articleId, a.topic, a.createdAt, a.votes, a.imgUrl, CommentCount(db, a.articleId))
  }

  function Listings(db: Db, articles: seq<Article>): (r: seq<Listing>)
    ensures |r| == |articles|
    ensures forall i :: 0 <= i < |articles| ==> r[i] == ToListing(db, articles[i])
  {
    seq(|articles|, i requires 0 <= i < |articles| => ToListing(db, articles[i]))
  }

  /** `order.toLowerCase()` is "asc" or "desc".  Only ASCII letters lower to
      any of a, c, d, e, s, so ASCII lower-casing decides this exactly. */
  predicate ValidOrder(order: string) {
    Text.Lower(order) == "asc" || Text.Lower(order) == "desc"
  }

  const BadRequestError: Thrown := Fail(BadRequest, "Bad request")

  /** `selectArticles(sort_by = "created_at", order = "desc", topic)`: the
      column is checked, then the order, then (for a truthy topic) that the
      topic exists; the rows are then those of the topic, or all rows.  The
      `ORDER BY` is not modelled: rows come in table order. */
  function SelectArticles(db: Db, sortBy: Option<string>, order: Option<string>, topic: Option<string>)
    : (r: Result<seq<Listing>, Thrown>)
    ensures sortBy.GetOr("created_at") !in SortColumns ==> r == Err(BadRequestError)
    ensures sortBy.GetOr("created_at") in SortColumns && !ValidOrder(order.GetOr("desc")) ==> r == Err(BadRequestError)
    ensures sortBy.GetOr("created_at") in SortColumns && ValidOrder(order.GetOr("desc")) ==>
      && (Blank(topic) ==> r == Ok(Listings(db, db.articles)))
      && (!Blank(topic) ==>
            (TopicWithSlug(db, topic.value).None? <==> r.Err?)
            && (r.Err? ==> r.error == Fail(NotFound, "Topic not found")))
    ensures r.Ok? && !Blank(topic) ==>
      forall l :: l in r.value <==> exists a :: a in db.articles && a.topic == topic.value && l == ToListing(db, a)
  {
    var column := sortBy.GetOr("created_at");
    var direction := order.GetOr("desc");
    if column !in SortColumns then Err(BadRequestError)
    else if !ValidOrder(direction) then Err(BadRequestError)
    else if Blank(topic) then Ok(Listings(db, db.articles))
    else if TopicWithSlug(db, topic.value).None? then Err(Fail(NotFound, "Topic not found"))
    else
      var rows := Filter(db.articles, (a: Article) => a.topic == topic.value);
      var r := Listings(db, rows);
      assert forall l :: l in r ==> exists a :: a in rows && l == ToListing(db, a) by {
        forall l | l in r ensures exists a :: a in rows && l == ToListing(db, a) {
          var i :| 0 <= i < |r| && r[i] == l;
          assert rows[i] in rows;
        }
      }
      assert forall a :: a in rows ==> ToListing(db, a) in r by {
        forall a | a in rows ensures ToListing(db, a) in r {
          var i :| 0 <= i < |rows| && rows[i] == a;
          assert r[i] == ToListing(db, a);
        }
      }
      Ok(r)
  }

  /** The order word is accepted in any letter case: "ASC" and "Desc" too. */
  lemma OrderIgnoresCase()
    ensures ValidOrder("ASC") && ValidOrder("Desc") && !ValidOrder("ascending")
  {
    assert Text.Lower("ASC") == "asc";
    assert Text.Lower("Desc") == "desc";
    assert |Text.Lower("ascending")| == 9;
  }

  // ---------------------------------------------------------------------
  // One article

  /** An article row with its comment count. */
  datatype Detail = Detail(article: Article, commentCount: string)

  const ArticleNotFound: Thrown := Fail(NotFound, "Article not found")

  /** `selectArticleById`: a malformed id fails the cast; an id with no row
      is 404. */
  function SelectArticleById(db: Db, idText: string): (r: Result<Detail, Thrown>)
    ensures CastId(idText).Err? ==> r == Err(CastId(idText).error)
    ensures CastId(idText).Ok? ==>
      var id := CastId(idText).value;
      && (r.Err? <==> forall i :: 0 <= i < |db.articles| ==> db.articles[i].articleId != id)
      && (r.Err? ==> r.error == ArticleNotFound)
      && (r.Ok? ==> r.value.article in db.articles && r.value.article.articleId == id
                    && r.value.commentCount == CommentCount(db, id))
  {
    var id :- CastId(idText);
    match ArticleWithId(db, id)
    case None => Err(ArticleNotFound)
    case Some(a) => Ok(Detail(a, CommentCount(db, id)))
  }

  // ---------------------------------------------------------------------
  // Comments of an article, newest first

  predicate NewestFirst(cs: seq<Comment>) {
    forall i, j :: 0 <= i < j < |cs| ==> cs[i].createdAt >= cs[j].createdAt
  }

  /** No comment of `cs` is newer than `t`. */
  predicate NoNewerThan(cs: seq<Comment>, t: int) {
    forall i :: 0 <= i < |cs| ==> cs[i].createdAt <= t
  }

  /** Insert one comment into a newest-first list. */
  function InsertByDate(c: Comment, sorted: seq<Comment>): (r: seq<Comment>)
    requires NewestFirst(sorted)
    ensures NewestFirst(r)
    ensures multiset(r) == multiset(sorted) + multiset{c}
    ensures forall t :: NoNewerThan(sorted, t) && c.createdAt <= t ==> NoNewerThan(r, t)
  {
    if sorted == [] then [c]
    else if c.createdAt >= sorted[0].createdAt then [c] + sorted
    else
      var head, tail := sorted[0], sorted[1..];
      var rest := InsertByDate(c, tail);
      assert sorted == [head] + tail;
      assert NoNewerThan(tail, head.createdAt);
      assert NoNewerThan(rest, head.createdAt);
      [head] + rest
  }

  /** `ORDER BY created_at DESC`, as an insertion sort. */
  function SortNewestFirst(cs: seq<Comment>): (r: seq<Comment>)
    ensures NewestFirst(r)
    ensures multiset(r) == multiset(cs)
  {
    if cs == [] then []
    else
      assert cs == [cs[0]] + cs[1..];
      InsertByDate(cs[0], SortNewestFirst(cs[1..]))
  }

  /** `selectArticleComments`: the article must exist (same failures as
      `selectArticleById`); then exactly its comments, newest first. */
  function SelectArticleComments(db: Db, idText: string): (r: Result<seq<Comment>, Thrown>)
    ensures SelectArticleById(db, idText).Err? ==> r == Err(SelectArticleById(db, idText).error)
    ensures SelectArticleById(db, idText).Ok? ==> r.Ok?
    ensures r.Ok? ==>
      var id := CastId(idText).value;
      && NewestFirst(r.value)
      && multiset(r.value) == multiset(CommentsOf(db, id))
      && forall c :: c in r.value <==> c in db.comments && c.articleId == id
  {
    var detail :- SelectArticleById(db, idText);
    var sorted := SortNewestFirst(CommentsOf(db, detail.article.articleId));
    assert forall c :: c in sorted <==> c in multiset(sorted);
    Ok(sorted)
  }

  // ---------------------------------------------------------------------
  // Posting a comment

  /** `insertArticleComment`: the article check, then the user check, then
      the insert, where a missing body violates `NOT NULL`.  The new row
      takes the next id of the sequence, no votes, and the time `now`. */
  function InsertArticleComment(db: Db, idText: string, username: string, body: Option<string>, now: int)
    : (r: Result<(Db, Comment), Thrown>)
    ensures SelectArticleById(db, idText).Err? ==> r == Err(SelectArticleById(db, idText).error)
    ensures SelectArticleById(db, idText).Ok? && AuthModel.FindUserByUsername(db, username).None? ==>
      r == Err(Fail(NotFound, "Username not found"))
    ensures SelectArticleById(db, idText).Ok? && AuthModel.FindUserByUsername(db, username).Some? ==>
      && (body.None? ==> r == Err(DbError("23502")))
      && (body.Some? ==>
            var c := Comment(db.nextCommentId, CastId(idText).value, username, body.value, 0, now);
            r == Ok((db.(comments := db.comments + [c], nextCommentId := db.nextCommentId + 1), c)))
  {
    var detail :- SelectArticleById(db, idText);
    if AuthModel.FindUserByUsername(db, username).None? then Err(Fail(NotFound, "Username not found"))
    else if body.None? then Err(DbError("23502"))
    else
      var c := Comment(db.nextCommentId, detail.article.articleId, username, body.value, 0, now);
      Ok((db.(comments := db.comments + [c], nextCommentId := db.nextCommentId + 1), c))
  }

  /** A posted comment keeps comment ids unique, and is then listed first
      among its article's comments when it is the newest. */
  lemma InsertedCommentListed(db: Db, idText: string, username: string, body: Option<string>, now: int)
    requires WellFormed(db)
    requires InsertArticleComment(db, idText, username, body, now).Ok?
    ensures var (db', c) := InsertArticleComment(db, idText, username, body, now).value;
      WellFormed(db') && SelectArticleComments(db', idText).Ok? && c in SelectArticleComments(db', idText).value
  {
    var (db', c) := InsertArticleComment(db, idText, username, body, now).value;
    AppendUnique(db.comments, c, CommentKey);
    var id := CastId(idText).value;
    assert db'.articles == db.articles;
    assert c in db'.comments;
  }

  // ---------------------------------------------------------------------
  // Voting

  /** `SET votes = <sum> WHERE article_id = <id>`. */
  function SetVotes(articles: seq<Article>, id: int, sum: int): (r: seq<Article>)
    ensures |r| == |articles|
    ensures forall i :: 0 <= i < |articles| ==>
      r[i] == if articles[i].articleId == id then articles[i].(votes := sum) else articles[i]
  {
    MapWhere(articles, (x: Article) => x.articleId == id, (x: Article) => x.(votes := sum))
  }

  /** The `UPDATE` once its parameters are bound: an id with no row
      changes nothing and is 404; a null delta makes `votes` null, which
      `NOT NULL` rejects; a sum beyond 32 bits is out of range; otherwise
      that row's votes grow by exactly the delta, with no clamping. */
  function ApplyVote(db: Db, id: int, inc: Option<int>): (r: Result<(Db, Article), Thrown>)
    ensures ArticleWithId(db, id).None? ==> r == Err(ArticleNotFound)
    ensures ArticleWithId(db, id).Some? && inc.None? ==> r == Err(DbError("23502"))
    ensures ArticleWithId(db, id).Some? && inc.Some? ==>
      var a := ArticleWithId(db, id).value;
      var sum := a.votes + inc.value;
      && (!NumberParsing.IsInt4(sum) ==> r == Err(DbError("22003")))
      && (NumberParsing.IsInt4(sum) ==> r == Ok((db.(articles := SetVotes(db.articles, id, sum)), a.(votes := sum))))
  {
    match ArticleWithId(db, id)
    case None => Err(ArticleNotFound)
    case Some(a) =>
      if inc.None? then Err(DbError("23502"))
      else
        var sum := a.votes + inc.value;
        if !NumberParsing.IsInt4(sum) then Err(DbError("22003"))
        else Ok((db.(articles := SetVotes(db.articles, id, sum)), a.(votes := sum)))
  }

  /** `updateArticleVotesById`: both parameters are cast when they are
      bound, the delta first; then the update runs. */
  function UpdateArticleVotesById(db: Db, idText: string, incVotes: Option<string>)
    : (r: Result<(Db, Article), Thrown>)
    ensures CastOptional(incVotes).Err? ==> r == Err(CastOptional(incVotes).error)
    ensures CastOptional(incVotes).Ok? && CastId(idText).Err? ==> r == Err(CastId(idText).error)
    ensures CastOptional(incVotes).Ok? && CastId(idText).Ok? ==>
      r == ApplyVote(db, CastId(idText).value, CastOptional(incVotes).value)
  {
    var inc :- CastOptional(incVotes);
    var id :- CastId(idText);
    ApplyVote(db, id, inc)
  }

  /** A vote touches only the voted article, keeps ids unique, and adds the
      delta with no clamping: a negative total is kept. */
  lemma VoteTouchesOnlyTarget(db: Db, idText: string, incVotes: Option<string>)
    requires WellFormed(db)
    requires UpdateArticleVotesById(db, idText, incVotes).Ok?
    ensures var (db', a) := UpdateArticleVotesById(db, idText, incVotes).value;
      var id := CastId(idText).value;
      && WellFormed(db')
      && db'.users == db.users && db'.topics == db.topics && db'.comments == db.comments
      && |db'.articles| == |db.articles|
      && (forall i :: 0 <= i < |db.articles| && db.articles[i].articleId != id ==> db'.articles[i] == db.articles[i])
      && a.votes == ArticleWithId(db, id).value.votes + CastId(incVotes.value).value
      && a == ArticleWithId(db, id).value.(votes := a.votes)
  {
    var (db', a) := UpdateArticleVotesById(db, idText, incVotes).value;
    var id := CastId(idText).value;
    var sum := a.votes;
    assert db'.articles == SetVotes(db.articles, id, sum);
    MapWhereUnique(db.articles, (x: Article) => x.articleId == id, (x: Article) => x.(votes := sum), ArticleKey);
  }
}
