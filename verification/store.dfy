/**
 * The database as the handlers see it: four tables of rows in physical
 * order, plus the next value of the comment id sequence.  A `SELECT ...
 * WHERE` is a filter over a table, `rows[0]` the first match, an `UPDATE`
 * rewrites the matching rows and a `DELETE` keeps the others.
 *
 * Every handler answers `Outcome`: either the new store with the reply, or
 * the thrown error and no store at all, so a failed request cannot have
 * changed anything.
 */
module Store {
  import opened Prelude
  import opened AppErrors
  import NumberParsing
  import Text
  import ErrorHandler

  datatype User = User(username: string, name: string, email: string, passwordHash: string, avatarUrl: Option<string>)

  datatype Topic = Topic(slug: string, description: string)

  datatype Article = Article(
    articleId: int, author: string, title: string, body: string, topic: string,
    votes: int, createdAt: int, imgUrl: string)

  datatype Comment = Comment(commentId: int, articleId: int, author: string, body: string, votes: int, createdAt: int)

  datatype Db = Db(
    users: seq<User>, topics: seq<Topic>, articles: seq<Article>, comments: seq<Comment>,
    nextCommentId: int)

  /** An HTTP success: the code and the JSON body. */
  datatype Reply<T> = Reply(statusCode: int, body: T)

  type Outcome<T> = Result<(Db, Reply<T>), Thrown>

  // ---------------------------------------------------------------------
  // Table operations

  /** Position of the first row satisfying `p`, or `|rows|`. */
  function FirstIndex<T>(rows: seq<T>, p: T -> bool): (i: nat)
    ensures i <= |rows|
    ensures forall j :: 0 <= j < i ==> !p(rows[j])
    ensures i < |rows| ==> p(rows[i])
  {
    if rows == [] || p(rows[0]) then 0 else 1 + FirstIndex(rows[1..], p)
  }

  /** `(SELECT ... WHERE p).rows[0]`. */
  function FindFirst<T>(rows: seq<T>, p: T -> bool): (r: Option<T>)
    ensures r.Some? <==> exists i :: 0 <= i < |rows| && p(rows[i])
    ensures r.Some? ==> r.value in rows && p(r.value)
  {
    var i := FirstIndex(rows, p);
    if i < |rows| then Some(rows[i]) else None
  }

  /** The rows satisfying `p`, in table order. */
  function Filter<T(!new)>(rows: seq<T>, p: T -> bool): (r: seq<T>)
    ensures |r| <= |rows|
    ensures forall x :: multiset(r)[x] == if p(x) then multiset(rows)[x] else 0
    ensures forall x :: x in r <==> x in rows && p(x)
  {
    if rows == [] then []
    else
      var rest := Filter(rows[1..], p);
      assert rows == [rows[0]] + rows[1..];
      if p(rows[0]) then [rows[0]] + rest else rest
  }

  /** `UPDATE ... WHERE p`: the matching rows rewritten by `f`, in place. */
  function MapWhere<T>(rows: seq<T>, p: T -> bool, f: T -> T): (r: seq<T>)
    ensures |r| == |rows|
    ensures forall i :: 0 <= i < |rows| ==> r[i] == if p(rows[i]) then f(rows[i]) else rows[i]
  {
    seq(|rows|, i requires 0 <= i < |rows| => if p(rows[i]) then f(rows[i]) else rows[i])
  }

  /** No two rows share a key. */
  ghost predicate UniqueBy<T, K>(rows: seq<T>, key: T -> K) {
    forall i, j :: 0 <= i < j < |rows| ==> key(rows[i]) != key(rows[j])
  }

  /** Keeping some rows keeps keys unique. */
  lemma {:induction false} FilterUnique<T(!new), K>(rows: seq<T>, p: T -> bool, key: T -> K)
    requires UniqueBy(rows, key)
    ensures UniqueBy(Filter(rows, p), key)
  {
    if rows != [] {
      FilterUnique(rows[1..], p, key);
      var rest := Filter(rows[1..], p);
      if p(rows[0]) {
        var r := [rows[0]] + rest;
        forall i, j | 0 <= i < j < |r| ensures key(r[i]) != key(r[j]) {
          if i == 0 {
            assert r[j] in rows[1..];
            var k :| 0 <= k < |rows[1..]| && rows[1..][k] == r[j];
            assert rows[k + 1] == r[j];
          } else {
            assert r[i] == rest[i - 1] && r[j] == rest[j - 1];
          }
        }
      }
    }
  }

  /** Rewriting rows without touching their keys keeps keys unique. */
  lemma MapWhereUnique<T, K>(rows: seq<T>, p: T -> bool, f: T -> T, key: T -> K)
    requires UniqueBy(rows, key)
    requires forall x :: key(f(x)) == key(x)
    ensures UniqueBy(MapWhere(rows, p, f), key)
  {
    var r := MapWhere(rows, p, f);
    forall i, j | 0 <= i < j < |r| ensures key(r[i]) != key(r[j]) {
      assert key(r[i]) == key(rows[i]) && key(r[j]) == key(rows[j]);
    }
  }

  /** Appending a row with a fresh key keeps keys unique. */
  lemma AppendUnique<T, K>(rows: seq<T>, x: T, key: T -> K)
    requires UniqueBy(rows, key)
    requires forall i :: 0 <= i < |rows| ==> key(rows[i]) != key(x)
    ensures UniqueBy(rows + [x], key)
  {
  }

  // ---------------------------------------------------------------------
  // Keys and lookups

  function UserKey(u: User): string { u.username }
  function EmailKey(u: User): string { u.email }
  function TopicKey(t: Topic): string { t.slug }
  function ArticleKey(a: Article): int { a.articleId }
  function CommentKey(c: Comment): int { c.commentId }

  /** The primary and unique keys of the schema hold, and the comment id
      sequence is ahead of every comment id. */
  ghost predicate WellFormed(db: Db) {
    && UniqueBy(db.users, UserKey) && UniqueBy(db.users, EmailKey)
    && UniqueBy(db.topics, TopicKey)
    && UniqueBy(db.articles, ArticleKey)
    && UniqueBy(db.comments, CommentKey)
    && forall i :: 0 <= i < |db.comments| ==> db.comments[i].commentId < db.nextCommentId
  }

  function TopicWithSlug(db: Db, slug: string): (r: Option<Topic>)
    ensures r.Some? ==> r.value in db.topics && r.value.slug == slug
    ensures r.None? <==> forall i :: 0 <= i < |db.topics| ==> db.topics[i].slug != slug
  {
    FindFirst(db.topics, (t: Topic) => t.slug == slug)
  }

  function ArticleWithId(db: Db, id: int): (r: Option<Article>)
    ensures r.Some? ==> r.value in db.articles && r.value.articleId == id
    ensures r.None? <==> forall i :: 0 <= i < |db.articles| ==> db.articles[i].articleId != id
  {
    FindFirst(db.articles, (a: Article) => a.articleId == id)
  }

  function CommentWithId(db: Db, id: int): (r: Option<Comment>)
    ensures r.Some? ==> r.value in db.comments && r.value.commentId == id
    ensures r.None? <==> forall i :: 0 <= i < |db.comments| ==> db.comments[i].commentId != id
  {
    FindFirst(db.comments, (c: Comment) => c.commentId == id)
  }

  /** Under a unique key, the row found by a lookup on that key is the only
      row with that key. */
  lemma UniqueLookup<T, K>(rows: seq<T>, key: T -> K, p: T -> bool, k: K, i: nat)
    requires UniqueBy(rows, key)
    requires forall x :: p(x) <==> key(x) == k
    requires i < |rows| && key(rows[i]) == k
    ensures FindFirst(rows, p) == Some(rows[i])
  {
    var j := FirstIndex(rows, p);
    assert j <= i;
    assert key(rows[j]) == k;
  }

  // ---------------------------------------------------------------------
  // Request fields

  /** A request field that is falsy: absent (`undefined`) or empty. */
  predicate Blank(field: Option<string>) {
    field.None? || field.value == ""
  }

  // ---------------------------------------------------------------------
  // Binding a text parameter to an `integer` column

  /** A path id compared with an `integer` column: the text is cast by the
      database, and a bad literal fails the whole statement. */
  function CastId(text: string): (r: Result<int, Thrown>)
    ensures NumberParsing.PgInt4(text).Ok? ==> r == Ok(NumberParsing.PgInt4(text).value)
    ensures NumberParsing.PgInt4(text).Err? ==> r == Err(DbError(NumberParsing.PgInt4(text).error))
  {
    match NumberParsing.PgInt4(text)
    case Ok(n) => Ok(n)
    case Err(code) => Err(DbError(code))
  }

  /** An optional parameter: `undefined` binds as `NULL`, anything else is
      cast. */
  function CastOptional(text: Option<string>): (r: Result<Option<int>, Thrown>)
    ensures text.None? ==> r == Ok(None)
    ensures text.Some? ==> (r.Ok? <==> CastId(text.value).Ok?)
    ensures text.Some? && r.Ok? ==> r.value == Some(CastId(text.value).value)
    ensures text.Some? && r.Err? ==> r.error == CastId(text.value).error
  {
    match text
    case None => Ok(None)
    case Some(t) =>
      match CastId(t)
      case Ok(n) => Ok(Some(n))
      case Err(e) => Err(e)
  }

  /** A path id written as the decimal rendering of an integer binds to
      that integer when it fits an `integer` column, and otherwise fails
      with 22003, which the client sees as a 500. */
  lemma CastIdRoundTrip(n: int)
    ensures NumberParsing.IsInt4(n) ==> CastId(Text.IntToDecimal(n)) == Ok(n)
    ensures !NumberParsing.IsInt4(n) ==>
      && CastId(Text.IntToDecimal(n)) == Err(DbError("22003"))
      && ErrorHandler.HandleError(DbError("22003")) == ErrorHandler.Envelope(500, "error", "Something went wrong")
  {
    NumberParsing.PgInt4RoundTrip(n);
  }

  /** A non-numeric path id fails the cast with 22P02, which the client
      sees as 400 "Bad request". */
  lemma MalformedIdAnswers400()
    ensures CastId("not-an-id").Err?
    ensures ErrorHandler.HandleError(CastId("not-an-id").error) == ErrorHandler.Envelope(400, "fail", "Bad request")
  {
    NumberParsing.PgInt4Examples();
  }
}
