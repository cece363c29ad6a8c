/**
 * The article controller: query validation of the article listing, the
 * search defaults, and the check order of deleting an article and of
 * editing its body.
 *
 * A query string is the map of its string-valued parameters.
 */
module ArticleController {
  import opened Prelude
  import opened AppErrors
  import Text
  import NumberParsing
  import opened Store
  import ArticleModel
  import AuthMiddleware
  import ErrorHandler

  type Query = map<string, string>

  /** `req.query.name`: `None` is `undefined`. */
  function Param(q: Query, name: string): (r: Option<string>)
    ensures r.Some? <==> name in q
    ensures r.Some? ==> r.value == q[name]
  {
    if name in q then Some(q[name]) else None
  }

  /** `topic?.toLowerCase()` is "tea" or "coffee".  No character outside
      ASCII lower-cases to a letter of these words, so ASCII lower-casing
      decides it exactly. */
  predicate IsBeverage(topic: Option<string>) {
    topic.Some? && (Text.Lower(topic.value) == "tea" || Text.Lower(topic.value) == "coffee")
  }

  /** `parseInt` of a pagination parameter, with its default when absent. */
  function PageParam(q: Query, name: string, default: string): Option<int> {
    NumberParsing.ParseInt(Param(q, name).GetOr(default))
  }

  /** The page size and page number are usable: both numbers, both >= 1. */
  predicate ValidPaging(limit: Option<int>, page: Option<int>) {
    limit.Some? && page.Some? && limit.value >= 1 && page.value >= 1
  }

  /** What `getArticles` computes before it builds the response: the
      beverage check, then `p` and `limit`, then the model's checks.  The
      result is the listing with the page size and page number. */
  function ListingQuery(db: Db, q: Query): (r: Result<(seq<ArticleModel.Listing>, int, int), Thrown>)
    ensures IsBeverage(Param(q, "topic")) ==> r == Err(UndefinedFactoryCall)
    ensures !IsBeverage(Param(q, "topic")) && !ValidPaging(PageParam(q, "limit", "10"), PageParam(q, "p", "1")) ==>
      r == Err(ArticleModel.BadRequestError)
    ensures !IsBeverage(Param(q, "topic")) && ValidPaging(PageParam(q, "limit", "10"), PageParam(q, "p", "1")) ==>
      var select := ArticleModel.SelectArticles(db, Param(q, "sort_by"), Param(q, "order"), Param(q, "topic"));
      && (select.Err? ==> r == Err(select.error))
      && (select.Ok? ==> r == Ok((select.value, PageParam(q, "limit", "10").value, PageParam(q, "p", "1").value)))
    ensures r.Ok? ==> r.value.1 >= 1 && r.value.2 >= 1
  {
    var topic := Param(q, "topic");
    if IsBeverage(topic) then Err(UndefinedFactoryCall)
    else
      var page := PageParam(q, "p", "1");
      var limit := PageParam(q, "limit", "10");
      if !ValidPaging(limit, page) then Err(ArticleModel.BadRequestError)
      else
        var rows :- ArticleModel.SelectArticles(db, Param(q, "sort_by"), Param(q, "order"), topic);
        Ok((rows, limit.value, page.value))
  }

  /** Paging is checked before the store is consulted: with a bad `limit`
      or `p`, the answer is 400 whatever the store holds (and whatever the
      sort column). */
  lemma PagingCheckedFirst(db1: Db, db2: Db, q: Query)
    requires !IsBeverage(Param(q, "topic"))
    requires !ValidPaging(PageParam(q, "limit", "10"), PageParam(q, "p", "1"))
    ensures ListingQuery(db1, q) == ListingQuery(db2, q) == Err(ArticleModel.BadRequestError)
  {
  }

  /** `limit=not-a-number`, `limit=0` and `p=-1` are all refused, and the
      defaults 10 and 1 are accepted. */
  lemma PagingExamples()
    ensures !ValidPaging(NumberParsing.ParseInt("not-a-number"), Some(1))
    ensures !ValidPaging(NumberParsing.ParseInt("0"), Some(1))
    ensures !ValidPaging(Some(10), NumberParsing.ParseInt("-1"))
    ensures ValidPaging(NumberParsing.ParseInt("10"), NumberParsing.ParseInt("1"))
  {
    NumberParsing.ParseIntExamples();
    NumberParsing.ParseIntRoundTrip(0);
    NumberParsing.ParseIntRoundTrip(-1);
    NumberParsing.ParseIntRoundTrip(10);
    NumberParsing.ParseIntRoundTrip(1);
    assert Text.IntToDecimal(0) == "0";
    assert Text.IntToDecimal(1) == "1";
    assert Text.IntToDecimal(-1) == "-1";
    assert Text.NatToDecimal(10) == "10";
  }

  // ---------------------------------------------------------------------
  // The listing response

  /** `{ articles, total_count }` where either may be `undefined`. */
  datatype ListReply = ListReply(articles: Option<seq<ArticleModel.Listing>>, totalCount: Option<int>)

  /** `getArticles` as written: it destructures `articles` and
      `total_count` out of the array `selectArticles` returns, so both are
      `undefined` and the body is `{}`. */
  function GetArticlesAsWritten(db: Db, q: Query): (r: Result<Reply<ListReply>, Thrown>)
    ensures r.Err? <==> ListingQuery(db, q).Err?
    ensures r.Err? ==> r.error == ListingQuery(db, q).error
    ensures r.Ok? ==> r.value.statusCode == 200
  {
    var _ :- ListingQuery(db, q);
    Ok(Reply(200, ListReply(None, None)))
  }

  /** As written, a successful listing never carries the articles, even
      when the store holds some. */
  lemma AsWrittenLosesArticles(db: Db, q: Query)
    requires GetArticlesAsWritten(db, q).Ok?
    ensures GetArticlesAsWritten(db, q).value.body.articles.None?
    ensures GetArticlesAsWritten(db, q).value.body.totalCount.None?
  {
  }

  /** The page `p` of `limit` rows: rows (p-1)·limit up to p·limit. */
  function PageOf<T>(rows: seq<T>, limit: int, page: int): (r: seq<T>)
    requires limit >= 1 && page >= 1
    ensures |r| == if (page - 1) * limit >= |rows| then 0
                   else if page * limit <= |rows| then limit
                   else |rows| - (page - 1) * limit
    ensures forall i :: 0 <= i < |r| ==> r[i] == rows[(page - 1) * limit + i]
  {
    var lo := if (page - 1) * limit < |rows| then (page - 1) * limit else |rows|;
    var hi := if page * limit < |rows| then page * limit else |rows|;
    rows[lo..hi]
  }

  /** Pages 1..k laid end to end are the first k·limit rows: no row is
      skipped or shown twice. */
  lemma {:induction false} PagesCover<T>(rows: seq<T>, limit: int, k: nat)
    requires limit >= 1
    ensures Pages(rows, limit, k) == rows[..if k * limit < |rows| then k * limit else |rows|]
  {
    if k > 0 {
      PagesCover(rows, limit, k - 1);
      var m := (k - 1) * limit;
      assert k * limit == m + limit;
      var before := if m < |rows| then m else |rows|;
      var upTo := if k * limit < |rows| then k * limit else |rows|;
      assert before <= upTo;
      assert PageOf(rows, limit, k) == rows[before..upTo];
      assert rows[..upTo] == rows[..before] + rows[before..upTo];
    }
  }

  /** The first k pages, concatenated. */
  function Pages<T>(rows: seq<T>, limit: int, k: nat): seq<T>
    requires limit >= 1
  {
    if k == 0 then [] else Pages(rows, limit, k - 1) + PageOf(rows, limit, k)
  }

  datatype Page = Page(articles: seq<ArticleModel.Listing>, totalCount: int)

  /** `getArticles` as evidently intended: the requested page of the
      listing and the size of the whole listing. */
  function GetArticles(db: Db, q: Query): (r: Result<Reply<Page>, Thrown>)
    ensures r.Err? <==> ListingQuery(db, q).Err?
    ensures r.Err? ==> r.error == ListingQuery(db, q).error
    ensures r.Ok? ==>
      var (rows, limit, page) := ListingQuery(db, q).value;
      r.value == Reply(200, Page(PageOf(rows, limit, page), |rows|))
  {
    var (rows, limit, page) :- ListingQuery(db, q);
    Ok(Reply(200, Page(PageOf(rows, limit, page), |rows|)))
  }

  /** With 13 articles and the default page size, the first page shows 10
      and the count is 13; page 2 of size 5 shows articles 6 to 10. */
  lemma PageSizes<T>(rows: seq<T>)
    requires |rows| == 13
    ensures |PageOf(rows, 10, 1)| == 10 && |PageOf(rows, 5, 2)| == 5 && |PageOf(rows, 5, 3)| == 3
    ensures |PageOf(rows, 5, 999)| == 0
    ensures PageOf(rows, 5, 2) == rows[5..10]
  {
  }

  // ---------------------------------------------------------------------
  // Search

  /** The arguments `searchArticles` hands to the search query. */
  datatype SearchCall = SearchCall(q: string, limit: int, page: int)

  /** `parseInt(x) || default`: NaN and 0 fall back; negatives are kept. */
  function OrDefault(n: Option<int>, default: int): (r: int)
    ensures n.None? || n.value == 0 ==> r == default
    ensures n.Some? && n.value != 0 ==> r == n.value
  {
    if n.None? || n.value == 0 then default else n.value
  }

  /** `parseInt(req.query.x)`: an absent parameter is `parseInt(undefined)`,
      which is NaN. */
  function ParsedParam(q: Query, name: string): Option<int> {
    match Param(q, name)
    case None => None
    case Some(t) => NumberParsing.ParseInt(t)
  }

  /** `searchArticles`: a blank `q` is 400 "Search query required";
      otherwise the query goes out with the defaulted page size and page. */
  function SearchArticles(q: Query): (r: Result<SearchCall, Thrown>)
    ensures Blank(Param(q, "q")) <==> r.Err?
    ensures r.Err? ==> r.error == Fail(BadRequest, "Search query required")
    ensures r.Ok? ==>
      && r.value.q == q["q"]
      && r.value.limit == OrDefault(ParsedParam(q, "limit"), 10)
      && r.value.page == OrDefault(ParsedParam(q, "p"), 1)
  {
    var limit := OrDefault(ParsedParam(q, "limit"), 10);
    var page := OrDefault(ParsedParam(q, "p"), 1);
    var term := Param(q, "q");
    if Blank(term) then Err(Fail(BadRequest, "Search query required"))
    else Ok(SearchCall(term.value, limit, page))
  }

  /** Unlike the listing, search never refuses a bad number: `limit=abc`
      and `limit=0` become 10, and `limit=-5` goes through as -5. */
  lemma SearchNeverRejectsPaging(q: Query)
    requires !Blank(Param(q, "q"))
    ensures SearchArticles(q).Ok?
    ensures "limit" !in q ==> SearchArticles(q).value.limit == 10
    ensures SearchArticles(q["limit" := "-5"]).value.limit == -5
  {
    NumberParsing.ParseIntRoundTrip(-5);
    assert Text.IntToDecimal(-5) == "-5";
    assert Param(q["limit" := "-5"], "q") == Param(q, "q");
  }

  // ---------------------------------------------------------------------
  // Deleting an article and editing its body

  const NotArticleOwner: Thrown := Fail(Forbidden, "Forbidden - user does not own the article")

  /** The article table without the rows of `id`. */
  function WithoutArticle(articles: seq<Article>, id: int): (r: seq<Article>)
    ensures forall a :: a in r <==> a in articles && a.articleId != id
  {
    Filter(articles, (a: Article) => a.articleId != id)
  }

  /** `deleteArticleById`: the lookup (400 for a malformed id, 404), then
      ownership (403); only the owner's request removes the article. */
  function DeleteArticleById(db: Db, idText: string, caller: AuthMiddleware.Identity): (r: Outcome<Unit>)
    ensures ArticleModel.SelectArticleById(db, idText).Err? ==>
      r == Err(ArticleModel.SelectArticleById(db, idText).error)
    ensures ArticleModel.SelectArticleById(db, idText).Ok? ==>
      var a := ArticleModel.SelectArticleById(db, idText).value.article;
      && (a.author != caller.username ==> r == Err(NotArticleOwner))
      && (a.author == caller.username ==>
            r == Ok((db.(articles := WithoutArticle(db.articles, a.articleId)), Reply(204, Unit))))
  {
    var detail :- ArticleModel.SelectArticleById(db, idText);
    var a := detail.article;
    if a.author != caller.username then Err(NotArticleOwner)
    else Ok((db.(articles := WithoutArticle(db.articles, a.articleId)), Reply(204, Unit)))
  }

  /** After the owner deletes an article, looking it up again is 404, and
      every other article is still there. */
  lemma DeletedArticleGone(db: Db, idText: string, caller: AuthMiddleware.Identity)
    requires DeleteArticleById(db, idText, caller).Ok?
    ensures var db' := DeleteArticleById(db, idText, caller).value.0;
      && ArticleModel.SelectArticleById(db', idText) == Err(ArticleModel.ArticleNotFound)
      && forall a :: a in db.articles && a.articleId != CastId(idText).value ==> a in db'.articles
  {
    var db' := DeleteArticleById(db, idText, caller).value.0;
    var id := CastId(idText).value;
    forall i | 0 <= i < |db'.articles| ensures db'.articles[i].articleId != id {
      assert db'.articles[i] in db'.articles;
    }
  }

  /** `SET body = <text> WHERE article_id = <id>`. */
  function SetBody(articles: seq<Article>, id: int, body: string): (r: seq<Article>)
    ensures |r| == |articles|
    ensures forall i :: 0 <= i < |articles| ==>
      r[i] == if articles[i].articleId == id then articles[i].(body := body) else articles[i]
  {
    MapWhere(articles, (x: Article) => x.articleId == id, (x: Article) => x.(body := body))
  }

  /** `updateArticleBody`: a blank body is 400 before anything else, then
      the lookup, then ownership; the owner's edit replaces the body only. */
  function UpdateArticleBody(db: Db, idText: string, body: Option<string>, caller: AuthMiddleware.Identity)
    : (r: Outcome<Article>)
    ensures Blank(body) ==> r == Err(ArticleModel.BadRequestError)
    ensures !Blank(body) && ArticleModel.SelectArticleById(db, idText).Err? ==>
      r == Err(ArticleModel.SelectArticleById(db, idText).error)
    ensures !Blank(body) && ArticleModel.SelectArticleById(db, idText).Ok? ==>
      var a := ArticleModel.SelectArticleById(db, idText).value.article;
      && (a.author != caller.username ==> r == Err(NotArticleOwner))
      && (a.author == caller.username ==>
            r == Ok((db.(articles := SetBody(db.articles, a.articleId, body.value)),
                     Reply(200, a.(body := body.value)))))
  {
    if Blank(body) then Err(ArticleModel.BadRequestError)
    else
      var detail :- ArticleModel.SelectArticleById(db, idText);
      var a := detail.article;
      if a.author != caller.username then Err(NotArticleOwner)
      else Ok((db.(articles := SetBody(db.articles, a.articleId, body.value)), Reply(200, a.(body := body.value))))
  }

  /** The failure order of a body edit: 400 for a blank body even when the
      article is missing or someone else's, then 404 even for a stranger. */
  lemma BodyEditPrecedence(db: Db, idText: string, body: Option<string>, caller: AuthMiddleware.Identity)
    ensures Blank(body) ==> HandledCode(UpdateArticleBody(db, idText, body, caller)) == 400
    ensures !Blank(body) && CastId(idText).Ok? && ArticleWithId(db, CastId(idText).value).None? ==>
      HandledCode(UpdateArticleBody(db, idText, body, caller)) == 404
    ensures (!Blank(body) && CastId(idText).Ok? && ArticleWithId(db, CastId(idText).value).Some?
             && ArticleWithId(db, CastId(idText).value).value.author != caller.username) ==>
      HandledCode(UpdateArticleBody(db, idText, body, caller)) == 403
  {
    var r := UpdateArticleBody(db, idText, body, caller);
    if Blank(body) {
      FailCode<Article>(BadRequest, "Bad request");
    } else if CastId(idText).Ok? {
      var id := CastId(idText).value;
      if ArticleWithId(db, id).None? {
        FailCode<Article>(NotFound, "Article not found");
      } else if ArticleWithId(db, id).value.author != caller.username {
        StrangerEditForbidden(db, idText, body, caller);
      }
    }
  }

  /** A well-formed edit of someone else's existing article is refused. */
  lemma StrangerEditForbidden(db: Db, idText: string, body: Option<string>, caller: AuthMiddleware.Identity)
    requires !Blank(body) && CastId(idText).Ok? && ArticleWithId(db, CastId(idText).value).Some?
    requires ArticleWithId(db, CastId(idText).value).value.author != caller.username
    ensures HandledCode(UpdateArticleBody(db, idText, body, caller)) == 403
  {
    var a := ArticleWithId(db, CastId(idText).value).value;
    assert ArticleModel.SelectArticleById(db, idText).Ok?;
    assert ArticleModel.SelectArticleById(db, idText).value.article == a;
    assert UpdateArticleBody(db, idText, body, caller) == Err(NotArticleOwner);
    FailCode<Article>(Forbidden, "Forbidden - user does not own the article");
  }

  /** A factory error reaches the client under the factory's code. */
  lemma FailCode<T>(f: Factory, message: string)
    ensures HandledCode<T>(Err(Fail(f, message))) == DefaultCode(f)
  {
  }

  /** The HTTP code the client sees for an outcome: the reply's own, or the
      one the error handler answers with. */
  function HandledCode<T>(r: Outcome<T>): int {
    match r
    case Ok((_, reply)) => reply.statusCode
    case Err(t) => ErrorHandler.HandleError(t).statusCode
  }
}
