# nc-news decision core in Dafny

nc-news is a news-forum REST API (Express over PostgreSQL): topics,
articles, comments, users, signup/login with JWT bearer tokens. Most of it
is glue. This project models the small decision procedures inside it as pure
functions over immutable data, and proves their properties:

- the error taxonomy (`AppError` and its factories), the status word, and
  the error handler's mapping of anything thrown to a `{status, message}`
  envelope;
- the bearer-header parsing and auth-error classification of the
  `authenticate` middleware;
- the redaction of request data before logging;
- signup and login input validation;
- the request checks, their precedence (400, then 404, then 403) and the
  ownership rules of the article, comment, user and topic handlers, over an
  in-memory store.

The database is a `Store.Db` of four tables held as sequences in physical
row order, so "the first returned row" is deterministic. Every handler
returns `Outcome<T> = Result<(Db, Reply<T>), Thrown>`. A failure carries no
store, so by construction a request that fails changes nothing.

A path id such as `:article_id` is handed to PostgreSQL as text and cast to
`integer` there. `NumberParsing.PgInt4` models that cast:

- a malformed literal fails with SQLSTATE 22P02, which the error handler
  turns into 400;
- an out-of-range literal fails with 22003, which becomes 500.

JavaScript `parseInt`, used for the paging parameters, is
`NumberParsing.ParseInt`.

Foreign code becomes a function parameter:

- bcrypt hashing and comparison are `hash` and `compare`;
- JWT signing is `sign`;
- JWT verification is `verify` (returning `Decoded(username)` or
  `VerifyFailed(errorName)`);
- the clock used for a new comment's `created_at` is `now`.

Files, one module each:

| file | module | what it holds |
|---|---|---|
| `prelude.dfy` | `Prelude` | `Option`, `Result`, `Unit` |
| `text.dfy` | `Text` | JS whitespace, ASCII lower-casing, `includes`, `split`, decimal rendering |
| `number_parsing.dfy` | `NumberParsing` | JS `parseInt`; PostgreSQL's int4 text input |
| `app_error.dfy` | `AppErrors` | `AppError`, the factories, `Thrown` |
| `error_handler.dfy` | `ErrorHandler` | `errorHandler`, `forbiddenMethod`, the catch-all 404 |
| `auth_middleware.dfy` | `AuthMiddleware` | `extractTokenFromHeader`, `handleAuthError`, `authenticate` |
| `request_logger.dfy` | `RequestLogger` | `sanitizeValue`, `sanitizeObject` |
| `store.dfy` | `Store` | rows, tables, lookups, parameter casts |
| `auth_model.dfy` | `AuthModel` | `createUser`, `findUserByEmail`, `findUserByUsername` |
| `auth_controller.dfy` | `AuthController` | validation, `signup`, `login`, `getMe` |
| `topic_model.dfy` | `TopicModel` | `selectTopics`, `insertTopic` |
| `article_model.dfy` | `ArticleModel` | `selectArticles`, `selectArticleById`, `selectArticleComments`, `insertArticleComment`, `updateArticleVotesById` |
| `article_controller.dfy` | `ArticleController` | `getArticles`, `searchArticles`, `deleteArticleById`, `updateArticleBody` |
| `comment_model.dfy` | `CommentModel` | `removeCommentById` |
| `comment_controller.dfy` | `CommentController` | `deleteCommentById`, `updateCommentBody` |
| `user_controller.dfy` | `UserController` | `getUserByUsername`, `updateUserProfile`, `updateUserAvatar`, `deleteUserAccount` |

## Model

| member | source | states |
|---|---|---|
| AppErrors.StatusFailIffLeadingFour | app/utils/app-error.js:5 | the status word is "fail" exactly when the decimal rendering of the code starts with '4', and "error" otherwise |
| AppErrors.FirstDigitFour | app/utils/app-error.js:5 | a natural number's decimal rendering starts with '4' exactly when it lies in some band 4·10^k to 5·10^k − 1 |
| AppErrors.ClientAndServerCodes | app/utils/app-error.js:5 | every code from 400 to 499 gives "fail" and every code from 500 to 599 gives "error" |
| AppErrors.FactoryDefaults | app/utils/app-error.js:11-33 | the factory table in full: 400 "Bad request", 401 "Unauthorized", 404 "Not found", 405 "Method not allowed", 409 "Conflict", 500 "Internal server error", all operational; an empty message falls back exactly as a missing one does |
| AppErrors.FactoryStatus | app/utils/app-error.js:5 | every factory except `internal` yields "fail"; `internal` yields "error" |
| ErrorHandler.HandleError | app/middlewares/error-handler.js:3-24 | an AppError is answered with its own code and message; a foreign error is answered 400 {fail, "Bad request"} exactly when its SQLSTATE is 22P02 or 23502, and 500 {error, "Something went wrong"} otherwise, both envelopes given in full |
| ErrorHandler.EnvelopeStatusCoherent | app/middlewares/error-handler.js:3-24 | the status word of every envelope agrees with its HTTP code |
| ErrorHandler.AppErrorTakesPrecedence | app/middlewares/error-handler.js:4-9 | the AppError branch is taken whatever the error's code, so an application error is never rewritten |
| ErrorHandler.RawTextNeverLeaks | app/middlewares/error-handler.js:11-23 | two foreign errors with the same code get the same envelope, so the error's own text never reaches the client |
| ErrorHandler.ForbiddenMethod | app/routes/utils/forbidden-method.js:3-5 | the result is always an operational error answered 405 "fail" "Method not allowed"; there is no success path |
| ErrorHandler.ForbiddenMethodIgnoresRequest | app/routes/utils/forbidden-method.js:3-5 | the outcome is the same for every request |
| ErrorHandler.RouteNotFound | app/app.js:18-20 | an unknown route is 404 "fail" with the message "Can't find <url> on this server" |
| ErrorHandler.ForbiddenAsWritten | app/controllers/user.controller.js:42 | as written, calling the undefined `AppError.forbidden` throws a TypeError, which is answered 500 "Something went wrong" |
| ErrorHandler.ForbiddenAsWrittenLosesMessage | app/controllers/article.controller.js:132 | the as-written call never answers 403 and never carries its own message |
| ErrorHandler.ForbiddenAnswers403 | app/controllers/user.controller.js:41-43 | with a Forbidden(403) factory, an ownership failure is answered 403 "fail" with its message |
| AuthMiddleware.ExtractToken | app/middlewares/auth.js:16-29 | every failure is 401 "No token provided" |
| AuthMiddleware.ExtractTokenIff | app/middlewares/auth.js:16-29 | a token is found exactly when the header starts with "Bearer " (case-sensitive) and a non-space character follows the prefix; the token is the run of non-space characters after the prefix, which is the second part of `split(" ")` |
| AuthMiddleware.Authenticate | app/middlewares/auth.js:4-14 | a missing token is 401; a verified token attaches exactly the decoded username as the identity; a verifier failure goes through the auth-error classification |
| AuthMiddleware.VerifierErrorsReachHandler | app/middlewares/auth.js:35-40 | a verifier error other than JsonWebTokenError reaches the error handler unchanged and is answered 500 "Something went wrong" |
| RequestLogger.SanitizeObject | app/middlewares/request-logger.js:28-41 | a falsy input is returned as it is; any other input becomes an object |
| RequestLogger.SanitizeKeepsShape | app/middlewares/request-logger.js:28-41 | for an object or array with no `__proto__` key at any depth, sanitising keeps the key list at every level (an array's keys being its indices) and every non-string leaf, and rewrites only string leaves |
| RequestLogger.EntryByEntry | app/middlewares/request-logger.js:32-38 | without a `__proto__` key, the output object has the input's keys in order, and each value is sanitised recursively (object-like) or through `sanitizeValue` (a leaf) |
| RequestLogger.ProtoEntryDropped | app/middlewares/request-logger.js:30-36 | no `__proto__` key survives, and every other key of the input is in the output |
| RequestLogger.SanitizeIdempotent | app/middlewares/request-logger.js:28-41 | sanitising twice equals sanitising once |
| RequestLogger.SensitivityIgnoresCase | app/middlewares/request-logger.js:19-21 | two keys that lower-case alike are equally sensitive |
| RequestLogger.SensitiveExamples | app/middlewares/request-logger.js:4-14 | "Authorization" and "API_KEY" are sensitive, although the listed words are lower-case or camel-case |
| RequestLogger.UsernameNotSensitive | app/middlewares/request-logger.js:4-14 | "username" is not sensitive |
| NumberParsing.ParseIntRoundTrip | app/controllers/article.controller.js:32-33 | `parseInt` of the decimal rendering of any integer gives back that integer |
| NumberParsing.ParseIntReadsDecimal | app/controllers/article.controller.js:32-33 | a decimal number followed by any non-digit text reads as that number, and with a leading '-' as its negation |
| NumberParsing.ParseIntExamples | app/controllers/article.controller.js:32-35 | "not-a-number" and "0x" are NaN, "-5" is −5, "0x1A" is 26 |
| NumberParsing.PgInt4 | app/middlewares/error-handler.js:11-16 | a successful cast lies in the int4 range; every failure is SQLSTATE 22P02 or 22003 |
| NumberParsing.PgInt4RoundTrip | app/models/article.model.js:69-75 | the rendering of an in-range integer casts back to it; an out-of-range one gives 22003 |
| NumberParsing.PgInt4Examples | __tests__/app.test.js:562-567 | "not-an-id", "" and "12abc" are rejected with 22P02 |
| NumberParsing.PgInt4Padded | app/models/article.model.js:69-72 | surrounding spaces are accepted: " 42 " casts to 42 |
| Store.CastIdRoundTrip | app/models/article.model.js:69-72 | a path id written as the decimal of an in-range integer binds to that integer; an out-of-range one fails with 22003 and is answered 500 |
| Store.MalformedIdAnswers400 | __tests__/app.test.js:562-567 | a non-numeric path id fails the cast and is answered 400 "Bad request" |
| Text.DecimalRoundTrip | app/models/article.model.js:35 | reading back the decimal rendering of a natural number gives that number |
| Text.SplitJoin | app/middlewares/auth.js:23 | splitting on a separator and joining with it gives back the original string |
| AuthModel.FindUserByEmail | app/models/auth.model.js:24-30 | a user with that email if one exists, none exactly when no user has it |
| AuthModel.FindUserByUsername | app/models/auth.model.js:32-38 | a user with that username if one exists, none exactly when no user has it |
| AuthModel.CreateUser | app/models/auth.model.js:4-22 | 409 "Username or email already exists" exactly when the username or the email is taken; otherwise the given user, without an avatar, is appended and returned |
| AuthModel.CreateUserKeepsKeys | app/models/auth.model.js:5-21 | creating a user keeps usernames and emails unique, and the new user is found under both keys |
| AuthController.ValidateFields | app/controllers/auth.controller.js:16-22 | succeeds exactly when no required field is falsy; otherwise 400 "Missing <field>" names the first falsy field in list order |
| AuthController.ValidEmailIff | app/controllers/auth.controller.js:42-47 | the email check accepts exactly the strings A@B.C with A, B, C non-empty and free of '@' and whitespace |
| AuthController.ValidateEmail | app/controllers/auth.controller.js:42-47 | accepts exactly the A@B.C shape, otherwise 400 "Invalid email format" |
| AuthController.ValidateUsername | app/controllers/auth.controller.js:49-56 | the verdict is the anchored `[a-zA-Z0-9_]{3,20}` matcher's; success means 3 to 20 word characters, and failure is 400 with the username rule message |
| AuthController.MatchWordRepeatIff | app/controllers/auth.controller.js:50 | the matcher for an anchored `[a-zA-Z0-9_]{lo,hi}` accepts a string exactly when its length is between lo and hi and every character is a letter, digit or underscore |
| AuthController.PasswordRules | app/controllers/auth.controller.js:59-88 | seven rules in source order, each with its message; every rule holds exactly when the password is strong (8 to 50 units, an upper-case letter, a lower-case letter, a digit, a listed special character, no whitespace) |
| AuthController.FirstFailure | app/controllers/auth.controller.js:90-93 | none exactly when every rule holds; otherwise the message of the first rule that fails |
| AuthController.ValidatePassword | app/controllers/auth.controller.js:58-94 | accepts exactly passwords of 8 to 50 UTF-16 units with an upper-case letter, a lower-case letter, a digit and a listed special character, and no whitespace; otherwise 400 with the first failing rule's message |
| AuthController.ShortPasswordReportedFirst | app/controllers/auth.controller.js:90-93 | a password shorter than 8 reports the length rule whatever else it lacks |
| AuthController.MissingUpperReportedBeforeLaterRules | app/controllers/auth.controller.js:90-93 | a password of valid length with no upper-case letter reports that rule, even when the later rules fail too |
| AuthController.FailingRuleReported | app/controllers/auth.controller.js:90-93 | when rule k is the first that fails, its message is the one reported |
| AuthController.LaterRulesReportedInOrder | app/controllers/auth.controller.js:59-93 | the literal messages of the length-maximum, lower-case, digit, special-character and whitespace rules, each reported when it is the first rule to fail |
| AuthController.ResponseHidesSecrets | app/controllers/auth.controller.js:24-33 | the response does not depend on the password hash or the avatar |
| AuthController.Signup | app/controllers/auth.controller.js:96-113 | checks run in order (fields, email, username, password, uniqueness), and the first failure is the result; valid input whose username or email is taken is 409 "Username or email already exists"; success is 201 with the new user's view and a token for the username |
| AuthController.Login | app/controllers/auth.controller.js:115-132 | missing fields are 400; an unknown email or a failed comparison is 401 "Invalid credentials"; success is 200, leaves the store as it was, and signs the user's username |
| AuthController.LoginFailuresIndistinguishable | app/controllers/auth.controller.js:120-125 | an unknown email and a wrong password give the identical error |
| AuthController.GetMe | app/controllers/auth.controller.js:134-151 | 404 "User not found" exactly when the caller's username is absent; otherwise 200 with the username, name and email of a stored user under the caller's username |
| AuthController.SignupThenLogin | app/controllers/auth.controller.js:96-132 | after a successful signup, logging in with the same email and password succeeds when the comparison accepts the hash |
| AuthController.SignupThenGetMe | app/controllers/auth.controller.js:96-151 | after a successful signup, `getMe` for the new username answers 200 with the submitted username, name and email |
| TopicModel.SelectTopics | app/models/topic.model.js:4-7 | the result holds exactly the stored topics |
| TopicModel.InsertTopic | app/models/topic.model.js:9-30 | a blank slug or description is 400 "Bad request"; an existing slug is 409 "Topic already exists"; otherwise the topic is appended and returned exactly as given |
| TopicModel.InsertTopicListed | app/models/topic.model.js:4-23 | after an insert the slugs stay unique and the listing contains the new topic |
| TopicModel.SecondInsertConflicts | app/models/topic.model.js:25-27 | inserting the same slug again is 409 |
| ArticleModel.SelectArticles | app/models/article.model.js:4-61 | an unknown sort column is 400; then an order other than asc/desc (any case) is 400; then a named topic that does not exist is 404 "Topic not found"; otherwise the listing holds exactly the articles of that topic (all articles when no topic is given) |
| ArticleModel.OrderIgnoresCase | app/models/article.model.js:22 | "ASC" and "Desc" are valid orders, "ascending" is not |
| ArticleModel.CommentsOf | app/models/article.model.js:37 | exactly the comments of that article |
| ArticleModel.SelectArticleById | app/models/article.model.js:63-79 | a bad id fails the cast; an absent id is 404 "Article not found"; otherwise the article with its comment count |
| ArticleModel.SortNewestFirst | app/models/article.model.js:95 | the result is ordered by creation date, newest first, and is a permutation of the input |
| ArticleModel.SelectArticleComments | app/models/article.model.js:81-101 | errors are those of the article lookup; otherwise exactly that article's comments (as a multiset), newest first |
| ArticleModel.InsertArticleComment | app/models/article.model.js:103-124 | the article is checked first (404 "Article not found"), then the user (404 "Username not found"), then a missing body violates NOT NULL (23502); only then is the comment added with a fresh id |
| ArticleModel.InsertedCommentListed | app/models/article.model.js:114-123 | the new comment is among the article's comments afterwards, and the comment ids stay unique |
| ArticleModel.ApplyVote | app/models/article.model.js:126-140 | an absent id is 404; a NULL increment is 23502; a sum outside int4 is 22003; otherwise votes become old plus the increment, with no clamping |
| ArticleModel.UpdateArticleVotesById | app/models/article.model.js:126-140 | the increment is cast before the id, in parameter order; then the vote rules apply |
| ArticleModel.VoteTouchesOnlyTarget | app/models/article.model.js:128-131 | a vote changes only the target's vote count; every other article, and every other field, is unchanged |
| ArticleController.ListingQuery | app/controllers/article.controller.js:15-46 | a tea or coffee topic throws first; then a `limit` or `p` that is NaN or below 1 is 400; then the listing rules; `limit` and `p` default to 10 and 1 |
| ArticleController.PagingCheckedFirst | app/controllers/article.controller.js:32-37 | invalid paging is 400 whatever the store holds |
| ArticleController.PagingExamples | __tests__/app.test.js:350-388 | "not-a-number", "0" and "-1" are rejected, "10" and "1" accepted |
| ArticleController.GetArticlesAsWritten | app/controllers/article.controller.js:39-48 | errors are those of the listing query; success is 200 |
| ArticleController.AsWrittenLosesArticles | app/controllers/article.controller.js:39-48 | as written, a successful response has neither `articles` nor `total_count` |
| ArticleController.PageOf | app/controllers/article.controller.js:32-46 | page p of size l holds rows (p−1)·l onward, at most l of them |
| ArticleController.PagesCover | app/controllers/article.controller.js:32-46 | the first k pages, concatenated, are the first k·l rows |
| ArticleController.PageSizes | __tests__/app.test.js:292-348 | of 13 rows, page 1 of size 10 has 10, pages 1-3 of size 5 have 5, 5 and 3, page 2 of size 5 is rows 6 to 10, and page 999 is empty |
| ArticleController.GetArticles | app/controllers/article.controller.js:15-52 | corrected handler: the same errors, and success is 200 with the requested page and the total count of matching articles |
| ArticleController.SearchArticles | app/controllers/article.controller.js:165-184 | a blank `q` is exactly the case of 400 "Search query required"; otherwise the query is passed on with the defaulted limit and page |
| ArticleController.SearchNeverRejectsPaging | app/controllers/article.controller.js:168-169 | with a query present, search never rejects its paging; an absent limit is 10 and a negative one is kept |
| ArticleController.DeleteArticleById | app/controllers/article.controller.js:124-140 | lookup errors (bad id, 404) come first; then a non-author is 403; the author's delete removes the article and answers 204 |
| ArticleController.DeletedArticleGone | app/controllers/article.controller.js:135-136 | after the delete, looking up the article is 404 |
| ArticleController.UpdateArticleBody | app/controllers/article.controller.js:142-163 | a blank body is 400 before the lookup; then 404; then 403; the author's edit replaces the body of that article only |
| ArticleController.BodyEditPrecedence | app/controllers/article.controller.js:148-156 | the answered code is 400 for a blank body, else 404 for an absent article, else 403 for a non-author |
| ArticleController.StrangerEditForbidden | app/controllers/article.controller.js:152-156 | a non-blank edit of someone else's existing article is answered 403 |
| CommentModel.WithoutComment | app/models/comment.model.js:6-8 | the kept rows are exactly those with another id, each with its multiplicity |
| CommentModel.RemoveCommentById | app/models/comment.model.js:4-17 | a bad id fails the cast; 404 "Comment not found" exactly when no comment has the id; otherwise the removed comment, and the table without that id |
| CommentModel.RemoveExactlyThatComment | app/models/comment.model.js:5-16 | every other comment keeps its multiplicity, the other tables are unchanged, ids stay unique, and a second removal is 404 |
| CommentController.SelectCommentById | app/controllers/comment.controller.js:26 | a bad id fails the cast; 404 "Comment not found" exactly when no comment has the id |
| CommentController.DeleteCommentById | app/controllers/comment.controller.js:21-37 | 404 before 403 "Forbidden - user does not own the comment"; the author's delete removes that id and answers 204 |
| CommentController.SecondDeleteNotFound | app/controllers/comment.controller.js:32 | after the author's delete, deleting the same id again is 404 |
| CommentController.UpdateCommentBody | app/controllers/comment.controller.js:39-57 | a blank body is 400 before the lookup; then 404; then 403; the author's edit replaces the body and answers 200 with the edited comment |
| CommentController.EditKeepsIdentity | app/controllers/comment.controller.js:52 | the edited comment keeps its id, article, author, votes and date; other comments are unchanged; ids stay unique |
| UserController.GetUserByUsername | app/controllers/user.controller.js:21-30 | 404 "User not found" exactly when no user has the name; otherwise 200 with a stored user's profile under that name |
| UserController.UpdateUserProfile | app/controllers/user.controller.js:32-50 | an unknown user is 404, and only then a caller who is someone else is 403 "Cannot update other users"; an existing user editing their own profile always succeeds, and the edit touches only that user's row |
| UserController.ProfileEditKeepsOthers | app/controllers/user.controller.js:45 | the edit keeps every username, email and hash and every other user; the supplied fields appear in the reply; keys stay unique |
| UserController.UpdateUserAvatar | app/controllers/user.controller.js:52-75 | a blank `avatar_url` is 400 before the existence (404) and ownership (403) checks; an existing user setting their own non-blank avatar always gets 200 with the new avatar, and only that row changes |
| UserController.AvatarOnlyChangesAvatar | app/controllers/user.controller.js:70 | a successful avatar update changes only `avatar_url`; username, name, email and hash are unchanged, and so is every other user |
| UserController.DeleteUserAccount | app/controllers/user.controller.js:77-95 | 404 for an unknown user, then 403 "Cannot delete other users"; a self-delete removes the user and answers 204 |
| UserController.DeletedUserIsGone | app/controllers/user.controller.js:90 | after a self-delete, the profile lookup and a second delete are both 404, and every other user remains |

## Left out

- JWT signing and verification, bcrypt hashing and comparison: foreign libraries, passed in as the function parameters `sign`, `verify`, `hash` and `compare`.
- SQL text, the connection pool and the `LEFT JOIN` that counts comments: a comment count is the number of that article's comments, rendered in decimal.
- The `ORDER BY sort_by order` of `selectArticles`: the listing is in table order, and the contract is about membership. Collation makes the real order depend on the database.
- Pagination slicing and `total_count` in `selectArticles`, which ignores both: they appear only in the corrected `ArticleController.GetArticles`.
- The tea/coffee branch of `getArticles` is modelled as a thrown TypeError, because `AppError.teapot` does not exist. The code hands it to `next` outside the `try`, and whether Express 4 or 5 then reaches the error handler is not modelled.
- `getArticleComments`, `postArticleComment`, `updateArticleVotes`, `getArticleById` and `postArticle`, which are thin controller wrappers. `insertArticle` is not part of this model. `getArticleComments` destructures an array just as `getArticles` does; only the `getArticles` case is a finding here.
- The accessors the controllers import but the model files do not define: `selectCommentById`, `updateCommentBodyById`, `removeArticleById`, `updateArticleBodyById`, `fetchSearchArticles`, `selectUserByUsername`, `updateUserProfileById`, `updateUserAvatarById` and `removeUserById`. They are modelled from their names and the expected responses: a lookup that throws 404, an update of the one row, a delete of the rows with that key. `fetchSearchArticles` is modelled only as the arguments it receives (`ArticleController.SearchCall`).
- UserController.UpdateUserProfile: `updateUserProfileById` is not part of this model. A supplied `name` or `avatar_url` replaces the column and an absent one keeps it, which is an assumption.
- `updateCommentVotes` and `updateCommentVotesById`: not part of this model.
- Express wiring, routers, `listen.js`, `swagger.js`, the winston logger, the rate limiter, and `requestLogger`'s uuid, timestamp and log call: plumbing.
- Cascading deletes and transactions: a deleted user's or article's dependent rows are not modelled.
- Request fields are strings or absent. JSON numbers, booleans or objects in `body`, `slug`, `inc_votes` and the other body fields are not modelled. `inc_votes` is bound as text and cast like an id.
- Case mapping is ASCII only. That is exact for every comparison the core makes ("asc", "desc", "tea", "coffee", the sensitive words), but the redaction of keys containing non-ASCII letters is not modelled.
- The int4 cast follows PostgreSQL 15 and earlier. The underscores and hex/octal/binary prefixes that PostgreSQL 16 accepts are not modelled.
- The numbers in the logged JSON tree are `real`. JSON has no NaN, and `-0` is not modelled.
- When `sanitizeObject` is handed a bare string, `Object.entries` yields one entry per UTF-16 unit. The model yields one per code point, so a string holding characters outside the Basic Multilingual Plane gets fewer entries. `requestLogger` reaches this path only when a request part (params, query, body, headers) is itself a string.
- Comment bodies and article vote counts are assumed NOT NULL, as the 400 answers for a missing comment body and a missing `inc_votes` imply (__tests__/app.test.js:738-747 and 1060-1070). The schema that declares them is not part of this model.

## Findings

| source | as written | input that shows it | evidently intended | confidence | as-written member | corrected member |
|---|---|---|---|---|---|---|
| app/controllers/user.controller.js:42 | `AppError.forbidden(...)` is called, but app/utils/app-error.js:11-33 defines no `forbidden` factory, so the call throws a TypeError and the client gets 500 "Something went wrong". The same call is at article.controller.js:132 and 155 and comment.controller.js:29 and 49. | user `testuser` sends `PATCH /api/users/butter_bridge` | 403 "Cannot update other users", as __tests__/app.test.js:643 and 1545 expect | not executed | ErrorHandler.ForbiddenAsWrittenLosesMessage | ErrorHandler.ForbiddenAnswers403 |
| app/controllers/article.controller.js:39-48 | `selectArticles` returns an array of rows, but the handler destructures `{ articles, total_count }` from it, so both are undefined and the body is `{}` | `GET /api/articles` against any store | 200 with the articles of the requested page and their total count | not executed | ArticleController.AsWrittenLosesArticles | ArticleController.GetArticles |
