/**
 * The topic model: listing topics and creating one under a fresh slug.
 */
module TopicModel {
  import opened Prelude
  import opened AppErrors
  import opened Store

  /** `selectTopics`: every topic row. */
  function SelectTopics(db: Db): (r: seq<Topic>)
    ensures forall t :: t in r <==> t in db.topics
  {
    db.topics
  }

  const TopicExists: Thrown := Fail(Conflict, "Topic already exists")

  /** `insertTopic`: a blank slug or description is 400 before the insert; a
      slug already in use violates the primary key and becomes 409;
      otherwise the row is added and returned as given. */
  function InsertTopic(db: Db, slug: Option<string>, description: Option<string>)
    : (r: Result<(Db, Topic), Thrown>)
    ensures Blank(slug) || Blank(description) ==> r == Err(Fail(BadRequest, "Bad request"))
    ensures !Blank(slug) && !Blank(description) ==>
      (r.Err? <==> exists i :: 0 <= i < |db.topics| && db.topics[i].slug == slug.value)
    ensures r.Err? && !Blank(slug) && !Blank(description) ==> r.error == TopicExists
    ensures r.Ok? ==>
      var t := Topic(slug.value, description.value);
      r.value == (db.(topics := db.topics + [t]), t)
  {
    if Blank(slug) || Blank(description) then Err(Fail(BadRequest, "Bad request"))
    else if TopicWithSlug(db, slug.value).Some? then Err(TopicExists)
    else
      var t := Topic(slug.value, description.value);
      Ok((db.(topics := db.topics + [t]), t))
  }

  /** A successful insert keeps slugs unique and the new topic is listed. */
  lemma InsertTopicListed(db: Db, slug: Option<string>, description: Option<string>)
    requires WellFormed(db)
    requires InsertTopic(db, slug, description).Ok?
    ensures var (db', t) := InsertTopic(db, slug, description).value;
      WellFormed(db') && t in SelectTopics(db') && t.slug == slug.value && t.description == description.value
  {
    var (db', t) := InsertTopic(db, slug, description).value;
    AppendUnique(db.topics, t, TopicKey);
  }

  /** Inserting the same slug twice fails the second time and leaves the
      store as the first insert left it. */
  lemma SecondInsertConflicts(db: Db, slug: string, d1: string, d2: string)
    requires slug != "" && d1 != "" && d2 != ""
    requires InsertTopic(db, Some(slug), Some(d1)).Ok?
    ensures var db' := InsertTopic(db, Some(slug), Some(d1)).value.0;
      InsertTopic(db', Some(slug), Some(d2)) == Err(TopicExists)
  {
    var db' := InsertTopic(db, Some(slug), Some(d1)).value.0;
    assert db'.topics[|db.topics|].slug == slug;
  }
}
