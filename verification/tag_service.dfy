/** Tag administration and the public tag list. Tag names stay unique
    across creation and renaming. */
module TagService {
  import opened Wrappers
  import opened Errors
  import opened Tags
  import opened Database

  datatype TagRequest = TagRequest(name: string, description: Option<string>)

  datatype TagResponse = TagResponse(id: int, name: string, description: Option<string>, postCount: Option<int>, subscribed: bool)

  const MSG_NAME_TAKEN: string := "标签名已存在"
  const MSG_TAG_MISSING: string := "标签不存在"

  function ToResponse(t: Tag, subscribed: bool): (r: TagResponse)
    ensures r.id == t.id && r.name == t.name && r.description == t.description && r.subscribed == subscribed
    ensures r.postCount == t.postCount
  {
    TagResponse(t.id, t.name, t.description, t.postCount, subscribed)
  }

  /** `findAll`: one entry per tag, flagged when the given user subscribes
      to it; without a user nothing is flagged. */
  function FindAll(db: Db, userId: Option<int>): (r: map<int, TagResponse>)
    requires Tags.WellKeyed(db.tags)
    ensures r.Keys == db.tags.Keys
    ensures forall id :: id in r ==> r[id].id == id && r[id].name == db.tags[id].name
    ensures forall id :: id in r ==> r[id].description == db.tags[id].description && r[id].postCount == db.tags[id].postCount
    ensures forall id :: id in r ==> (r[id].subscribed <==> userId.Some? && Link(userId.value, id) in db.subscriptions)
  {
    map id | id in db.tags :: ToResponse(db.tags[id], userId.Some? && Link(userId.value, id) in db.subscriptions)
  }

  /** `create`: a name held by any tag is rejected. `newId` is the identifier
      the database assigns. */
  function Create(db: Db, request: TagRequest, newId: int): (r: Outcome<(Db, TagResponse)>)
    requires newId !in db.tags
    ensures r.Failure? <==> NameHeldByOther(db.tags, request.name, None)
    ensures r.Failure? ==> r.error == Fail(BadRequest, MSG_NAME_TAKEN)
    ensures r.Success? ==>
      && r.value.0 == db.(tags := db.tags[newId := Tag(newId, request.name, request.description, None)])
      && r.value.1.name == request.name && !r.value.1.subscribed
    ensures r.Success? && Tags.Valid(db.tags) ==> Tags.Valid(r.value.0.tags)
  {
    if NameHeldByOther(db.tags, request.name, None) then Failure(Fail(BadRequest, MSG_NAME_TAKEN))
    else
      var t := Tag(newId, request.name, request.description, None);
      Success((db.(tags := db.tags[newId := t]), ToResponse(t, false)))
  }

  /** `update`: the tag must exist, and its new name may be its own but no
      other tag's. */
  function Update(db: Db, id: int, request: TagRequest): (r: Outcome<(Db, TagResponse)>)
    requires Tags.WellKeyed(db.tags)
    ensures id !in db.tags ==> r == Failure(NotFoundError(MSG_TAG_MISSING))
    ensures id in db.tags ==> (r.Failure? <==> NameHeldByOther(db.tags, request.name, Some(id)))
    ensures id in db.tags && r.Failure? ==> r.error == Fail(BadRequest, MSG_NAME_TAKEN)
    ensures r.Success? ==>
      && id in db.tags
      && r.value.0 == db.(tags := db.tags[id := db.tags[id].(name := request.name, description := request.description)])
      && r.value.1.id == id && r.value.1.name == request.name && !r.value.1.subscribed
    ensures r.Success? && Tags.Valid(db.tags) ==> Tags.Valid(r.value.0.tags)
  {
    if id !in db.tags then Failure(NotFoundError(MSG_TAG_MISSING))
    else if NameHeldByOther(db.tags, request.name, Some(id)) then Failure(Fail(BadRequest, MSG_NAME_TAKEN))
    else
      var t := db.tags[id].(name := request.name, description := request.description);
      Success((db.(tags := db.tags[id := t]), ToResponse(t, false)))
  }

  /** Renaming a tag to the name it already has always succeeds. */
  lemma UpdateKeepsOwnName(db: Db, id: int, description: Option<string>)
    requires Tags.Valid(db.tags) && id in db.tags
    ensures Update(db, id, TagRequest(db.tags[id].name, description)).Success?
  {
  }

  /** `delete`: the tag must exist. */
  function Delete(db: Db, id: int): (r: Outcome<Db>)
    ensures id !in db.tags <==> r.Failure?
    ensures r.Failure? ==> r.error == NotFoundError(MSG_TAG_MISSING)
    ensures r.Success? ==> r.value == db.(tags := db.tags - {id})
  {
    if id !in db.tags then Failure(NotFoundError(MSG_TAG_MISSING)) else Success(db.(tags := db.tags - {id}))
  }
}
