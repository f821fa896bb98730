/** Tag subscriptions: a toggle flips the (user, tag) link. */
module SubscriptionService {
  import opened Wrappers
  import opened Errors
  import opened Database
  import InteractionService

  const MSG_TAG_MISSING: string := "标签不存在"

  /** `toggle`: the user, then the tag, must exist; the result says whether
      the user is subscribed afterwards. */
  function Toggle(db: Db, currentUser: Option<int>, tagId: int): (r: Outcome<(Db, bool)>)
    ensures InteractionService.RequireCurrentUser(db, currentUser).Failure? ==>
      r == Failure(InteractionService.RequireCurrentUser(db, currentUser).error)
    ensures InteractionService.RequireCurrentUser(db, currentUser).Success? && tagId !in db.tags ==>
      r == Failure(NotFoundError(MSG_TAG_MISSING))
    ensures r.Success? ==>
      var link := Link(currentUser.value, tagId);
      && currentUser.Some? && tagId in db.tags
      && (r.value.1 <==> link !in db.subscriptions)
      && r.value.0 == db.(subscriptions := if r.value.1 then db.subscriptions + {link} else db.subscriptions - {link})
      && (link in r.value.0.subscriptions <==> r.value.1)
  {
    var user :- InteractionService.RequireCurrentUser(db, currentUser);
    if tagId !in db.tags then Failure(NotFoundError(MSG_TAG_MISSING))
    else
      var link := Link(user, tagId);
      var subscribed := link !in db.subscriptions;
      Success((db.(subscriptions := if subscribed then db.subscriptions + {link} else db.subscriptions - {link}), subscribed))
  }

  /** Two toggles in a row restore the database. */
  lemma ToggleTwice(db: Db, user: int, tagId: int)
    requires user in db.users && tagId in db.tags
    ensures var r1 := Toggle(db, Some(user), tagId);
      && r1.Success?
      && var r2 := Toggle(r1.value.0, Some(user), tagId);
      && r2.Success? && r2.value.0 == db && r1.value.1 != r2.value.1
  {
    var link := Link(user, tagId);
    if link in db.subscriptions {
      assert (db.subscriptions - {link}) + {link} == db.subscriptions;
    } else {
      assert (db.subscriptions + {link}) - {link} == db.subscriptions;
    }
  }
}
