/** `ProfileController`: reading a profile, and following or unfollowing its
    user. The follow relation is a set of (follower, followed) pairs, so the
    unique index on the pair holds by construction. */
module ProfileController {
  import opened Common
  import opened Errors
  import opened Schema
  import opened UserModel
  import opened Views
  import opened Database

  /** `getProfile`: 404 'User not found' for an unknown username; otherwise
      200 with the profile, following only when the caller is known and
      follows that user. */
  function GetProfile(db: Db, caller: Option<UserId>, username: string): (r: Response)
    ensures (forall u :: u in db.users ==> u.username != username) <==> r == Failure(Api(NotFound("User not found")))
    ensures r.Reply? ==>
              exists u :: u in db.users && u.username == username &&
                          r == Reply(200, ProfileBody(ProfileOf(u, FollowsAs(db, caller, u.id))))
  {
    match UserByUsername(db.users, username)
    case None => Failure(Api(NotFound("User not found")))
    case Some(u) => Reply(200, ProfileBody(ProfileOf(u, FollowsAs(db, caller, u.id))))
  }

  /** In a valid store the profile of `u` is `u`'s own; with no caller it is
      never followed, and a signed-in caller sees `following` exactly when a
      (caller, u) follow row exists. */
  lemma GetProfileOf(db: Db, caller: Option<UserId>, u: User)
    requires db.Valid() && u in db.users
    ensures GetProfile(db, caller, u.username) == Reply(200, ProfileBody(ProfileOf(u, FollowsAs(db, caller, u.id))))
    ensures caller.None? ==> !GetProfile(db, caller, u.username).body.profile.following
    ensures caller.Some? && caller.value in UserIds(db.users) ==>
              (GetProfile(db, caller, u.username).body.profile.following <==> (caller.value, u.id) in db.follows)
  {
    UsernameIdentifies(db, u);
  }

  /** `toProfileJSON`, whatever caller id it is given, is the profile an
      anonymous caller gets from `getProfile`. */
  lemma ProfileJsonIsAnonymousProfile(db: Db, u: User, currentUserId: Option<UserId>)
    requires db.Valid() && u in db.users
    ensures GetProfile(db, None, u.username) == Reply(200, ProfileBody(ToProfileJson(u, currentUserId)))
  {
    GetProfileOf(db, None, u);
  }

  /** A user of a valid store has a non-zero id, so passes `if (currentUserId)`. */
  lemma KnownUserSignedIn(db: Db, id: UserId)
    requires db.Valid() && id in UserIds(db.users)
    ensures SignedIn(Some(id))
  {
    var u :| u in db.users && u.id == id;
  }

  /** Adding a follow row between two distinct users, or removing any
      follow row, keeps the store valid. */
  lemma FollowValid(db: Db, follower: UserId, followed: UserId)
    requires db.Valid()
    ensures follower in UserIds(db.users) && followed in UserIds(db.users) && follower != followed ==>
              db.(follows := db.follows + {(follower, followed)}).Valid()
    ensures db.(follows := db.follows - {(follower, followed)}).Valid()
  {
  }

  /** The follow table replaced by `follows`, which keeps the store valid. */
  method WriteFollows(s: Store, follows: set<(UserId, UserId)>)
    requires s.Valid() && s.Snapshot().(follows := follows).Valid()
    modifies s
    ensures s.Snapshot() == old(s.Snapshot()).(follows := follows)
    ensures s.Valid()
  {
    s.follows := follows;
  }

  /** `followUser` for the authenticated `caller`: 404 for an unknown
      username, then 422 when the target is the caller; otherwise the
      (caller, target) row is added if absent and the profile is returned
      with following true. The error cases write nothing, and following a
      user already followed changes nothing. */
  method FollowUser(s: Store, caller: UserId, username: string) returns (r: Response)
    requires s.Valid() && caller in UserIds(s.users)
    modifies s
    ensures s.Valid()
    ensures var found := UserByUsername(old(s.users), username);
            && (found.None? ==> r == Failure(Api(NotFound("User not found"))) && unchanged(s))
            && (found.Some? && found.value.id == caller ==>
                  r == Failure(Api(FieldError("username", "You can't follow yourself"))) && unchanged(s))
            && (found.Some? && found.value.id != caller ==>
                  && r == Reply(200, ProfileBody(ProfileOf(found.value, true)))
                  && s.Snapshot() == old(s.Snapshot()).(follows := old(s.follows) + {(caller, found.value.id)}))
    ensures var found := UserByUsername(old(s.users), username);
            found.Some? && (caller, found.value.id) in old(s.follows) ==> unchanged(s)
  {
    var found := UserByUsername(s.users, username);
    if found.None? {
      return Failure(Api(NotFound("User not found")));
    }
    var target := found.value;
    if target.id == caller {
      return Failure(Api(FieldError("username", "You can't follow yourself")));
    }
    if (caller, target.id) !in s.follows {
      FollowValid(s.Snapshot(), caller, target.id);
      WriteFollows(s, s.follows + {(caller, target.id)});
    }
    r := Reply(200, ProfileBody(ProfileOf(target, true)));
  }

  /** `unfollowUser` for the authenticated `caller`: 404 for an unknown
      username; otherwise the (caller, target) row is removed if present and
      the profile is returned with following false. There is no self check:
      unfollowing yourself succeeds and removes nothing. */
  method UnfollowUser(s: Store, caller: UserId, username: string) returns (r: Response)
    requires s.Valid() && caller in UserIds(s.users)
    modifies s
    ensures s.Valid()
    ensures var found := UserByUsername(old(s.users), username);
            && (found.None? ==> r == Failure(Api(NotFound("User not found"))) && unchanged(s))
            && (found.Some? ==>
                  && r == Reply(200, ProfileBody(ProfileOf(found.value, false)))
                  && s.Snapshot() == old(s.Snapshot()).(follows := old(s.follows) - {(caller, found.value.id)}))
    ensures var found := UserByUsername(old(s.users), username);
            found.Some? && (caller, found.value.id) !in old(s.follows) ==> unchanged(s)
  {
    var found := UserByUsername(s.users, username);
    if found.None? {
      return Failure(Api(NotFound("User not found")));
    }
    var target := found.value;
    assert (caller, target.id) !in s.follows ==> s.follows - {(caller, target.id)} == s.follows;
    FollowValid(s.Snapshot(), caller, target.id);
    s.follows := s.follows - {(caller, target.id)};
    r := Reply(200, ProfileBody(ProfileOf(target, false)));
  }

  /** After a follow the caller sees the profile as followed; after an
      unfollow, as not followed. */
  lemma FollowShowsInProfile(db: Db, caller: UserId, u: User)
    requires db.Valid() && caller in UserIds(db.users) && u in db.users
    ensures GetProfile(db.(follows := db.follows + {(caller, u.id)}), Some(caller), u.username).body.profile.following
    ensures !GetProfile(db.(follows := db.follows - {(caller, u.id)}), Some(caller), u.username).body.profile.following
  {
    UsernameIdentifies(db, u);
    KnownUserSignedIn(db, caller);
  }
}
