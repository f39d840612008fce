/**
 * The user directory and the directed `user_follower` table (follower_id,
 * followed_id) behind `followings()`. The table never holds a pair twice,
 * because following goes through `syncWithoutDetaching`, so it is a set.
 */
module Follows {
  import opened Wrappers
  import opened Store

  /** A row of the `users` table, as far as the core reads it. */
  datatype User = User(id: UserId, username: string)

  /** A follow edge: `followerId` follows `followedId`. Edges are directed. */
  datatype Follow = Follow(followerId: UserId, followedId: UserId)

  /** `User::where('username', $name)->first()`: the first user with that name, or null. */
  function FindByUsername(users: seq<User>, name: string): (r: Option<User>)
    ensures r.None? <==> forall u :: u in users ==> u.username != name
    ensures r.Some? ==> r.value in users && r.value.username == name
  {
    if users == [] then None
    else if users[0].username == name then Some(users[0])
    else FindByUsername(users[1..], name)
  }

  /** `UserController::show`: the user with that username, or 404 when `firstOrFail` finds none. */
  function Show(users: seq<User>, name: string): (r: Result<User, ApiError>)
    ensures r.Err? <==> forall u :: u in users ==> u.username != name
    ensures r.Err? ==> r.error == NotFound
    ensures r.Ok? ==> r.value in users && r.value.username == name
  {
    match FindByUsername(users, name)
    case None => Err(NotFound)
    case Some(u) => Ok(u)
  }

  /** `followings()->pluck('followed_id')`: the ids the user follows. */
  function Followings(edges: set<Follow>, userId: UserId): (r: set<UserId>)
    ensures forall v :: v in r <==> Follow(userId, v) in edges
  {
    set e | e in edges && e.followerId == userId :: e.followedId
  }

  /** Following adds exactly the target to the follower's followings and changes nobody else's. */
  lemma FollowingsAfterFollow(edges: set<Follow>, follower: UserId, target: UserId, u: UserId)
    ensures Followings(edges + {Follow(follower, target)}, u)
            == Followings(edges, u) + (if u == follower then {target} else {})
  {
    var after := Followings(edges + {Follow(follower, target)}, u);
    var expected := Followings(edges, u) + (if u == follower then {target} else {});
    forall v ensures v in after <==> v in expected {
      assert v in after <==> Follow(u, v) in edges + {Follow(follower, target)};
    }
  }

  /** Unfollowing removes exactly the target from the follower's followings and changes nobody else's. */
  lemma FollowingsAfterUnfollow(edges: set<Follow>, follower: UserId, target: UserId, u: UserId)
    ensures Followings(edges - {Follow(follower, target)}, u)
            == Followings(edges, u) - (if u == follower then {target} else {})
  {
    var after := Followings(edges - {Follow(follower, target)}, u);
    var expected := Followings(edges, u) - (if u == follower then {target} else {});
    forall v ensures v in after <==> v in expected {
      assert v in after <==> Follow(u, v) in edges - {Follow(follower, target)};
    }
  }

  /** The follow edges, which the follow actions change in place. */
  class FollowTable {
    var edges: set<Follow>

    constructor ()
      ensures edges == {}
    {
      edges := {};
    }

    /** `followings()->syncWithoutDetaching($id)`: adds the edge if absent, detaches nothing. */
    method SyncWithoutDetaching(follower: UserId, target: UserId)
      modifies this
      ensures edges == old(edges) + {Follow(follower, target)}
    {
      edges := edges + {Follow(follower, target)};
    }

    /** `followings()->detach($id)`: removes the edge if present. */
    method Detach(follower: UserId, target: UserId)
      modifies this
      ensures edges == old(edges) - {Follow(follower, target)}
    {
      edges := edges - {Follow(follower, target)};
    }

    /** `followUser`: 404 if no user has that name (firstOrFail), otherwise the viewer now follows that user. */
    method FollowUser(users: seq<User>, viewer: UserId, username: string) returns (r: Outcome<ApiError>)
      modifies this
      ensures FindByUsername(users, username).None? ==> r == Fail(NotFound) && edges == old(edges)
      ensures FindByUsername(users, username).Some? ==>
                r == Pass && edges == old(edges) + {Follow(viewer, FindByUsername(users, username).value.id)}
    {
      var found := FindByUsername(users, username);
      if found.None? {
        return Fail(NotFound);
      }
      SyncWithoutDetaching(viewer, found.value.id);
      r := Pass;
    }

    /** `unfollowUser`: 404 if no user has that name (firstOrFail), otherwise the viewer no longer follows that user. */
    method UnfollowUser(users: seq<User>, viewer: UserId, username: string) returns (r: Outcome<ApiError>)
      modifies this
      ensures FindByUsername(users, username).None? ==> r == Fail(NotFound) && edges == old(edges)
      ensures FindByUsername(users, username).Some? ==>
                r == Pass && edges == old(edges) - {Follow(viewer, FindByUsername(users, username).value.id)}
    {
      var found := FindByUsername(users, username);
      if found.None? {
        return Fail(NotFound);
      }
      Detach(viewer, found.value.id);
      r := Pass;
    }

    /**
     * `checkIsFollowed`: whether a row with follower_id = the current user and
     * followed_id = viewUserId exists. The route is public; for a guest the
     * query becomes `follower_id IS NULL`, which no edge meets because every
     * edge has a follower id.
     */
    method CheckIsFollowed(current: Option<UserId>, viewUserId: UserId) returns (b: bool)
      ensures b <==> current.Some? && Follow(current.value, viewUserId) in edges
    {
      b := current.Some? && Follow(current.value, viewUserId) in edges;
    }
  }

  /** Following twice leaves the same single edge as following once. */
  lemma FollowTwiceIsSingleEdge(edges: set<Follow>, follower: UserId, target: UserId)
    ensures edges + {Follow(follower, target)} + {Follow(follower, target)} == edges + {Follow(follower, target)}
    ensures |edges + {Follow(follower, target)}| == |edges| + (if Follow(follower, target) in edges then 0 else 1)
  {
    var e := Follow(follower, target);
    if e in edges {
      assert edges + {e} == edges;
    } else {
      assert (edges + {e}) - {e} == edges;
    }
  }

  /** Unfollowing someone just followed, who was not followed before, restores every edge. */
  lemma UnfollowUndoesFollow(edges: set<Follow>, follower: UserId, target: UserId)
    requires target !in Followings(edges, follower)
    ensures edges + {Follow(follower, target)} - {Follow(follower, target)} == edges
  {
  }

  /** Edges are directed: A following B does not make B follow A. */
  lemma FollowIsDirected(edges: set<Follow>, a: UserId, b: UserId)
    requires a != b && a !in Followings(edges, b)
    ensures b in Followings(edges + {Follow(a, b)}, a)
    ensures a !in Followings(edges + {Follow(a, b)}, b)
  {
    FollowingsAfterFollow(edges, a, b, a);
    FollowingsAfterFollow(edges, a, b, b);
  }
}
