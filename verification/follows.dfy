/** FollowService over the follow table. A follow row is keyed by the pair
    (follower id, followed id) and carries its creation time; the repository's
    derived queries (exists, counts, the batch id lookup, the mutual check) are
    functions of that map. Paging is not modelled: a listing is the whole
    ordered result. */
module Follows {
  import opened Base
  import opened Users
  import opened Listing

  /** (follower id, followed id). */
  type Edge = (int, int)

  datatype FollowStore = FollowStore(users: seq<User>, edges: map<Edge, int>)

  datatype FollowError = SelfFollow | UserNotFound(id: int) | DuplicateFollow | FollowNotFound

  /** FollowResponse: the target, whether the caller now follows it, and the
      target's own follower and following counts after the change. */
  datatype FollowResponse = FollowResponse(userId: int, following: bool, followerCount: nat, followingCount: nat)

  datatype FollowCountResponse = FollowCountResponse(userId: int, followerCount: nat, followingCount: nat)

  /** FollowUserResponse: a listed user, whether the current user follows them,
      and when the listed follow was made. */
  datatype FollowUserResponse = FollowUserResponse(
    id: int, name: string, email: string, profileImage: Option<string>, isFollowing: bool, followedAt: int)

  /** `countByFollowingId`: the number of users following `u`. */
  function FollowerCount(edges: map<Edge, int>, u: int): nat {
    |set e | e in edges && e.1 == u|
  }

  /** `countByFollowerId`: the number of users `u` follows. */
  function FollowingCount(edges: map<Edge, int>, u: int): nat {
    |set e | e in edges && e.0 == u|
  }

  /** Adding a new row changes a count of the matching side by one and leaves the other alone. */
  lemma {:induction false} CountsAfterAdd(edges: map<Edge, int>, e: Edge, t: int, u: int)
    requires e !in edges
    ensures FollowerCount(edges[e := t], u) == FollowerCount(edges, u) + (if e.1 == u then 1 else 0)
    ensures FollowingCount(edges[e := t], u) == FollowingCount(edges, u) + (if e.0 == u then 1 else 0)
  {
    var before1 := set x | x in edges && x.1 == u;
    var after1 := set x | x in edges[e := t] && x.1 == u;
    if e.1 == u {
      assert after1 == before1 + {e};
    } else {
      assert after1 == before1;
    }
    var before0 := set x | x in edges && x.0 == u;
    var after0 := set x | x in edges[e := t] && x.0 == u;
    if e.0 == u {
      assert after0 == before0 + {e};
    } else {
      assert after0 == before0;
    }
  }

  /** Removing a present row changes a count of the matching side by one and leaves the other alone. */
  lemma {:induction false} CountsAfterRemove(edges: map<Edge, int>, e: Edge, u: int)
    requires e in edges
    ensures FollowerCount(edges - {e}, u) + (if e.1 == u then 1 else 0) == FollowerCount(edges, u)
    ensures FollowingCount(edges - {e}, u) + (if e.0 == u then 1 else 0) == FollowingCount(edges, u)
  {
    var before1 := set x | x in edges && x.1 == u;
    var after1 := set x | x in edges - {e} && x.1 == u;
    if e.1 == u {
      assert before1 == after1 + {e};
    } else {
      assert after1 == before1;
    }
    var before0 := set x | x in edges && x.0 == u;
    var after0 := set x | x in edges - {e} && x.0 == u;
    if e.0 == u {
      assert before0 == after0 + {e};
    } else {
      assert after0 == before0;
    }
  }

  /** `existsById`. */
  predicate UserExists(st: FollowStore, id: int) {
    FindById(st.users, id).Some?
  }

  /** `follow`: no self-follow, the target must exist, no second row for the
      same pair; then the row is added with creation time `now`. */
  function Follow(st: FollowStore, followerId: int, followingId: int, now: int): (r: Result<(FollowResponse, FollowStore), FollowError>)
    ensures r.Err? ==>
      || (r.error == SelfFollow && followerId == followingId)
      || (r.error == UserNotFound(followingId) && followerId != followingId && !UserExists(st, followingId))
      || (r.error == DuplicateFollow && followerId != followingId && UserExists(st, followingId)
          && (followerId, followingId) in st.edges)
    ensures r.Ok? <==> followerId != followingId && UserExists(st, followingId) && (followerId, followingId) !in st.edges
    ensures r.Ok? ==>
      && r.value.1 == st.(edges := st.edges[(followerId, followingId) := now])
      && r.value.0.userId == followingId && r.value.0.following
      && r.value.0.followerCount == FollowerCount(st.edges, followingId) + 1
      && r.value.0.followingCount == FollowingCount(st.edges, followingId)
  {
    if followerId == followingId then Err(SelfFollow)
    else if !UserExists(st, followingId) then Err(UserNotFound(followingId))
    else if (followerId, followingId) in st.edges then Err(DuplicateFollow)
    else
      var edges := st.edges[(followerId, followingId) := now];
      CountsAfterAdd(st.edges, (followerId, followingId), now, followingId);
      Ok((FollowResponse(followingId, true, FollowerCount(edges, followingId), FollowingCount(edges, followingId)),
          st.(edges := edges)))
  }

  /** `unfollow`: the row must exist; it is removed. The target's existence is
      not checked. */
  function Unfollow(st: FollowStore, followerId: int, followingId: int): (r: Result<(FollowResponse, FollowStore), FollowError>)
    ensures r.Err? <==> (followerId, followingId) !in st.edges
    ensures r.Err? ==> r.error == FollowNotFound
    ensures r.Ok? ==>
      && r.value.1 == st.(edges := st.edges - {(followerId, followingId)})
      && r.value.0.userId == followingId && !r.value.0.following
      && r.value.0.followerCount + 1 == FollowerCount(st.edges, followingId)
      && r.value.0.followingCount + (if followerId == followingId then 1 else 0) == FollowingCount(st.edges, followingId)
  {
    if (followerId, followingId) !in st.edges then Err(FollowNotFound)
    else
      var edges := st.edges - {(followerId, followingId)};
      CountsAfterRemove(st.edges, (followerId, followingId), followingId);
      Ok((FollowResponse(followingId, false, FollowerCount(edges, followingId), FollowingCount(edges, followingId)),
          st.(edges := edges)))
  }

  /** Following and then unfollowing restores the follow table exactly. */
  lemma FollowThenUnfollowRestores(st: FollowStore, followerId: int, followingId: int, now: int)
    requires Follow(st, followerId, followingId, now).Ok?
    ensures var mid := Follow(st, followerId, followingId, now).value.1;
      && Unfollow(mid, followerId, followingId).Ok?
      && Unfollow(mid, followerId, followingId).value.1 == st
  {
  }

  /** A second follow of the same pair is refused and changes nothing. */
  lemma FollowTwiceIsDuplicate(st: FollowStore, followerId: int, followingId: int, t1: int, t2: int)
    requires Follow(st, followerId, followingId, t1).Ok?
    ensures Follow(Follow(st, followerId, followingId, t1).value.1, followerId, followingId, t2) == Err(DuplicateFollow)
  {
  }

  /** `isFollowing`. */
  predicate IsFollowing(st: FollowStore, followerId: int, followingId: int) {
    (followerId, followingId) in st.edges
  }

  /** `isMutualFollow`: the rows between the two users number exactly two. */
  predicate IsMutualFollow(edges: map<Edge, int>, a: int, b: int) {
    |set e | e in edges && (e == (a, b) || e == (b, a))| == 2
  }

  /** Mutual means two different users each following the other; a user is
      never mutual with itself, since there is at most one row (a, a). */
  lemma MutualIffBothWays(edges: map<Edge, int>, a: int, b: int)
    ensures IsMutualFollow(edges, a, b) <==> a != b && (a, b) in edges && (b, a) in edges
  {
    var s := set e | e in edges && (e == (a, b) || e == (b, a));
    assert s <= {(a, b), (b, a)};
    if a == b {
      if (a, b) in edges {
        assert s == {(a, b)};
      } else {
        assert s == {};
      }
    } else if (a, b) in edges && (b, a) in edges {
      assert s == {(a, b), (b, a)};
    } else if (a, b) in edges {
      assert s == {(a, b)};
    } else if (b, a) in edges {
      assert s == {(b, a)};
    } else {
      assert s == {};
    }
  }

  /** `findFollowingIdsByFollowerId`: which of `ids` the follower follows. */
  function FollowedAmong(edges: map<Edge, int>, followerId: int, ids: seq<int>): (r: set<int>)
    ensures forall id :: id in r <==> id in ids && (followerId, id) in edges
  {
    set id | id in ids && (followerId, id) in edges
  }

  /** The listing's flag: the batch lookup is skipped for an anonymous caller
      or an empty page, giving an empty id list. */
  function FollowFlag(edges: map<Edge, int>, current: Option<int>, ids: seq<int>, id: int): bool {
    var batch := if current.Some? && |ids| > 0 then FollowedAmong(edges, current.value, ids) else {};
    id in batch
  }

  /** The batched flag says exactly whether the caller follows that user. */
  lemma FollowFlagIsFollowing(edges: map<Edge, int>, current: Option<int>, ids: seq<int>, id: int)
    requires id in ids
    ensures FollowFlag(edges, current, ids, id) <==> current.Some? && (current.value, id) in edges
  {
  }

  /** One listed user: the user on the other end of `e`, seen from `current`. */
  function Row(st: FollowStore, current: Option<int>, ids: seq<int>, e: Edge, other: int): FollowUserResponse
    requires e in st.edges && UserExists(st, other)
  {
    var u := FindById(st.users, other).value;
    FollowUserResponse(u.id, u.name, u.email, u.profileImage, FollowFlag(st.edges, current, ids, u.id), st.edges[e])
  }

  /** The follow rows one listing returns: into `userId` (followers) or out of
      it (followings), joined with an existing user on the other end. */
  function ListedEdges(st: FollowStore, userId: int, followers: bool): (r: set<Edge>)
    ensures r <= st.edges.Keys
    ensures forall e :: e in r <==>
      e in st.edges && (if followers then e.1 == userId && UserExists(st, e.0) else e.0 == userId && UserExists(st, e.1))
  {
    set e | e in st.edges && (if followers then e.1 == userId && UserExists(st, e.0) else e.0 == userId && UserExists(st, e.1))
  }

  /** `getFollowers` (followers = true) and `getFollowings` (false): the
      listed user must exist; the rows come newest first, each naming the user
      on the other end with that user's name, email and image, and the
      caller's follow flag. */
  method ListFollows(st: FollowStore, current: Option<int>, userId: int, followers: bool)
    returns (r: Result<seq<FollowUserResponse>, FollowError>)
    ensures r.Err? <==> !UserExists(st, userId)
    ensures r.Err? ==> r.error == UserNotFound(userId)
    ensures r.Ok? ==>
      && |r.value| == |ListedEdges(st, userId, followers)|
      && (forall i, j :: 0 <= i < j < |r.value| ==> r.value[i].followedAt >= r.value[j].followedAt)
      && (forall i :: 0 <= i < |r.value| ==>
            && r.value[i].isFollowing == (current.Some? && (current.value, r.value[i].id) in st.edges)
            && UserExists(st, r.value[i].id)
            && var u := FindById(st.users, r.value[i].id).value;
               r.value[i].name == u.name && r.value[i].email == u.email && r.value[i].profileImage == u.profileImage)
      && (set i | 0 <= i < |r.value| :: (r.value[i].id, r.value[i].followedAt))
         == (set e | e in ListedEdges(st, userId, followers) :: (if followers then e.0 else e.1, st.edges[e]))
  {
    if !UserExists(st, userId) {
      return Err(UserNotFound(userId));
    }
    var listed := ListedEdges(st, userId, followers);
    var order := ListNewestFirst(listed, st.edges);
    DistinctCardinality(order, listed);
    var ids := seq(|order|, i requires 0 <= i < |order| => if followers then order[i].0 else order[i].1);
    var rows := seq(|order|, i requires 0 <= i < |order| =>
      Row(st, current, ids, order[i], if followers then order[i].0 else order[i].1));
    forall i | 0 <= i < |rows|
      ensures rows[i].id == (if followers then order[i].0 else order[i].1)
      ensures rows[i].isFollowing == (current.Some? && (current.value, rows[i].id) in st.edges)
      ensures UserExists(st, rows[i].id)
      ensures var u := FindById(st.users, rows[i].id).value;
        rows[i].name == u.name && rows[i].email == u.email && rows[i].profileImage == u.profileImage
    {
      var other := if followers then order[i].0 else order[i].1;
      assert FindById(st.users, other).value.id == other;
      assert ids[i] == other;
      FollowFlagIsFollowing(st.edges, current, ids, other);
    }
    ListedPairs(st.edges, listed, order, rows, followers);
    return Ok(rows);
  }

  /** The (id, followedAt) pairs of rows built one per listed edge, in any
      order that visits every edge once, are those of the edges. */
  lemma ListedPairs(edges: map<Edge, int>, listed: set<Edge>, order: seq<Edge>,
                    rows: seq<FollowUserResponse>, followers: bool)
    requires listed <= edges.Keys
    requires forall e :: e in order <==> e in listed
    requires |rows| == |order|
    requires forall i :: 0 <= i < |rows| ==>
      rows[i].id == (if followers then order[i].0 else order[i].1) && rows[i].followedAt == edges[order[i]]
    ensures (set i | 0 <= i < |rows| :: (rows[i].id, rows[i].followedAt))
         == (set e | e in listed :: (if followers then e.0 else e.1, edges[e]))
  {
    var listing := set i | 0 <= i < |rows| :: (rows[i].id, rows[i].followedAt);
    var expected := set e | e in listed :: (if followers then e.0 else e.1, edges[e]);
    forall x | x in listing
      ensures x in expected
    {
      var i :| 0 <= i < |rows| && (rows[i].id, rows[i].followedAt) == x;
      assert order[i] in listed;
    }
    forall x | x in expected
      ensures x in listing
    {
      var e :| e in listed && x == (if followers then e.0 else e.1, edges[e]);
      var i :| 0 <= i < |order| && order[i] == e;
      assert (rows[i].id, rows[i].followedAt) == x;
    }
  }

  /** `getFollowCounts`: the user must exist. */
  function GetFollowCounts(st: FollowStore, userId: int): (r: Result<FollowCountResponse, FollowError>)
    ensures r.Err? <==> !UserExists(st, userId)
    ensures r.Ok? ==>
      && r.value.userId == userId
      && r.value.followerCount == |set e | e in st.edges && e.1 == userId|
      && r.value.followingCount == |set e | e in st.edges && e.0 == userId|
  {
    if !UserExists(st, userId) then Err(UserNotFound(userId))
    else Ok(FollowCountResponse(userId, FollowerCount(st.edges, userId), FollowingCount(st.edges, userId)))
  }
}
