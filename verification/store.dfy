/**
 * The Firestore documents the application reads and writes, as immutable
 * records, and the equality queries it runs over them.
 *
 * A collection snapshot is a sequence in the order Firestore returned it;
 * a `where(field, "==", v)` query keeps that order. Document lookups by id
 * (`getDoc(doc(db, "users", uid))`) go through a map.
 */
module Store {
  import opened Wrappers
  import JsString
  import Seqs

  type UserId = string

  /** A document of the `likes` collection. */
  datatype Like = Like(fromUserId: UserId, toUserId: UserId, createdAt: int)

  /** A document of the `matches` collection, with its auto-generated document id. */
  datatype Match = Match(id: string, user1Id: UserId, user2Id: UserId, userIds: seq<UserId>, createdAt: int)

  /** A document of a match's `messages` subcollection. */
  datatype Message = Message(senderId: UserId, content: string, isRead: bool, createdAt: int)

  /** A document of the `users` collection; any field may be missing. */
  datatype ProfileDoc = ProfileDoc(
    nickname: Option<string>,
    bio: Option<string>,
    age: Option<real>,
    gender: Option<string>,
    avatarUrl: Option<string>,
    createdAt: Option<int>,
    updatedAt: Option<int>)

  /** One entry of a `users` collection snapshot. */
  datatype UserDoc = UserDoc(id: UserId, data: ProfileDoc)

  /** The `UserProfile` value the pages assemble from a user document. */
  datatype UserProfile = UserProfile(
    uid: UserId,
    nickname: Option<string>,
    bio: Option<string>,
    age: Option<real>,
    gender: Option<string>,
    createdAt: Option<int>,
    updatedAt: Option<int>)

  /** The fields every page copies out of a user document (the avatar URL is not among them). */
  function ToProfile(uid: UserId, d: ProfileDoc): UserProfile
  {
    UserProfile(uid, d.nickname, d.bio, d.age, d.gender, d.createdAt, d.updatedAt)
  }

  /** `fetchUser(uid)`: the profile stored under `uid`, or null when there is no such document. */
  function FetchUser(users: map<UserId, ProfileDoc>, uid: UserId): (r: Option<UserProfile>)
    ensures r.Some? <==> uid in users
    ensures r.Some? ==>
              var d := users[uid];
              && r.value.uid == uid && r.value.nickname == d.nickname && r.value.bio == d.bio
              && r.value.age == d.age && r.value.gender == d.gender
              && r.value.createdAt == d.createdAt && r.value.updatedAt == d.updatedAt
  {
    if uid in users then Some(ToProfile(uid, users[uid])) else None
  }

  /** The `where("fromUserId", "==", uid)` test on a like document. */
  function SentBy(uid: UserId): Like -> bool
  {
    (l: Like) => l.fromUserId == uid
  }

  /** Some like document goes from `a` to `b`: a query on both fields returns a non-empty snapshot. */
  predicate HasLike(likes: seq<Like>, a: UserId, b: UserId)
  {
    exists i :: 0 <= i < |likes| && likes[i].fromUserId == a && likes[i].toUserId == b
  }

  /** Some match document has exactly `user1Id == u1` and `user2Id == u2`. */
  predicate HasMatch(matches: seq<Match>, u1: UserId, u2: UserId)
  {
    exists i :: 0 <= i < |matches| && matches[i].user1Id == u1 && matches[i].user2Id == u2
  }

  /**
   * The canonical ordering `[uid1, uid2]` of a pair, chosen with JavaScript's
   * string `<`: the smaller id first.
   */
  function Canon(a: UserId, b: UserId): (p: (UserId, UserId))
    ensures JsString.LessEq(p.0, p.1)
    ensures p == (a, b) || p == (b, a)
  {
    JsString.LessStrictTotalOrder(a, b, a);
    if JsString.Less(a, b) then (a, b) else (b, a)
  }

  /** Both orders of a pair have the same canonical form, so one match key serves both users. */
  lemma CanonSymmetric(a: UserId, b: UserId)
    ensures Canon(a, b) == Canon(b, a)
  {
    JsString.LessStrictTotalOrder(a, b, a);
  }

  /** The other member of a match, as every page computes it from `user1Id` and `user2Id`. */
  function Partner(m: Match, uid: UserId): UserId
  {
    if m.user1Id == uid then m.user2Id else m.user1Id
  }

  /** For a member of a match, the member and the partner are the match's two users. */
  lemma PartnerIsOtherMember(m: Match, uid: UserId)
    requires uid == m.user1Id || uid == m.user2Id
    ensures multiset{uid, Partner(m, uid)} == multiset{m.user1Id, m.user2Id}
    ensures uid != m.user1Id || uid != m.user2Id ==> Partner(m, uid) != uid
  {
  }

  function HasProfile(users: map<UserId, ProfileDoc>): UserId -> bool
  {
    uid => uid in users
  }

  function Fetch(users: map<UserId, ProfileDoc>): UserId -> Option<UserProfile>
  {
    uid => FetchUser(users, uid)
  }

  /**
   * `Promise.all(ids.map(fetchUser))` followed by `.filter((u) => u !== null)`:
   * the profiles of the ids that have a user document, in the order of `ids`,
   * one entry per id occurrence.
   */
  function FetchProfiles(ids: seq<UserId>, users: map<UserId, ProfileDoc>): (r: seq<UserProfile>)
    ensures |r| <= |ids|
    ensures var idx := Seqs.KeptIndices(ids, HasProfile(users), 0);
            |r| == |idx|
            && forall k :: 0 <= k < |r| ==> ids[idx[k]] in users && r[k] == ToProfile(ids[idx[k]], users[ids[idx[k]]])
    ensures forall i :: 0 <= i < |ids| && ids[i] in users ==> ToProfile(ids[i], users[ids[i]]) in r
    ensures forall k :: 0 <= k < |r| ==> r[k].uid in ids && r[k].uid in users
  {
    var fetched := Seqs.Map(ids, Fetch(users));
    Seqs.KeptIndicesAgree(fetched, Seqs.IsSome(), ids, HasProfile(users), 0);
    var r := Seqs.Somes(fetched);
    forall i | 0 <= i < |ids| && ids[i] in users
      ensures ToProfile(ids[i], users[ids[i]]) in r
    {
      assert fetched[i] == Some(ToProfile(ids[i], users[ids[i]]));
    }
    forall k | 0 <= k < |r|
      ensures r[k].uid in ids && r[k].uid in users
    {
      var idx := Seqs.KeptIndices(ids, HasProfile(users), 0);
      assert ids[idx[k]] in users && r[k] == ToProfile(ids[idx[k]], users[ids[idx[k]]]);
    }
    r
  }

  /** Every id in the list that has a user document contributes its profile. */
  lemma FetchProfilesHas(ids: seq<UserId>, users: map<UserId, ProfileDoc>, x: UserId)
    requires x in ids && x in users
    ensures ToProfile(x, users[x]) in FetchProfiles(ids, users)
  {
    var i :| 0 <= i < |ids| && ids[i] == x;
    assert ids[i] in users;
  }
}
