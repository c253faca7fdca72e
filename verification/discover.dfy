/**
 * The discovery page (`src/app/page.tsx`) and its component twin
 * (`UserCardList.tsx`), whose data loading and like handler are the same
 * code: the list of other users, the client-side set of already-liked ids,
 * and `handleLike` with its local-set guard.
 */
module Discover {
  import opened Wrappers
  import opened Store
  import Seqs
  import LikeMatch
  import JsString

  /** Client state of the discovery page. */
  datatype View = View(users: seq<UserProfile>, likedUserIds: set<UserId>, matchedUserId: Option<UserId>)

  function NotSelf(uid: UserId): UserDoc -> bool
  {
    (d: UserDoc) => d.id != uid
  }

  function AsProfile(): UserDoc -> UserProfile
  {
    (d: UserDoc) => ToProfile(d.id, d.data)
  }

  /** The user list: every user document except the viewer's own, in snapshot order. */
  function DiscoveryList(snapshot: seq<UserDoc>, uid: UserId): (r: seq<UserProfile>)
    ensures |r| <= |snapshot|
    ensures forall k :: 0 <= k < |r| ==> r[k].uid != uid
    ensures forall i :: 0 <= i < |snapshot| && snapshot[i].id != uid ==>
              ToProfile(snapshot[i].id, snapshot[i].data) in r
    ensures var idx := Seqs.KeptIndices(snapshot, NotSelf(uid), 0);
            |r| == |idx|
            && forall k :: 0 <= k < |r| ==> r[k] == ToProfile(snapshot[idx[k]].id, snapshot[idx[k]].data)
  {
    var kept := Seqs.Filter(snapshot, NotSelf(uid));
    var r := Seqs.Map(kept, AsProfile());
    forall i | 0 <= i < |snapshot| && snapshot[i].id != uid
      ensures ToProfile(snapshot[i].id, snapshot[i].data) in r
    {
      assert NotSelf(uid)(snapshot[i]);
      var k :| 0 <= k < |kept| && kept[k] == snapshot[i];
      assert r[k] == AsProfile()(kept[k]);
    }
    r
  }

  /** The ids the viewer has liked, read from the like documents sent by the viewer. */
  function LikedIds(likes: seq<Like>, uid: UserId): (r: set<UserId>)
    ensures forall x :: x in r <==> HasLike(likes, uid, x)
  {
    var sent := Seqs.Filter(likes, SentBy(uid));
    var r := set l | l in sent :: l.toUserId;
    forall x | HasLike(likes, uid, x)
      ensures x in r
    {
      var i :| 0 <= i < |likes| && likes[i].fromUserId == uid && likes[i].toUserId == x;
      assert SentBy(uid)(likes[i]);
      assert likes[i] in sent;
    }
    forall x | x in r
      ensures HasLike(likes, uid, x)
    {
      var l :| l in sent && l.toUserId == x;
      var i :| 0 <= i < |likes| && likes[i] == l;
    }
    r
  }

  /** `fetchData`: the page state right after loading. */
  function Load(snapshot: seq<UserDoc>, likes: seq<Like>, uid: UserId): (v: View)
    ensures v.users == DiscoveryList(snapshot, uid)
    ensures forall x :: x in v.likedUserIds <==> HasLike(likes, uid, x)
    ensures v.matchedUserId == None
  {
    View(DiscoveryList(snapshot, uid), LikedIds(likes, uid), None)
  }

  /**
   * `handleLike(toUserId)`. Returns the store and the page state afterwards.
   * `user` is the signed-in user, if any.
   */
  function HandleLike(db: LikeMatch.Db, v: View, user: Option<UserId>, toUserId: UserId,
                      fault: LikeMatch.Fault, now: int, newMatchId: string): (r: (LikeMatch.Db, View))
    // Guard: nothing happens without a user or for an id already in the local set.
    ensures user.None? || toUserId in v.likedUserIds ==> r == (db, v)
    // A failed like write changes nothing either.
    ensures fault == LikeMatch.AddLikeFails ==> r == (db, v)
    // Otherwise exactly one like is stored and the local set gains the target.
    ensures user.Some? && toUserId !in v.likedUserIds && fault != LikeMatch.AddLikeFails ==>
              r.0.likes == db.likes + [Like(user.value, toUserId, now)]
              && r.1.likedUserIds == v.likedUserIds + {toUserId}
    // The modal target is set exactly when a match document was added.
    ensures |r.0.matches| == |db.matches| || |r.0.matches| == |db.matches| + 1
    ensures r.0.matches[..|db.matches|] == db.matches
    ensures r.1.matchedUserId == if |r.0.matches| > |db.matches| then Some(toUserId) else v.matchedUserId
    // A match is added only for a mutual pair that has none yet, in canonical order.
    ensures user.Some? && toUserId !in v.likedUserIds ==>
              var p := Canon(user.value, toUserId);
              (|r.0.matches| > |db.matches| <==>
                 fault == LikeMatch.NoFault
                 && (HasLike(db.likes, toUserId, user.value) || user.value == toUserId)
                 && !HasMatch(db.matches, p.0, p.1))
              && (|r.0.matches| > |db.matches| ==>
                    r.0.matches[|db.matches|] == Match(newMatchId, p.0, p.1, [p.0, p.1], now))
    ensures r.1.users == v.users
  {
    if user.None? || toUserId in v.likedUserIds then (db, v)
    else
      var s := LikeMatch.SubmitLike(db, user.value, toUserId, fault, now, newMatchId);
      var liked := if s.outcome.liked then v.likedUserIds + {toUserId} else v.likedUserIds;
      var matched := if s.outcome.matched then Some(toUserId) else v.matchedUserId;
      (s.db, View(v.users, liked, matched))
  }

  /**
   * The local set mirrors the store: if it held exactly the viewer's liked
   * ids before, it still does after a like, failed or not.
   */
  lemma HandleLikeKeepsLikedSetInSync(db: LikeMatch.Db, v: View, uid: UserId, toUserId: UserId,
                                     fault: LikeMatch.Fault, now: int, newMatchId: string)
    requires v.likedUserIds == LikedIds(db.likes, uid)
    ensures var r := HandleLike(db, v, Some(uid), toUserId, fault, now, newMatchId);
            r.1.likedUserIds == LikedIds(r.0.likes, uid)
  {
    var r := HandleLike(db, v, Some(uid), toUserId, fault, now, newMatchId);
    if toUserId !in v.likedUserIds && fault != LikeMatch.AddLikeFails {
      forall x
        ensures x in r.1.likedUserIds <==> x in LikedIds(r.0.likes, uid)
      {
        LikeMatch.HasLikeAppend(db.likes, Like(uid, toUserId, now), uid, x);
      }
    }
  }

  /**
   * The guard is only as good as the local set: when it has fallen behind the
   * store, the same directed like is stored a second time.
   */
  lemma StaleSetDuplicatesLike(db: LikeMatch.Db, v: View, uid: UserId, toUserId: UserId,
                               now: int, newMatchId: string)
    requires HasLike(db.likes, uid, toUserId) && toUserId !in v.likedUserIds
    ensures var r := HandleLike(db, v, Some(uid), toUserId, LikeMatch.NoFault, now, newMatchId);
            exists i, j :: 0 <= i < j < |r.0.likes|
                           && r.0.likes[i].fromUserId == r.0.likes[j].fromUserId == uid
                           && r.0.likes[i].toUserId == r.0.likes[j].toUserId == toUserId
  {
    var r := HandleLike(db, v, Some(uid), toUserId, LikeMatch.NoFault, now, newMatchId);
    var i :| 0 <= i < |db.likes| && db.likes[i].fromUserId == uid && db.likes[i].toUserId == toUserId;
    assert r.0.likes[i] == db.likes[i];
    assert r.0.likes[|db.likes|] == Like(uid, toUserId, now);
  }

  /** A fault-free like from the page keeps the reciprocity invariant of the store. */
  lemma HandleLikePreservesValid(db: LikeMatch.Db, v: View, user: Option<UserId>, toUserId: UserId,
                                 now: int, newMatchId: string)
    requires LikeMatch.Valid(db)
    ensures LikeMatch.Valid(HandleLike(db, v, user, toUserId, LikeMatch.NoFault, now, newMatchId).0)
  {
    if user.Some? && toUserId !in v.likedUserIds {
      LikeMatch.SubmitLikePreservesValid(db, user.value, toUserId, now, newMatchId);
    }
  }

  /**
   * `users.find((u) => u.uid === matchedUserId)`: the user the match modal
   * names, if listed. The source also tests `matchedUserId` for truthiness,
   * which only differs on `Some("")`; document ids are never empty.
   */
  function MatchedUser(v: View): (r: Option<UserProfile>)
    ensures r.Some? ==> v.matchedUserId.Some? && r.value in v.users && r.value.uid == v.matchedUserId.value
    ensures r.None? ==> v.matchedUserId.None? || forall k :: 0 <= k < |v.users| ==> v.users[k].uid != v.matchedUserId.value
  {
    if v.matchedUserId.None? then None else FindUser(v.users, v.matchedUserId.value)
  }

  /** `users.find((u) => u.uid === uid)`: the first listed user with that uid. */
  function FindUser(users: seq<UserProfile>, uid: UserId): (r: Option<UserProfile>)
    ensures r.Some? ==> r.value in users && r.value.uid == uid
    ensures r.Some? ==> exists k :: 0 <= k < |users| && users[k] == r.value
                                   && forall j :: 0 <= j < k ==> users[j].uid != uid
    ensures r.None? ==> forall k :: 0 <= k < |users| ==> users[k].uid != uid
  {
    if |users| == 0 then None
    else if users[0].uid == uid then Some(users[0])
    else
      var r := FindUser(users[1..], uid);
      assert r.Some? ==> exists k :: 0 <= k < |users| && users[k] == r.value
                                     && forall j :: 0 <= j < k ==> users[j].uid != uid by {
        if r.Some? {
          var k :| 0 <= k < |users[1..]| && users[1..][k] == r.value
                   && forall j :: 0 <= j < k ==> users[1..][j].uid != uid;
          assert users[k + 1] == r.value;
          forall j | 0 <= j < k + 1
            ensures users[j].uid != uid
          {
            if j > 0 { assert users[j] == users[1..][j - 1]; }
          }
        }
      }
      r
  }
}
