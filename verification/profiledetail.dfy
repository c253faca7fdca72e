/**
 * A user's profile page (`ProfileDetail.tsx`): whether the viewer already
 * likes the shown user, the like button or the edit link, and `handleLike`
 * with its `isLiked` / `liking` guards.
 */
module ProfileDetail {
  import opened Wrappers
  import opened Store
  import LikeMatch
  import Discover
  import LikesPage

  /** Client state of the page. */
  datatype View = View(profile: Option<UserProfile>, isLiked: bool, liking: bool, matched: bool)

  /** `isLiked` after loading: queried only for another user's page, otherwise left at `false`. */
  function LoadIsLiked(likes: seq<Like>, uid: UserId, userId: UserId): (r: bool)
    ensures r <==> uid != userId && HasLike(likes, uid, userId)
  {
    if uid != userId then HasLike(likes, uid, userId) else false
  }

  /**
   * The detail page, the discovery page and the "sent" tab of the likes page
   * agree on whether the viewer already likes another user.
   */
  lemma LoadIsLikedAgreesWithOtherPages(likes: seq<Like>, uid: UserId, userId: UserId)
    ensures LoadIsLiked(likes, uid, userId) <==> uid != userId && userId in Discover.LikedIds(likes, uid)
    ensures LoadIsLiked(likes, uid, userId) <==> uid != userId && userId in LikesPage.SentIds(likes, uid)
  {
    LikesPage.SentIdsMembers(likes, uid);
  }

  /** Which read of `fetchData` throws, if any; the `catch` only logs. */
  datatype LoadFault = LoadOk | ProfileReadFails | LikesQueryFails

  /**
   * `fetchData`: the page state right after loading. A throw leaves the
   * state it reached: nothing when the profile read fails, the profile but
   * not `isLiked` when the like query fails.
   */
  function Load(users: map<UserId, ProfileDoc>, likes: seq<Like>, uid: UserId, userId: UserId,
                fault: LoadFault): (v: View)
    ensures v.profile.Some? <==> userId in users && fault != ProfileReadFails
    ensures v.profile.Some? ==> v.profile == FetchUser(users, userId)
    ensures v.isLiked <==> fault == LoadOk && uid != userId && HasLike(likes, uid, userId)
    ensures !v.liking && !v.matched
  {
    match fault
    case ProfileReadFails => View(None, false, false, false)
    case LikesQueryFails => View(FetchUser(users, userId), false, false, false)
    case LoadOk => View(FetchUser(users, userId), LoadIsLiked(likes, uid, userId), false, false)
  }

  /** What the page offers: the not-found note instead of a profile, or the action below the profile. */
  datatype Action = NotFound | EditLink | LikeButton(disabled: bool, caption: string)

  /** The page once loaded, for a signed-in viewer `uid`. */
  function PageAction(v: View, uid: UserId, userId: UserId): (a: Action)
    ensures a.NotFound? <==> v.profile.None?
    ensures a.EditLink? <==> v.profile.Some? && uid == userId
    ensures a.LikeButton? <==> v.profile.Some? && uid != userId
    ensures a.LikeButton? ==> (a.disabled <==> v.isLiked || v.liking)
    ensures a.LikeButton? ==> (a.caption == "いいね済み" <==> v.isLiked)
  {
    if v.profile.None? then NotFound
    else if uid == userId then EditLink
    else LikeButton(v.isLiked || v.liking,
                    if v.isLiked then "いいね済み" else if v.liking then "送信中..." else "💗 いいね")
  }

  /**
   * After loading, the page shows "not found" exactly when the user has no
   * document or its read threw; another user's page otherwise offers the
   * button, disabled exactly when the like query found the viewer's like.
   */
  lemma LoadedPage(users: map<UserId, ProfileDoc>, likes: seq<Like>, uid: UserId, userId: UserId,
                   fault: LoadFault)
    ensures var a := PageAction(Load(users, likes, uid, userId, fault), uid, userId);
            && (a.NotFound? <==> userId !in users || fault == ProfileReadFails)
            && (a.LikeButton? ==> (a.disabled <==> fault == LoadOk && HasLike(likes, uid, userId)))
  {
  }

  /** `handleLike()` for the shown user `userId`. Returns the store and the page state afterwards. */
  function HandleLike(db: LikeMatch.Db, v: View, user: Option<UserId>, userId: UserId,
                      fault: LikeMatch.Fault, now: int, newMatchId: string): (r: (LikeMatch.Db, View))
    // Guard: no user, already liked, or a like in flight.
    ensures user.None? || v.isLiked || v.liking ==> r == (db, v)
    // Past the guard, `liking` is cleared again whatever happened.
    ensures user.Some? && !v.isLiked && !v.liking ==> !r.1.liking
    ensures fault == LikeMatch.AddLikeFails ==> r.0 == db && r.1.isLiked == v.isLiked
    ensures user.Some? && !v.isLiked && !v.liking && fault != LikeMatch.AddLikeFails ==>
              r.0.likes == db.likes + [Like(user.value, userId, now)] && r.1.isLiked
    // `matched` is raised exactly when a match document was added.
    ensures |r.0.matches| == |db.matches| || |r.0.matches| == |db.matches| + 1
    ensures r.0.matches[..|db.matches|] == db.matches
    ensures r.1.matched == (v.matched || |r.0.matches| > |db.matches|)
    ensures user.Some? && !v.isLiked && !v.liking ==>
              var p := Canon(user.value, userId);
              (|r.0.matches| > |db.matches| <==>
                 fault == LikeMatch.NoFault
                 && (HasLike(db.likes, userId, user.value) || user.value == userId)
                 && !HasMatch(db.matches, p.0, p.1))
              && (|r.0.matches| > |db.matches| ==>
                    r.0.matches[|db.matches|] == Match(newMatchId, p.0, p.1, [p.0, p.1], now))
    ensures r.1.profile == v.profile
  {
    if user.None? || v.isLiked || v.liking then (db, v)
    else
      // `setLiking(true)` here; the `finally` clause clears it.
      var s := LikeMatch.SubmitLike(db, user.value, userId, fault, now, newMatchId);
      (s.db, View(v.profile, s.outcome.liked, false, v.matched || s.outcome.matched))
  }

  /**
   * Pressing the enabled like button on another user's page stores a like
   * from the viewer to that user, never a self-like.
   */
  lemma EnabledButtonStoresLike(db: LikeMatch.Db, v: View, uid: UserId, userId: UserId,
                                fault: LikeMatch.Fault, now: int, newMatchId: string)
    requires PageAction(v, uid, userId) == LikeButton(false, "💗 いいね")
    requires fault != LikeMatch.AddLikeFails
    ensures var r := HandleLike(db, v, Some(uid), userId, fault, now, newMatchId);
            uid != userId && r.0.likes == db.likes + [Like(uid, userId, now)] && r.1.isLiked && !r.1.liking
  {
  }

  /** `isLiked` keeps telling whether the store holds a like from the viewer to the shown user. */
  lemma HandleLikeKeepsIsLikedInSync(db: LikeMatch.Db, v: View, uid: UserId, userId: UserId,
                                    fault: LikeMatch.Fault, now: int, newMatchId: string)
    requires v.isLiked == HasLike(db.likes, uid, userId)
    ensures var r := HandleLike(db, v, Some(uid), userId, fault, now, newMatchId);
            r.1.isLiked == HasLike(r.0.likes, uid, userId)
  {
    var r := HandleLike(db, v, Some(uid), userId, fault, now, newMatchId);
    if !v.isLiked && !v.liking && fault != LikeMatch.AddLikeFails {
      LikeMatch.HasLikeAppend(db.likes, Like(uid, userId, now), uid, userId);
    }
  }

  /** A fault-free like from the profile page keeps the reciprocity invariant of the store. */
  lemma HandleLikePreservesValid(db: LikeMatch.Db, v: View, user: Option<UserId>, userId: UserId,
                                 now: int, newMatchId: string)
    requires LikeMatch.Valid(db)
    ensures LikeMatch.Valid(HandleLike(db, v, user, userId, LikeMatch.NoFault, now, newMatchId).0)
  {
    if user.Some? && !v.isLiked && !v.liking {
      LikeMatch.SubmitLikePreservesValid(db, user.value, userId, now, newMatchId);
    }
  }

  /**
   * When the like query of `fetchData` throws, the page shows another user's
   * profile with the like button enabled even though the viewer already likes
   * that user, and pressing it stores a second like for the same pair.
   */
  lemma FailedLikeQueryDuplicatesLike(db: LikeMatch.Db, users: map<UserId, ProfileDoc>, uid: UserId,
                                      userId: UserId, now: int, newMatchId: string)
    requires uid != userId && userId in users
    requires HasLike(db.likes, uid, userId)
    ensures var v := Load(users, db.likes, uid, userId, LikesQueryFails);
            var r := HandleLike(db, v, Some(uid), userId, LikeMatch.NoFault, now, newMatchId);
            && v.profile.Some?
            && PageAction(v, uid, userId) == LikeButton(false, "💗 いいね")
            && exists i, j :: 0 <= i < j < |r.0.likes|
                              && r.0.likes[i].fromUserId == r.0.likes[j].fromUserId == uid
                              && r.0.likes[i].toUserId == r.0.likes[j].toUserId == userId
  {
    var v := Load(users, db.likes, uid, userId, LikesQueryFails);
    var r := HandleLike(db, v, Some(uid), userId, LikeMatch.NoFault, now, newMatchId);
    var i :| 0 <= i < |db.likes| && db.likes[i].fromUserId == uid && db.likes[i].toUserId == userId;
    assert r.0.likes[i] == db.likes[i];
    assert r.0.likes[|db.likes|] == Like(uid, userId, now);
  }
}
