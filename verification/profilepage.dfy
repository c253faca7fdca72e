/**
 * The route every profile link reaches (`src/app/profile/[id]/page.tsx`).
 * Its load and its button are those of `ProfileDetail`, so `ProfileDetail.Load`
 * and `ProfileDetail.PageAction` describe them too, but its `handleLike` only
 * writes the like: it never looks for the reverse like and never writes a
 * match. A like sent from this page can therefore complete a mutual pair
 * that stays unmatched, which `ProfileDetail.HandleLike` (the same page with
 * the shared match step) does not allow.
 */
module ProfilePage {
  import opened Wrappers
  import opened Store
  import LikeMatch
  import ProfileDetail

  /**
   * `handleLike()` as the page writes it. `addFails` is a throwing `addDoc`;
   * the page's `catch` only logs.
   */
  function HandleLike(db: LikeMatch.Db, v: ProfileDetail.View, user: Option<UserId>, userId: UserId,
                      addFails: bool, now: int): (r: (LikeMatch.Db, ProfileDetail.View))
    // Guard: no user, already liked, or a like in flight.
    ensures user.None? || v.isLiked || v.liking ==> r == (db, v)
    // The match collection is never touched, and the modal is never raised.
    ensures r.0.matches == db.matches
    ensures r.1.matched == v.matched && r.1.profile == v.profile
    ensures user.Some? && !v.isLiked && !v.liking ==>
              && !r.1.liking
              && (addFails ==> r.0 == db && !r.1.isLiked)
              && (!addFails ==> r.0.likes == db.likes + [Like(user.value, userId, now)] && r.1.isLiked)
  {
    if user.None? || v.isLiked || v.liking then (db, v)
    else if addFails then (db, ProfileDetail.View(v.profile, false, false, v.matched))
    else
      (LikeMatch.Db(db.likes + [Like(user.value, userId, now)], db.matches),
       ProfileDetail.View(v.profile, true, false, v.matched))
  }

  /**
   * Past its guard the page's handler leaves the store exactly as the shared
   * transition does when it stops right after the like write.
   */
  lemma HandleLikeStopsAfterLikeWrite(db: LikeMatch.Db, v: ProfileDetail.View, uid: UserId, userId: UserId,
                                      addFails: bool, now: int, newMatchId: string)
    requires !v.isLiked && !v.liking
    ensures var fault := if addFails then LikeMatch.AddLikeFails else LikeMatch.ReverseQueryFails;
            HandleLike(db, v, Some(uid), userId, addFails, now).0
              == LikeMatch.SubmitLike(db, uid, userId, fault, now, newMatchId).db
  {
  }

  /**
   * Answering another user's like from this page completes a mutual pair
   * without a match. Afterwards both users' pages show the button as already
   * liked, so no handler behind either button can add the missing match: the
   * store is no longer valid.
   */
  lemma AnsweringLikeLeavesPairUnmatched(db: LikeMatch.Db, v: ProfileDetail.View, uid: UserId, userId: UserId,
                                         now: int)
    requires LikeMatch.Valid(db)
    requires uid != userId
    requires HasLike(db.likes, userId, uid) && !HasLike(db.likes, uid, userId)
    requires !v.isLiked && !v.liking
    ensures var r := HandleLike(db, v, Some(uid), userId, false, now);
            && LikeMatch.Mutual(r.0.likes, uid, userId)
            && !LikeMatch.Matched(r.0.matches, uid, userId)
            && !LikeMatch.Valid(r.0)
            && ProfileDetail.LoadIsLiked(r.0.likes, uid, userId)
            && ProfileDetail.LoadIsLiked(r.0.likes, userId, uid)
  {
    var r := HandleLike(db, v, Some(uid), userId, false, now);
    var l := Like(uid, userId, now);
    LikeMatch.HasLikeAppend(db.likes, l, uid, userId);
    LikeMatch.HasLikeAppend(db.likes, l, userId, uid);
    LikeMatch.ReciprocityLaw(db, uid, userId);
  }

  /** A concrete instance: "A" likes "B", then "B" likes "A" from A's profile page. */
  lemma AnsweringLikeLeavesPairUnmatchedExample()
    ensures var db := LikeMatch.Db([Like("A", "B", 0)], []);
            var v := ProfileDetail.View(Some(UserProfile("A", None, None, None, None, None, None)), false, false, false);
            var r := HandleLike(db, v, Some("B"), "A", false, 1);
            && LikeMatch.Valid(db)
            && r.0 == LikeMatch.Db([Like("A", "B", 0), Like("B", "A", 1)], [])
            && LikeMatch.Mutual(r.0.likes, "A", "B")
            && !LikeMatch.Valid(r.0)
  {
    var db := LikeMatch.Db([Like("A", "B", 0)], []);
    forall a, b
      ensures !LikeMatch.Mutual(db.likes, a, b)
    {
    }
    var r := HandleLike(db, ProfileDetail.View(Some(UserProfile("A", None, None, None, None, None, None)), false, false, false),
                        Some("B"), "A", false, 1);
    assert r.0.likes[0] == Like("A", "B", 0);
    assert r.0.likes[1] == Like("B", "A", 1);
    assert !LikeMatch.Matched(r.0.matches, "A", "B");
  }
}
