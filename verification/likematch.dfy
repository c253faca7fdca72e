/**
 * The like -> match transition shared by the three `handleLike` handlers
 * (discovery page, discovery card list, profile detail), once their guards
 * have passed:
 *
 *   1. add a like document `(from, to)`;
 *   2. query for the reverse like `(to, from)`;
 *   3. if it exists, order the pair with string `<` into `(uid1, uid2)` and
 *      query for a match document with exactly those ids;
 *   4. if there is none, add the match document `{uid1, uid2, [uid1, uid2]}`.
 *
 * Each Firestore call may throw; the handler catches and logs, and every
 * write made before the failing call persists. `Fault` names the call that
 * throws. The steps run one after another, with no other handler interleaved.
 *
 * The profile route's own handler performs step 1 only; `ProfilePage` models it.
 */
module LikeMatch {
  import opened Store
  import JsString

  /** Which Firestore call throws during a like, if any. */
  datatype Fault = NoFault | AddLikeFails | ReverseQueryFails | MatchQueryFails | AddMatchFails

  /** The two collections the transition touches. The store does not deduplicate likes. */
  datatype Db = Db(likes: seq<Like>, matches: seq<Match>)

  /** What the handler learned: whether its like and its match documents were written. */
  datatype Outcome = Outcome(liked: bool, matched: bool)

  datatype Step = Step(db: Db, outcome: Outcome)

  /** Appending a like adds exactly that one edge to the like relation. */
  lemma HasLikeAppend(likes: seq<Like>, l: Like, a: UserId, b: UserId)
    ensures HasLike(likes + [l], a, b) <==> HasLike(likes, a, b) || (l.fromUserId == a && l.toUserId == b)
  {
    var s := likes + [l];
    if HasLike(likes, a, b) {
      var i :| 0 <= i < |likes| && likes[i].fromUserId == a && likes[i].toUserId == b;
      assert s[i] == likes[i];
    }
    if l.fromUserId == a && l.toUserId == b {
      assert s[|likes|] == l;
    }
    if HasLike(s, a, b) {
      var i :| 0 <= i < |s| && s[i].fromUserId == a && s[i].toUserId == b;
      if i < |likes| {
        assert s[i] == likes[i];
      }
    }
  }

  /** Appending a match keeps every existing one and adds exactly that one. */
  lemma HasMatchAppend(matches: seq<Match>, m: Match, u1: UserId, u2: UserId)
    ensures HasMatch(matches + [m], u1, u2) <==> HasMatch(matches, u1, u2) || (m.user1Id == u1 && m.user2Id == u2)
  {
    var s := matches + [m];
    if HasMatch(matches, u1, u2) {
      var i :| 0 <= i < |matches| && matches[i].user1Id == u1 && matches[i].user2Id == u2;
      assert s[i] == matches[i];
    }
    if m.user1Id == u1 && m.user2Id == u2 {
      assert s[|matches|] == m;
    }
    if HasMatch(s, u1, u2) {
      var i :| 0 <= i < |s| && s[i].user1Id == u1 && s[i].user2Id == u2;
      if i < |matches| {
        assert s[i] == matches[i];
      }
    }
  }

  /**
   * `from` likes `to`. The reverse-like query runs after the like is written,
   * so a self-like finds itself as its own reverse.
   */
  function SubmitLike(db: Db, from: UserId, to: UserId, fault: Fault, now: int, newMatchId: string): (s: Step)
    ensures fault == AddLikeFails ==> s.db == db && !s.outcome.liked && !s.outcome.matched
    ensures fault != AddLikeFails ==> s.outcome.liked && s.db.likes == db.likes + [Like(from, to, now)]
    ensures var p := Canon(from, to);
            s.outcome.matched <==> (fault == NoFault
                                    && (HasLike(db.likes, to, from) || from == to)
                                    && !HasMatch(db.matches, p.0, p.1))
    ensures var p := Canon(from, to);
            s.outcome.matched ==> s.db.matches == db.matches + [Match(newMatchId, p.0, p.1, [p.0, p.1], now)]
    ensures !s.outcome.matched ==> s.db.matches == db.matches
  {
    if fault == AddLikeFails then Step(db, Outcome(false, false))
    else
      var likes := db.likes + [Like(from, to, now)];
      var afterLike := Step(Db(likes, db.matches), Outcome(true, false));
      HasLikeAppend(db.likes, Like(from, to, now), to, from);
      if fault == ReverseQueryFails || !HasLike(likes, to, from) then afterLike
      else
        var (uid1, uid2) := Canon(from, to);
        if fault == MatchQueryFails || HasMatch(db.matches, uid1, uid2) || fault == AddMatchFails then afterLike
        else Step(Db(likes, db.matches + [Match(newMatchId, uid1, uid2, [uid1, uid2], now)]), Outcome(true, true))
  }

  // ---------------------------------------------------------------------------
  // The reciprocity invariant of the like and match collections.

  /** A match document as the handler writes it: ids in string order, `userIds` listing both. */
  predicate WellFormed(m: Match)
  {
    JsString.LessEq(m.user1Id, m.user2Id) && m.userIds == [m.user1Id, m.user2Id]
  }

  /** Both directed likes between `a` and `b` exist. */
  predicate Mutual(likes: seq<Like>, a: UserId, b: UserId)
  {
    HasLike(likes, a, b) && HasLike(likes, b, a)
  }

  /** The match query for the pair `{a, b}` (after canonical ordering) is non-empty. */
  predicate Matched(matches: seq<Match>, a: UserId, b: UserId)
  {
    var p := Canon(a, b);
    HasMatch(matches, p.0, p.1)
  }

  /**
   * Every match is well formed and backed by both likes, no two matches share
   * `(user1Id, user2Id)`, and every mutual pair has a match.
   */
  ghost predicate Valid(db: Db)
  {
    && (forall i :: 0 <= i < |db.matches| ==>
          WellFormed(db.matches[i]) && Mutual(db.likes, db.matches[i].user1Id, db.matches[i].user2Id))
    && (forall i, j :: 0 <= i < j < |db.matches| ==>
          db.matches[i].user1Id != db.matches[j].user1Id || db.matches[i].user2Id != db.matches[j].user2Id)
    && (forall a, b :: Mutual(db.likes, a, b) ==> Matched(db.matches, a, b))
  }

  /** The reciprocity law: in a valid store, `{a, b}` is matched exactly when both likes exist. */
  lemma ReciprocityLaw(db: Db, a: UserId, b: UserId)
    requires Valid(db)
    ensures Matched(db.matches, a, b) <==> Mutual(db.likes, a, b)
  {
    if Matched(db.matches, a, b) {
      var p := Canon(a, b);
      var i :| 0 <= i < |db.matches| && db.matches[i].user1Id == p.0 && db.matches[i].user2Id == p.1;
      assert Mutual(db.likes, p.0, p.1);
    }
  }

  /**
   * In a valid store no two matches are for the same unordered pair, whichever
   * way round their ids are written.
   */
  lemma NoMirroredMatches(db: Db, i: nat, j: nat)
    requires Valid(db)
    requires i < |db.matches| && j < |db.matches|
    requires multiset{db.matches[i].user1Id, db.matches[i].user2Id}
             == multiset{db.matches[j].user1Id, db.matches[j].user2Id}
    ensures i == j
  {
    var mi, mj := db.matches[i], db.matches[j];
    assert WellFormed(mi) && WellFormed(mj);
    JsString.LessStrictTotalOrder(mi.user1Id, mi.user2Id, mi.user1Id);
    if mi.user1Id != mj.user1Id {
      // Then the ids are swapped, and both orders cannot be non-decreasing.
      assert false;
    }
    assert mi.user2Id == mj.user2Id by {
      assert mi.user2Id in multiset{mj.user1Id, mj.user2Id};
      assert mj.user2Id in multiset{mi.user1Id, mi.user2Id};
    }
    if i < j {
      assert false;
    } else if j < i {
      assert false;
    }
  }

  lemma EmptyValid()
    ensures Valid(Db([], []))
  {
    forall a: UserId, b: UserId
      ensures !Mutual([], a, b)
    {
    }
  }

  /** Likes only grow, so any mutual pair stays mutual. */
  lemma MutualAppend(likes: seq<Like>, l: Like, a: UserId, b: UserId)
    requires Mutual(likes, a, b)
    ensures Mutual(likes + [l], a, b)
  {
    HasLikeAppend(likes, l, a, b);
    HasLikeAppend(likes, l, b, a);
  }

  /** A fault-free like keeps the store valid, whoever likes whom. */
  lemma SubmitLikePreservesValid(db: Db, from: UserId, to: UserId, now: int, newMatchId: string)
    requires Valid(db)
    ensures Valid(SubmitLike(db, from, to, NoFault, now, newMatchId).db)
  {
    var s := SubmitLike(db, from, to, NoFault, now, newMatchId);
    SubmitLikeKeepsMatchesBacked(db, from, to, now, newMatchId);
    forall a, b | Mutual(s.db.likes, a, b)
      ensures Matched(s.db.matches, a, b)
    {
      SubmitLikeMatchesMutualPair(db, from, to, now, newMatchId, a, b);
    }
  }

  /** After a fault-free submit every match is well formed, backed by both likes, and unique for its ids. */
  lemma SubmitLikeKeepsMatchesBacked(db: Db, from: UserId, to: UserId, now: int, newMatchId: string)
    requires Valid(db)
    ensures var s := SubmitLike(db, from, to, NoFault, now, newMatchId).db;
            && (forall i :: 0 <= i < |s.matches| ==>
                  WellFormed(s.matches[i]) && Mutual(s.likes, s.matches[i].user1Id, s.matches[i].user2Id))
            && (forall i, j :: 0 <= i < j < |s.matches| ==>
                  s.matches[i].user1Id != s.matches[j].user1Id || s.matches[i].user2Id != s.matches[j].user2Id)
  {
    var s := SubmitLike(db, from, to, NoFault, now, newMatchId);
    var l := Like(from, to, now);
    var likes, matches := s.db.likes, s.db.matches;
    var p := Canon(from, to);
    assert likes == db.likes + [l];
    CanonSymmetric(from, to);

    // Existing matches stay backed by their likes.
    forall i | 0 <= i < |db.matches|
      ensures Mutual(likes, db.matches[i].user1Id, db.matches[i].user2Id)
    {
      MutualAppend(db.likes, l, db.matches[i].user1Id, db.matches[i].user2Id);
    }
    // The new pair, when it is mutual, is backed by both likes.
    HasLikeAppend(db.likes, l, from, to);
    HasLikeAppend(db.likes, l, to, from);
    if s.outcome.matched {
      assert Mutual(likes, from, to);
      assert Mutual(likes, p.0, p.1);
      var m := Match(newMatchId, p.0, p.1, [p.0, p.1], now);
      assert matches == db.matches + [m];
      forall i | 0 <= i < |db.matches|
        ensures db.matches[i].user1Id != m.user1Id || db.matches[i].user2Id != m.user2Id
      {
      }
    }
  }

  /** After a fault-free submit a pair whose two likes both exist has a match. */
  lemma SubmitLikeMatchesMutualPair(db: Db, from: UserId, to: UserId, now: int, newMatchId: string,
                                    a: UserId, b: UserId)
    requires Valid(db)
    requires Mutual(SubmitLike(db, from, to, NoFault, now, newMatchId).db.likes, a, b)
    ensures Matched(SubmitLike(db, from, to, NoFault, now, newMatchId).db.matches, a, b)
  {
    var s := SubmitLike(db, from, to, NoFault, now, newMatchId);
    var l := Like(from, to, now);
    var p := Canon(from, to);
    var q := Canon(a, b);
    assert s.db.likes == db.likes + [l];
    CanonSymmetric(from, to);
    HasLikeAppend(db.likes, l, a, b);
    HasLikeAppend(db.likes, l, b, a);
    if Mutual(db.likes, a, b) {
      assert HasMatch(db.matches, q.0, q.1);
      if s.outcome.matched {
        HasMatchAppend(db.matches, Match(newMatchId, p.0, p.1, [p.0, p.1], now), q.0, q.1);
      }
    } else {
      // One of the two likes is the new one, so `{a, b}` is `{from, to}`.
      assert (a == from && b == to) || (a == to && b == from);
      CanonSymmetric(a, b);
      assert q == p;
      assert HasLike(db.likes, to, from) || from == to;
      if !s.outcome.matched {
        assert HasMatch(db.matches, p.0, p.1);
      } else {
        HasMatchAppend(db.matches, Match(newMatchId, p.0, p.1, [p.0, p.1], now), q.0, q.1);
      }
    }
  }

  /** One like action of a user, with the timestamp and the document id the store assigns. */
  datatype LikeAction = LikeAction(from: UserId, to: UserId, now: int, newMatchId: string)

  /** A sequence of like actions applied one after another, none of them failing. */
  function Run(db: Db, actions: seq<LikeAction>): (r: Db)
    ensures |r.likes| == |db.likes| + |actions|
    ensures r.likes[..|db.likes|] == db.likes
    ensures forall k :: 0 <= k < |actions| ==>
              r.likes[|db.likes| + k] == Like(actions[k].from, actions[k].to, actions[k].now)
    decreases |actions|
  {
    if |actions| == 0 then db
    else
      var a := actions[0];
      var next := SubmitLike(db, a.from, a.to, NoFault, a.now, a.newMatchId).db;
      var r := Run(next, actions[1..]);
      assert next.likes == db.likes + [Like(a.from, a.to, a.now)];
      assert r.likes[..|db.likes|] == db.likes by {
        assert r.likes[..|db.likes|] == r.likes[..|next.likes|][..|db.likes|];
      }
      forall k | 0 <= k < |actions|
        ensures r.likes[|db.likes| + k] == Like(actions[k].from, actions[k].to, actions[k].now)
      {
        if k == 0 {
          assert r.likes[|db.likes|] == r.likes[..|next.likes|][|db.likes|];
        } else {
          assert actions[1..][k - 1] == actions[k];
        }
      }
      r
  }

  /** Any sequential history of likes from any valid store keeps the reciprocity invariant. */
  lemma {:induction false} RunPreservesValid(db: Db, actions: seq<LikeAction>)
    requires Valid(db)
    ensures Valid(Run(db, actions))
    decreases |actions|
  {
    if |actions| > 0 {
      var a := actions[0];
      SubmitLikePreservesValid(db, a.from, a.to, a.now, a.newMatchId);
      RunPreservesValid(SubmitLike(db, a.from, a.to, NoFault, a.now, a.newMatchId).db, actions[1..]);
    }
  }

  /** After any fault-free history from an empty store, a pair is matched iff both likes exist. */
  lemma HistoryReciprocity(actions: seq<LikeAction>, a: UserId, b: UserId)
    ensures var db := Run(Db([], []), actions);
            Matched(db.matches, a, b) <==> Mutual(db.likes, a, b)
  {
    EmptyValid();
    RunPreservesValid(Db([], []), actions);
    ReciprocityLaw(Run(Db([], []), actions), a, b);
  }

  /**
   * A failure after the like was written leaves a mutual pair without a match:
   * B already likes A, A likes B, and the reverse-like query throws.
   */
  lemma FaultAfterLikeBreaksReciprocity()
    ensures var db := Db([Like("B", "A", 0)], []);
            Valid(db)
            && var s := SubmitLike(db, "A", "B", ReverseQueryFails, 1, "m1");
            s.outcome.liked && Mutual(s.db.likes, "A", "B") && !Matched(s.db.matches, "A", "B")
  {
    var db := Db([Like("B", "A", 0)], []);
    forall a, b
      ensures !Mutual(db.likes, a, b)
    {
    }
    var s := SubmitLike(db, "A", "B", ReverseQueryFails, 1, "m1");
    assert s.db.likes[1] == Like("A", "B", 1);
    assert s.db.likes[0] == Like("B", "A", 0);
  }
}
