/**
 * The two match lists: the matches page (`src/app/matches/page.tsx`), which
 * shows partner profiles, and the `MatchList` component, which pairs each
 * partner profile with the id of its match for the chat link. Both read the
 * matches whose `userIds` contain the viewer (`array-contains`), derive the
 * partner, and drop partners without a user document.
 */
module Matches {
  import opened Wrappers
  import opened Store
  import Seqs

  function Involving(uid: UserId): Match -> bool
  {
    (m: Match) => uid in m.userIds
  }

  /** The `array-contains` query: the viewer's matches, in snapshot order. */
  function MyMatches(matches: seq<Match>, uid: UserId): (r: seq<Match>)
    ensures forall m :: m in r <==> m in matches && uid in m.userIds
    ensures var idx := Seqs.KeptIndices(matches, Involving(uid), 0);
            |r| == |idx| && forall k :: 0 <= k < |r| ==> r[k] == matches[idx[k]]
  {
    Seqs.Filter(matches, Involving(uid))
  }

  function PartnerOf(uid: UserId): Match -> UserId
  {
    (m: Match) => Partner(m, uid)
  }

  /** `partnerIds`: one partner id per match of the snapshot, in order. */
  function PartnerIds(snapshot: seq<Match>, uid: UserId): (r: seq<UserId>)
    ensures |r| == |snapshot|
    ensures forall i :: 0 <= i < |r| ==> r[i] == Partner(snapshot[i], uid)
    ensures forall i :: 0 <= i < |r| && (uid == snapshot[i].user1Id || uid == snapshot[i].user2Id) ==>
              multiset{uid, r[i]} == multiset{snapshot[i].user1Id, snapshot[i].user2Id}
  {
    var r := Seqs.Map(snapshot, PartnerOf(uid));
    forall i | 0 <= i < |r| && (uid == snapshot[i].user1Id || uid == snapshot[i].user2Id)
      ensures multiset{uid, r[i]} == multiset{snapshot[i].user1Id, snapshot[i].user2Id}
    {
      PartnerIsOtherMember(snapshot[i], uid);
    }
    r
  }

  /** The matches page's list: the profile of each partner that has a user document, in match order. */
  function MatchedProfiles(matches: seq<Match>, users: map<UserId, ProfileDoc>, uid: UserId): (r: seq<UserProfile>)
    ensures |r| <= |MyMatches(matches, uid)|
    ensures forall k :: 0 <= k < |r| ==> r[k].uid in users && r[k].uid in PartnerIds(MyMatches(matches, uid), uid)
  {
    FetchProfiles(PartnerIds(MyMatches(matches, uid), uid), users)
  }

  /** Each listed profile belongs to the partner in one of the viewer's matches. */
  lemma MatchedProfileIsPartner(matches: seq<Match>, users: map<UserId, ProfileDoc>, uid: UserId, k: nat)
    requires k < |MatchedProfiles(matches, users, uid)|
    ensures exists m :: m in matches && uid in m.userIds
                        && MatchedProfiles(matches, users, uid)[k].uid == Partner(m, uid)
  {
    var mine := MyMatches(matches, uid);
    var ids := PartnerIds(mine, uid);
    var p := MatchedProfiles(matches, users, uid)[k];
    var i :| 0 <= i < |ids| && ids[i] == p.uid;
    assert mine[i] in mine;
  }

  /** The partner in each of the viewer's matches is listed when it has a document. */
  lemma PartnerIsListed(matches: seq<Match>, users: map<UserId, ProfileDoc>, uid: UserId, m: Match)
    requires m in matches && uid in m.userIds && Partner(m, uid) in users
    ensures ToProfile(Partner(m, uid), users[Partner(m, uid)]) in MatchedProfiles(matches, users, uid)
  {
    var mine := MyMatches(matches, uid);
    var ids := PartnerIds(mine, uid);
    var i :| 0 <= i < |mine| && mine[i] == m;
    assert ids[i] == Partner(m, uid);
    FetchProfilesHas(ids, users, Partner(m, uid));
  }

  /**
   * A profile is listed only for the partner of one of the viewer's matches,
   * and every such partner with a user document is listed.
   */
  lemma MatchedProfilesMembers(matches: seq<Match>, users: map<UserId, ProfileDoc>, uid: UserId)
    ensures var r := MatchedProfiles(matches, users, uid);
            forall k :: 0 <= k < |r| ==>
              exists m :: m in matches && uid in m.userIds && r[k].uid == Partner(m, uid)
    ensures forall m :: m in matches && uid in m.userIds && Partner(m, uid) in users ==>
              ToProfile(Partner(m, uid), users[Partner(m, uid)]) in MatchedProfiles(matches, users, uid)
  {
    forall k | 0 <= k < |MatchedProfiles(matches, users, uid)|
      ensures exists m :: m in matches && uid in m.userIds
                          && MatchedProfiles(matches, users, uid)[k].uid == Partner(m, uid)
    {
      MatchedProfileIsPartner(matches, users, uid, k);
    }
    forall m | m in matches && uid in m.userIds && Partner(m, uid) in users
      ensures ToProfile(Partner(m, uid), users[Partner(m, uid)]) in MatchedProfiles(matches, users, uid)
    {
      PartnerIsListed(matches, users, uid, m);
    }
  }

  /** An entry of `MatchList`: the partner's profile and the match it came from. */
  datatype MatchedUser = MatchedUser(profile: UserProfile, matchId: string)

  /** The per-match lookup of `fetchMatches`: null when the partner has no user document. */
  function Entry(users: map<UserId, ProfileDoc>, uid: UserId): Match -> Option<MatchedUser>
  {
    (m: Match) =>
      match FetchUser(users, Partner(m, uid))
      case Some(p) => Some(MatchedUser(p, m.id))
      case None => None
  }

  function PartnerHasProfile(users: map<UserId, ProfileDoc>, uid: UserId): Match -> bool
  {
    (m: Match) => Partner(m, uid) in users
  }

  lemma EntryOf(users: map<UserId, ProfileDoc>, uid: UserId, m: Match)
    ensures Entry(users, uid)(m).Some? <==> PartnerHasProfile(users, uid)(m)
    ensures Entry(users, uid)(m).Some? ==>
              Entry(users, uid)(m).value == MatchedUser(ToProfile(Partner(m, uid), users[Partner(m, uid)]), m.id)
  {
  }

  /** `MatchList`'s list: for each of the viewer's matches whose partner has a profile, that profile and the match id. */
  function MatchedUsers(matches: seq<Match>, users: map<UserId, ProfileDoc>, uid: UserId): (r: seq<MatchedUser>)
    ensures |r| <= |MyMatches(matches, uid)|
  {
    Seqs.Somes(Seqs.Map(MyMatches(matches, uid), Entry(users, uid)))
  }

  /**
   * Each entry is the k-th of the viewer's matches whose partner has a user
   * document: it carries that match's id and that partner's profile, so the
   * list keeps match order and drops exactly the partners without a profile.
   */
  lemma MatchedUsersSpec(matches: seq<Match>, users: map<UserId, ProfileDoc>, uid: UserId)
    ensures var r := MatchedUsers(matches, users, uid);
            var mine := MyMatches(matches, uid);
            var idx := Seqs.KeptIndices(mine, PartnerHasProfile(users, uid), 0);
            |r| == |idx|
            && forall k :: 0 <= k < |r| ==>
                 var m := mine[idx[k]];
                 && m in matches && uid in m.userIds
                 && r[k].matchId == m.id
                 && r[k].profile == ToProfile(Partner(m, uid), users[Partner(m, uid)])
  {
    var mine := MyMatches(matches, uid);
    var entries := Seqs.Map(mine, Entry(users, uid));
    var keep := PartnerHasProfile(users, uid);
    forall i | 0 <= i < |mine|
      ensures Seqs.IsSome<MatchedUser>()(entries[i]) == keep(mine[i])
    {
      EntryOf(users, uid, mine[i]);
    }
    Seqs.KeptIndicesAgree(entries, Seqs.IsSome<MatchedUser>(), mine, keep, 0);
    var r: seq<MatchedUser> := Seqs.Somes(entries);
    assert r == MatchedUsers(matches, users, uid);
    var idx := Seqs.KeptIndices(mine, keep, 0);
    forall k | 0 <= k < |r|
      ensures var m := mine[idx[k]];
              && m in matches && uid in m.userIds
              && r[k].matchId == m.id
              && r[k].profile == ToProfile(Partner(m, uid), users[Partner(m, uid)])
    {
      var m := mine[idx[k]];
      EntryOf(users, uid, m);
      assert entries[idx[k]] == Some(r[k]);
      assert m in mine;
    }
  }

  /** The chat link of an entry: `/messages/${matchId}`. */
  function ChatHref(e: MatchedUser): string
  {
    "/messages/" + e.matchId
  }

  /** The chat route reads back, from an entry's link, exactly that entry's match id. */
  lemma ChatHrefTargetsOwnMatch(e: MatchedUser, f: MatchedUser)
    ensures ChatHref(e)[|"/messages/"|..] == e.matchId
    ensures ChatHref(e) == ChatHref(f) ==> e.matchId == f.matchId
  {
    assert ChatHref(e)[|"/messages/"|..] == e.matchId;
    if ChatHref(e) == ChatHref(f) {
      assert ChatHref(f)[|"/messages/"|..] == f.matchId;
    }
  }
}
