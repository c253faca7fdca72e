/**
 * The likes page (`src/app/likes/page.tsx`): the users who liked the viewer
 * ("received") and the users the viewer liked ("sent"), each read from the
 * like documents in snapshot order, without deduplication, dropping ids that
 * have no user document.
 */
module LikesPage {
  import opened Store
  import Seqs

  datatype Tab = Received | Sent

  function AddressedTo(uid: UserId): Like -> bool
  {
    (l: Like) => l.toUserId == uid
  }

  function Sender(): Like -> UserId
  {
    (l: Like) => l.fromUserId
  }

  function Recipient(): Like -> UserId
  {
    (l: Like) => l.toUserId
  }

  /** `receivedIds`: the sender of each like addressed to the viewer, one entry per like, in order. */
  function ReceivedIds(likes: seq<Like>, uid: UserId): (r: seq<UserId>)
    ensures var idx := Seqs.KeptIndices(likes, AddressedTo(uid), 0);
            |r| == |idx| && forall k :: 0 <= k < |r| ==> r[k] == likes[idx[k]].fromUserId
  {
    Seqs.Map(Seqs.Filter(likes, AddressedTo(uid)), Sender())
  }

  /** An id is among the received ids exactly when that user liked the viewer. */
  lemma ReceivedIdsMembers(likes: seq<Like>, uid: UserId)
    ensures forall x :: x in ReceivedIds(likes, uid) <==> HasLike(likes, x, uid)
  {
    var r := ReceivedIds(likes, uid);
    var idx := Seqs.KeptIndices(likes, AddressedTo(uid), 0);
    forall x | HasLike(likes, x, uid)
      ensures x in r
    {
      var i :| 0 <= i < |likes| && likes[i].fromUserId == x && likes[i].toUserId == uid;
      assert AddressedTo(uid)(likes[i]);
      var k :| 0 <= k < |idx| && idx[k] == i;
      assert r[k] == x;
    }
    forall x | x in r
      ensures HasLike(likes, x, uid)
    {
      var k :| 0 <= k < |r| && r[k] == x;
      var i := idx[k];
      assert AddressedTo(uid)(likes[i]);
      assert likes[i].fromUserId == x && likes[i].toUserId == uid;
    }
  }

  /** `sentIds`: the recipient of each like the viewer sent, one entry per like, in order. */
  function SentIds(likes: seq<Like>, uid: UserId): (r: seq<UserId>)
    ensures var idx := Seqs.KeptIndices(likes, SentBy(uid), 0);
            |r| == |idx| && forall k :: 0 <= k < |r| ==> r[k] == likes[idx[k]].toUserId
  {
    Seqs.Map(Seqs.Filter(likes, SentBy(uid)), Recipient())
  }

  /** An id is among the sent ids exactly when the viewer liked that user. */
  lemma SentIdsMembers(likes: seq<Like>, uid: UserId)
    ensures forall x :: x in SentIds(likes, uid) <==> HasLike(likes, uid, x)
  {
    var r := SentIds(likes, uid);
    var idx := Seqs.KeptIndices(likes, SentBy(uid), 0);
    forall x | HasLike(likes, uid, x)
      ensures x in r
    {
      var i :| 0 <= i < |likes| && likes[i].fromUserId == uid && likes[i].toUserId == x;
      assert SentBy(uid)(likes[i]);
      var k :| 0 <= k < |idx| && idx[k] == i;
      assert r[k] == x;
    }
    forall x | x in r
      ensures HasLike(likes, uid, x)
    {
      var k :| 0 <= k < |r| && r[k] == x;
      var i := idx[k];
      assert SentBy(uid)(likes[i]);
      assert likes[i].fromUserId == uid && likes[i].toUserId == x;
    }
  }

  /** The two lists the page keeps. */
  datatype Lists = Lists(received: seq<UserProfile>, sent: seq<UserProfile>)

  /** `fetchLikes`: both lists, each the profiles of its ids that have a user document. */
  function Load(likes: seq<Like>, users: map<UserId, ProfileDoc>, uid: UserId): (l: Lists)
    ensures |l.received| <= |ReceivedIds(likes, uid)| && |l.sent| <= |SentIds(likes, uid)|
    ensures forall k :: 0 <= k < |l.received| ==> HasLike(likes, l.received[k].uid, uid) && l.received[k].uid in users
    ensures forall k :: 0 <= k < |l.sent| ==> HasLike(likes, uid, l.sent[k].uid) && l.sent[k].uid in users
    ensures forall x :: HasLike(likes, x, uid) && x in users ==> ToProfile(x, users[x]) in l.received
    ensures forall x :: HasLike(likes, uid, x) && x in users ==> ToProfile(x, users[x]) in l.sent
  {
    var rIds, sIds := ReceivedIds(likes, uid), SentIds(likes, uid);
    var l := Lists(FetchProfiles(rIds, users), FetchProfiles(sIds, users));
    ReceivedIdsMembers(likes, uid);
    SentIdsMembers(likes, uid);
    forall k | 0 <= k < |l.received|
      ensures HasLike(likes, l.received[k].uid, uid)
    {
      assert l.received[k].uid in rIds;
    }
    forall k | 0 <= k < |l.sent|
      ensures HasLike(likes, uid, l.sent[k].uid)
    {
      assert l.sent[k].uid in sIds;
    }
    forall x | HasLike(likes, x, uid) && x in users
      ensures ToProfile(x, users[x]) in l.received
    {
      FetchProfilesHas(rIds, users, x);
    }
    forall x | HasLike(likes, uid, x) && x in users
      ensures ToProfile(x, users[x]) in l.sent
    {
      FetchProfilesHas(sIds, users, x);
    }
    l
  }

  /** What the page shows for a tab: the list on display and the two tab counts. */
  datatype Screen = Screen(shown: seq<UserProfile>, receivedCount: nat, sentCount: nat, emptyNote: string)

  function Render(l: Lists, tab: Tab): (s: Screen)
    ensures tab == Received ==> s.shown == l.received
    ensures tab == Sent ==> s.shown == l.sent
    ensures s.receivedCount == |l.received| && s.sentCount == |l.sent|
    ensures |s.shown| == (if tab == Received then s.receivedCount else s.sentCount)
    ensures s.emptyNote != "" <==> |s.shown| == 0
  {
    var shown := if tab == Received then l.received else l.sent;
    var note := if |shown| > 0 then ""
                else if tab == Received then "まだいいねをもらっていません"
                else "まだいいねを送っていません";
    Screen(shown, |l.received|, |l.sent|, note)
  }

  /**
   * What the page shows after loading: each tab count is the number of likes
   * in that direction whose other user has a document (a user who liked
   * twice counts twice), and a tab shows its empty note exactly when no like
   * in its direction comes from or goes to a user with a document.
   */
  lemma RenderAfterLoad(likes: seq<Like>, users: map<UserId, ProfileDoc>, uid: UserId, tab: Tab)
    ensures var s := Render(Load(likes, users, uid), tab);
            && s.receivedCount == |Seqs.KeptIndices(ReceivedIds(likes, uid), HasProfile(users), 0)|
            && s.sentCount == |Seqs.KeptIndices(SentIds(likes, uid), HasProfile(users), 0)|
            && (tab == Received ==> (s.emptyNote != "" <==> forall x :: HasLike(likes, x, uid) ==> x !in users))
            && (tab == Sent ==> (s.emptyNote != "" <==> forall x :: HasLike(likes, uid, x) ==> x !in users))
  {
    var l := Load(likes, users, uid);
    if |l.received| > 0 {
      assert HasLike(likes, l.received[0].uid, uid) && l.received[0].uid in users;
    }
    if |l.sent| > 0 {
      assert HasLike(likes, uid, l.sent[0].uid) && l.sent[0].uid in users;
    }
  }
}
