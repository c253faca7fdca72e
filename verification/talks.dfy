/**
 * The conversation list (`src/app/messages/page.tsx`): one talk per match of
 * the viewer, with the partner's nickname, the newest message, the number of
 * unread messages from the partner, sorted newest first with conversations
 * that have no message last.
 *
 * Firestore timestamps are abstract integers; a message's `createdAt` is
 * always present once the server has written it.
 */
module Talks {
  import opened Wrappers
  import opened Store
  import Seqs
  import Matches

  /** A row of the list. `lastMessageAt` is `None` for JavaScript `null`. */
  datatype Talk = Talk(matchId: string, partnerNickname: string, lastMessage: string,
                       lastMessageAt: Option<int>, unreadCount: nat)

  /** The nickname shown when the partner has no user document. */
  const UnknownUser := "不明なユーザー"

  /**
   * `orderBy("createdAt", "desc"), limit(1)`: a newest message, or none for an
   * empty conversation. Among equally new messages the model takes the first
   * in collection order.
   */
  function Latest(msgs: seq<Message>): (r: Option<Message>)
    ensures r.None? <==> |msgs| == 0
    ensures r.Some? ==> r.value in msgs
    ensures r.Some? ==> forall i :: 0 <= i < |msgs| ==> msgs[i].createdAt <= r.value.createdAt
  {
    if |msgs| == 0 then None
    else
      var rest := Latest(msgs[1..]);
      if rest.Some? && rest.value.createdAt > msgs[0].createdAt then rest else Some(msgs[0])
  }

  /** The unread query: messages the partner sent that are still unread. */
  function UnreadFrom(partner: UserId): Message -> bool
  {
    (m: Message) => m.senderId == partner && !m.isRead
  }

  /** `unreadSnapshot.size`. */
  function UnreadCount(msgs: seq<Message>, partner: UserId): (n: nat)
    ensures n <= |msgs|
    ensures n == |Seqs.KeptIndices(msgs, UnreadFrom(partner), 0)|
    ensures n == 0 <==> forall i :: 0 <= i < |msgs| ==> msgs[i].senderId != partner || msgs[i].isRead
  {
    var unread := Seqs.Filter(msgs, UnreadFrom(partner));
    forall i | 0 <= i < |msgs| && msgs[i].senderId == partner && !msgs[i].isRead
      ensures |unread| > 0
    {
      assert UnreadFrom(partner)(msgs[i]);
      assert msgs[i] in unread;
    }
    assert |unread| > 0 ==> unread[0] in msgs && UnreadFrom(partner)(unread[0]) by {
      if |unread| > 0 {
        assert unread[0] in unread;
      }
    }
    |unread|
  }

  /**
   * The messages the conversation screen marks read for the viewer
   * (`src/app/messages/[matchId]/page.tsx`): not sent by the viewer and unread.
   */
  function UnreadFor(viewer: UserId): Message -> bool
  {
    (m: Message) => m.senderId != viewer && !m.isRead
  }

  /**
   * When every message was sent by one of the two members, counting the
   * partner's unread messages is counting the messages unread by the viewer.
   */
  lemma UnreadCountIsViewerUnread(msgs: seq<Message>, viewer: UserId, partner: UserId)
    requires viewer != partner
    requires forall i :: 0 <= i < |msgs| ==> msgs[i].senderId == viewer || msgs[i].senderId == partner
    ensures UnreadCount(msgs, partner) == |Seqs.KeptIndices(msgs, UnreadFor(viewer), 0)|
  {
    Seqs.KeptIndicesAgree(msgs, UnreadFrom(partner), msgs, UnreadFor(viewer), 0);
  }

  /** The messages of a match's subcollection (empty when it has none). */
  function MessagesOf(messages: map<string, seq<Message>>, matchId: string): seq<Message>
  {
    if matchId in messages then messages[matchId] else []
  }

  /** The talk for one match of the viewer `uid`. */
  function BuildTalk(m: Match, uid: UserId, users: map<UserId, ProfileDoc>, msgs: seq<Message>): (t: Talk)
    ensures t.matchId == m.id
    ensures Partner(m, uid) in users ==> t.partnerNickname == users[Partner(m, uid)].nickname.GetOr("")
    ensures Partner(m, uid) !in users ==> t.partnerNickname == UnknownUser
    ensures t.lastMessageAt.None? <==> |msgs| == 0
    ensures |msgs| == 0 ==> t.lastMessage == ""
    ensures t.lastMessageAt.Some? ==>
              (exists i :: 0 <= i < |msgs| && msgs[i].createdAt == t.lastMessageAt.value
                           && msgs[i].content == t.lastMessage)
              && forall i :: 0 <= i < |msgs| ==> msgs[i].createdAt <= t.lastMessageAt.value
    ensures t.unreadCount <= |msgs|
    ensures t.unreadCount == |Seqs.KeptIndices(msgs, UnreadFrom(Partner(m, uid)), 0)|
  {
    var partner := Partner(m, uid);
    var nickname := if partner in users then users[partner].nickname.GetOr("") else UnknownUser;
    var last := Latest(msgs);
    // `lastMsg?.content || ""` and `lastMsg?.createdAt?.toDate() || null`
    var lastMessage := if last.Some? then last.value.content else "";
    var lastMessageAt := if last.Some? then Some(last.value.createdAt) else None;
    Talk(m.id, nickname, lastMessage, lastMessageAt, UnreadCount(msgs, partner))
  }

  /** The comparator passed to `talkList.sort`: negative when `a` goes first. */
  function Compare(a: Talk, b: Talk): int
  {
    if a.lastMessageAt.None? && b.lastMessageAt.None? then 0
    else if a.lastMessageAt.None? then 1
    else if b.lastMessageAt.None? then -1
    else b.lastMessageAt.value - a.lastMessageAt.value
  }

  /** The comparator is consistent: a total preorder, as `Array.prototype.sort` requires. */
  lemma CompareIsConsistent(a: Talk, b: Talk, c: Talk)
    ensures Compare(a, a) == 0
    ensures (Compare(a, b) < 0 <==> Compare(b, a) > 0) && (Compare(a, b) == 0 <==> Compare(b, a) == 0)
    ensures Compare(a, b) <= 0 && Compare(b, c) <= 0 ==> Compare(a, c) <= 0
  {
  }

  /** No talk is placed after one the comparator puts strictly later. */
  ghost predicate Sorted(s: seq<Talk>)
  {
    forall i, j :: 0 <= i < j < |s| ==> Compare(s[i], s[j]) <= 0
  }

  /** Prepending an element that sorts no later than every element keeps a sorted list sorted. */
  lemma SortedCons(x: Talk, s: seq<Talk>)
    requires Sorted(s)
    requires forall k :: 0 <= k < |s| ==> Compare(x, s[k]) <= 0
    ensures Sorted([x] + s)
  {
    var r := [x] + s;
    forall i, j | 0 <= i < j < |r|
      ensures Compare(r[i], r[j]) <= 0
    {
      if i > 0 {
        assert r[i] == s[i - 1] && r[j] == s[j - 1];
      } else {
        assert r[j] == s[j - 1];
      }
    }
  }

  /** A suffix of a sorted list is sorted. */
  lemma SortedTail(s: seq<Talk>)
    requires Sorted(s) && |s| > 0
    ensures Sorted(s[1..])
  {
    var tail := s[1..];
    forall i, j | 0 <= i < j < |tail|
      ensures Compare(tail[i], tail[j]) <= 0
    {
      assert tail[i] == s[i + 1] && tail[j] == s[j + 1];
    }
  }

  /**
   * The head of a sorted list sorts no later than anything in a rearrangement
   * of its tail extended by an element the head sorts strictly before.
   */
  lemma HeadPrecedesInsertion(s: seq<Talk>, t: Talk, rest: seq<Talk>)
    requires Sorted(s) && |s| > 0 && Compare(s[0], t) < 0
    requires multiset(rest) == multiset(s[1..]) + multiset{t}
    ensures forall k :: 0 <= k < |rest| ==> Compare(s[0], rest[k]) <= 0
  {
    forall k | 0 <= k < |rest|
      ensures Compare(s[0], rest[k]) <= 0
    {
      assert rest[k] in multiset(rest);
      if rest[k] != t {
        assert rest[k] in multiset(s[1..]);
        var m :| 0 <= m < |s[1..]| && s[1..][m] == rest[k];
        assert s[m + 1] == rest[k];
      }
    }
  }

  /** An element the head does not sort strictly before sorts no later than the whole sorted list. */
  lemma BeforeSortedList(t: Talk, s: seq<Talk>)
    requires Sorted(s) && |s| > 0 && !(Compare(s[0], t) < 0)
    ensures forall k :: 0 <= k < |s| ==> Compare(t, s[k]) <= 0
  {
    forall k | 0 <= k < |s|
      ensures Compare(t, s[k]) <= 0
    {
      CompareIsConsistent(t, s[0], s[k]);
      if k > 0 {
        assert Compare(s[0], s[k]) <= 0;
      }
    }
  }

  /** Inserts `t` before the first element that does not sort strictly before it. */
  function Insert(t: Talk, s: seq<Talk>): (r: seq<Talk>)
    requires Sorted(s)
    ensures Sorted(r)
    ensures multiset(r) == multiset(s) + multiset{t}
  {
    if |s| == 0 then [t]
    else if Compare(s[0], t) < 0 then
      SortedTail(s);
      var rest := Insert(t, s[1..]);
      assert s == [s[0]] + s[1..];
      HeadPrecedesInsertion(s, t, rest);
      SortedCons(s[0], rest);
      [s[0]] + rest
    else
      BeforeSortedList(t, s);
      SortedCons(t, s);
      [t] + s
  }

  /** Insertion sort with the talk comparator. */
  function SortTalks(s: seq<Talk>): (r: seq<Talk>)
    ensures Sorted(r)
    ensures multiset(r) == multiset(s)
  {
    if |s| == 0 then []
    else
      assert s == [s[0]] + s[1..];
      Insert(s[0], SortTalks(s[1..]))
  }

  /** What sortedness means for the list: dated talks first, newest first among them. */
  lemma SortedTalkOrder(s: seq<Talk>)
    requires Sorted(s)
    ensures forall i, j :: 0 <= i < j < |s| && s[j].lastMessageAt.Some? ==> s[i].lastMessageAt.Some?
    ensures forall i, j :: 0 <= i < j < |s| && s[i].lastMessageAt.Some? && s[j].lastMessageAt.Some? ==>
              s[i].lastMessageAt.value >= s[j].lastMessageAt.value
  {
    forall i, j | 0 <= i < j < |s|
      ensures s[j].lastMessageAt.Some? ==> s[i].lastMessageAt.Some?
      ensures s[i].lastMessageAt.Some? && s[j].lastMessageAt.Some? ==>
                s[i].lastMessageAt.value >= s[j].lastMessageAt.value
    {
      assert Compare(s[i], s[j]) <= 0;
    }
  }

  /** The talks the comparator cannot tell apart from `k`. */
  function TiedWith(k: Talk): Talk -> bool
  {
    (x: Talk) => Compare(x, k) == 0
  }

  /** A talk that sorts strictly before `t` is not tied with anything `t` is tied with. */
  lemma StrictlyBeforeNotTied(h: Talk, t: Talk, k: Talk)
    requires Compare(h, t) < 0 && Compare(t, k) == 0
    ensures Compare(h, k) != 0
  {
  }

  /**
   * Putting `h` in front when it sorts strictly before `t` does not disturb
   * how `t` sits in its class of tied talks.
   */
  lemma InsertStepKeepsTies(h: Talk, t: Talk, rest: seq<Talk>, tail: seq<Talk>, k: Talk)
    requires Compare(h, t) < 0
    requires Seqs.Filter(rest, TiedWith(k)) == (if TiedWith(k)(t) then [t] else []) + Seqs.Filter(tail, TiedWith(k))
    ensures Seqs.Filter([h] + rest, TiedWith(k))
            == (if TiedWith(k)(t) then [t] else []) + Seqs.Filter([h] + tail, TiedWith(k))
  {
    var keep := TiedWith(k);
    Seqs.FilterCons(h, rest, keep);
    Seqs.FilterCons(h, tail, keep);
    var hs: seq<Talk> := if keep(h) then [h] else [];
    var ts: seq<Talk> := if keep(t) then [t] else [];
    assert ts == [] || hs == [] by {
      if keep(t) { StrictlyBeforeNotTied(h, t, k); }
    }
    Seqs.PrefixesCommute(hs, ts, Seqs.Filter(tail, keep), Seqs.Filter(rest, keep),
                         Seqs.Filter([h] + rest, keep), Seqs.Filter([h] + tail, keep));
  }

  /** Inserting `t` places it after nothing it ties with, so each class of tied talks only gains `t` at its front. */
  lemma {:induction false} InsertKeepsTies(t: Talk, s: seq<Talk>, k: Talk)
    requires Sorted(s)
    ensures Seqs.Filter(Insert(t, s), TiedWith(k))
            == (if TiedWith(k)(t) then [t] else []) + Seqs.Filter(s, TiedWith(k))
    decreases |s|
  {
    if |s| == 0 {
      Seqs.FilterCons(t, [], TiedWith(k));
      assert [t] + [] == [t];
    } else if Compare(s[0], t) < 0 {
      var tail := s[1..];
      SortedTail(s);
      InsertKeepsTies(t, tail, k);
      InsertStepKeepsTies(s[0], t, Insert(t, tail), tail, k);
      assert s == [s[0]] + tail;
    } else {
      Seqs.FilterCons(t, s, TiedWith(k));
    }
  }

  /**
   * The sort is stable: talks the comparator ties (all talks without a
   * message, and talks whose last messages are equally new) keep their
   * input order.
   */
  lemma {:induction false} SortTalksStable(s: seq<Talk>, k: Talk)
    ensures Seqs.Filter(SortTalks(s), TiedWith(k)) == Seqs.Filter(s, TiedWith(k))
    decreases |s|
  {
    if |s| > 0 {
      SortTalksStable(s[1..], k);
      InsertKeepsTies(s[0], SortTalks(s[1..]), k);
      Seqs.FilterCons(s[0], s[1..], TiedWith(k));
      assert s == [s[0]] + s[1..];
    }
  }

  function TalkFor(uid: UserId, users: map<UserId, ProfileDoc>, messages: map<string, seq<Message>>): Match -> Talk
  {
    (m: Match) => BuildTalk(m, uid, users, MessagesOf(messages, m.id))
  }

  /** `fetchTalks`: one talk per match of the viewer, sorted by the comparator. */
  function TalkList(matches: seq<Match>, uid: UserId, users: map<UserId, ProfileDoc>,
                    messages: map<string, seq<Message>>): (r: seq<Talk>)
    ensures multiset(r) == multiset(Seqs.Map(Matches.MyMatches(matches, uid), TalkFor(uid, users, messages)))
    ensures |r| == |Matches.MyMatches(matches, uid)|
    ensures forall i, j :: 0 <= i < j < |r| && r[j].lastMessageAt.Some? ==> r[i].lastMessageAt.Some?
    ensures forall i, j :: 0 <= i < j < |r| && r[i].lastMessageAt.Some? && r[j].lastMessageAt.Some? ==>
              r[i].lastMessageAt.value >= r[j].lastMessageAt.value
  {
    var talks := Seqs.Map(Matches.MyMatches(matches, uid), TalkFor(uid, users, messages));
    var r := SortTalks(talks);
    SortedTalkOrder(r);
    assert |r| == |multiset(r)| == |multiset(talks)| == |talks|;
    r
  }

  /** Tied talks appear in the order the matches query returned their matches. */
  lemma TalkListStable(matches: seq<Match>, uid: UserId, users: map<UserId, ProfileDoc>,
                       messages: map<string, seq<Message>>, k: Talk)
    ensures Seqs.Filter(TalkList(matches, uid, users, messages), TiedWith(k))
            == Seqs.Filter(Seqs.Map(Matches.MyMatches(matches, uid), TalkFor(uid, users, messages)), TiedWith(k))
  {
    SortTalksStable(Seqs.Map(Matches.MyMatches(matches, uid), TalkFor(uid, users, messages)), k);
  }

  /** Every listed talk comes from a match the viewer belongs to. */
  lemma TalkListFromOwnMatches(matches: seq<Match>, uid: UserId, users: map<UserId, ProfileDoc>,
                               messages: map<string, seq<Message>>, t: Talk)
    requires t in TalkList(matches, uid, users, messages)
    ensures exists m :: m in matches && uid in m.userIds && t.matchId == m.id
  {
    var mine := Matches.MyMatches(matches, uid);
    var talks := Seqs.Map(mine, TalkFor(uid, users, messages));
    assert t in multiset(talks);
    var i := Seqs.MapMember(mine, TalkFor(uid, users, messages), t);
    assert mine[i] in mine;
  }

  /** The unread badge: shown, with the count, exactly when there is something unread. */
  function Badge(t: Talk): (b: Option<nat>)
    ensures b.Some? <==> t.unreadCount > 0
    ensures b.Some? ==> b.value == t.unreadCount
  {
    if t.unreadCount > 0 then Some(t.unreadCount) else None
  }

  /**
   * A conversation's badge appears exactly when the partner has sent a
   * message that is still unread, and then counts those messages; when only
   * the two members write, that is the number of messages the viewer has
   * not read.
   */
  lemma BadgeOfConversation(m: Match, uid: UserId, users: map<UserId, ProfileDoc>, msgs: seq<Message>)
    ensures var b := Badge(BuildTalk(m, uid, users, msgs));
            && (b.Some? <==> exists i :: 0 <= i < |msgs| && msgs[i].senderId == Partner(m, uid) && !msgs[i].isRead)
            && (b.Some? ==> b.value == |Seqs.KeptIndices(msgs, UnreadFrom(Partner(m, uid)), 0)|)
    ensures var b := Badge(BuildTalk(m, uid, users, msgs));
            uid != Partner(m, uid)
            && (forall i :: 0 <= i < |msgs| ==> msgs[i].senderId == uid || msgs[i].senderId == Partner(m, uid))
            && b.Some?
            ==> b.value == |Seqs.KeptIndices(msgs, UnreadFor(uid), 0)|
  {
    var partner := Partner(m, uid);
    if uid != partner && forall i :: 0 <= i < |msgs| ==> msgs[i].senderId == uid || msgs[i].senderId == partner {
      UnreadCountIsViewerUnread(msgs, uid, partner);
    }
  }

  /** The line shown for a conversation without a last message. */
  const NoMessagesNote := "メッセージはまだありません"

  /** The preview line: the last message, or a placeholder when there is none. */
  function Preview(t: Talk): (p: string)
    ensures p != ""
    ensures t.lastMessage != "" ==> p == t.lastMessage
    ensures t.lastMessage == "" ==> p == NoMessagesNote
  {
    if t.lastMessage != "" then t.lastMessage else NoMessagesNote
  }

  /**
   * A conversation's preview is the text of its newest message, or the
   * placeholder when the conversation is empty or that text is empty.
   */
  lemma PreviewOfConversation(m: Match, uid: UserId, users: map<UserId, ProfileDoc>, msgs: seq<Message>)
    ensures Preview(BuildTalk(m, uid, users, msgs))
            == if |msgs| == 0 || Latest(msgs).value.content == "" then NoMessagesNote else Latest(msgs).value.content
  {
  }
}
