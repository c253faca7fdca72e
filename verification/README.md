# Matching app core in Dafny

A model of the data logic of a small Next.js + Firestore matching app. Users
keep a profile document in `users`. They send one-directional *likes*, which
are documents in `likes`. When two users have liked each other, the client
that sends the second like writes a *match* document into `matches`, and the
pair can then exchange messages in the match's `messages` subcollection.

The model covers:

- the like → match transition. Three handlers share it: the discovery
  page, the `UserCardList` component, and the `ProfileDetail` component.
- the fourth like handler, on the profile route `src/app/profile/[id]/page.tsx`.
  Every profile link leads to that route. Its handler writes the like and
  skips the match step, so it can leave a mutual pair unmatched (see
  "## Findings"). The route's load and button are the same as
  `ProfileDetail`'s.
- the reciprocity invariant that this transition keeps between `likes` and
  `matches`.
- the read-side derivations:
  - the likes page (received / sent)
  - the matches page and `MatchList`
  - the conversation list with its unread counts and its sort
- validation of the profile edit form, and the record it saves.
- the gender label lookup.

Modules:

| file | module | what it holds |
|---|---|---|
| `wrappers.dfy` | `Wrappers` | `Option` |
| `jsstring.dfy` | `JsString` | JavaScript string order (UTF-16 code units) and `String.prototype.trim` |
| `seqs.dfy` | `Seqs` | order-preserving filter, map and "drop nulls", specified by the positions they keep |
| `store.dfy` | `Store` | the Firestore documents, the user fetch, and the canonical pair order of a match |
| `likematch.dfy` | `LikeMatch` | the shared like → match transition, its failure points, and the reciprocity invariant |
| `discover.dfy` | `Discover` | the discovery page and `UserCardList` |
| `profiledetail.dfy` | `ProfileDetail` | the profile detail component |
| `profilepage.dfy` | `ProfilePage` | the profile route's own like handler |
| `likespage.dfy` | `LikesPage` | the likes page |
| `matches.dfy` | `Matches` | the matches page and `MatchList` |
| `talks.dfy` | `Talks` | the conversation list |
| `profileedit.dfy` | `ProfileEdit` | the profile edit submit |
| `gender.dfy` | `Gender` | gender labels |

Design choices:

- **Calls into Firestore.** Each Firestore call the handlers make is one step of a pure
  function over the collections, which are sequences in snapshot order.
- **Failures.** A rejected call is a `Fault` parameter naming the call that throws. Writes
  made before the throw persist, exactly as with the real `try`/`catch`.
- **Parameters.** `serverTimestamp()` becomes the integer `now`, and the id
  Firestore assigns to a new document is a parameter.
- **Pair order.** JavaScript's `<` on strings orders the pair in a match. It compares
  UTF-16 code units, not code points, so the model encodes strings as UTF-16
  and compares the encodings.

## Model

| member | source | states |
|---|---|---|
| JsString.CodeUnits | src/app/page.tsx:98-100 | A character is one UTF-16 code unit below U+10000, otherwise a high surrogate followed by a low surrogate. |
| JsString.Utf16Injective | src/app/page.tsx:98-100 | Distinct strings have distinct UTF-16 encodings, so comparing encodings decides string equality. |
| JsString.LessStrictTotalOrder | src/app/page.tsx:98-100 | The `<` used to order a match's two ids is irreflexive, asymmetric, transitive and total on distinct strings, so exactly one order of two distinct ids is canonical. |
| JsString.SupplementaryCharsSortBelowHighBmp | src/app/page.tsx:98-100 | The string order is by code unit, not code point: U+1F600 sorts below U+FF61. |
| JsString.Trim | src/app/profile/edit/page.tsx:47 | `trim()` yields the infix left after removing leading and trailing ECMAScript white space and line terminators. Its ends are not white space, and it is empty exactly when the input is all white space. |
| JsString.TrimIdempotent | src/app/profile/edit/page.tsx:66-67 | Trimming an already trimmed nickname or bio changes nothing. |
| Store.FetchUser | src/app/likes/page.tsx:39-52 | `fetchUser` returns null exactly when the user document does not exist. Otherwise it returns a profile with that uid, whose nickname, bio, age, gender, `createdAt` and `updatedAt` are the document's. |
| Store.Canon | src/app/page.tsx:97-100 | The `[uid1, uid2]` destructuring orders the pair so that `uid1 <= uid2` in string order, and keeps both ids. |
| Store.CanonSymmetric | src/features/discover/components/UserCardList.tsx:99-102 | Both users of a pair compute the same `(uid1, uid2)`, whichever of them likes. |
| Store.PartnerIsOtherMember | src/app/matches/page.tsx:39-42 | For a member of a match, `user1Id === uid ? user2Id : user1Id` is the other member: the viewer and the partner together are the match's two ids. |
| Store.FetchProfilesHas | src/app/likes/page.tsx:57-63 | Every id in the list that has a user document contributes its profile to the fetched list. |
| Store.FetchProfiles | src/app/likes/page.tsx:57-63 | Profiles are fetched per id and nulls dropped. The survivors are the ids with a user document, in id order and one per occurrence, so there are never more profiles than ids. |
| LikeMatch.HasLikeAppend | src/app/page.tsx:81-85 | Writing a like adds exactly that one directed like to the like relation. |
| LikeMatch.HasMatchAppend | src/app/page.tsx:111-116 | Writing a match adds exactly that pair to the match relation and keeps every existing pair. |
| LikeMatch.SubmitLike | src/app/page.tsx:80-122 | If the like write throws, nothing changes. Otherwise the like is stored. A match is written exactly when no call fails, the reverse like exists, and no match for the canonical pair exists. A self-like counts as its own reverse. The new match holds the canonical pair as `user1Id`, `user2Id` and `userIds`. |
| LikeMatch.ReciprocityLaw | src/app/page.tsx:89-118 | In a store satisfying the invariant, a pair has a match exactly when both directed likes exist. |
| LikeMatch.NoMirroredMatches | src/app/page.tsx:97-108 | Under the invariant, two matches never hold the same pair of users, in either order. |
| LikeMatch.EmptyValid | src/app/page.tsx:89-118 | An empty store satisfies the reciprocity invariant. |
| LikeMatch.SubmitLikePreservesValid | src/app/page.tsx:77-123 | A like whose Firestore calls all succeed keeps the invariant: every match is well formed and backed by both likes, no pair is matched twice, and every mutual pair is matched. This holds for any liker and likee. |
| LikeMatch.Run | src/app/page.tsx:77-123 | Running a sequence of successful like actions keeps the existing likes and appends exactly the actions' likes, one per action, in action order. |
| LikeMatch.RunPreservesValid | src/app/page.tsx:77-123 | Any sequential history of successful likes keeps the reciprocity invariant. |
| LikeMatch.HistoryReciprocity | src/app/page.tsx:89-118 | After any sequential history of successful likes from an empty store, a pair is matched exactly when both users liked each other. |
| LikeMatch.FaultAfterLikeBreaksReciprocity | src/app/page.tsx:120-122 | A throw after the like write leaves a mutual pair without a match. The catch only logs, so the invariant can be broken by a failed request. |
| Discover.DiscoveryList | src/app/page.tsx:50-65 | The user list is every user document except the viewer's own, in snapshot order. Nothing else is dropped. |
| Discover.LikedIds | src/app/page.tsx:44-48 | `likedUserIds` holds exactly the users the viewer has liked. |
| Discover.Load | src/features/discover/components/UserCardList.tsx:49-70 | After loading, the list excludes only the viewer, the liked set matches the viewer's likes, and no match modal is open. |
| Discover.HandleLike | src/features/discover/components/UserCardList.tsx:80-124 | Without a user, or for an id already in `likedUserIds`, nothing happens, and a failed like write changes nothing. Otherwise one like is appended and the id is added to the liked set. At most one match is appended, all existing matches kept. The modal's `matchedUserId` becomes the liked id exactly when a match was written. The user list is untouched. |
| Discover.HandleLikeKeepsLikedSetInSync | src/app/page.tsx:78-86 | If `likedUserIds` agrees with the stored likes before a like, it still agrees after, whichever call fails. |
| Discover.StaleSetDuplicatesLike | src/app/page.tsx:78-85 | The guard consults only the client-side set. When that set is stale, a second like document for the same pair is written, since Firestore does not deduplicate. |
| Discover.HandleLikePreservesValid | src/app/page.tsx:77-123 | A successful like from the discovery page keeps the reciprocity invariant. |
| Discover.MatchedUser | src/app/page.tsx:143-145 | The modal's user is the listed user whose uid is `matchedUserId`. There is none when no id is set or no listed user has it. |
| Discover.FindUser | src/features/discover/components/UserCardList.tsx:140-142 | `users.find` by uid returns the first listed user with that uid, or nothing when no listed user has it. |
| ProfileDetail.LoadIsLiked | src/features/profile/components/ProfileDetail.tsx:57-65 | `isLiked` is true exactly when the page is another user's and the viewer has liked that user. |
| ProfileDetail.LoadIsLikedAgreesWithOtherPages | src/features/profile/components/ProfileDetail.tsx:57-65 | The detail page's `isLiked` agrees with the discovery page's `likedUserIds` and with the likes page's sent ids on whether the viewer already likes another user. |
| ProfileDetail.Load | src/features/profile/components/ProfileDetail.tsx:40-71 | After loading, the profile is present exactly when the user document exists and its read did not throw, and it is that document's profile. `isLiked` is as above when no read threw, and false otherwise. Neither `liking` nor `matched` is set. |
| ProfileDetail.LoadedPage | src/features/profile/components/ProfileDetail.tsx:40-182 | After loading, the page shows "not found" exactly when the user has no document or its read threw. Another user's like button is disabled exactly when the like query succeeded and found the viewer's like. |
| ProfileDetail.FailedLikeQueryDuplicatesLike | src/features/profile/components/ProfileDetail.tsx:57-67 | If the like query throws after the profile read succeeded, an already-liked user's page shows an enabled like button. Pressing it stores a second like for the same pair. |
| ProfileDetail.PageAction | src/features/profile/components/ProfileDetail.tsx:127-182 | Without a profile the page shows only the not-found note, with neither link nor button. Otherwise one's own profile shows the edit link and no like button, and another user's profile shows the like button. The button is disabled exactly when already liked or a like is in flight. It reads "いいね済み" exactly when already liked. |
| ProfileDetail.HandleLike | src/features/profile/components/ProfileDetail.tsx:75-119 | Without a user, when already liked, or while liking, nothing happens. Otherwise `liking` is clear afterwards whatever throws. A failed like write changes nothing. At most one match is appended. `matched` is set exactly when one was. The match condition and record are those of the shared transition. |
| ProfileDetail.EnabledButtonStoresLike | src/features/profile/components/ProfileDetail.tsx:76-84 | Pressing the enabled button stores the viewer's like and marks the page liked, unless the like write throws. |
| ProfileDetail.HandleLikeKeepsIsLikedInSync | src/features/profile/components/ProfileDetail.tsx:76-84 | If `isLiked` agrees with the stored likes before a like, it still agrees after. |
| ProfileDetail.HandleLikePreservesValid | src/features/profile/components/ProfileDetail.tsx:75-119 | A successful like from the profile page keeps the reciprocity invariant. |
| LikesPage.ReceivedIds | src/app/likes/page.tsx:32-54 | `receivedIds` is the sender of each like addressed to the viewer, in snapshot order, one entry per like. |
| LikesPage.ReceivedIdsMembers | src/app/likes/page.tsx:32-54 | An id is among the received ids exactly when that user liked the viewer. |
| LikesPage.SentIds | src/app/likes/page.tsx:35-55 | `sentIds` is the recipient of each like the viewer sent, in snapshot order, one entry per like. |
| LikesPage.SentIdsMembers | src/app/likes/page.tsx:35-55 | An id is among the sent ids exactly when the viewer liked that user. |
| LikesPage.Load | src/app/likes/page.tsx:28-63 | Each list is no longer than its id list and shows only users linked to the viewer by a like in the right direction. Every such user with a document is shown. |
| LikesPage.Render | src/app/likes/page.tsx:83-118 | The tab shows its own list. The tab captions count the two lists. The empty-list note appears exactly when the shown list is empty. |
| LikesPage.RenderAfterLoad | src/app/likes/page.tsx:54-118 | After loading, each tab count is the number of likes in that direction whose other user has a document, so a user who liked twice counts twice. A tab shows its empty note exactly when no like in its direction involves a user with a document. |
| Matches.MyMatches | src/app/matches/page.tsx:33-37 | The `array-contains` query returns exactly the matches whose `userIds` contain the viewer, in snapshot order. |
| Matches.PartnerIds | src/app/matches/page.tsx:39-42 | One partner id per match, in order; for a member of the match, the viewer and the partner are the match's two ids. |
| Matches.MatchedProfiles | src/app/matches/page.tsx:44-61 | The matches page lists at most one profile per match, each a user with a document that is a partner of one of the viewer's matches. |
| Matches.MatchedProfileIsPartner | src/app/matches/page.tsx:39-61 | Each listed profile is the partner in one of the viewer's matches. |
| Matches.PartnerIsListed | src/app/matches/page.tsx:39-61 | The partner in each of the viewer's matches is listed when it has a user document. |
| Matches.MatchedProfilesMembers | src/app/matches/page.tsx:39-61 | Every listed profile is the partner in one of the viewer's matches. Every such partner with a document is listed. |
| Matches.EntryOf | src/features/matches/components/MatchList.tsx:51-63 | A match yields an entry exactly when its partner has a user document. The entry is the partner's profile with that match's id. |
| Matches.MatchedUsers | src/features/matches/components/MatchList.tsx:43-69 | `MatchList` has at most one entry per match of the viewer. |
| Matches.MatchedUsersSpec | src/features/matches/components/MatchList.tsx:37-69 | The k-th entry comes from the k-th of the viewer's matches whose partner has a document. It carries that match's id and that partner's profile, so order is kept and exactly the profile-less partners are dropped. |
| Matches.ChatHrefTargetsOwnMatch | src/features/matches/components/MatchList.tsx:120-121 | An entry's chat link names that entry's match, and two links are equal only for the same match. |
| Talks.Latest | src/app/messages/page.tsx:63-69 | The newest-message query finds nothing exactly when the conversation is empty. Otherwise it finds one of its messages, no older than any other. |
| Talks.UnreadCount | src/app/messages/page.tsx:72-84 | The unread count is the number of unread messages sent by the partner. It is zero exactly when there are none. |
| Talks.UnreadCountIsViewerUnread | src/app/messages/page.tsx:72-77 | When every message comes from one of the two members, the partner's unread messages are exactly the messages unread by the viewer. |
| Talks.BuildTalk | src/app/messages/page.tsx:49-85 | A talk names its match. It shows the partner document's nickname, or "不明なユーザー" when the partner has no document. It has a time exactly when the conversation has a message, and then the time and text are those of a newest message. Without messages the text is empty. The count is the partner's unread messages. |
| Talks.CompareIsConsistent | src/app/messages/page.tsx:89-94 | The comparator is reflexive-zero, antisymmetric in sign and transitive, so it is a consistent comparator for `Array.prototype.sort`. |
| Talks.Insert | src/app/messages/page.tsx:89-94 | Inserting into a comparator-sorted list keeps it sorted and adds exactly that element. |
| Talks.InsertKeepsTies | src/app/messages/page.tsx:89-94 | Inserting a talk into a sorted list puts it ahead of every talk it ties with and leaves the order of each tie class otherwise unchanged. |
| Talks.SortTalks | src/app/messages/page.tsx:89-94 | The sort yields a comparator-sorted permutation of its input. |
| Talks.SortTalksStable | src/app/messages/page.tsx:89-94 | The sort is stable, as `Array.prototype.sort` is required to be: talks the comparator ties keep their input order. Ties are all talks without a message, and talks whose last messages are equally new. |
| Talks.SortedTalkOrder | src/app/messages/page.tsx:89-94 | In a sorted list, talks with a message come before those without, and among them newer before older. |
| Talks.TalkList | src/app/messages/page.tsx:42-96 | The list is a permutation of one talk per match of the viewer, ordered by the comparator. |
| Talks.TalkListStable | src/app/messages/page.tsx:44-94 | Talks the comparator ties appear in the order the matches query returned their matches. |
| Talks.TalkListFromOwnMatches | src/app/messages/page.tsx:42-54 | Every listed talk belongs to a match that includes the viewer. |
| Talks.Badge | src/app/messages/page.tsx:147-150 | The unread badge is shown exactly when the count is positive, and it shows that count. |
| Talks.BadgeOfConversation | src/app/messages/page.tsx:72-84 | A conversation's badge appears exactly when the partner has a message that is still unread, and it shows the number of such messages. When only the two members write, that number is the messages the viewer has not read. |
| Talks.Preview | src/app/messages/page.tsx:144 | The preview line is never empty. It is the last message when that is non-empty, otherwise "メッセージはまだありません". |
| Talks.PreviewOfConversation | src/app/messages/page.tsx:63-82 | A conversation's preview is the text of its newest message, or the placeholder when the conversation is empty or that text is empty. |
| ProfileEdit.Validate | src/app/profile/edit/page.tsx:47-58 | The checks run in order. A nickname blank after trim fails first with the nickname message. Then an empty, non-numeric, below-18 or above-120 age fails with the age message. Only then does an empty gender fail with the gender message. The form is accepted exactly when all checks pass, with the numeric age. |
| ProfileEdit.AgeBoundsInclusive | src/app/profile/edit/page.tsx:51-54 | Ages 18 and 120 are accepted; 17 and 121 are rejected. |
| ProfileEdit.SetDocMerge | src/app/profile/edit/page.tsx:65-72 | A merge write changes only the written document, and every other user document is kept. |
| ProfileEdit.SubmitAsWritten | src/app/profile/edit/page.tsx:60-74 | As written, an accepted submit replaces the user's document with exactly the written fields. |
| ProfileEdit.SubmitAsWrittenAgrees | src/app/profile/edit/page.tsx:42-78 | The handler as written shows the same message and navigates exactly as the corrected one on every input. It navigates exactly when a user is signed in, the form is accepted and nothing fails. When it does not navigate, no document changes. |
| ProfileEdit.SubmitAsWrittenLosesCreatedAt | src/app/profile/edit/page.tsx:65-72 | As written, editing an existing profile leaves it without `createdAt`. |
| ProfileEdit.SubmitAsWrittenLosesCreatedAtExample | src/app/profile/edit/page.tsx:65-72 | Concretely: a profile created at time 1 and edited at time 5 loses its `createdAt` and its `avatarUrl`. |
| ProfileEdit.Submit | src/app/profile/edit/page.tsx:42-80 | Without a user nothing happens, and the message is not cleared. A rejected form shows the failing check's message and writes nothing. A failed read or write shows the save error and writes nothing. Otherwise the message is cleared, `saving` ends false, and the page navigates. The user's document then holds the trimmed nickname and bio, the numeric age, the gender as given, and `updatedAt = now`. `createdAt` is kept for an existing profile and set to `now` for a new one. Other documents are untouched. |
| ProfileEdit.SubmitAgreesOnNewProfile | src/app/profile/edit/page.tsx:71 | For a profile that did not exist, the corrected submit and the one as written do the same. |
| Gender.LabelAsWritten | src/features/common/lib/gender.ts:7-9 | `genderLabels[gender] \|\| gender` yields a string unless the gender names a member inherited from `Object.prototype`. |
| Gender.LabelAsWrittenLeaksPrototype | src/features/common/lib/gender.ts:1-9 | The gender `"toString"` yields the inherited function, not a string. The inline tables do the same for `"constructor"`. |
| Gender.GetGenderLabel | src/features/common/lib/gender.ts:1-9 | "male", "female" and "other" map to "男性", "女性" and "その他". Every other value is shown unchanged. The label is empty exactly when the value is. |
| Gender.AsWrittenAgreesOffPrototype | src/features/common/lib/gender.ts:7-9 | On every gender that is not an inherited member name, the lookup as written gives exactly `GetGenderLabel`. |

Members that model the profile route `src/app/profile/[id]/page.tsx`:

- `ProfilePage.HandleLike` (lines 75-90): Without a user, when already liked, or while liking, nothing happens. Otherwise `liking` is clear afterwards. A failed like write changes nothing; a successful one appends exactly the viewer's like and sets `isLiked`. The matches are never touched and `matched` is never raised.
- `ProfilePage.HandleLikeStopsAfterLikeWrite` (lines 75-90): Past the guard, the route's handler leaves the store exactly as the shared transition does when it stops after the like write.
- `ProfilePage.AnsweringLikeLeavesPairUnmatched` (lines 75-90): In a valid store, answering another user's like from the route makes the pair mutual and unmatched, so the store is no longer valid. Afterwards both users' pages load the pair as already liked.
- `ProfilePage.AnsweringLikeLeavesPairUnmatchedExample` (lines 75-90): "A" likes "B", and then "B" likes "A" from A's profile route. The store ends with both likes and no match.

## Left out

- Firestore I/O, authentication, routing, loading flags and page layout are not modelled. A snapshot is a sequence in query order. The rendering decisions the pages make from their data are modelled: the detail page's button, the likes page's tabs, and the talk list's preview and badge. A failed call in a handler is a `Fault` parameter or a `fails` flag. The detail page's load takes a `LoadFault`.
- Load failures of the discovery, likes, matches and conversation-list pages are not modelled. Each of those loads sets its state only after every read succeeded, so a throw leaves the page in its initial empty state, with no list and no like button.
- Concurrency: two clients liking each other at the same moment can both see the other's like and both write a match. Nothing in the app prevents this. The invariant is proved only for sequential histories (`LikeMatch.RunPreservesValid`).
- LikeMatch.RunPreservesValid: the invariant is proved only for histories whose likes come from the three handlers that share the match step. `src/app/profile/[id]/page.tsx` writes a like without the match step and breaks it (`ProfilePage.AnsweringLikeLeavesPairUnmatched`).
- `Number(age)` parsing (hex, exponents, white space, fractions) is a function parameter from the typed text to `NaN`, a finite real, or an infinity. The age is a real, so fractional ages are accepted as in the source.
- Talks.Latest: `orderBy("createdAt", "desc"), limit(1)` picks one of several equally new messages by document order, which is not modelled. The model takes the first in collection order.
- Talks.BuildTalk: a missing nickname field on an existing partner document shows as `""`, not `undefined`.
- Timestamps are integers. `toDate()` and `getTime()` are identities, and a server timestamp is the parameter `now`. One `now` stamps both the like and the match written in the same handler, although Firestore gives the two `serverTimestamp()` calls slightly different times. No modelled property depends on either time.
- `src/app/messages/[matchId]/page.tsx`, the conversation screen, is not part of this model: message sending, realtime updates and marking read are left out. Only its filter of the viewer's unread messages appears, as `Talks.UnreadFor`.
- `src/components/Header.tsx`, `MatchModal.tsx` and `UserAvatar.tsx` have no data logic and are not modelled.
- The profile edit page's initial load (`data.nickname || ""` and so on) only pre-fills the form. It is not modelled.
- JsString.CodeUnits: a Dafny string cannot hold a lone surrogate, which a JavaScript string can, so such ids and texts are not modelled.
- Other `Object.prototype` members beyond the standard set of ECMA-262 and Annex B are not listed in `Gender.ObjectPrototypeMembers`.

## Findings

| source | as written | input that shows it | evidently intended | confidence | as-written member | corrected member |
|---|---|---|---|---|---|---|
| src/app/profile/edit/page.tsx:65-72 | `setDoc(docRef, {...})` without `{ merge: true }` replaces the whole user document, even though the code writes `createdAt` only when the document did not exist | an existing profile with `createdAt = 1` and `avatarUrl = "a.png"`, edited at time 5: afterwards both fields are absent | keep the existing `createdAt` (and any other unwritten field) and update the rest | medium, not executed | ProfileEdit.SubmitAsWrittenLosesCreatedAtExample | ProfileEdit.Submit |
| src/app/profile/[id]/page.tsx:75-90 | the route's `handleLike` writes the like and never queries for the reverse like or writes a match | "A" likes "B"; "B" then likes "A" from A's profile route: both likes exist, no match is written, and both buttons read "いいね済み" from then on | run the shared like → match step after the like write, as `ProfileDetail.tsx` does | high, not executed | ProfilePage.AnsweringLikeLeavesPairUnmatchedExample | ProfileDetail.HandleLike |
| src/features/common/lib/gender.ts:7-9 | `genderLabels[gender] \|\| gender` reads inherited `Object.prototype` members | a stored gender `"toString"` renders the inherited function instead of a label or the raw value | an own-property lookup: the label for the three known values, the value itself otherwise | low, not executed | Gender.LabelAsWrittenLeaksPrototype | Gender.GetGenderLabel |
