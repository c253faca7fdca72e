/**
 * The profile edit form's submit handler (`src/app/profile/edit/page.tsx`):
 * the validation chain, the error message it shows, and the user document it
 * writes.
 *
 * `Number(age)` is left abstract: the caller supplies the conversion as a
 * function from the typed text to a JavaScript number. `serverTimestamp()`
 * is the abstract time `now`.
 */
module ProfileEdit {
  import opened Wrappers
  import opened Store
  import JsString

  /** A JavaScript number as far as the age checks can tell numbers apart. */
  datatype JsNumber = NaN | Finite(value: real) | PosInfinity | NegInfinity

  /** The form fields, as typed. */
  datatype Form = Form(nickname: string, bio: string, age: string, gender: string)

  const NicknameError := "ニックネームを入力してください"
  const AgeError := "年齢は18歳以上で入力してください"
  const GenderError := "性別を選択してください"
  const SaveError := "プロフィールの保存に失敗しました"

  /** JavaScript's `Number(age) < 18`; false for NaN. */
  predicate BelowMinimum(n: JsNumber)
  {
    match n
    case Finite(x) => x < 18.0
    case NegInfinity => true
    case _ => false
  }

  /** JavaScript's `Number(age) > 120`; false for NaN. */
  predicate AboveMaximum(n: JsNumber)
  {
    match n
    case Finite(x) => x > 120.0
    case PosInfinity => true
    case _ => false
  }

  /** The outcome of the checks: the age to save, or the message to show. */
  datatype Checked = Accepted(age: real) | Rejected(message: string)

  /** The validation chain: nickname, then age, then gender; the first failure wins. */
  function Validate(f: Form, toNumber: string -> JsNumber): (c: Checked)
    ensures c == Rejected(NicknameError) <==> JsString.Trim(f.nickname) == ""
    ensures c == Rejected(AgeError) <==>
              JsString.Trim(f.nickname) != ""
              && (f.age == "" || !(toNumber(f.age).Finite? && 18.0 <= toNumber(f.age).value <= 120.0))
    ensures c == Rejected(GenderError) <==>
              JsString.Trim(f.nickname) != "" && c != Rejected(AgeError) && f.gender == ""
    ensures c.Accepted? <==>
              JsString.Trim(f.nickname) != "" && f.age != "" && f.gender != ""
              && toNumber(f.age).Finite? && 18.0 <= toNumber(f.age).value <= 120.0
    ensures c.Accepted? ==> toNumber(f.age) == Finite(c.age)
  {
    var n := toNumber(f.age);
    if JsString.Trim(f.nickname) == "" then Rejected(NicknameError)
    else if f.age == "" || n.NaN? || BelowMinimum(n) || AboveMaximum(n) then Rejected(AgeError)
    else if f.gender == "" then Rejected(GenderError)
    else Accepted(n.value)
  }

  /** The page's message and its `saving` flag. */
  datatype Status = Status(error: string, saving: bool)

  /** The fields the submit handler writes. */
  function Written(f: Form, age: real, existed: bool, now: int): ProfileDoc
  {
    ProfileDoc(Some(JsString.Trim(f.nickname)), Some(JsString.Trim(f.bio)), Some(age), Some(f.gender),
               None, if existed then None else Some(now), Some(now))
  }

  /** Firestore `setDoc(ref, data)` without options: the document becomes exactly `data`. */
  function SetDocReplace(users: map<UserId, ProfileDoc>, uid: UserId, data: ProfileDoc): map<UserId, ProfileDoc>
  {
    users[uid := data]
  }

  /** Firestore `setDoc(ref, data, { merge: true })`: the written fields replace, the others stay. */
  function SetDocMerge(users: map<UserId, ProfileDoc>, uid: UserId, data: ProfileDoc): (r: map<UserId, ProfileDoc>)
    ensures r.Keys == users.Keys + {uid}
    ensures forall k :: k in users && k != uid ==> r[k] == users[k]
  {
    if uid !in users then users[uid := data]
    else
      var prev := users[uid];
      users[uid := ProfileDoc(
        if data.nickname.Some? then data.nickname else prev.nickname,
        if data.bio.Some? then data.bio else prev.bio,
        if data.age.Some? then data.age else prev.age,
        if data.gender.Some? then data.gender else prev.gender,
        if data.avatarUrl.Some? then data.avatarUrl else prev.avatarUrl,
        if data.createdAt.Some? then data.createdAt else prev.createdAt,
        if data.updatedAt.Some? then data.updatedAt else prev.updatedAt)]
  }

  /** What a submit leaves behind: the user documents, the page status, and whether it navigated away. */
  datatype Submitted = Submitted(users: map<UserId, ProfileDoc>, status: Status, navigated: bool)

  /**
   * `handleSubmit` exactly as written: the profile is saved with a plain
   * `setDoc`, which replaces an existing document. `fails` is a rejected
   * `getDoc` or `setDoc`.
   */
  function SubmitAsWritten(users: map<UserId, ProfileDoc>, st: Status, user: Option<UserId>, f: Form,
                           toNumber: string -> JsNumber, fails: bool, now: int): (r: Submitted)
    ensures user.Some? && Validate(f, toNumber).Accepted? && !fails ==>
              r.users == users[user.value := Written(f, Validate(f, toNumber).age, user.value in users, now)]
  {
    if user.None? then Submitted(users, st, false)
    else
      match Validate(f, toNumber)
      case Rejected(msg) => Submitted(users, Status(msg, st.saving), false)
      case Accepted(age) =>
        if fails then Submitted(users, Status(SaveError, false), false)
        else
          var uid := user.value;
          Submitted(SetDocReplace(users, uid, Written(f, age, uid in users, now)), Status("", false), true)
  }

  /**
   * The handler as written and the corrected one differ only in the document
   * they save: the page shows the same message and navigates alike on every
   * input, and the as-written handler writes nothing unless the submit is
   * accepted and its reads and write succeed.
   */
  lemma SubmitAsWrittenAgrees(users: map<UserId, ProfileDoc>, st: Status, user: Option<UserId>, f: Form,
                              toNumber: string -> JsNumber, fails: bool, now: int)
    ensures var w := SubmitAsWritten(users, st, user, f, toNumber, fails, now);
            var c := Submit(users, st, user, f, toNumber, fails, now);
            && w.status == c.status && w.navigated == c.navigated
            && (w.navigated <==> user.Some? && Validate(f, toNumber).Accepted? && !fails)
            && (!w.navigated ==> w.users == users)
  {
  }

  /** Editing an existing profile as written erases its creation time (and its avatar URL). */
  lemma SubmitAsWrittenLosesCreatedAt(users: map<UserId, ProfileDoc>, st: Status, uid: UserId, f: Form,
                                      toNumber: string -> JsNumber, now: int)
    requires uid in users && users[uid].createdAt.Some?
    requires Validate(f, toNumber).Accepted?
    ensures SubmitAsWritten(users, st, Some(uid), f, toNumber, false, now).users[uid].createdAt == None
  {
  }

  /** A concrete instance: a profile created at time 1 and edited at time 5 no longer has a creation time. */
  lemma SubmitAsWrittenLosesCreatedAtExample()
    ensures var before := map["u" := ProfileDoc(Some("A"), Some(""), Some(30.0), Some("male"), Some("a.png"), Some(1), Some(1))];
            var f := Form("B", "", "30", "male");
            var r := SubmitAsWritten(before, Status("", false), Some("u"), f, (s: string) => Finite(30.0), false, 5);
            r.navigated && r.users["u"].createdAt == None && r.users["u"].avatarUrl == None
  {
    var f := Form("B", "", "30", "male");
    assert JsString.Trim("B") == "B" by {
      assert !JsString.IsWhiteSpace('B');
      assert JsString.SkipLeading("B", 0) == 0;
      assert JsString.SkipTrailing("B", 0, 1) == 1;
    }
  }

  /**
   * `handleSubmit` as intended: the same checks and messages, with the
   * document written by merge so an existing creation time survives.
   */
  function Submit(users: map<UserId, ProfileDoc>, st: Status, user: Option<UserId>, f: Form,
                  toNumber: string -> JsNumber, fails: bool, now: int): (r: Submitted)
    // Without a user nothing happens, not even clearing the message.
    ensures user.None? ==> r == Submitted(users, st, false)
    // A rejected form shows the first failing check's message and writes nothing.
    ensures user.Some? && Validate(f, toNumber).Rejected? ==>
              r.users == users && r.status.error == Validate(f, toNumber).message && !r.navigated
    // A failed read or write shows the save error and writes nothing.
    ensures user.Some? && Validate(f, toNumber).Accepted? && fails ==>
              r.users == users && r.status == Status(SaveError, false) && !r.navigated
    // Otherwise the message is cleared and the viewer's document holds the form's values.
    ensures user.Some? && Validate(f, toNumber).Accepted? && !fails ==>
              var uid := user.value;
              && uid in r.users
              && var d := r.users[uid];
              && r.status == Status("", false) && r.navigated
              && d.nickname == Some(JsString.Trim(f.nickname)) && d.bio == Some(JsString.Trim(f.bio))
              && d.age == Some(Validate(f, toNumber).age) && d.gender == Some(f.gender)
              && d.updatedAt == Some(now)
              && d.createdAt == (if uid in users then users[uid].createdAt else Some(now))
              && (uid in users ==> d.avatarUrl == users[uid].avatarUrl)
              && forall k :: k in users && k != uid ==> k in r.users && r.users[k] == users[k]
  {
    if user.None? then Submitted(users, st, false)
    else
      match Validate(f, toNumber)
      case Rejected(msg) => Submitted(users, Status(msg, st.saving), false)
      case Accepted(age) =>
        if fails then Submitted(users, Status(SaveError, false), false)
        else
          var uid := user.value;
          Submitted(SetDocMerge(users, uid, Written(f, age, uid in users, now)), Status("", false), true)
  }

  /** The two submits differ only in how an existing document is written; for a new profile they agree. */
  lemma SubmitAgreesOnNewProfile(users: map<UserId, ProfileDoc>, st: Status, uid: UserId, f: Form,
                                 toNumber: string -> JsNumber, fails: bool, now: int)
    requires uid !in users
    ensures Submit(users, st, Some(uid), f, toNumber, fails, now) == SubmitAsWritten(users, st, Some(uid), f, toNumber, fails, now)
  {
  }

  /** The age bounds are inclusive: 18 and 120 pass, 17 and 121 do not. */
  lemma AgeBoundsInclusive(f: Form, toNumber: string -> JsNumber)
    requires JsString.Trim(f.nickname) != "" && f.age != "" && f.gender != ""
    ensures toNumber(f.age) == Finite(18.0) ==> Validate(f, toNumber) == Accepted(18.0)
    ensures toNumber(f.age) == Finite(120.0) ==> Validate(f, toNumber) == Accepted(120.0)
    ensures toNumber(f.age) == Finite(17.0) ==> Validate(f, toNumber) == Rejected(AgeError)
    ensures toNumber(f.age) == Finite(121.0) ==> Validate(f, toNumber) == Rejected(AgeError)
  {
  }
}
