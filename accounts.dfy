/** The server-side state rules of app.py: the sign-up checks and the streak
    kept by `update_usage`. The user table is the `users` field of a
    `Database`, one record per row with its progress row folded in (the
    one-to-one `progress` relationship). Dates are day numbers; today's date
    and the password hash (a foreign library call) are parameters. */
module Accounts {
  import opened Optional
  import opened PyStr

  /** A progress row's `streak` and `last_active`. */
  datatype Progress = Progress(streak: int, lastActive: Option<int>)

  /** The defaults of a new progress row. */
  const FreshProgress := Progress(0, None)

  datatype User = User(
    id: nat, firstName: string, lastName: string, username: Option<string>,
    email: string, passwordHash: Option<string>, progress: Option<Progress>)

  // ---------------------------------------------------------------------
  // Streak

  /** The streak rule of `update_usage` for activity on day `today`: the
      first activity ever starts a streak of 1; activity the day after the
      last active day extends it; a longer gap restarts it at 1; the same
      day (or a last active day after today) leaves it. In every case the
      last active day becomes today. */
  function Touch(p: Progress, today: int): (r: Progress)
    ensures r.lastActive == Some(today)
    ensures p.lastActive.None? ==> r.streak == 1
    ensures p.lastActive.Some? && today == p.lastActive.value + 1 ==> r.streak == p.streak + 1
    ensures p.lastActive.Some? && today > p.lastActive.value + 1 ==> r.streak == 1
    ensures p.lastActive.Some? && today <= p.lastActive.value ==> r.streak == p.streak
  {
    match p.lastActive
    case Some(last) =>
      if today - last == 1 then Progress(p.streak + 1, Some(today))
      else if today - last > 1 then Progress(1, Some(today))
      else Progress(p.streak, Some(today))
    case None => Progress(1, Some(today))
  }

  /** The progress after one usage update per entry of `days`, in order. */
  function Replay(p: Progress, days: seq<int>): Progress {
    if days == [] then p else Touch(Replay(p, days[..|days| - 1]), days[|days| - 1])
  }

  predicate NonDecreasing(days: seq<int>) {
    forall i, j :: 0 <= i <= j < |days| ==> days[i] <= days[j]
  }

  /** Every day of the `k` days ending on `last` is in `days`, and the day
      before them is not. */
  predicate RunEndsAt(days: seq<int>, last: int, k: int) {
    k >= 1 && (forall d :: last - k < d <= last ==> d in days) && last - k !in days
  }

  /** What the streak counts: starting from a new progress row and with the
      clock never going back, the streak after a history of active days is
      the number of consecutive calendar days, ending with the last one, on
      each of which there was activity. */
  lemma {:induction false} StreakIsActiveRun(days: seq<int>)
    requires days != [] && NonDecreasing(days)
    ensures var r := Replay(FreshProgress, days);
            var last := days[|days| - 1];
            r.lastActive == Some(last) && RunEndsAt(days, last, r.streak)
  {
    var n := |days|;
    var d := days[n - 1];
    var before := days[..n - 1];
    assert days == before + [d];
    if n == 1 {
      assert Replay(FreshProgress, before) == FreshProgress;
    } else {
      assert NonDecreasing(before);
      StreakIsActiveRun(before);
      RunStep(before, d, Replay(FreshProgress, before));
    }
  }

  /** One more active day `d`, no earlier than the last one, extends,
      keeps or restarts the run exactly as `Touch` moves the streak. */
  lemma RunStep(before: seq<int>, d: int, p: Progress)
    requires before != [] && NonDecreasing(before + [d])
    requires p.lastActive == Some(before[|before| - 1])
    requires RunEndsAt(before, before[|before| - 1], p.streak)
    ensures RunEndsAt(before + [d], d, Touch(p, d).streak)
  {
    var days := before + [d];
    var prev := before[|before| - 1];
    var k := p.streak;
    assert days[|before| - 1] == prev && days[|before|] == d;
    assert prev <= d;
    forall x | x in before ensures x <= prev {
      var i :| 0 <= i < |before| && before[i] == x;
      assert days[i] == x;
    }
    if d == prev {
      assert d - k !in days;
    } else if d == prev + 1 {
      forall x | d - (k + 1) < x <= d ensures x in days {
        if x < d { assert x in before; }
      }
    } else {
      assert d - 1 !in days;
    }
  }

  // ---------------------------------------------------------------------
  // Lookups

  /** `User.query.get(id)`: the position of the user with that id. */
  function FindUser(users: seq<User>, id: int): (k: Option<nat>)
    ensures k.Some? ==> k.value < |users| && users[k.value].id == id
    ensures k.Some? ==> forall j :: 0 <= j < k.value ==> users[j].id != id
    ensures k.None? ==> forall j :: 0 <= j < |users| ==> users[j].id != id
  {
    if users == [] then None
    else if users[0].id == id then Some(0)
    else
      match FindUser(users[1..], id)
      case Some(k) => Some(k + 1)
      case None => None
  }

  /** The largest id in the table, 0 when it is empty. */
  function MaxId(users: seq<User>): (m: nat)
    ensures forall k :: 0 <= k < |users| ==> users[k].id <= m
  {
    if users == [] then 0
    else
      var rest := MaxId(users[1..]);
      if users[0].id > rest then users[0].id else rest
  }

  /** The id SQLite gives a new row: one more than the largest id. */
  function NextId(users: seq<User>): (id: nat)
    ensures id >= 1
    ensures forall k :: 0 <= k < |users| ==> users[k].id != id
  {
    MaxId(users) + 1
  }

  /** Ids, usernames and emails are unique columns of the user table. */
  predicate KeysUnique(users: seq<User>) {
    forall i, j :: 0 <= i < j < |users| ==>
      users[i].id != users[j].id && users[i].email != users[j].email &&
      (users[i].username.Some? ==> users[i].username != users[j].username)
  }

  // ---------------------------------------------------------------------
  // Usage update

  /** `update_usage` for the session's user id: fails, changing nothing,
      when there is no such user or the user has no progress row; otherwise
      applies the streak rule to that user's progress and changes nothing
      else. */
  function UsageUpdate(users: seq<User>, id: int, today: int): (r: (bool, seq<User>))
    ensures r.0 <==> FindUser(users, id).Some? && users[FindUser(users, id).value].progress.Some?
    ensures !r.0 ==> r.1 == users
    ensures r.0 ==> var k := FindUser(users, id).value;
                    r.1 == users[k := users[k].(progress := Some(Touch(users[k].progress.value, today)))]
  {
    match FindUser(users, id)
    case Some(k) =>
      if users[k].progress.Some? then
        (true, users[k := users[k].(progress := Some(Touch(users[k].progress.value, today)))])
      else (false, users)
    case None => (false, users)
  }

  /** A usage update touches only the one progress row: the table keeps its
      keys, so it stays well-formed. */
  lemma UsageKeepsKeys(users: seq<User>, id: int, today: int)
    requires KeysUnique(users)
    ensures KeysUnique(UsageUpdate(users, id, today).1)
  {
    var after := UsageUpdate(users, id, today).1;
    assert forall k :: 0 <= k < |users| ==>
      after[k].id == users[k].id && after[k].email == users[k].email &&
      after[k].username == users[k].username;
  }

  // ---------------------------------------------------------------------
  // Sign-up

  /** The sign-up form's six fields as posted. */
  datatype SignupForm = SignupForm(
    firstName: string, lastName: string, username: string, email: string,
    password: string, confirmPassword: string)

  datatype SignupOutcome = MissingField | PasswordMismatch | AlreadyExists | Created(id: nat)

  /** The fields as `signup` reads them: names and username stripped, email
      stripped and lower-cased, passwords as given. */
  function Cleaned(form: SignupForm): SignupForm {
    SignupForm(Strip(form.firstName), Strip(form.lastName), Strip(form.username),
               Lower(Strip(form.email)), form.password, form.confirmPassword)
  }

  predicate HasEmptyField(f: SignupForm) {
    f.firstName == "" || f.lastName == "" || f.username == "" || f.email == "" ||
    f.password == "" || f.confirmPassword == ""
  }

  /** Some row already has this username or this email. */
  predicate Taken(users: seq<User>, username: string, email: string) {
    exists k :: 0 <= k < |users| && (users[k].username == Some(username) || users[k].email == email)
  }

  /** The row `signup` inserts. */
  function NewUser(users: seq<User>, f: SignupForm, passwordHash: string): User {
    User(NextId(users), f.firstName, f.lastName, Some(f.username), f.email, Some(passwordHash),
         Some(FreshProgress))
  }

  /** `signup`'s checks, in the order the route makes them: an empty field,
      then a password mismatch, then an existing username or email; only a
      form passing all three creates a user, with the next id. */
  function SignupDecision(users: seq<User>, form: SignupForm): (r: SignupOutcome)
    ensures r == MissingField <==> HasEmptyField(Cleaned(form))
    ensures r == PasswordMismatch <==>
              !HasEmptyField(Cleaned(form)) && form.password != form.confirmPassword
    ensures r == AlreadyExists <==>
              !HasEmptyField(Cleaned(form)) && form.password == form.confirmPassword &&
              Taken(users, Cleaned(form).username, Cleaned(form).email)
    ensures r.Created? ==> r.id == NextId(users)
  {
    var f := Cleaned(form);
    if HasEmptyField(f) then MissingField
    else if f.password != f.confirmPassword then PasswordMismatch
    else if Taken(users, f.username, f.email) then AlreadyExists
    else Created(NextId(users))
  }

  /** The table after a sign-up: one new row on success, unchanged on any
      rejection. */
  function AfterSignup(users: seq<User>, form: SignupForm, passwordHash: string): (r: seq<User>)
    ensures SignupDecision(users, form).Created? ==>
              r == users + [NewUser(users, Cleaned(form), passwordHash)]
    ensures !SignupDecision(users, form).Created? ==> r == users
  {
    if SignupDecision(users, form).Created? then users + [NewUser(users, Cleaned(form), passwordHash)]
    else users
  }

  /** Sign-up keeps ids, usernames and emails unique. */
  lemma SignupKeepsKeys(users: seq<User>, form: SignupForm, passwordHash: string)
    requires KeysUnique(users)
    ensures KeysUnique(AfterSignup(users, form, passwordHash))
  {
    var after := AfterSignup(users, form, passwordHash);
    if SignupDecision(users, form).Created? {
      var f := Cleaned(form);
      var u := NewUser(users, f, passwordHash);
      assert !Taken(users, f.username, f.email);
      forall i, j | 0 <= i < j < |after|
        ensures after[i].id != after[j].id && after[i].email != after[j].email &&
                (after[i].username.Some? ==> after[i].username != after[j].username)
      {
        if j == |users| {
          assert after[j] == u && after[i] == users[i];
        }
      }
    }
  }

  /** A new account can be found by its id, with a fresh progress row, and
      signing up again with the same form is refused as a duplicate. */
  lemma SignupThenLookup(users: seq<User>, form: SignupForm, passwordHash: string)
    requires SignupDecision(users, form).Created?
    ensures var after := AfterSignup(users, form, passwordHash);
            FindUser(after, NextId(users)) == Some(|users|) &&
            after[|users|].progress == Some(FreshProgress) &&
            SignupDecision(after, form) == AlreadyExists
  {
    var after := AfterSignup(users, form, passwordHash);
    var f := Cleaned(form);
    FindNewLast(users, NewUser(users, f, passwordHash));
    assert after[|users|].username == Some(f.username);
  }

  lemma {:induction false} FindNewLast(users: seq<User>, u: User)
    requires forall k :: 0 <= k < |users| ==> users[k].id != u.id
    ensures FindUser(users + [u], u.id) == Some(|users|)
  {
    if users != [] {
      assert (users + [u])[1..] == users[1..] + [u];
      FindNewLast(users[1..], u);
    }
  }

  /** The user table, changed in place by the routes. */
  class Database {
    var users: seq<User>

    constructor ()
      ensures users == []
    {
      users := [];
    }

    /** The `signup` route on a POST; `passwordHash` is what the hashing
        library returns for the form's password. */
    method Signup(form: SignupForm, passwordHash: string) returns (outcome: SignupOutcome)
      modifies this
      ensures outcome == SignupDecision(old(users), form)
      ensures users == AfterSignup(old(users), form, passwordHash)
    {
      var firstName := Strip(form.firstName);
      var lastName := Strip(form.lastName);
      var username := Strip(form.username);
      var email := Lower(Strip(form.email));
      var password := form.password;
      var confirmPassword := form.confirmPassword;
      if firstName == "" || lastName == "" || username == "" || email == "" ||
         password == "" || confirmPassword == "" {
        return MissingField;
      }
      if password != confirmPassword {
        return PasswordMismatch;
      }
      if Taken(users, username, email) {
        return AlreadyExists;
      }
      var id := NextId(users);
      users := users + [User(id, firstName, lastName, Some(username), email, Some(passwordHash),
                             Some(FreshProgress))];
      outcome := Created(id);
    }

    /** The `update_usage` route for the session's user on day `today`. */
    method UpdateUsage(sessionUserId: int, today: int) returns (ok: bool)
      modifies this
      ensures (ok, users) == UsageUpdate(old(users), sessionUserId, today)
    {
      var found := FindUser(users, sessionUserId);
      if found.None? || users[found.value].progress.None? {
        return false;
      }
      var k := found.value;
      var p := users[k].progress.value;
      var streak := p.streak;
      match p.lastActive {
        case Some(last) =>
          if today - last == 1 {
            streak := streak + 1;
          } else if today - last > 1 {
            streak := 1;
          }
        case None =>
          streak := 1;
      }
      users := users[k := users[k].(progress := Some(Progress(streak, Some(today))))];
      ok := true;
    }
  }
}
