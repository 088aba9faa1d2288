/** The user store behind the login screen, the registration dialog and the
    edit dialog.  The `users` table is a sequence of records; the password
    hash (SHA-256 in the application) is an arbitrary function passed in. */
module Accounts {
  import opened Outcomes
  import opened Text
  import opened Seqs

  datatype User = User(id: nat, username: string, hash: string, role: string, status: string)

  type Store = seq<User>

  type Hasher = string -> string

  /** The table's keys: ids are the primary key and usernames are unique. */
  predicate WellFormed(s: Store) {
    forall i, j :: 0 <= i < j < |s| ==> s[i].id != s[j].id && s[i].username != s[j].username
  }

  /** The first record with this username (the row `fetch_one` returns), or -1. */
  function FindName(s: Store, name: string): (i: int)
    ensures -1 <= i < |s|
    ensures i >= 0 ==> s[i].username == name
    ensures i == -1 <==> forall k :: 0 <= k < |s| ==> s[k].username != name
    decreases |s|
  {
    if |s| == 0 then -1
    else if s[0].username == name then 0
    else
      var i := FindName(s[1..], name);
      assert forall k :: 1 <= k < |s| ==> s[k] == s[1..][k - 1];
      if i >= 0 then i + 1 else -1
  }

  /** One above the largest id in use, or 1 for an empty table. */
  function NextId(s: Store): (n: nat)
    ensures forall k :: 0 <= k < |s| ==> s[k].id < n
    ensures n == 1 || exists k :: 0 <= k < |s| && n == s[k].id + 1
    decreases |s|
  {
    if |s| == 0 then 1
    else
      var rest := NextId(s[1..]);
      assert forall k :: 1 <= k < |s| ==> s[k] == s[1..][k - 1];
      if s[0].id < rest then rest else s[0].id + 1
  }

  /** The id the `AUTOINCREMENT` key hands out next.  `issued` is the
      largest id the table has ever handed out (SQLite keeps it in
      `sqlite_sequence`; 0 before the first insert), which deleting users
      does not lower.  The new id is the least one above both that and
      every id in use, so an id once issued is never issued again. */
  function AutoIncrementId(s: Store, issued: nat): (n: nat)
    ensures n > issued
    ensures forall k :: 0 <= k < |s| ==> s[k].id < n
    ensures n == issued + 1 || exists k :: 0 <= k < |s| && n == s[k].id + 1
  {
    var m := NextId(s);
    if issued < m then m else issued + 1
  }

  // ---------------------------------------------------------------------
  // try_login

  /** What the login screen shows after an attempt: whether `on_login` was
      called and with which name, the error text, the password field. */
  datatype LoginScreen = LoginScreen(loggedIn: Option<string>, error: string, passwordField: string)

  const LoginError := "Invalid username or password."

  /** `try_login`: both fields are stripped; the user is let in exactly when
      a record with that name exists and its hash is the hash of the
      password; a failed attempt shows the error and clears the password. */
  function TryLogin(s: Store, h: Hasher, usernameField: string, passwordField: string): (r: LoginScreen)
    ensures var i := FindName(s, Strip(usernameField));
            r.loggedIn.Some? <==> i >= 0 && s[i].hash == h(Strip(passwordField))
    ensures r.loggedIn.Some? ==>
              r.loggedIn.value == Strip(usernameField) && r.error == "" && r.passwordField == passwordField
    ensures r.loggedIn.None? ==> r.error == LoginError && r.passwordField == ""
  {
    var name := Strip(usernameField);
    var i := FindName(s, name);
    if i >= 0 && s[i].hash == h(Strip(passwordField)) then LoginScreen(Some(name), "", passwordField)
    else LoginScreen(None, LoginError, "")
  }

  /** In a well-formed store the login succeeds exactly for a stored user
      with that name and that password hash. */
  lemma LoginIffStored(s: Store, h: Hasher, usernameField: string, passwordField: string)
    requires WellFormed(s)
    ensures TryLogin(s, h, usernameField, passwordField).loggedIn.Some? <==>
            exists u :: u in s && u.username == Strip(usernameField) && u.hash == h(Strip(passwordField))
  {
    var name := Strip(usernameField);
    var i := FindName(s, name);
    if u :| u in s && u.username == name && u.hash == h(Strip(passwordField)) {
      var k :| 0 <= k < |s| && s[k] == u;
      assert i == k;
    }
  }

  // ---------------------------------------------------------------------
  // register_user

  /** How a dialog's save ended; each outcome shows one message. */
  datatype Outcome = Required | Taken | Done

  function RegisterMessage(o: Outcome): string {
    match o
    case Required => "Username and password required."
    case Taken => "Username already exists."
    case Done => "User registered! You can now log in."
  }

  /** The dialog after pressing Register: the store and the outcome shown. */
  datatype Registration = Registration(store: Store, outcome: Outcome)

  /** `register_user`: blank name or password (after stripping) and a name
      already taken are refused with the store unchanged; otherwise one
      record is added holding the hash of the password, the chosen role and
      the table's default status. */
  function Register(s: Store, issued: nat, h: Hasher, usernameField: string, passwordField: string, role: string): (r: Registration)
    ensures Strip(usernameField) == "" || Strip(passwordField) == "" ==>
              r == Registration(s, Required)
    ensures Strip(usernameField) != "" && Strip(passwordField) != "" && FindName(s, Strip(usernameField)) >= 0 ==>
              r == Registration(s, Taken)
    ensures r.outcome == Done <==>
              Strip(usernameField) != "" && Strip(passwordField) != "" && FindName(s, Strip(usernameField)) == -1
    ensures r.outcome == Done ==>
              r.store == s + [User(AutoIncrementId(s, issued), Strip(usernameField), h(Strip(passwordField)), role, "active")]
  {
    var name := Strip(usernameField);
    var password := Strip(passwordField);
    if name == "" || password == "" then Registration(s, Required)
    else if FindName(s, name) >= 0 then Registration(s, Taken)
    else Registration(s + [User(AutoIncrementId(s, issued), name, h(password), role, "active")], Done)
  }

  /** Registration keeps ids and usernames unique. */
  lemma RegisterKeepsWellFormed(s: Store, issued: nat, h: Hasher, usernameField: string, passwordField: string, role: string)
    requires WellFormed(s)
    ensures WellFormed(Register(s, issued, h, usernameField, passwordField, role).store)
  {
    var r := Register(s, issued, h, usernameField, passwordField, role);
    if r.outcome == Done {
      AppendKeepsWellFormed(s, User(AutoIncrementId(s, issued), Strip(usernameField), h(Strip(passwordField)), role, "active"));
    }
  }

  /** A record with an id above every id in use and a name no record holds
      keeps the keys unique. */
  lemma AppendKeepsWellFormed(s: Store, u: User)
    requires WellFormed(s) && FindName(s, u.username) == -1
    requires forall k :: 0 <= k < |s| ==> s[k].id < u.id
    ensures WellFormed(s + [u])
  {
    var t := s + [u];
    assert forall k :: 0 <= k < |s| ==> t[k] == s[k];
  }

  /** Once registered, the same credentials log in, however the fields are
      padded with whitespace. */
  lemma RegisterThenLogin(s: Store, issued: nat, h: Hasher, usernameField: string, passwordField: string, role: string,
                          loginName: string, loginPassword: string)
    requires WellFormed(s)
    requires Register(s, issued, h, usernameField, passwordField, role).outcome == Done
    requires Strip(loginName) == Strip(usernameField) && Strip(loginPassword) == Strip(passwordField)
    ensures TryLogin(Register(s, issued, h, usernameField, passwordField, role).store, h, loginName, loginPassword).loggedIn
            == Some(Strip(usernameField))
  {
    var u := User(AutoIncrementId(s, issued), Strip(usernameField), h(Strip(passwordField)), role, "active");
    LoginAfterAppend(s, h, u, loginName, loginPassword);
  }

  /** A record appended under a name no other record holds is the one a
      login with that name and password finds. */
  lemma LoginAfterAppend(s: Store, h: Hasher, u: User, loginName: string, loginPassword: string)
    requires FindName(s, u.username) == -1
    requires Strip(loginName) == u.username && u.hash == h(Strip(loginPassword))
    ensures TryLogin(s + [u], h, loginName, loginPassword).loggedIn == Some(u.username)
  {
    FindNameAppend(s, u);
    assert (s + [u])[|s|] == u;
  }

  /** The first record with a fresh name is the one appended. */
  lemma FindNameAppend(s: Store, u: User)
    requires FindName(s, u.username) == -1
    ensures FindName(s + [u], u.username) == |s|
  {
    var t := s + [u];
    assert t[|s|] == u;
    assert forall k :: 0 <= k < |s| ==> t[k] == s[k];
  }

  // ---------------------------------------------------------------------
  // save_user

  function EditMessage(o: Outcome): string {
    match o
    case Required => "Username required."
    case Taken => "Username already exists."
    case Done => "User updated!"
  }

  /** The edit dialog after pressing Save: the store and the outcome shown. */
  datatype Edit = Edit(store: Store, outcome: Outcome)

  /** Some record other than `id` already holds the name. */
  predicate TakenByOther(s: Store, name: string, id: nat) {
    exists k :: 0 <= k < |s| && s[k].username == name && s[k].id != id
  }

  /** The hash an edit stores: the new password's, or none when the
      password field was left blank. */
  function NewHash(h: Hasher, passwordField: string): Option<string> {
    if Strip(passwordField) != "" then Some(h(Strip(passwordField))) else None
  }

  /** The `UPDATE ... WHERE id=?`: the records with that id get the name,
      the role and, when given, the hash; every other record is kept. */
  function Update(s: Store, id: nat, name: string, role: string, newHash: Option<string>): (t: Store)
    ensures |t| == |s|
    ensures forall k :: 0 <= k < |s| && s[k].id != id ==> t[k] == s[k]
    ensures forall k :: 0 <= k < |s| && s[k].id == id ==>
              && t[k].id == id && t[k].status == s[k].status
              && t[k].username == name && t[k].role == role
              && t[k].hash == (if newHash.Some? then newHash.value else s[k].hash)
  {
    seq(|s|, k requires 0 <= k < |s| =>
      if s[k].id == id
      then s[k].(username := name, role := role, hash := if newHash.Some? then newHash.value else s[k].hash)
      else s[k])
  }

  /** `save_user`: a blank name is refused, a name held by another id is
      refused, and otherwise the record `id` gets the new name and role,
      and a new hash only when a password was typed. */
  function SaveUser(s: Store, h: Hasher, id: nat, usernameField: string, role: string, passwordField: string): (r: Edit)
    ensures Strip(usernameField) == "" ==> r == Edit(s, Required)
    ensures Strip(usernameField) != "" && TakenByOther(s, Strip(usernameField), id) ==> r == Edit(s, Taken)
    ensures r.outcome == Done <==> Strip(usernameField) != "" && !TakenByOther(s, Strip(usernameField), id)
    ensures r.outcome == Done ==> r.store == Update(s, id, Strip(usernameField), role, NewHash(h, passwordField))
  {
    var name := Strip(usernameField);
    if name == "" then Edit(s, Required)
    else if TakenByOther(s, name, id) then Edit(s, Taken)
    else Edit(Update(s, id, name, role, NewHash(h, passwordField)), Done)
  }

  /** An edit keeps ids and usernames unique. */
  lemma SaveKeepsWellFormed(s: Store, h: Hasher, id: nat, usernameField: string, role: string, passwordField: string)
    requires WellFormed(s)
    ensures WellFormed(SaveUser(s, h, id, usernameField, role, passwordField).store)
  {
    var r := SaveUser(s, h, id, usernameField, role, passwordField);
    if r.outcome == Done {
      var name := Strip(usernameField);
      forall i, j | 0 <= i < j < |s|
        ensures r.store[i].id != r.store[j].id && r.store[i].username != r.store[j].username
      {
        if s[i].id == id {
          assert r.store[j] == s[j];
        } else if s[j].id == id {
          assert r.store[i] == s[i];
        }
      }
    }
  }

  /** After an edit that sets a password, the new name and password log in. */
  lemma SaveThenLogin(s: Store, h: Hasher, k: nat, usernameField: string, role: string, passwordField: string)
    requires WellFormed(s) && k < |s|
    requires Strip(passwordField) != ""
    requires SaveUser(s, h, s[k].id, usernameField, role, passwordField).outcome == Done
    ensures TryLogin(SaveUser(s, h, s[k].id, usernameField, role, passwordField).store, h, usernameField, passwordField).loggedIn
            == Some(Strip(usernameField))
  {
    var t := SaveUser(s, h, s[k].id, usernameField, role, passwordField).store;
    SaveKeepsWellFormed(s, h, s[k].id, usernameField, role, passwordField);
    assert t[k].username == Strip(usernameField);
    assert FindName(t, Strip(usernameField)) == k;
  }

  // ---------------------------------------------------------------------
  // Status

  /** The status a toggle moves to: "active" becomes "inactive", anything
      else becomes "active". */
  function Toggled(status: string): (r: string)
    ensures r == "active" || r == "inactive"
    ensures r == "inactive" <==> status == "active"
  {
    if status == "active" then "inactive" else "active"
  }

  /** On the two statuses the table uses, toggling twice restores the status. */
  lemma ToggleTwice(status: string)
    requires status == "active" || status == "inactive"
    ensures Toggled(Toggled(status)) == status
  {
  }

  /** The index of the record with this id, or -1. */
  function FindId(s: Store, id: nat): (i: int)
    ensures -1 <= i < |s|
    ensures i >= 0 ==> s[i].id == id
    ensures i == -1 <==> forall k :: 0 <= k < |s| ==> s[k].id != id
    decreases |s|
  {
    if |s| == 0 then -1
    else if s[0].id == id then 0
    else
      var i := FindId(s[1..], id);
      assert forall k :: 1 <= k < |s| ==> s[k] == s[1..][k - 1];
      if i >= 0 then i + 1 else -1
  }

  /** `set_user_status`: every record with that id gets the status. */
  function SetStatus(s: Store, id: nat, status: string): (t: Store)
    ensures |t| == |s|
    ensures forall k :: 0 <= k < |s| ==>
              t[k] == if s[k].id == id then s[k].(status := status) else s[k]
  {
    seq(|s|, k requires 0 <= k < |s| => if s[k].id == id then s[k].(status := status) else s[k])
  }

  /** One step of `toggle_status_selected`: read the status of `id` and
      write the toggled one.  Reading a missing id fails (`fetchone()` gives
      `None`, which cannot be indexed), and the loop stops there. */
  function ToggleOne(s: Store, id: nat): (r: Option<Store>)
    ensures r.None? <==> FindId(s, id) == -1
    ensures r.Some? ==> r.value == SetStatus(s, id, Toggled(s[FindId(s, id)].status))
  {
    var i := FindId(s, id);
    if i < 0 then None else Some(SetStatus(s, id, Toggled(s[i].status)))
  }

  /** `toggle_status_selected` over the chosen ids, in order: every query
      commits by itself, so the toggles done before a failing id stay. */
  function ToggleSelected(s: Store, ids: seq<nat>): (r: Store)
    ensures |r| == |s|
    ensures forall k :: 0 <= k < |s| && s[k].id !in ids ==> r[k] == s[k]
    ensures forall k :: 0 <= k < |s| ==> r[k] == s[k].(status := r[k].status)
    decreases |ids|
  {
    if |ids| == 0 then s
    else match ToggleOne(s, ids[0])
      case None => s
      case Some(t) => ToggleSelected(t, ids[1..])
  }

  /** With every selected id present, each selected user's status is
      toggled once and nobody else changes. */
  lemma {:induction false} ToggleSelectedToggles(s: Store, ids: seq<nat>)
    requires WellFormed(s) && NoDup(ids)
    requires forall x :: x in ids ==> FindId(s, x) >= 0
    ensures forall k :: 0 <= k < |s| ==>
              ToggleSelected(s, ids)[k] == if s[k].id in ids then s[k].(status := Toggled(s[k].status)) else s[k]
    decreases |ids|
  {
    if |ids| > 0 {
      var x := ids[0];
      var i := FindId(s, x);
      var t := SetStatus(s, x, Toggled(s[i].status));
      assert ToggleSelected(s, ids) == ToggleSelected(t, ids[1..]);
      assert forall k :: 0 <= k < |s| && k != i ==> s[k].id != x;
      SameKeys(s, t);
      NoDupTail(ids);
      assert forall y :: y in ids[1..] ==> y in ids;
      ToggleSelectedToggles(t, ids[1..]);
      forall k | 0 <= k < |s|
        ensures ToggleSelected(s, ids)[k] == if s[k].id in ids then s[k].(status := Toggled(s[k].status)) else s[k]
      {
        if k == i {
          assert t[k].id == x;
        } else {
          assert t[k] == s[k];
          assert s[k].id in ids <==> s[k].id in ids[1..];
        }
      }
    }
  }

  /** A store whose ids and usernames are those of a well-formed store is
      well formed, and holds the same ids. */
  lemma SameKeys(s: Store, t: Store)
    requires |t| == |s|
    requires forall k :: 0 <= k < |s| ==> t[k] == s[k].(status := t[k].status)
    ensures WellFormed(s) ==> WellFormed(t)
    ensures forall y :: FindId(s, y) >= 0 ==> FindId(t, y) >= 0
  {
    forall y | FindId(s, y) >= 0
      ensures FindId(t, y) >= 0
    {
      assert t[FindId(s, y)].id == y;
    }
  }

  /** An id with no record stops the loop: the toggles before it stay and
      none after it is applied. */
  lemma {:induction false} ToggleStopsAtMissing(s: Store, before: seq<nat>, missing: nat, after: seq<nat>)
    requires FindId(s, missing) == -1
    ensures ToggleSelected(s, before + [missing] + after) == ToggleSelected(s, before)
    decreases |before|
  {
    var ids := before + [missing] + after;
    if |before| == 0 {
      assert ids[0] == missing;
    } else {
      assert ids[0] == before[0] && ids[1..] == before[1..] + [missing] + after;
      match ToggleOne(s, before[0])
      case None =>
      case Some(t) =>
        assert FindId(t, missing) == -1 by {
          assert forall k :: 0 <= k < |t| ==> t[k].id == s[k].id;
        }
        ToggleStopsAtMissing(t, before[1..], missing, after);
    }
  }

  /** Toggling a single selected user twice restores the store, when the
      user's status is one of the two the table uses. */
  lemma ToggleSelectedTwice(s: Store, id: nat)
    requires WellFormed(s) && FindId(s, id) >= 0
    requires s[FindId(s, id)].status in {"active", "inactive"}
    ensures ToggleSelected(ToggleSelected(s, [id]), [id]) == s
  {
    var i := FindId(s, id);
    var t := SetStatus(s, id, Toggled(s[i].status));
    assert [id][1..] == [];
    assert ToggleSelected(s, [id]) == t;
    assert FindId(t, id) == i;
    ToggleTwice(s[i].status);
    assert SetStatus(t, id, Toggled(t[i].status)) == s;
  }
}
