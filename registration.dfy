/** pages/register.php: the server-side validation of the sign-up form, the
    duplicate-account check and the insert into `system_users`, and the
    page's script — the password-strength meter, the confirmation check and
    the submit gate. */
module Registration {
  import opened Php
  import opened Store

  // ---------------------------------------------------------------------
  // Lengths: PHP's strlen counts UTF-8 bytes, JavaScript's .length counts
  // UTF-16 code units
  // ---------------------------------------------------------------------

  /** The number of bytes UTF-8 spends on `c`. */
  function Utf8Width(c: char): nat
  {
    if c as int < 0x80 then 1 else if c as int < 0x800 then 2 else if c as int < 0x1_0000 then 3 else 4
  }

  /** `strlen($s)` for the UTF-8 text the browser posts. */
  function ByteLength(s: string): (n: nat)
    ensures |s| <= n
  {
    if s == [] then 0 else Utf8Width(s[0]) + ByteLength(s[1..])
  }

  /** `s.length` in the browser: characters outside the Basic Multilingual
      Plane take two UTF-16 code units. */
  function CodeUnits(s: string): nat
  {
    if s == [] then 0 else (if s[0] as int < 0x1_0000 then 1 else 2) + CodeUnits(s[1..])
  }

  predicate IsAscii(c: char) { c as int < 0x80 }

  /** On ASCII text `strlen` counts characters. */
  lemma {:induction false} AsciiByteLength(s: string)
    requires forall i :: 0 <= i < |s| ==> IsAscii(s[i])
    ensures ByteLength(s) == |s|
  {
    if s != [] {
      assert forall i :: 0 <= i < |s[1..]| ==> s[1..][i] == s[i + 1];
      AsciiByteLength(s[1..]);
    }
  }

  /** No string is longer in UTF-16 code units than in UTF-8 bytes. */
  lemma {:induction false} CodeUnitsAtMostBytes(s: string)
    ensures CodeUnits(s) <= ByteLength(s)
  {
    if s != [] {
      CodeUnitsAtMostBytes(s[1..]);
    }
  }

  // ---------------------------------------------------------------------
  // Character classes of the regular expressions
  // ---------------------------------------------------------------------

  predicate IsUpper(c: char) { 'A' <= c <= 'Z' }
  predicate IsLower(c: char) { 'a' <= c <= 'z' }

  /** `[a-zA-Z0-9_]`. */
  predicate IsWordChar(c: char) { IsUpper(c) || IsLower(c) || IsDigit(c) || c == '_' }

  /** `/[A-Z]/`, `/[a-z]/`, `/[0-9]/` (also JavaScript's `/\d/`) and
      `/[^A-Za-z0-9]/` find a match in `s`. */
  predicate HasUpper(s: string) { exists i :: 0 <= i < |s| && IsUpper(s[i]) }
  predicate HasLower(s: string) { exists i :: 0 <= i < |s| && IsLower(s[i]) }
  predicate HasDigit(s: string) { exists i :: 0 <= i < |s| && IsDigit(s[i]) }
  predicate HasOther(s: string) { exists i :: 0 <= i < |s| && !IsUpper(s[i]) && !IsLower(s[i]) && !IsDigit(s[i]) }

  // ---------------------------------------------------------------------
  // Server-side validation, pages/register.php:21-58
  // ---------------------------------------------------------------------

  /** The messages the page collects in `$errors`, in the order it may add
      them. */
  datatype RegError =
    | RolesUnavailable    // "Unable to load roles. Please try again later."
    | InvalidRole         // "Please select a valid role."
    | UsernameRequired    // "Username is required."
    | UsernameLength      // "Username must be between 3 and 20 characters."
    | UsernameCharacters  // "Username can only contain letters, numbers, and underscores."
    | EmailRequired       // "Email is required."
    | EmailInvalid        // "Please enter a valid email address."
    | EmailTooLong        // "Email must be less than 50 characters."
    | PasswordRequired    // "Password is required."
    | PasswordTooShort    // "Password must be at least 8 characters long."
    | PasswordTooWeak     // "Password must contain at least one uppercase letter, ..."
    | PasswordMismatch    // "Passwords do not match."
    | UsernameExists      // "Username already exists."
    | EmailExists         // "Email already exists."
    | LookupFailed        // "An error occurred. Please try again."
    | RegistrationFailed  // "Registration failed. Please try again later."

  /** The posted form. `roleId` is what `filter_input(..., FILTER_VALIDATE_INT)`
      yields: `None` when the field is missing or not an integer. The other
      fields are the raw posted strings (`?? ''` for a missing one). */
  datatype RegForm = RegForm(roleId: Option<int>, username: string, email: string, password: string, confirm: string)

  /** An optional message as the (empty or one-element) list it adds. */
  function Listed(e: Option<RegError>): (r: seq<RegError>)
    ensures r == [] <==> e.None?
  {
    if e.Some? then [e.value] else []
  }

  /** `!$role_id || $role_id < 1 || $role_id > 2`: only roles 1 and 2 pass. */
  function RoleError(roleId: Option<int>): (r: Option<RegError>)
    ensures r.None? <==> roleId == Some(1) || roleId == Some(2)
  {
    if roleId.None? || roleId.value == 0 || roleId.value < 1 || roleId.value > 2 then Some(InvalidRole) else None
  }

  /** A trimmed user name the page accepts: 3 to 20 characters, each a
      letter, a digit or an underscore. */
  predicate UsernameAcceptable(u: string)
  {
    3 <= |u| <= 20 && forall i :: 0 <= i < |u| ==> IsWordChar(u[i])
  }

  /** A name made of word characters is as long in bytes as in characters. */
  lemma WordNameBytes(u: string)
    ensures (forall i :: 0 <= i < |u| ==> IsWordChar(u[i])) ==> ByteLength(u) == |u|
  {
    if forall i :: 0 <= i < |u| ==> IsWordChar(u[i]) {
      AsciiByteLength(u);
    }
  }

  /** The first failing username check, on the trimmed name `u`. */
  function UsernameError(u: string): (r: Option<RegError>)
    ensures r.None? <==> UsernameAcceptable(u)
  {
    WordNameBytes(u);
    if PhpEmpty(u) then Some(UsernameRequired)
    else if ByteLength(u) < 3 || ByteLength(u) > 20 then Some(UsernameLength)
    else if !(forall i :: 0 <= i < |u| ==> IsWordChar(u[i])) then Some(UsernameCharacters)
    else None
  }

  /** The first failing e-mail check, on the trimmed address `e`.
      `isEmail` stands for `filter_var($e, FILTER_VALIDATE_EMAIL)`. */
  function EmailError(e: string, isEmail: string -> bool): (r: Option<RegError>)
    ensures r.None? <==> e != "" && e != "0" && isEmail(e) && ByteLength(e) <= 50
    ensures r == Some(EmailTooLong) ==> isEmail(e) && ByteLength(e) > 50
  {
    if PhpEmpty(e) then Some(EmailRequired)
    else if !isEmail(e) then Some(EmailInvalid)
    else if ByteLength(e) > 50 then Some(EmailTooLong)
    else None
  }

  /** A password the server accepts: at least 8 bytes with an upper-case
      letter, a lower-case letter and a digit. */
  predicate PasswordAcceptable(p: string)
  {
    ByteLength(p) >= 8 && HasUpper(p) && HasLower(p) && HasDigit(p)
  }

  /** The first failing password check; the password is not trimmed. */
  function PasswordError(p: string): (r: Option<RegError>)
    ensures r.None? <==> PasswordAcceptable(p)
  {
    if PhpEmpty(p) then Some(PasswordRequired)
    else if ByteLength(p) < 8 then Some(PasswordTooShort)
    else if !HasUpper(p) || !HasLower(p) || !HasDigit(p) then Some(PasswordTooWeak)
    else None
  }

  /** Everything about the form itself that the page demands. */
  predicate FormAcceptable(form: RegForm, isEmail: string -> bool)
  {
    var e := Trim(form.email);
    && (form.roleId == Some(1) || form.roleId == Some(2))
    && UsernameAcceptable(Trim(form.username))
    && e != "" && e != "0" && isEmail(e) && ByteLength(e) <= 50
    && PasswordAcceptable(form.password)
    && form.password == form.confirm
  }

  /** The messages of pages/register.php:28-58, one check per field in field
      order, then the confirmation. */
  function FieldErrors(form: RegForm, isEmail: string -> bool): (r: seq<RegError>)
    ensures r == [] <==> FormAcceptable(form, isEmail)
    ensures |r| <= 5
  {
    var role := Listed(RoleError(form.roleId));
    var name := Listed(UsernameError(Trim(form.username)));
    var mail := Listed(EmailError(Trim(form.email), isEmail));
    var word := Listed(PasswordError(form.password));
    var same := if form.password != form.confirm then [PasswordMismatch] else [];
    assert |role + name + mail + word + same| == |role| + |name| + |mail| + |word| + |same|;
    role + name + mail + word + same
  }

  // ---------------------------------------------------------------------
  // The account table, pages/register.php:61-112
  // ---------------------------------------------------------------------

  /** A row of `system_users`; the password is stored as its hash. */
  datatype User = User(id: int, roleId: int, username: string, email: string, passwordHash: string)

  /** What the page puts in `$_SESSION` after a registration. */
  datatype Session = Session(userId: int, username: string, email: string)

  predicate UsernameTaken(users: seq<User>, u: string) { exists i :: 0 <= i < |users| && users[i].username == u }
  predicate EmailTaken(users: seq<User>, e: string) { exists i :: 0 <= i < |users| && users[i].email == e }

  /** `WHERE username = ? OR email = ?`. */
  function NameOrEmail(u: string, e: string): User -> bool
  {
    (x: User) => x.username == u || x.email == e
  }

  /** The messages of the duplicate check, pages/register.php:61-84: a count
      of the rows with that name or address, and only when it is positive one
      lookup per field. `fault` is the ordinal of the statement that throws
      (0 the count, 1 the name lookup, 2 the address lookup). */
  function DuplicateErrors(users: seq<User>, u: string, e: string, fault: Option<nat>): (r: seq<RegError>)
    ensures r == [] <==> !FailsAt(fault, 0) && !UsernameTaken(users, u) && !EmailTaken(users, e)
  {
    if FailsAt(fault, 0) then [LookupFailed]
    else if |Filter(users, NameOrEmail(u, e))| == 0 then
      assert !UsernameTaken(users, u) && !EmailTaken(users, e) by {
        forall i | 0 <= i < |users| ensures users[i].username != u && users[i].email != e {
          assert users[i] in users && users[i] !in Filter(users, NameOrEmail(u, e));
        }
      }
      []
    else
      var x := Filter(users, NameOrEmail(u, e))[0];
      assert x in users && NameOrEmail(u, e)(x);
      assert UsernameTaken(users, u) || EmailTaken(users, e) by {
        var i :| 0 <= i < |users| && users[i] == x;
      }
      if FailsAt(fault, 1) then [LookupFailed]
      else
      (if UsernameTaken(users, u) then [UsernameExists] else [])
      + (if FailsAt(fault, 2) then [LookupFailed] else if EmailTaken(users, e) then [EmailExists] else [])
  }

  /** The row the insert of pages/register.php:94-96 adds. */
  function NewUser(id: int, form: RegForm, hash: string): (user: User)
    requires form.roleId.Some?
    ensures user.id == id && user.roleId == form.roleId.value && user.passwordHash == hash
    ensures user.username == Trim(form.username) && user.email == Trim(form.email)
  {
    User(id, form.roleId.value, Trim(form.username), Trim(form.email), hash)
  }

  /** All the messages a submission collects: a failed role query adds its
      message first; the duplicate check runs only on a clean form and the
      insert only when that check added nothing. */
  function RegisterErrors(users: seq<User>, form: RegForm, rolesFailed: bool, isEmail: string -> bool,
                          lookupFault: Option<nat>, insertFault: bool): seq<RegError>
  {
    var pre := (if rolesFailed then [RolesUnavailable] else []) + FieldErrors(form, isEmail);
    if pre != [] then pre
    else
      var dup := DuplicateErrors(users, Trim(form.username), Trim(form.email), lookupFault);
      if dup != [] then dup
      else if insertFault then [RegistrationFailed]
      else []
  }

  /** A submission registers an account exactly when the roles loaded, the
      form is acceptable, neither the name nor the address is in use, the
      count query did not fail and the insert did not fail. A failure of a
      lookup that never runs does not matter. */
  lemma RegisterSucceedsIff(users: seq<User>, form: RegForm, rolesFailed: bool, isEmail: string -> bool,
                            lookupFault: Option<nat>, insertFault: bool)
    ensures RegisterErrors(users, form, rolesFailed, isEmail, lookupFault, insertFault) == [] <==>
      && !rolesFailed
      && FormAcceptable(form, isEmail)
      && !UsernameTaken(users, Trim(form.username))
      && !EmailTaken(users, Trim(form.email))
      && !FailsAt(lookupFault, 0)
      && !insertFault
  {
    var pre := (if rolesFailed then [RolesUnavailable] else []) + FieldErrors(form, isEmail);
    assert pre == [] <==> !rolesFailed && FieldErrors(form, isEmail) == [];
  }

  /** No two accounts share an id, a user name or an address, and every id
      is below the next one to be handed out. */
  ghost predicate UniqueAccounts(users: seq<User>, next: int)
  {
    && (forall i :: 0 <= i < |users| ==> users[i].id < next)
    && (forall i, j :: 0 <= i < j < |users| ==>
          users[i].id != users[j].id && users[i].username != users[j].username && users[i].email != users[j].email)
  }

  /** The duplicate check is what keeps accounts unique: adding a row with a
      fresh id, a name and an address nobody uses keeps them so. */
  lemma AddingFreshAccountKeepsUnique(users: seq<User>, next: int, user: User)
    requires UniqueAccounts(users, next)
    requires user.id == next
    requires !UsernameTaken(users, user.username) && !EmailTaken(users, user.email)
    ensures UniqueAccounts(users + [user], next + 1)
  {
    var all := users + [user];
    forall i, j | 0 <= i < j < |all|
      ensures all[i].id != all[j].id && all[i].username != all[j].username && all[i].email != all[j].email
    {
      if j == |users| {
        assert all[i] == users[i] && all[j] == user;
      } else {
        assert all[i] == users[i] && all[j] == users[j];
      }
    }
  }

  /** The `system_users` table. */
  class UserTable {
    var users: seq<User>
    var nextId: int

    ghost predicate Valid()
      reads this
    {
      UniqueAccounts(users, nextId)
    }

    constructor()
      ensures users == [] && nextId == 1 && Valid()
    {
      users := [];
      nextId := 1;
    }

    /** The duplicate check of pages/register.php:61-84 against this table.
        It changes nothing. */
    method CheckDuplicates(username: string, email: string, lookupFault: Option<nat>)
      returns (errors: seq<RegError>)
      ensures errors == DuplicateErrors(users, username, email, lookupFault)
      ensures errors == [] <==>
        !FailsAt(lookupFault, 0) && !UsernameTaken(users, username) && !EmailTaken(users, email)
    {
      errors := [];
      if FailsAt(lookupFault, 0) {
        errors := errors + [LookupFailed];
        return;
      }
      var count := |Filter(users, NameOrEmail(username, email))|;
      if count > 0 {
        if FailsAt(lookupFault, 1) {
          errors := errors + [LookupFailed];
          return;
        }
        if UsernameTaken(users, username) {
          errors := errors + [UsernameExists];
        }
        if FailsAt(lookupFault, 2) {
          errors := errors + [LookupFailed];
        } else if EmailTaken(users, email) {
          errors := errors + [EmailExists];
        }
      }
    }

    /** The INSERT of pages/register.php:94-96, on a row whose name and
        address nobody uses. */
    method InsertUser(user: User)
      requires Valid()
      requires user.id == nextId && !UsernameTaken(users, user.username) && !EmailTaken(users, user.email)
      modifies this
      ensures Valid()
      ensures users == old(users) + [user] && nextId == old(nextId) + 1
    {
      AddingFreshAccountKeepsUnique(users, nextId, user);
      users := users + [user];
      nextId := nextId + 1;
    }

    /** The POST branch of pages/register.php:19-112. `rolesFailed` says the
        role query of lines 10-17 threw; `hash` is what `password_hash`
        returns (it draws a random salt); `lookupFault` and `insertFault`
        say which statement throws a PDOException. On success the page logs
        the new user in (`session`) and redirects; otherwise it shows
        `errors`. */
    method Register(form: RegForm, rolesFailed: bool, isEmail: string -> bool, hash: string,
                    lookupFault: Option<nat>, insertFault: bool)
      returns (errors: seq<RegError>, session: Option<Session>)
      requires Valid()
      modifies this
      ensures Valid()
      ensures errors == RegisterErrors(old(users), form, rolesFailed, isEmail, lookupFault, insertFault)
      ensures errors == [] ==>
        && form.roleId.Some?
        && users == old(users) + [NewUser(old(nextId), form, hash)]
        && nextId == old(nextId) + 1
        && session == Some(Session(old(nextId), Trim(form.username), Trim(form.email)))
      ensures errors != [] ==> users == old(users) && nextId == old(nextId) && session.None?
    {
      session := None;
      errors := ValidateForm(form, rolesFailed, isEmail);
      var username := Trim(form.username);
      var email := Trim(form.email);
      if errors == [] {
        errors := CheckDuplicates(username, email, lookupFault);
      }
      if errors == [] {
        if insertFault {
          errors := [RegistrationFailed];
        } else {
          session := Some(Session(nextId, username, email));
          InsertUser(NewUser(nextId, form, hash));
        }
      }
    }
  }

  /** The checks of pages/register.php:28-58, appended one by one after the
      message of a failed role query. */
  method ValidateForm(form: RegForm, rolesFailed: bool, isEmail: string -> bool) returns (errors: seq<RegError>)
    ensures errors == (if rolesFailed then [RolesUnavailable] else []) + FieldErrors(form, isEmail)
    ensures errors == [] <==> !rolesFailed && FormAcceptable(form, isEmail)
  {
    var fields := Listed(RoleError(form.roleId));
    fields := fields + Listed(UsernameError(Trim(form.username)));
    fields := fields + Listed(EmailError(Trim(form.email), isEmail));
    fields := fields + Listed(PasswordError(form.password));
    if form.password != form.confirm {
      fields := fields + [PasswordMismatch];
    }
    errors := (if rolesFailed then [RolesUnavailable] else []) + fields;
  }

  // ---------------------------------------------------------------------
  // The page's script, pages/register.php:441-524
  // ---------------------------------------------------------------------

  /** The points of the strength meter before clamping. */
  function Points(p: string): nat
  {
    (if CodeUnits(p) >= 8 then 25 else 0)
    + (if CodeUnits(p) >= 12 then 10 else 0)
    + (if HasUpper(p) then 20 else 0)
    + (if HasLower(p) then 20 else 0)
    + (if HasDigit(p) then 20 else 0)
    + (if HasOther(p) then 15 else 0)
  }

  /** The width, in percent, of the strength bar. */
  function Strength(p: string): (s: int)
    ensures 0 <= s <= 100
  {
    if Points(p) < 100 then Points(p) else 100
  }

  /** '#ff4444', '#ffbb33' and '#00C851'. */
  datatype Colour = Red | Amber | Green

  function ColourOf(strength: int): Colour
  {
    if strength < 40 then Red else if strength < 70 then Amber else Green
  }

  /** The `input` listener of the password field, pages/register.php:447-475. */
  method ShowStrength(p: string) returns (width: int, colour: Colour)
    ensures width == Strength(p) && colour == ColourOf(width)
    ensures 0 <= width <= 100
  {
    var strength := 0;
    var length := CodeUnits(p);
    if length >= 8 { strength := strength + 25; }
    if length >= 12 { strength := strength + 10; }
    if HasUpper(p) { strength := strength + 20; }
    if HasLower(p) { strength := strength + 20; }
    if HasDigit(p) { strength := strength + 20; }
    if HasOther(p) { strength := strength + 15; }
    strength := if strength < 100 then strength else 100;
    width := strength;
    if strength < 40 {
      colour := Red;
    } else if strength < 70 {
      colour := Amber;
    } else {
      colour := Green;
    }
  }

  /** The bar is full exactly when the password has 8 code units and all
      four kinds of character; the extra points for 12 code units only
      matter for a password lacking one kind. */
  lemma FullStrengthIff(p: string)
    ensures Strength(p) == 100 <==>
      CodeUnits(p) >= 8 && HasUpper(p) && HasLower(p) && HasDigit(p) && HasOther(p)
  {
  }

  /** validatePasswordMatch, pages/register.php:478-491: false exactly when
      a confirmation has been typed and differs from the password. */
  predicate PasswordsMatch(p: string, confirm: string)
  {
    !(confirm != "" && p != confirm)
  }

  /** The submit listener's test, pages/register.php:497-516. */
  predicate ScriptAllows(p: string, confirm: string)
  {
    PasswordsMatch(p, confirm) && CodeUnits(p) >= 8 && HasUpper(p) && HasLower(p) && HasDigit(p)
  }

  /** Every password the submit listener lets through shows a green bar of
      at least 85 percent. */
  lemma AllowedPasswordIsGreen(p: string, confirm: string)
    requires ScriptAllows(p, confirm)
    ensures Strength(p) >= 85 && ColourOf(Strength(p)) == Green
  {
  }

  /** A green bar does not mean the password will be let through: "aA1!"
      scores 75 with four characters. */
  lemma GreenBarMayBeRefused()
    ensures ColourOf(Strength("aA1!")) == Green && !ScriptAllows("aA1!", "aA1!")
  {
    var p := "aA1!";
    assert IsLower(p[0]) && IsUpper(p[1]) && IsDigit(p[2]);
    assert !IsUpper(p[3]) && !IsLower(p[3]) && !IsDigit(p[3]);
    assert CodeUnits(p) == 4;
  }

  /** The alerts of the submit listener. */
  datatype SubmitAlert =
    | MismatchAlert     // "Passwords do not match!"
    | RequirementsAlert // "Password does not meet the requirements. ..."

  /** The "Create Account" button. */
  class SubmitButton {
    var caption: string
    var disabled: bool

    constructor()
      ensures caption == "Create Account" && !disabled
    {
      caption := "Create Account";
      disabled := false;
    }
  }

  /** The submit listener, pages/register.php:497-524: it blocks the post
      with an alert, or lets it go and turns the button into its loading
      state. */
  method OnSubmit(button: SubmitButton, p: string, confirm: string)
    returns (alert: Option<SubmitAlert>, submitted: bool)
    modifies button
    ensures submitted <==> ScriptAllows(p, confirm)
    ensures alert.None? <==> submitted
    ensures alert == Some(MismatchAlert) <==> !PasswordsMatch(p, confirm)
    ensures submitted ==> button.caption == "Creating Account..." && button.disabled
    ensures !submitted ==> unchanged(button)
  {
    if !PasswordsMatch(p, confirm) {
      return Some(MismatchAlert), false;
    }
    var length := CodeUnits(p);
    if length < 8 || !HasUpper(p) || !HasLower(p) || !HasDigit(p) {
      return Some(RequirementsAlert), false;
    }
    button.caption := "Creating Account...";
    button.disabled := true;
    alert, submitted := None, true;
  }

  /** What the script lets through, with the confirmation filled in (the
      field is `required` in the markup), passes the server's password
      checks: 8 code units are at least 8 bytes, and a password with a
      letter is neither "" nor "0". */
  lemma ScriptGateSound(p: string, confirm: string)
    requires ScriptAllows(p, confirm) && confirm != ""
    ensures PasswordError(p).None? && p == confirm
  {
    CodeUnitsAtMostBytes(p);
  }

  /** The script alone lets an empty confirmation through, which the server
      then refuses as a mismatch: only the `required` attribute of the
      confirmation field keeps such a form from being posted. */
  lemma EmptyConfirmationPassesScript()
    ensures ScriptAllows("Abcdefg1", "") && "Abcdefg1" != ""
  {
    var p := "Abcdefg1";
    assert IsUpper(p[0]) && IsLower(p[1]) && IsDigit(p[7]);
  }

  /** The server counts bytes and the script code units, so the script is
      the stricter of the two on non-ASCII text: "Abcdéf1" is 8 bytes but
      7 code units. */
  lemma ScriptStricterOnNonAscii()
    ensures var p := "Abcd\U{E9}f1"; PasswordError(p).None? && !ScriptAllows(p, p)
  {
    var p := "Abcd\U{E9}f1";
    assert IsUpper(p[0]) && IsLower(p[1]) && IsDigit(p[6]);
    assert CodeUnits(p) == 7;
    assert ByteLength(p) == 8;
  }
}
