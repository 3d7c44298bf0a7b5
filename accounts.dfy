/**
  Accounts and verification codes: register, verify_registration, verify_code,
  forgot_password and reset_password.

  The user and code collections are sequences in insertion order; a lookup
  that the source does with find_one returns the first record that matches.
  Time is a whole number of seconds supplied by the caller. Password hashes,
  user ids and generated codes are produced outside the model and passed in.
*/
module Accounts {
  import opened Wrappers

  datatype Purpose = Registration | PasswordReset

  datatype User = User(id: string, username: string, email: string, hashedPassword: string)

  datatype CodeRecord = CodeRecord(userId: string, code: string, purpose: Purpose, createdAt: int, expiresAt: int)

  datatype AuthError =
    | DuplicateEmail     // "email already registered" (400)
    | DuplicateUsername  // "username already exists" (400)
    | UnknownEmail       // forgot_password for an unknown address (404)
    | InvalidCode        // no stored code with this value and purpose (400)
    | ExpiredCode        // the matched code is past its expiry (400)
    | UserNotFound       // the matched code's user does not have this email (400)

  /** Lifetime of a registration code: 10 minutes, in seconds. */
  const RegistrationTtl: int := 600
  /** Lifetime of a password-reset code: 15 minutes, in seconds. */
  const PasswordResetTtl: int := 900

  /** What the code generator produces: six decimal digits. */
  predicate IsVerificationCode(code: string) {
    |code| == 6 && forall i | 0 <= i < 6 :: '0' <= code[i] <= '9'
  }

  /** Position of the first element satisfying `p`, as find_one returns the first match. */
  function FirstIndex<T>(s: seq<T>, p: T -> bool): (r: Option<nat>)
    ensures r.Some? ==> r.value < |s| && p(s[r.value]) && forall k | 0 <= k < r.value :: !p(s[k])
    ensures r.None? <==> forall k | 0 <= k < |s| :: !p(s[k])
  {
    if s == [] then None
    else if p(s[0]) then Some(0)
    else match FirstIndex(s[1..], p)
      case None => None
      case Some(k) => Some(k + 1)
  }

  predicate IsUpper(ch: char) {
    'A' <= ch <= 'Z'
  }

  /** ASCII lower-casing of one character. */
  function LowerChar(ch: char): (r: char)
    ensures !IsUpper(r)
    ensures IsUpper(ch) ==> 'a' <= r <= 'z' && r as int - 'a' as int == ch as int - 'A' as int
    ensures !IsUpper(ch) ==> r == ch
  {
    if IsUpper(ch) then (ch as int + 32) as char else ch
  }

  /**
    The address as register stores it: every ASCII upper-case letter replaced
    by its lower-case letter, every other character kept. The address is left
    as it is exactly when it has no upper-case letter.
  */
  function Lower(s: string): (r: string)
    ensures |r| == |s|
    ensures forall i | 0 <= i < |s| :: !IsUpper(r[i])
    ensures forall i | 0 <= i < |s| && !IsUpper(s[i]) :: r[i] == s[i]
    ensures forall i | 0 <= i < |s| && IsUpper(s[i]) :: r[i] as int - 'a' as int == s[i] as int - 'A' as int
    ensures r == s <==> forall i | 0 <= i < |s| :: !IsUpper(s[i])
  {
    var r := seq(|s|, i requires 0 <= i < |s| => LowerChar(s[i]));
    assert (forall i | 0 <= i < |s| :: !IsUpper(s[i])) ==> r == s;
    r
  }

  /** Lower-casing a stored address again changes nothing. */
  lemma LowerIdempotent(s: string)
    ensures Lower(Lower(s)) == Lower(s)
  {
  }

  predicate HasEmail(users: seq<User>, email: string) {
    exists k | 0 <= k < |users| :: users[k].email == email
  }

  predicate HasUsername(users: seq<User>, username: string) {
    exists k | 0 <= k < |users| :: users[k].username == username
  }

  /** Some user has both this id and this email (the user lookup of the code checks). */
  predicate HasUser(users: seq<User>, id: string, email: string) {
    exists k | 0 <= k < |users| :: users[k].id == id && users[k].email == email
  }

  /**
    The duplicate checks of register: the email first, then the username. The
    submitted address is compared as given, while stored addresses are lower-cased.
  */
  function CheckRegistration(users: seq<User>, username: string, email: string): (r: Outcome<AuthError>)
    ensures r == Fail(DuplicateEmail) <==> HasEmail(users, email)
    ensures r == Fail(DuplicateUsername) <==> !HasEmail(users, email) && HasUsername(users, username)
    ensures r == Pass <==> !HasEmail(users, email) && !HasUsername(users, username)
  {
    if FirstIndex(users, (u: User) => u.email == email).Some? then Fail(DuplicateEmail)
    else if FirstIndex(users, (u: User) => u.username == username).Some? then Fail(DuplicateUsername)
    else Pass
  }

  predicate Matches(rec: CodeRecord, code: string, purpose: Purpose) {
    rec.code == code && rec.purpose == purpose
  }

  /** Position i holds the first record with this code and purpose. */
  predicate IsFirstMatch(codes: seq<CodeRecord>, i: int, code: string, purpose: Purpose) {
    && 0 <= i < |codes|
    && Matches(codes[i], code, purpose)
    && forall k | 0 <= k < i :: !Matches(codes[k], code, purpose)
  }

  /**
    The checks shared by verify_registration, verify_code and reset_password,
    in the source's order: a code with this value and purpose must exist, the
    first such code must not have expired (it is still valid at exactly its
    expiry instant), and its user must have the submitted email. On success the
    result is the position of the matched code.
  */
  function ValidateCode(users: seq<User>, codes: seq<CodeRecord>, code: string, purpose: Purpose,
                        email: string, now: int): (r: Result<nat, AuthError>)
    ensures r == Failure(InvalidCode) <==> forall k | 0 <= k < |codes| :: !Matches(codes[k], code, purpose)
    ensures forall i | IsFirstMatch(codes, i, code, purpose) ::
      && (r == Failure(ExpiredCode) <==> codes[i].expiresAt < now)
      && (r == Failure(UserNotFound) <==> now <= codes[i].expiresAt && !HasUser(users, codes[i].userId, email))
    ensures r.Failure? ==> r.error in {InvalidCode, ExpiredCode, UserNotFound}
    ensures r.Success? ==>
      && IsFirstMatch(codes, r.value, code, purpose)
      && now <= codes[r.value].expiresAt
      && HasUser(users, codes[r.value].userId, email)
  {
    var found := FirstIndex(codes, (rec: CodeRecord) => Matches(rec, code, purpose));
    if found.None? then Failure(InvalidCode)
    else
      var i := found.value;
      assert IsFirstMatch(codes, i, code, purpose);
      assert forall j | IsFirstMatch(codes, j, code, purpose) :: j == i;
      if codes[i].expiresAt < now then Failure(ExpiredCode)
      else
        var owner := FirstIndex(users, (u: User) => u.id == codes[i].userId && u.email == email);
        assert owner.None? <==> !HasUser(users, codes[i].userId, email);
        if owner.None? then Failure(UserNotFound) else Success(i)
  }

  /** The sequence without its element at position i (a record deletion). */
  function RemoveAt<T>(s: seq<T>, i: nat): (r: seq<T>)
    requires i < |s|
    ensures |r| == |s| - 1
    ensures forall k | 0 <= k < i :: r[k] == s[k]
    ensures forall k | i <= k < |r| :: r[k] == s[k + 1]
  {
    s[..i] + s[i + 1..]
  }

  /** How many stored codes have this value and purpose. */
  function CountMatches(codes: seq<CodeRecord>, code: string, purpose: Purpose): nat {
    if codes == [] then 0
    else (if Matches(codes[0], code, purpose) then 1 else 0) + CountMatches(codes[1..], code, purpose)
  }

  /** The lookup finds nothing exactly when no stored code has this value and purpose. */
  lemma {:induction false} CountMatchesZero(codes: seq<CodeRecord>, code: string, purpose: Purpose)
    ensures CountMatches(codes, code, purpose) == 0 <==> forall k | 0 <= k < |codes| :: !Matches(codes[k], code, purpose)
  {
    if codes != [] {
      CountMatchesZero(codes[1..], code, purpose);
      assert forall k | 1 <= k < |codes| :: codes[k] == codes[1..][k - 1];
    }
  }

  /** Deleting a matching record leaves exactly one fewer match. */
  lemma {:induction false} RemoveMatchCount(codes: seq<CodeRecord>, i: nat, code: string, purpose: Purpose)
    requires i < |codes| && Matches(codes[i], code, purpose)
    ensures CountMatches(RemoveAt(codes, i), code, purpose) == CountMatches(codes, code, purpose) - 1
  {
    if i > 0 {
      RemoveMatchCount(codes[1..], i - 1, code, purpose);
      assert RemoveAt(codes, i) == [codes[0]] + RemoveAt(codes[1..], i - 1);
    } else {
      assert RemoveAt(codes, i) == codes[1..];
    }
  }

  /**
    A successful check consumes one use: once the matched record is deleted,
    one fewer stored code carries this value and purpose.
  */
  lemma ConsumeUsesOneMatch(users: seq<User>, codes: seq<CodeRecord>, code: string, purpose: Purpose,
                            email: string, now: int, i: nat)
    requires ValidateCode(users, codes, code, purpose, email, now).Success?
    requires ValidateCode(users, codes, code, purpose, email, now).value == i
    ensures i < |codes|
    ensures CountMatches(RemoveAt(codes, i), code, purpose) == CountMatches(codes, code, purpose) - 1
  {
    RemoveMatchCount(codes, i, code, purpose);
  }

  /**
    Single use: when the matched record was the only one with this value and
    purpose, repeating the call after it succeeded fails as an invalid code,
    whatever the users, the email and the time are then.
  */
  lemma SingleUse(users: seq<User>, codes: seq<CodeRecord>, code: string, purpose: Purpose, email: string, now: int,
                  i: nat, users': seq<User>, email': string, now': int)
    requires ValidateCode(users, codes, code, purpose, email, now).Success?
    requires ValidateCode(users, codes, code, purpose, email, now).value == i
    requires CountMatches(codes, code, purpose) == 1
    ensures i < |codes|
    ensures ValidateCode(users', RemoveAt(codes, i), code, purpose, email', now') == Failure(InvalidCode)
  {
    ConsumeUsesOneMatch(users, codes, code, purpose, email, now, i);
    CountMatchesZero(RemoveAt(codes, i), code, purpose);
  }

  /**
    A code issued by a registration can confirm it right away, up to and
    including its expiry instant, provided the address was already lower-case
    and no older registration code carries the same digits.
  */
  lemma ConfirmAfterRegister(users: seq<User>, codes: seq<CodeRecord>, username: string, email: string,
                             hashedPassword: string, userId: string, code: string, now: int, t: int)
    requires CheckRegistration(users, username, email) == Pass
    requires Lower(email) == email
    requires forall k | 0 <= k < |codes| :: !Matches(codes[k], code, Registration)
    requires t <= now + RegistrationTtl
    ensures ValidateCode(users + [User(userId, username, Lower(email), hashedPassword)],
                         codes + [CodeRecord(userId, code, Registration, now, now + RegistrationTtl)],
                         code, Registration, email, t) == Success(|codes|)
  {
    var users' := users + [User(userId, username, Lower(email), hashedPassword)];
    var codes' := codes + [CodeRecord(userId, code, Registration, now, now + RegistrationTtl)];
    assert IsFirstMatch(codes', |codes|, code, Registration);
    assert users'[|users|].id == userId && users'[|users|].email == email;
  }

  /**
    Codes are only deleted by a successful check, so an unconfirmed
    registration's code stays stored. A later registration that draws the
    same digits cannot be confirmed: the lookup finds the older, expired code.
  */
  lemma StaleCodeShadowsFresh()
    ensures ValidateCode([User("u1", "ann", "a@x.com", "h1"), User("u2", "bob", "b@x.com", "h2")],
                         [CodeRecord("u1", "123456", Registration, 0, RegistrationTtl),
                          CodeRecord("u2", "123456", Registration, 5000, 5000 + RegistrationTtl)],
                         "123456", Registration, "b@x.com", 5000) == Failure(ExpiredCode)
  {
    var codes := [CodeRecord("u1", "123456", Registration, 0, RegistrationTtl),
                  CodeRecord("u2", "123456", Registration, 5000, 5000 + RegistrationTtl)];
    assert IsFirstMatch(codes, 0, "123456", Registration);
  }

  /**
    The stored address is lower-cased but the confirmation looks it up as
    submitted: a registration made with upper-case letters in its address
    cannot be confirmed with that same address.
  */
  lemma MixedCaseEmailCannotConfirm(users: seq<User>, codes: seq<CodeRecord>, username: string, email: string,
                                    hashedPassword: string, userId: string, code: string, now: int, t: int)
    requires CheckRegistration(users, username, email) == Pass
    requires Lower(email) != email
    requires !HasUser(users, userId, email)
    requires forall k | 0 <= k < |codes| :: !Matches(codes[k], code, Registration)
    requires t <= now + RegistrationTtl
    ensures ValidateCode(users + [User(userId, username, Lower(email), hashedPassword)],
                         codes + [CodeRecord(userId, code, Registration, now, now + RegistrationTtl)],
                         code, Registration, email, t) == Failure(UserNotFound)
  {
    var users' := users + [User(userId, username, Lower(email), hashedPassword)];
    var codes' := codes + [CodeRecord(userId, code, Registration, now, now + RegistrationTtl)];
    assert IsFirstMatch(codes', |codes|, code, Registration);
    assert !HasUser(users', userId, email) by {
      forall k | 0 <= k < |users'| ensures !(users'[k].id == userId && users'[k].email == email) {
        if k < |users| {
          assert users'[k] == users[k];
        }
      }
    }
  }

  /** Once an address that is already lower-case is registered, registering it again is refused. */
  lemma DuplicateEmailAfterRegister(users: seq<User>, username: string, email: string, hashedPassword: string,
                                    userId: string, otherName: string)
    requires Lower(email) == email
    ensures CheckRegistration(users + [User(userId, username, Lower(email), hashedPassword)], otherName, email)
            == Fail(DuplicateEmail)
  {
    var users' := users + [User(userId, username, Lower(email), hashedPassword)];
    assert users'[|users|].email == email;
  }

  /**
    The user and verification-code collections. Each method is one request
    handler; a handler that fails leaves both collections as they were.
  */
  class AccountStore {
    var users: seq<User>
    var codes: seq<CodeRecord>

    constructor ()
      ensures users == [] && codes == []
    {
      users := [];
      codes := [];
    }

    /**
      register: refuse a known email, then a known username; otherwise store the
      user with a lower-cased address and a registration code valid for 10 minutes.
    */
    method Register(username: string, email: string, hashedPassword: string, userId: string, code: string, now: int)
      returns (r: Result<User, AuthError>)
      requires IsVerificationCode(code)
      modifies this
      ensures r.Failure? <==> CheckRegistration(old(users), username, email).Fail?
      ensures r.Failure? ==>
        && r.error == CheckRegistration(old(users), username, email).error
        && users == old(users) && codes == old(codes)
      ensures r.Success? ==>
        && r.value == User(userId, username, Lower(email), hashedPassword)
        && users == old(users) + [r.value]
        && codes == old(codes) + [CodeRecord(userId, code, Registration, now, now + RegistrationTtl)]
    {
      var check := CheckRegistration(users, username, email);
      if check.Fail? {
        return Failure(check.error);
      }
      var newUser := User(userId, username, Lower(email), hashedPassword);
      users := users + [newUser];
      codes := codes + [CodeRecord(userId, code, Registration, now, now + RegistrationTtl)];
      r := Success(newUser);
    }

    /**
      forgot_password: the first user with this email gets a password-reset
      code valid for 15 minutes; an unknown email is refused.
    */
    method ForgotPassword(email: string, code: string, now: int) returns (r: Outcome<AuthError>)
      requires IsVerificationCode(code)
      modifies this
      ensures users == old(users)
      ensures r.Pass? <==> HasEmail(old(users), email)
      ensures r.Fail? ==> r == Fail(UnknownEmail)
      ensures r == Fail(UnknownEmail) ==> codes == old(codes)
      ensures r.Pass? ==>
        var k := FirstIndex(old(users), (u: User) => u.email == email).value;
        codes == old(codes) + [CodeRecord(old(users)[k].id, code, PasswordReset, now, now + PasswordResetTtl)]
    {
      var found := FirstIndex(users, (u: User) => u.email == email);
      if found.None? {
        return Fail(UnknownEmail);
      }
      codes := codes + [CodeRecord(users[found.value].id, code, PasswordReset, now, now + PasswordResetTtl)];
      r := Pass;
    }

    /** verify_registration: check a registration code and delete it on success. */
    method VerifyRegistration(email: string, code: string, now: int) returns (r: Outcome<AuthError>)
      modifies this
      ensures users == old(users)
      ensures var v := ValidateCode(old(users), old(codes), code, Registration, email, now);
        && (v.Failure? ==> r == Fail(v.error) && codes == old(codes))
        && (v.Success? ==> r == Pass && codes == RemoveAt(old(codes), v.value))
    {
      var v := ValidateCode(users, codes, code, Registration, email, now);
      if v.Failure? {
        return Fail(v.error);
      }
      codes := RemoveAt(codes, v.value);
      r := Pass;
    }

    /** verify_code: check a password-reset code; like verify_registration, it deletes the code on success. */
    method VerifyCode(email: string, code: string, now: int) returns (r: Outcome<AuthError>)
      modifies this
      ensures users == old(users)
      ensures var v := ValidateCode(old(users), old(codes), code, PasswordReset, email, now);
        && (v.Failure? ==> r == Fail(v.error) && codes == old(codes))
        && (v.Success? ==> r == Pass && codes == RemoveAt(old(codes), v.value))
    {
      var v := ValidateCode(users, codes, code, PasswordReset, email, now);
      if v.Failure? {
        return Fail(v.error);
      }
      codes := RemoveAt(codes, v.value);
      r := Pass;
    }

    /**
      reset_password: check a password-reset code; on success replace the
      password hash of the first user with the code's user id and this email,
      and only that, then delete the code.
    */
    method ResetPassword(email: string, code: string, newHashedPassword: string, now: int) returns (r: Outcome<AuthError>)
      modifies this
      ensures var v := ValidateCode(old(users), old(codes), code, PasswordReset, email, now);
        && (v.Failure? ==> r == Fail(v.error) && users == old(users) && codes == old(codes))
        && (v.Success? ==>
              && r == Pass
              && codes == RemoveAt(old(codes), v.value)
              && exists k | 0 <= k < |old(users)| ::
                   && old(users)[k].id == old(codes)[v.value].userId
                   && old(users)[k].email == email
                   && (forall j | 0 <= j < k :: !(old(users)[j].id == old(codes)[v.value].userId && old(users)[j].email == email))
                   && users == old(users)[k := old(users)[k].(hashedPassword := newHashedPassword)])
    {
      var v := ValidateCode(users, codes, code, PasswordReset, email, now);
      if v.Failure? {
        return Fail(v.error);
      }
      var owner := codes[v.value].userId;
      var found := FirstIndex(users, (u: User) => u.id == owner && u.email == email);
      assert found.Some?;
      var k := found.value;
      users := users[k := users[k].(hashedPassword := newHashedPassword)];
      codes := RemoveAt(codes, v.value);
      r := Pass;
    }
  }
}
