/**
 * What one `POST /signup` does to the response and to the stored users, and what two
 * sign-ups in a row do, proved about `Signup.SignupSpec`.
 */
module SignupProperties {
  import opened Wrappers
  import opened Text
  import opened Patterns
  import opened Users
  import opened Signup

  /**
   * A request that fails validation is answered 403 with that rule's message before anything
   * is hashed or any username generated: the hash, the suffix and the store's behaviour make
   * no difference, and the stored users are unchanged.
   */
  lemma RejectedBeforeHashing(users: seq<User>, body: SignupBody,
                              hash1: HashOutcome, suffix1: string, fault1: Option<StoreError>,
                              hash2: HashOutcome, suffix2: string, fault2: Option<StoreError>)
    requires IsSuffix(suffix1) && IsSuffix(suffix2)
    requires Validate(body).Err?
    ensures SignupSpec(users, body, hash1, suffix1, fault1) == SignupSpec(users, body, hash2, suffix2, fault2)
    ensures SignupSpec(users, body, hash1, suffix1, fault1) == Outcome(Response(403, MsgBody(Message(Validate(body).error))), users)
  {
  }

  /** A failed hash is a 500 "Server error", and nothing is stored. */
  lemma HashFailureStoresNothing(users: seq<User>, body: SignupBody, suffix: string, fault: Option<StoreError>)
    requires IsSuffix(suffix)
    requires Validate(body).Ok?
    ensures SignupSpec(users, body, HashFailed, suffix, fault) == Outcome(Response(500, MsgBody("Server error")), users)
  {
  }

  /** A sign-up answers 200 exactly when every rule passes, hashing works, and neither the email nor the derived username is stored yet. */
  lemma SignupSucceedsIff(users: seq<User>, body: SignupBody, hash: HashOutcome, suffix: string, fault: Option<StoreError>)
    requires IsSuffix(suffix)
    ensures SignupSpec(users, body, hash, suffix, fault).response.status == 200 <==>
      && Validate(body).Ok? && hash.Hashed? && fault.None?
      && !HasEmail(users, body.email.value)
      && !HasUsername(users, Username(users, body.email.value, suffix))
  {
  }

  /**
   * A 200 adds exactly one user at the end and leaves the others as they were. The new user
   * holds the request's fullname and email, the derived username and the digest, which is
   * never the plaintext password, and the response carries that whole document.
   */
  lemma SuccessAddsOneUser(users: seq<User>, body: SignupBody, hash: HashOutcome, suffix: string, fault: Option<StoreError>)
    requires IsSuffix(suffix)
    requires SignupSpec(users, body, hash, suffix, fault).response.status == 200
    ensures var o := SignupSpec(users, body, hash, suffix, fault);
      && Validate(body).Ok? && hash.Hashed?
      && |o.users| == |users| + 1 && o.users[..|users|] == users
      && o.users[|users|] == User(body.fullname.value, Username(users, body.email.value, suffix), body.email.value, hash.digest)
      && o.users[|users|].password != body.password.value
      && o.response.body == UserBody(o.users[|users|])
  {
    var c := Validate(body).value;
    assert IsStrongPassword(c.password);
    assert |c.password| <= 20 < |hash.digest|;
    var o := SignupSpec(users, body, hash, suffix, fault);
    assert o.users == users + [NewUser(users, c, hash.digest, suffix)];
  }

  /** Every failure other than validation also leaves the stored users unchanged. */
  lemma FailureStoresNothing(users: seq<User>, body: SignupBody, hash: HashOutcome, suffix: string, fault: Option<StoreError>)
    requires IsSuffix(suffix)
    requires SignupSpec(users, body, hash, suffix, fault).response.status != 200
    ensures SignupSpec(users, body, hash, suffix, fault).users == users
    ensures SignupSpec(users, body, hash, suffix, fault).response.status in {403, 500}
  {
  }

  /** A store failure with code 11000 is reported as 500 "Email already exists"; any other as 500 with its message. */
  lemma StoreErrorMapping(users: seq<User>, body: SignupBody, digest: BcryptDigest, suffix: string, err: StoreError)
    requires IsSuffix(suffix)
    requires Validate(body).Ok?
    ensures var o := SignupSpec(users, body, Hashed(digest), suffix, Some(err));
      && o.users == users
      && (err.code == DuplicateKeyCode ==> o.response == Response(500, MsgBody("Email already exists")))
      && (err.code != DuplicateKeyCode ==> o.response == Response(500, ServerErrorBody(err.message)))
  {
  }

  /** Signing up with an email that is already stored gives 500 "Email already exists" (not a 4xx). */
  lemma DuplicateEmailRejected(users: seq<User>, body: SignupBody, digest: BcryptDigest, suffix: string)
    requires IsSuffix(suffix)
    requires Validate(body).Ok? && HasEmail(users, body.email.value)
    ensures SignupSpec(users, body, Hashed(digest), suffix, None) == Outcome(Response(500, MsgBody("Email already exists")), users)
  {
  }

  /** After one successful sign-up, a second one with the same email always fails. */
  lemma SecondSignupWithSameEmailFails(users: seq<User>, first: SignupBody, hash1: HashOutcome, suffix1: string,
                                       second: SignupBody, digest2: BcryptDigest, suffix2: string)
    requires IsSuffix(suffix1) && IsSuffix(suffix2)
    requires SignupSpec(users, first, hash1, suffix1, None).response.status == 200
    requires Validate(second).Ok? && second.email == first.email
    ensures var after := SignupSpec(users, first, hash1, suffix1, None).users;
      SignupSpec(after, second, Hashed(digest2), suffix2, None) == Outcome(Response(500, MsgBody("Email already exists")), after)
  {
    SuccessAddsOneUser(users, first, hash1, suffix1, None);
    var after := SignupSpec(users, first, hash1, suffix1, None).users;
    assert after[|users|].email == second.email.value;
    DuplicateEmailRejected(after, second, digest2, suffix2);
  }

  /** No sign-up can make two stored users share an email or a username. */
  lemma SignupKeepsKeysUnique(users: seq<User>, body: SignupBody, hash: HashOutcome, suffix: string, fault: Option<StoreError>)
    requires IsSuffix(suffix)
    requires KeysUnique(users)
    ensures KeysUnique(SignupSpec(users, body, hash, suffix, fault).users)
  {
    if Validate(body).Ok? && hash.Hashed? {
      SaveKeepsKeysUnique(users, NewUser(users, Validate(body).value, hash.digest, suffix), fault);
    }
  }

  /** For an accepted email the username is its non-empty local part, possibly followed by the three suffix characters, and never holds `@`. */
  lemma UsernameOfValidEmail(users: seq<User>, email: string, suffix: string)
    requires IsSuffix(suffix) && IsEmail(email)
    ensures var r := Username(users, email, suffix);
      && r[..FirstIndex(email, '@')] == email[..FirstIndex(email, '@')]
      && (|r| == FirstIndex(email, '@') || |r| == FirstIndex(email, '@') + 3)
      && |r| > 0 && '@' !in r
  {
    EmailHasOneAt(email);
    var base := BeforeFirst(email, '@');
    assert base == email[..FirstIndex(email, '@')];
    var r := Username(users, email, suffix);
    if HasUsername(users, base) {
      assert r == base + suffix;
      forall k | 0 <= k < |r|
        ensures r[k] != '@'
      {
        if k >= |base| {
          assert r[k] == suffix[k - |base|];
          assert IsNanoidChar(suffix[k - |base|]);
        } else {
          assert r[k] == base[k];
        }
      }
    }
  }

  /** A request whose three fields all pass the rules. */
  lemma SampleBodyValid(fullname: string, host: char)
    requires |fullname| >= 3 && 'a' <= host <= 'z'
    ensures Validate(SignupBody(Some(fullname), Some("alice@" + [host] + ".com"), Some("Secret1"))).Ok?
    ensures BeforeFirst("alice@" + [host] + ".com", '@') == "alice"
  {
    AliceAccepted(host);
    PasswordAccepted();
    assert FirstIndex("alice@" + [host] + ".com", '@') == 5;
  }

  /** A valid request that clashes with nothing is stored as the next user, under the username derived from the users before it. */
  lemma StoredAsNext(users: seq<User>, body: SignupBody, digest: BcryptDigest, suffix: string)
    requires IsSuffix(suffix) && Validate(body).Ok?
    requires !HasEmail(users, body.email.value)
    requires !HasUsername(users, Username(users, body.email.value, suffix))
    ensures var o := SignupSpec(users, body, Hashed(digest), suffix, None);
      && o.response.status == 200
      && o.users == users + [User(body.fullname.value, Username(users, body.email.value, suffix), body.email.value, digest)]
  {
  }

  /**
   * `alice@x.com` then `alice@y.com`: both sign-ups succeed; the first user is "alice" and the
   * second "alice" followed by the suffix, so the two usernames differ.
   */
  lemma SameLocalPartTwice(digest: BcryptDigest, suffix1: string, suffix2: string)
    requires IsSuffix(suffix1) && IsSuffix(suffix2)
    ensures var first := SignupSpec([], SignupBody(Some("Alice"), Some("alice@x.com"), Some("Secret1")), Hashed(digest), suffix1, None);
      var second := SignupSpec(first.users, SignupBody(Some("Alice Two"), Some("alice@y.com"), Some("Secret1")), Hashed(digest), suffix2, None);
      && first.response.status == 200 && second.response.status == 200
      && second.users == [User("Alice", "alice", "alice@x.com", digest), User("Alice Two", "alice" + suffix2, "alice@y.com", digest)]
      && KeysUnique(second.users)
  {
    var ex, ey := "alice@" + ['x'] + ".com", "alice@" + ['y'] + ".com";
    assert ex == "alice@x.com" && ey == "alice@y.com";
    var b1 := SignupBody(Some("Alice"), Some(ex), Some("Secret1"));
    var b2 := SignupBody(Some("Alice Two"), Some(ey), Some("Secret1"));
    SampleBodyValid("Alice", 'x');
    SampleBodyValid("Alice Two", 'y');
    var u1 := User("Alice", "alice", ex, digest);
    assert Username([], ex, suffix1) == "alice";
    StoredAsNext([], b1, digest, suffix1);
    var first := SignupSpec([], b1, Hashed(digest), suffix1, None);
    assert first.users == [u1];
    assert HasUsername(first.users, "alice") by {
      assert first.users[0].username == "alice";
    }
    assert Username(first.users, ey, suffix2) == "alice" + suffix2;
    assert !HasUsername(first.users, "alice" + suffix2) by {
      assert |"alice" + suffix2| != |"alice"|;
    }
    assert !HasEmail(first.users, ey);
    StoredAsNext(first.users, b2, digest, suffix2);
    SignupKeepsKeysUnique([], b1, Hashed(digest), suffix1, None);
    SignupKeepsKeysUnique(first.users, b2, Hashed(digest), suffix2, None);
  }

  /** Two stored users: "alice", and "alice" followed by `suffix`. */
  function ClashingUsers(digest: BcryptDigest, suffix: string): seq<User> {
    [User("Alice", "alice", "alice@x.com", digest), User("Bob", "alice" + suffix, "bob@x.com", digest)]
  }

  lemma ClashingUsersFacts(digest: BcryptDigest, suffix: string)
    requires IsSuffix(suffix)
    ensures var users := ClashingUsers(digest, suffix);
      && KeysUnique(users)
      && !HasEmail(users, "alice@y.com")
      && HasUsername(users, "alice") && HasUsername(users, "alice" + suffix)
  {
    var users := ClashingUsers(digest, suffix);
    assert users[0].username == "alice" && users[1].username == "alice" + suffix;
    assert users[0].email != "alice@y.com" && users[1].email != "alice@y.com";
    assert users[0].email != users[1].email;
    assert users[0].username != users[1].username by {
      assert |users[0].username| != |users[1].username|;
    }
  }

  /**
   * The suffixed username is not checked again: when "alice" and "alice" followed by the drawn
   * suffix are both stored, signing up as `alice@y.com` fails on the username index and is
   * answered 500 "Email already exists", although that email is not stored.
   */
  lemma SuffixedUsernameClash(digest: BcryptDigest, suffix: string)
    requires IsSuffix(suffix)
    ensures var users := ClashingUsers(digest, suffix);
      && KeysUnique(users)
      && !HasEmail(users, "alice@y.com")
      && HasUsername(users, Username(users, "alice@y.com", suffix))
      && SignupSpec(users, SignupBody(Some("Alice Two"), Some("alice@y.com"), Some("Secret1")), Hashed(digest), suffix, None)
           == Outcome(Response(500, MsgBody("Email already exists")), users)
  {
    var users := ClashingUsers(digest, suffix);
    ClashingUsersFacts(digest, suffix);
    var ey := "alice@" + ['y'] + ".com";
    assert ey == "alice@y.com";
    SampleBodyValid("Alice Two", 'y');
    assert Username(users, ey, suffix) == "alice" + suffix;
    StoreErrorOnUsernameClash(users, SignupBody(Some("Alice Two"), Some(ey), Some("Secret1")), digest, suffix);
  }

  /** When the derived username is already stored, the save fails with code 11000 and the answer is 500 "Email already exists", whatever the email. */
  lemma StoreErrorOnUsernameClash(users: seq<User>, body: SignupBody, digest: BcryptDigest, suffix: string)
    requires IsSuffix(suffix) && Validate(body).Ok?
    requires HasUsername(users, Username(users, body.email.value, suffix))
    ensures SignupSpec(users, body, Hashed(digest), suffix, None) == Outcome(Response(500, MsgBody("Email already exists")), users)
  {
  }
}
