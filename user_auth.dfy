/** Registration in the user authentication service: an email is registered
    at most once, with the hash of its password. */
module UserAuth {
  import opened Common
  import Utf8
  import opened UserDb

  /** `bcrypt.hashpw(password.encode('utf-8'), salt)` with the salted hash
      abstracted as `hash`. */
  function HashPassword(password: string, hash: seq<byte> -> seq<byte>): (r: seq<byte>)
    ensures exists octets :: Utf8.Decode(octets) == Some(password) && r == hash(octets)
  {
    Utf8.DecodeEncode(password);
    hash(Utf8.Encode(password))
  }

  /** Some row already has the email. */
  predicate EmailTaken(users: seq<User>, email: string)
  {
    exists i :: 0 <= i < |users| && users[i].email == Str(email)
  }

  /** The query by email. */
  function EmailQuery(email: string): Kwargs
  {
    [("email", Str(email))]
  }

  /** A row matches the email query exactly when it has that email, so the
      query fails exactly when the email is free. */
  lemma EmailQueryMatches(users: seq<User>, email: string)
    ensures forall u :: Matches(u, EmailQuery(email)) <==> u.email == Str(email)
    ensures FirstMatch(users, EmailQuery(email)).None? <==> !EmailTaken(users, email)
  {
    forall u ensures Matches(u, EmailQuery(email)) <==> u.email == Str(email) {
      assert EmailQuery(email)[0] == ("email", Str(email));
    }
  }

  class Auth {
    const db: DB

    /** A service over a new, empty database. */
    constructor ()
      ensures fresh(db) && db.users == []
    {
      db := new DB();
    }

    /** Registers `email` with the hash of `password`: `ValueError` and
        nothing stored when the email is taken, otherwise exactly one new
        row, which is returned and which a search by that email finds. */
    method RegisterUser(email: string, password: string, hash: seq<byte> -> seq<byte>)
      returns (r: Outcome<User>)
      modifies db
      ensures EmailTaken(old(db.users), email) ==> r == Raised(ValueError) && db.users == old(db.users)
      ensures !EmailTaken(old(db.users), email) ==>
        r.Returned? && db.users == old(db.users) + [r.value] &&
        r.value.email == Str(email) && r.value.hashedPassword == Bytes(HashPassword(password, hash)) &&
        r.value.sessionId == Null && r.value.resetToken == Null
      ensures r.Returned? ==> db.FindUserBy(EmailQuery(email)) == Returned(r.value)
      ensures EmailsUnique(old(db.users)) ==> EmailsUnique(db.users)
    {
      EmailQueryMatches(db.users, email);
      var existing := db.FindUserBy(EmailQuery(email));
      if existing.Returned? {
        return Raised(ValueError);
      }
      var hashed := HashPassword(password, hash);
      ghost var before := db.users;
      var u := db.AddUser(email, Bytes(hashed));
      FirstIndexAppendMatch(before, u, email);
      r := Returned(u);
    }
  }

  /** A row with a fresh email appended to a table is the first, and only,
      row the email query finds. */
  lemma FirstIndexAppendMatch(users: seq<User>, u: User, email: string)
    requires !EmailTaken(users, email) && u.email == Str(email)
    ensures FirstMatch(users + [u], EmailQuery(email)) == Some(|users|)
    ensures EmailsUnique(users) ==> EmailsUnique(users + [u])
  {
    EmailQueryMatches(users, email);
    Seqs.FirstIndexAppend(users, u, v => Matches(v, EmailQuery(email)));
    var t := users + [u];
    assert forall i :: 0 <= i < |users| ==> t[i] == users[i];
  }

  /** Registering one email twice in a row: the first call stores it, the
      second is refused and stores nothing. */
  method RegisterTwice(auth: Auth, email: string, password: string, hash: seq<byte> -> seq<byte>)
    returns (first: Outcome<User>, second: Outcome<User>)
    modifies auth.db
    ensures !EmailTaken(old(auth.db.users), email) ==> first.Returned?
    ensures second == Raised(ValueError)
    ensures first.Returned? ==> auth.db.users == old(auth.db.users) + [first.value]
  {
    first := auth.RegisterUser(email, password, hash);
    assert EmailTaken(auth.db.users, email) by {
      if first.Returned? {
        assert auth.db.users[|auth.db.users| - 1] == first.value;
      }
    }
    second := auth.RegisterUser(email, password, hash);
  }
}
