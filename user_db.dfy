/** The user table of the authentication service: records with a fixed set
    of columns, appended by `add_user`, searched by `find_user_by` for the
    first record matching every given column value, and changed column by
    column by `update_user`. */
module UserDb {
  import opened Common
  import opened Seqs

  /** A column value as the table stores it. */
  datatype Value = Null | Int(i: int) | Str(s: string) | Bytes(b: seq<byte>)

  /** The columns of the `users` table. */
  datatype Column = Id | Email | HashedPassword | SessionId | ResetToken

  /** The keyword a column is named by. */
  function ColumnName(c: Column): string
  {
    match c
    case Id => "id"
    case Email => "email"
    case HashedPassword => "hashed_password"
    case SessionId => "session_id"
    case ResetToken => "reset_token"
  }

  /** The column a keyword names, or `None` for a name that is not a column. */
  function ColumnNamed(name: string): (r: Option<Column>)
    ensures r.Some? ==> ColumnName(r.value) == name
  {
    if name == "id" then Some(Id)
    else if name == "email" then Some(Email)
    else if name == "hashed_password" then Some(HashedPassword)
    else if name == "session_id" then Some(SessionId)
    else if name == "reset_token" then Some(ResetToken)
    else None
  }

  /** Every column is found under its own name, so lookup by name is
      exactly the inverse of naming. */
  lemma ColumnNamedName(c: Column, name: string)
    ensures ColumnNamed(name) == Some(c) <==> ColumnName(c) == name
  {
  }

  /** One row of the table. */
  datatype User = User(id: Value, email: Value, hashedPassword: Value,
                       sessionId: Value, resetToken: Value)

  function Field(u: User, c: Column): Value
  {
    match c
    case Id => u.id
    case Email => u.email
    case HashedPassword => u.hashedPassword
    case SessionId => u.sessionId
    case ResetToken => u.resetToken
  }

  /** `setattr(user, name, v)` for the column `c` that `name` names. */
  function WithField(u: User, c: Column, v: Value): (r: User)
    ensures forall d :: Field(r, d) == if d == c then v else Field(u, d)
  {
    match c
    case Id => u.(id := v)
    case Email => u.(email := v)
    case HashedPassword => u.(hashedPassword := v)
    case SessionId => u.(sessionId := v)
    case ResetToken => u.(resetToken := v)
  }

  /** Keyword arguments, in order; a dictionary has each key once. */
  type Kwargs = seq<(string, Value)>

  predicate DistinctKeys(kwargs: Kwargs)
  {
    forall i, j :: 0 <= i < j < |kwargs| ==> kwargs[i].0 != kwargs[j].0
  }

  /** Every keyword names a column. */
  predicate KnownKeys(kwargs: Kwargs)
  {
    forall i :: 0 <= i < |kwargs| ==> ColumnNamed(kwargs[i].0).Some?
  }

  /** The row has, in every named column, the value given for it. */
  predicate Matches(u: User, kwargs: Kwargs)
  {
    forall i :: 0 <= i < |kwargs| ==>
      ColumnNamed(kwargs[i].0).Some? && Field(u, ColumnNamed(kwargs[i].0).value) == kwargs[i].1
  }

  /** The query `filter_by(**kwargs).first()`: the index of the first row, in
      insertion order, matching every keyword. */
  function FirstMatch(users: seq<User>, kwargs: Kwargs): (r: Option<nat>)
    ensures r.None? <==> forall i :: 0 <= i < |users| ==> !Matches(users[i], kwargs)
    ensures r.Some? ==> r.value < |users| && Matches(users[r.value], kwargs)
    ensures r.Some? ==> forall j :: 0 <= j < r.value ==> !Matches(users[j], kwargs)
  {
    FirstIndex(users, u => Matches(u, kwargs))
  }

  /** The query by primary key. */
  function IdQuery(userId: int): Kwargs
  {
    [("id", Int(userId))]
  }

  /** The fields `kwargs` sets, applied one after the other. */
  function Apply(u: User, kwargs: Kwargs): (r: User)
    requires KnownKeys(kwargs)
    ensures forall c :: (forall i :: 0 <= i < |kwargs| ==> ColumnNamed(kwargs[i].0) != Some(c)) ==>
      Field(r, c) == Field(u, c)
  {
    if |kwargs| == 0 then u
    else
      var last := kwargs[|kwargs| - 1];
      WithField(Apply(u, kwargs[..|kwargs| - 1]), ColumnNamed(last.0).value, last.1)
  }

  /** Applying kwargs sets every named column to its value and leaves every
      other column as it was. */
  lemma {:induction false} ApplyFields(u: User, kwargs: Kwargs, c: Column)
    requires KnownKeys(kwargs) && DistinctKeys(kwargs)
    ensures forall i :: 0 <= i < |kwargs| && ColumnNamed(kwargs[i].0) == Some(c) ==>
      Field(Apply(u, kwargs), c) == kwargs[i].1
    ensures (forall i :: 0 <= i < |kwargs| ==> ColumnNamed(kwargs[i].0) != Some(c)) ==>
      Field(Apply(u, kwargs), c) == Field(u, c)
  {
    if |kwargs| > 0 {
      var n := |kwargs| - 1;
      var init := kwargs[..n];
      assert KnownKeys(init) && DistinctKeys(init);
      assert forall i :: 0 <= i < n ==> init[i] == kwargs[i];
      if ColumnNamed(kwargs[n].0) == Some(c) {
        forall i | 0 <= i < n ensures ColumnNamed(kwargs[i].0) != Some(c) {
          ColumnNamedName(c, kwargs[i].0);
          ColumnNamedName(c, kwargs[n].0);
        }
      } else {
        ApplyFields(u, init, c);
      }
    }
  }

  /** The id the next inserted row receives: one more than the largest
      integer id present when that is positive, otherwise 1. */
  function NextId(users: seq<User>): (r: int)
    ensures r >= 1
  {
    if |users| == 0 then 1
    else
      var rest := NextId(users[..|users| - 1]);
      var last := users[|users| - 1].id;
      if last.Int? && last.i + 1 > rest then last.i + 1 else rest
  }

  /** The next id is held by no present row. */
  lemma {:induction false} NextIdFresh(users: seq<User>)
    ensures forall i :: 0 <= i < |users| ==> users[i].id != Int(NextId(users))
  {
    if |users| > 0 {
      var init := users[..|users| - 1];
      NextIdFresh(init);
      NextIdBound(init);
      assert forall i :: 0 <= i < |init| ==> init[i] == users[i];
    }
  }

  lemma {:induction false} NextIdBound(users: seq<User>)
    ensures forall i :: 0 <= i < |users| && users[i].id.Int? ==> users[i].id.i < NextId(users)
  {
    if |users| > 0 {
      var init := users[..|users| - 1];
      NextIdBound(init);
      assert forall i :: 0 <= i < |init| ==> init[i] == users[i];
    }
  }

  /** No two rows share an email. */
  predicate EmailsUnique(users: seq<User>)
  {
    forall i, j :: 0 <= i < j < |users| ==> users[i].email != users[j].email
  }

  class DB {
    /** The rows, in insertion order. */
    var users: seq<User>

    /** A new, empty database. */
    constructor ()
      ensures users == []
    {
      users := [];
    }

    /** Inserts one row with the given email and hash, empty session and
        reset token and the next free id, and returns it. */
    method AddUser(email: string, hashedPassword: Value) returns (u: User)
      modifies this
      ensures u == User(Int(NextId(old(users))), Str(email), hashedPassword, Null, Null)
      ensures users == old(users) + [u]
      ensures forall i :: 0 <= i < |old(users)| ==> users[i].id != u.id
    {
      u := User(Int(NextId(users)), Str(email), hashedPassword, Null, Null);
      NextIdFresh(users);
      users := users + [u];
    }

    /** `find_user_by(**kwargs)`: an unknown keyword raises
        `InvalidRequestError`; otherwise the first matching row, or
        `NoResultFound` when there is none. */
    function FindUserBy(kwargs: Kwargs): (r: Outcome<User>)
      reads this
      ensures r == Raised(InvalidRequestError) <==> !KnownKeys(kwargs)
      ensures r == Raised(NoResultFound) <==>
        KnownKeys(kwargs) && forall i :: 0 <= i < |users| ==> !Matches(users[i], kwargs)
      ensures KnownKeys(kwargs) && (exists i :: 0 <= i < |users| && Matches(users[i], kwargs)) ==>
        r.Returned?
      ensures r.Returned? ==>
        exists i :: 0 <= i < |users| && users[i] == r.value &&
          Matches(users[i], kwargs) && forall j :: 0 <= j < i ==> !Matches(users[j], kwargs)
    {
      if !KnownKeys(kwargs) then Raised(InvalidRequestError)
      else
        match FirstMatch(users, kwargs)
        case None => Raised(NoResultFound)
        case Some(i) => Returned(users[i])
    }

    /** `update_user(user_id, **kwargs)`: `NoResultFound` for an id no row
        has, `ValueError` for a keyword that is not a column, both before
        anything changes; otherwise the row with that id gets each named
        field set. */
    method UpdateUser(userId: int, kwargs: Kwargs) returns (r: Outcome<()>)
      modifies this
      ensures FirstMatch(old(users), IdQuery(userId)).None? ==>
        r == Raised(NoResultFound) && users == old(users)
      ensures FirstMatch(old(users), IdQuery(userId)).Some? && !KnownKeys(kwargs) ==>
        r == Raised(ValueError) && users == old(users)
      ensures FirstMatch(old(users), IdQuery(userId)).Some? && KnownKeys(kwargs) ==>
        r == Returned(()) &&
        var k := FirstMatch(old(users), IdQuery(userId)).value;
        users == old(users)[k := Apply(old(users)[k], kwargs)]
    {
      var found := FindUserBy(IdQuery(userId));
      if !found.Returned? {
        return Raised(NoResultFound);
      }
      if !KnownKeys(kwargs) {
        return Raised(ValueError);
      }
      var k := FirstMatch(users, IdQuery(userId)).value;
      ghost var before := users;
      for n := 0 to |kwargs|
        invariant KnownKeys(kwargs[..n])
        invariant users == before[k := Apply(before[k], kwargs[..n])]
      {
        var (name, value) := kwargs[n];
        assert kwargs[..n + 1][..n] == kwargs[..n];
        users := users[k := WithField(users[k], ColumnNamed(name).value, value)];
      }
      assert kwargs[..|kwargs|] == kwargs;
      r := Returned(());
    }
  }

  /** After an update only the named columns of the chosen row differ. */
  lemma UpdatedRow(users: seq<User>, k: nat, kwargs: Kwargs, c: Column)
    requires k < |users| && KnownKeys(kwargs) && DistinctKeys(kwargs)
    ensures forall i :: 0 <= i < |kwargs| && ColumnNamed(kwargs[i].0) == Some(c) ==>
      Field(users[k := Apply(users[k], kwargs)][k], c) == kwargs[i].1
    ensures (forall i :: 0 <= i < |kwargs| ==> ColumnNamed(kwargs[i].0) != Some(c)) ==>
      Field(users[k := Apply(users[k], kwargs)][k], c) == Field(users[k], c)
    ensures forall j :: 0 <= j < |users| && j != k ==> users[k := Apply(users[k], kwargs)][j] == users[j]
  {
    ApplyFields(users[k], kwargs, c);
  }
}
