/** The `account` table and the data-access object that issues one SQL
    statement per method against it. */
module Accounts {
  import opened Model

  /** Some row has this username (the meaning of `WHERE username = ?`). */
  predicate HasUsername(rows: seq<Account>, username: string)
  {
    exists a :: a in rows && a.username == username
  }

  /** Some row has this primary key (the meaning of `WHERE account_id = ?`). */
  predicate HasAccountId(rows: seq<Account>, id: int)
  {
    exists a :: a in rows && a.id == id
  }

  /** Primary keys are pairwise distinct and all below the next generated key. */
  predicate AccountKeysValid(rows: seq<Account>, nextId: int)
  {
    && (forall i :: 0 <= i < |rows| ==> rows[i].id < nextId)
    && (forall i, j :: 0 <= i < j < |rows| ==> rows[i].id != rows[j].id)
  }

  /** No two rows share a username. The model assumes no UNIQUE constraint
      on `username` (the schema is not part of the model); the registration
      handler keeps this property by checking before it inserts. */
  predicate UniqueUsernames(rows: seq<Account>)
  {
    forall i, j :: 0 <= i < j < |rows| ==> rows[i].username != rows[j].username
  }

  /** The row `SELECT * FROM account WHERE username = ?` yields first, taking
      the table in storage order, or `None` when the result set is empty. */
  function FindByUsername(rows: seq<Account>, username: string): (r: Option<Account>)
    ensures r.Some? ==> r.value in rows && r.value.username == username
    ensures r.None? <==> !HasUsername(rows, username)
  {
    if rows == [] then None
    else if rows[0].username == username then Some(rows[0])
    else
      assert forall a :: a in rows ==> a == rows[0] || a in rows[1..];
      FindByUsername(rows[1..], username)
  }

  /** The `username` column of every row, in storage order (`SELECT username FROM account`). */
  function Usernames(rows: seq<Account>): (names: seq<string>)
    ensures |names| == |rows|
    ensures forall i :: 0 <= i < |rows| ==> names[i] == rows[i].username
  {
    if rows == [] then []
    else Usernames(rows[..|rows| - 1]) + [rows[|rows| - 1].username]
  }

  /** When every username is distinct, the row found by username is the only
      row carrying it. */
  lemma FindByUsernameUnique(rows: seq<Account>, i: nat)
    requires UniqueUsernames(rows)
    requires i < |rows|
    ensures FindByUsername(rows, rows[i].username) == Some(rows[i])
  {
  }

  /** Appending a row whose username is not yet taken keeps usernames unique. */
  lemma AppendFreshUsername(rows: seq<Account>, a: Account)
    requires UniqueUsernames(rows)
    requires !HasUsername(rows, a.username)
    ensures UniqueUsernames(rows + [a])
  {
  }

  /** The data-access object of the `account` table. The table is a field
      that the inserting method reassigns; the other methods only read it.
      Every method opens its own connection and runs one statement, which
      may raise an SQL error that the method catches. Whether it does is
      given to each call as `sqlOk`, so any statement may fail while the one
      before or after it succeeds. */
  class AccountDAO {
    /** The rows of the `account` table, in storage order. */
    var rows: seq<Account>
    /** The key the database generates for the next inserted row. */
    var nextId: int

    ghost predicate Valid()
      reads this
    {
      AccountKeysValid(rows, nextId)
    }

    /** An empty table whose generated keys start at 1. */
    constructor ()
      ensures Valid()
      ensures rows == [] && nextId == 1
    {
      rows := [];
      nextId := 1;
    }

    /** `INSERT INTO Account (username, password) VALUES (?, ?)` and read
        back the generated key; `None` (null) when the statement fails. */
    method InsertAccount(account: Account, sqlOk: bool) returns (r: Option<Account>)
      requires Valid()
      modifies this`rows, this`nextId
      ensures Valid()
      ensures !sqlOk ==> r == None && rows == old(rows) && nextId == old(nextId)
      ensures sqlOk ==>
        && r.Some?
        && r.value.username == account.username
        && r.value.password == account.password
        && !HasAccountId(old(rows), r.value.id)
        && rows == old(rows) + [r.value]
    {
      if !sqlOk {
        return None;
      }
      var added := Account(nextId, account.username, account.password);
      rows := rows + [added];
      nextId := nextId + 1;
      r := Some(added);
    }

    /** `SELECT username FROM account`, collected row by row into a list;
        the list stays empty when the query fails. */
    method GetAllUsernames(sqlOk: bool) returns (names: seq<string>)
      ensures names == if sqlOk then Usernames(rows) else []
    {
      names := [];
      if !sqlOk {
        return;
      }
      var i := 0;
      while i < |rows|
        invariant 0 <= i <= |rows|
        invariant names == Usernames(rows[..i])
      {
        assert rows[..i + 1][..i] == rows[..i];
        names := names + [rows[i].username];
        i := i + 1;
      }
      assert rows[..i] == rows;
    }

    /** `SELECT * FROM account WHERE username = ?`, first row or `None`. */
    method GetAccountByUsername(username: string, sqlOk: bool) returns (r: Option<Account>)
      ensures r == if sqlOk then FindByUsername(rows, username) else None
      ensures r.Some? ==> r.value in rows && r.value.username == username
      ensures r.None? <==> !sqlOk || !HasUsername(rows, username)
    {
      r := None;
      if sqlOk {
        r := FindByUsername(rows, username);
      }
    }

    /** `SELECT exists(select username from account where username = ?)`.
        A failed query answers false, the same answer as "no such name". */
    method AccountExistsByUsername(username: string, sqlOk: bool) returns (result: bool)
      ensures result <==> sqlOk && HasUsername(rows, username)
    {
      result := false;
      if sqlOk {
        result := exists a :: a in rows && a.username == username;
      }
    }

    /** The same existence query with a failure read as "the name may be
        taken": true unless the query ran and found no such row. This is the
        check registration needs in order to keep usernames unique. */
    method UsernameMayBeTaken(username: string, sqlOk: bool) returns (taken: bool)
      ensures taken <==> !sqlOk || HasUsername(rows, username)
    {
      taken := true;
      if sqlOk {
        taken := exists a :: a in rows && a.username == username;
      }
    }

    /** `SELECT exists(select account_id from account where account_id = ?)`;
        false when the query fails. */
    method AccountExistsById(id: int, sqlOk: bool) returns (result: bool)
      ensures result <==> sqlOk && HasAccountId(rows, id)
    {
      result := false;
      if sqlOk {
        result := exists a :: a in rows && a.id == id;
      }
    }
  }
}
