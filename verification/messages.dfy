/** The `message` table and the data-access object that issues one SQL
    statement per method against it. */
module Messages {
  import opened Model

  /** Some row has this primary key (the meaning of `WHERE message_id = ?`). */
  predicate HasMessageId(rows: seq<Message>, id: int)
  {
    exists m :: m in rows && m.id == id
  }

  /** Primary keys are pairwise distinct and all below the next generated key. */
  predicate MessageKeysValid(rows: seq<Message>, nextId: int)
  {
    && (forall i :: 0 <= i < |rows| ==> rows[i].id < nextId)
    && (forall i, j :: 0 <= i < j < |rows| ==> rows[i].id != rows[j].id)
  }

  /** The row `SELECT * FROM message WHERE message_id = ?` yields first, or
      `None` when the result set is empty. */
  function FindById(rows: seq<Message>, id: int): (r: Option<Message>)
    ensures r.Some? ==> r.value in rows && r.value.id == id
    ensures r.None? <==> !HasMessageId(rows, id)
  {
    if rows == [] then None
    else if rows[0].id == id then Some(rows[0])
    else
      assert forall m :: m in rows ==> m == rows[0] || m in rows[1..];
      FindById(rows[1..], id)
  }

  /** The rows of `SELECT * FROM message WHERE posted_by = ?`, in storage order. */
  function ByAuthor(rows: seq<Message>, author: int): (r: seq<Message>)
    ensures |r| <= |rows|
    ensures forall m :: m in r ==> m in rows && m.postedBy == author
    ensures forall m :: m in rows && m.postedBy == author ==> m in r
    ensures forall m :: multiset(r)[m] == if m.postedBy == author then multiset(rows)[m] else 0
  {
    if rows == [] then []
    else
      var last := rows[|rows| - 1];
      assert rows == rows[..|rows| - 1] + [last];
      assert forall m :: m in rows ==> m == last || m in rows[..|rows| - 1];
      ByAuthor(rows[..|rows| - 1], author) + if last.postedBy == author then [last] else []
  }

  /** The table after `DELETE FROM message WHERE message_id = ?`: every row
      without that key, in the same order. */
  function Without(rows: seq<Message>, id: int): (r: seq<Message>)
    ensures |r| <= |rows|
    ensures forall m :: m in r <==> m in rows && m.id != id
  {
    if rows == [] then []
    else
      assert forall m :: m in rows ==> m == rows[0] || m in rows[1..];
      (if rows[0].id == id then [] else [rows[0]]) + Without(rows[1..], id)
  }

  /** The table after `UPDATE message SET message_text = ?, time_posted_epoch = ?
      WHERE message_id = ?`. */
  function Replaced(rows: seq<Message>, id: int, text: string, epoch: int): (r: seq<Message>)
    ensures |r| == |rows|
    ensures forall i :: 0 <= i < |rows| ==> r[i].id == rows[i].id && r[i].postedBy == rows[i].postedBy
    ensures forall i :: 0 <= i < |rows| && rows[i].id != id ==> r[i] == rows[i]
    ensures forall i :: 0 <= i < |rows| && rows[i].id == id ==> r[i].text == text && r[i].epoch == epoch
  {
    if rows == [] then []
    else
      var first := if rows[0].id == id then rows[0].(text := text, epoch := epoch) else rows[0];
      [first] + Replaced(rows[1..], id, text, epoch)
  }

  /** With distinct keys, the row found by key is the only row carrying it. */
  lemma FindByIdUnique(rows: seq<Message>, nextId: int, i: nat)
    requires MessageKeysValid(rows, nextId)
    requires i < |rows|
    ensures FindById(rows, rows[i].id) == Some(rows[i])
  {
  }

  /** A delete removes exactly one row when the key exists (keys are
      distinct) and none otherwise: `rowsAffected > 0` exactly when the key existed. */
  lemma {:induction false} WithoutCount(rows: seq<Message>, nextId: int, id: int)
    requires MessageKeysValid(rows, nextId)
    ensures |Without(rows, id)| == if HasMessageId(rows, id) then |rows| - 1 else |rows|
  {
    if rows != [] {
      assert MessageKeysValid(rows[1..], nextId);
      WithoutCount(rows[1..], nextId, id);
      if rows[0].id == id {
        assert !HasMessageId(rows[1..], id) by {
          forall m | m in rows[1..] ensures m.id != id {
            var k :| 0 <= k < |rows[1..]| && rows[1..][k] == m;
            assert rows[k + 1] == m;
          }
        }
      } else {
        assert HasMessageId(rows, id) <==> HasMessageId(rows[1..], id) by {
          assert forall m :: m in rows ==> m == rows[0] || m in rows[1..];
        }
      }
    }
  }

  /** Putting a row in front of a table keeps the keys valid when its key
      is new and below the next generated key. */
  lemma Prepend(x: Message, rest: seq<Message>, nextId: int)
    requires MessageKeysValid(rest, nextId)
    requires x.id < nextId
    requires forall m :: m in rest ==> m.id != x.id
    ensures MessageKeysValid([x] + rest, nextId)
  {
  }

  /** A delete keeps the keys distinct and below the next generated key. */
  lemma {:induction false} WithoutKeysValid(rows: seq<Message>, nextId: int, id: int)
    requires MessageKeysValid(rows, nextId)
    ensures MessageKeysValid(Without(rows, id), nextId)
  {
    if rows != [] {
      var tail := rows[1..];
      assert MessageKeysValid(tail, nextId);
      WithoutKeysValid(tail, nextId, id);
      var rest := Without(tail, id);
      if rows[0].id != id {
        forall m | m in rest ensures m.id != rows[0].id {
          var k :| 0 <= k < |tail| && tail[k] == m;
          assert rows[k + 1] == m;
        }
        Prepend(rows[0], rest, nextId);
      }
    }
  }

  /** Deleting a key that is absent leaves the table as it was; in
      particular a second delete of the same key changes nothing. */
  lemma {:induction false} WithoutAbsent(rows: seq<Message>, id: int)
    requires !HasMessageId(rows, id)
    ensures Without(rows, id) == rows
  {
    if rows != [] {
      assert rows[0] in rows;
      WithoutAbsent(rows[1..], id);
      assert rows == [rows[0]] + rows[1..];
    }
  }

  /** An update of a key that is absent leaves the table as it was. */
  lemma ReplacedAbsent(rows: seq<Message>, id: int, text: string, epoch: int)
    requires !HasMessageId(rows, id)
    ensures Replaced(rows, id, text, epoch) == rows
  {
  }

  /** An update of key `k` does not change what a lookup of any other key finds. */
  lemma {:induction false} FindByIdAfterReplaced(rows: seq<Message>, k: int, text: string, epoch: int, j: int)
    requires j != k
    ensures FindById(Replaced(rows, k, text, epoch), j) == FindById(rows, j)
  {
    if rows != [] {
      var r := Replaced(rows, k, text, epoch);
      assert r[1..] == Replaced(rows[1..], k, text, epoch);
      FindByIdAfterReplaced(rows[1..], k, text, epoch, j);
    }
  }

  /** After an update of a key that exists, the lookup of that key finds the
      row with the new text and epoch, its key and author kept. */
  lemma {:induction false} FindByIdAfterReplacedSame(rows: seq<Message>, k: int, text: string, epoch: int)
    requires HasMessageId(rows, k)
    ensures FindById(Replaced(rows, k, text, epoch), k).Some?
    ensures FindById(Replaced(rows, k, text, epoch), k).value
         == FindById(rows, k).value.(text := text, epoch := epoch)
  {
    if rows[0].id != k {
      assert HasMessageId(rows[1..], k) by {
        var m :| m in rows && m.id == k;
        var n :| 0 <= n < |rows| && rows[n] == m;
        assert rows[1..][n - 1] == m;
      }
      var r := Replaced(rows, k, text, epoch);
      assert r[1..] == Replaced(rows[1..], k, text, epoch);
      FindByIdAfterReplacedSame(rows[1..], k, text, epoch);
    }
  }

  /** The data-access object of the `message` table. The table is a field
      that the inserting, deleting and updating methods reassign; the other
      methods only read it. As for accounts, whether each call's statement
      runs without an SQL error is given to it as `sqlOk`. */
  class MessageDAO {
    /** The rows of the `message` table, in storage order. */
    var rows: seq<Message>
    /** The key the database generates for the next inserted row. */
    var nextId: int

    ghost predicate Valid()
      reads this
    {
      MessageKeysValid(rows, nextId)
    }

    /** An empty table whose generated keys start at 1. */
    constructor ()
      ensures Valid()
      ensures rows == [] && nextId == 1
    {
      rows := [];
      nextId := 1;
    }

    /** `INSERT INTO message (posted_by, message_text, time_posted_epoch)
        VALUES (?, ?, ?)` and read back the generated key; `None` (null)
        when the statement fails. The argument's own id is ignored. */
    method AddMessage(message: Message, sqlOk: bool) returns (r: Option<Message>)
      requires Valid()
      modifies this`rows, this`nextId
      ensures Valid()
      ensures !sqlOk ==> r == None && rows == old(rows) && nextId == old(nextId)
      ensures sqlOk ==>
        && r.Some?
        && r.value.postedBy == message.postedBy
        && r.value.text == message.text
        && r.value.epoch == message.epoch
        && !HasMessageId(old(rows), r.value.id)
        && rows == old(rows) + [r.value]
    {
      if !sqlOk {
        return None;
      }
      var added := Message(nextId, message.postedBy, message.text, message.epoch);
      rows := rows + [added];
      nextId := nextId + 1;
      r := Some(added);
    }

    /** `SELECT * FROM message`, collected row by row into a list; the list
        stays empty when the query fails. */
    method GetAllMessages(sqlOk: bool) returns (messages: seq<Message>)
      ensures messages == if sqlOk then rows else []
    {
      messages := [];
      if !sqlOk {
        return;
      }
      var i := 0;
      while i < |rows|
        invariant 0 <= i <= |rows|
        invariant messages == rows[..i]
      {
        var row := rows[i];
        messages := messages + [Message(row.id, row.postedBy, row.text, row.epoch)];
        i := i + 1;
      }
      assert rows[..i] == rows;
    }

    /** `DELETE FROM message WHERE message_id = ?`, reporting
        `rowsAffected > 0`; false when the statement fails. */
    method DeleteMessage(id: int, sqlOk: bool) returns (deleted: bool)
      requires Valid()
      modifies this`rows
      ensures Valid()
      ensures deleted <==> sqlOk && HasMessageId(old(rows), id)
      ensures rows == if sqlOk then Without(old(rows), id) else old(rows)
      ensures !HasMessageId(rows, id) || !sqlOk
    {
      if !sqlOk {
        return false;
      }
      WithoutCount(rows, nextId, id);
      WithoutKeysValid(rows, nextId, id);
      var remaining := Without(rows, id);
      deleted := |rows| - |remaining| > 0;
      rows := remaining;
    }

    /** `UPDATE message SET message_text = ?, time_posted_epoch = ? WHERE
        message_id = ?` with the argument's key, reporting `rowsAffected > 0`;
        false when the statement fails. */
    method UpdateMessage(updated: Message, sqlOk: bool) returns (ok: bool)
      requires Valid()
      modifies this`rows
      ensures Valid()
      ensures ok <==> sqlOk && HasMessageId(old(rows), updated.id)
      ensures rows == if sqlOk then Replaced(old(rows), updated.id, updated.text, updated.epoch) else old(rows)
    {
      if !sqlOk {
        return false;
      }
      ok := exists m :: m in rows && m.id == updated.id;
      rows := Replaced(rows, updated.id, updated.text, updated.epoch);
    }

    /** `SELECT * FROM message WHERE message_id = ?`, first row or `None`. */
    method GetMessageById(id: int, sqlOk: bool) returns (r: Option<Message>)
      ensures r == if sqlOk then FindById(rows, id) else None
      ensures r.Some? ==> r.value in rows && r.value.id == id
      ensures r.None? <==> !sqlOk || !HasMessageId(rows, id)
    {
      r := None;
      if sqlOk {
        r := FindById(rows, id);
      }
    }

    /** `SELECT * FROM message WHERE posted_by = ?`, collected row by row into
        a list whose rows carry the argument as author; empty when the
        query fails. */
    method GetMessagesByUser(userId: int, sqlOk: bool) returns (messages: seq<Message>)
      ensures messages == if sqlOk then ByAuthor(rows, userId) else []
    {
      messages := [];
      if !sqlOk {
        return;
      }
      var i := 0;
      while i < |rows|
        invariant 0 <= i <= |rows|
        invariant messages == ByAuthor(rows[..i], userId)
      {
        assert rows[..i + 1][..i] == rows[..i];
        var row := rows[i];
        if row.postedBy == userId {
          messages := messages + [Message(row.id, userId, row.text, row.epoch)];
        }
        i := i + 1;
      }
      assert rows[..i] == rows;
    }
  }
}
