/**
 The three tables of the chat database and the statements the server sends to them. A row's number
 stands for its automatic id; texts and addresses are compared exactly.
 */
module Database {
  import opened Wrappers
  import opened Bytes

  datatype User = User(email: bytes, password: bytes)

  /** The ids are empty where the lookup before the insertion found no row. */
  datatype Row = Row(sender: Option<nat>, receiver: Option<nat>, message: Option<nat>, seconds: int)

  datatype Tables = Tables(users: seq<User>, messages: seq<bytes>, transactions: seq<Row>)

  /** SELECT user_id FROM login WHERE email = ?; the loop over the result keeps the last row. */
  function UserId(users: seq<User>, email: bytes): (id: Option<nat>)
    ensures id.Some? ==> id.value < |users| && users[id.value].email == email
    ensures id.None? ==> forall i :: 0 <= i < |users| ==> users[i].email != email
  {
    if users == [] then None
    else if users[|users| - 1].email == email then Some(|users| - 1)
    else UserId(users[..|users| - 1], email)
  }

  /** SELECT password FROM login WHERE email = ?; the password of a row with that address, or empty without one. */
  function Password(users: seq<User>, email: bytes): (password: bytes)
    ensures (exists i :: 0 <= i < |users| && users[i].email == email)
            ==> exists i :: 0 <= i < |users| && users[i].email == email && users[i].password == password
    ensures (forall i :: 0 <= i < |users| ==> users[i].email != email) ==> password == []
  {
    var id := UserId(users, email);
    if id.None? then [] else users[id.value].password
  }

  /** Row `i` is the only one with its address. */
  predicate OnlyRow(users: seq<User>, i: nat, email: bytes) {
    && i < |users| && users[i].email == email
    && forall k :: 0 <= k < |users| && k != i ==> users[k].email != email
  }

  /** The password of an address that one row has is that row's. */
  lemma PasswordOfRow(users: seq<User>, i: nat, email: bytes)
    requires OnlyRow(users, i, email)
    ensures Password(users, email) == users[i].password && UserId(users, email) == Some(i)
  {
  }

  /** SELECT message_id FROM messages WHERE text = ? */
  function MessageId(messages: seq<bytes>, text: bytes): (id: Option<nat>)
    ensures id.Some? ==> id.value < |messages| && messages[id.value] == text
    ensures id.None? ==> text !in messages
  {
    if messages == [] then None
    else if messages[|messages| - 1] == text then Some(|messages| - 1)
    else MessageId(messages[..|messages| - 1], text)
  }

  /** The inner joins find a text and both users for the row, and `email` is the receiver's. */
  predicate Joins(t: Tables, row: Row, email: bytes) {
    && row.message.Some? && row.message.value < |t.messages|
    && row.receiver.Some? && row.receiver.value < |t.users| && t.users[row.receiver.value].email == email
    && row.sender.Some? && row.sender.value < |t.users|
  }

  /** The rows, by number, that the poll query selects among the first `n`, in the order stored. */
  function Select(t: Tables, n: nat, seconds: int, email: bytes): (hits: seq<nat>)
    requires n <= |t.transactions|
    ensures forall k :: k in hits <==>
        0 <= k < n && Joins(t, t.transactions[k], email)
        && t.transactions[k].seconds > seconds
    ensures forall i :: 0 <= i < |hits| ==> hits[i] < n
    ensures forall i, j :: 0 <= i < j < |hits| ==> hits[i] < hits[j]
  {
    if n == 0 then []
    else
      var row := t.transactions[n - 1];
      var before := Select(t, n - 1, seconds, email);
      if Joins(t, row, email) && row.seconds > seconds then before + [n - 1] else before
  }

  /** What the poll query may return: it names no order, so each selected row once, anywhere. */
  ghost predicate IsResult(t: Tables, seconds: int, email: bytes, hits: seq<nat>) {
    && (forall k :: k in hits <==>
          0 <= k < |t.transactions| && Joins(t, t.transactions[k], email) && t.transactions[k].seconds > seconds)
    && (forall i, j :: 0 <= i < j < |hits| ==> hits[i] != hits[j])
  }

  /** The database's answers to one poll query, whatever the tables are. */
  type Results = f: (Tables, int, bytes) -> seq<nat> |
    forall t: Tables, seconds: int, email: bytes :: IsResult(t, seconds, email, f(t, seconds, email))
    witness (t: Tables, seconds: int, email: bytes) => Select(t, |t.transactions|, seconds, email)

  class Database {
    var tables: Tables

    constructor (tables: Tables)
      ensures this.tables == tables
    {
      this.tables := tables;
    }

    method InsertMessage(text: bytes)
      modifies this
      ensures tables == old(tables).(messages := old(tables).messages + [text])
    {
      tables := tables.(messages := tables.messages + [text]);
    }

    method InsertTransaction(row: Row)
      modifies this
      ensures tables == old(tables).(transactions := old(tables).transactions + [row])
    {
      tables := tables.(transactions := tables.transactions + [row]);
    }
  }
}
