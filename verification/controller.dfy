/** The request handlers: each decides, from the request and what the DAOs
    report, whether to accept, which status to set and which body to send.
    HTTP routing and JSON (de)serialisation are not modelled: a handler takes
    the already-parsed request, plus whether each SQL statement it issues
    runs without an error, and returns the status and body it sets. */
module Controller {
  import opened Model
  import opened Accounts
  import opened Messages

  /** The longest message text the creation handler accepts. */
  const MaxMessageLength := 255
  /** The shortest password the registration handler accepts. */
  const MinPasswordLength := 4

  /** What a handler passes to `ctx.json`, if anything. `AccountJson(None)`
      is the text `null` that registration serialises when the insert fails. */
  datatype Body =
    | Empty
    | AccountJson(account: Option<Account>)
    | MessageJson(message: Message)
    | MessagesJson(messages: seq<Message>)
    | TextJson(text: string)

  datatype Response = Response(status: int, body: Body)

  /** The answer to a request whose handler raised: `ctx.json` is given a
      `null` object, which it does not accept. */
  const ServerError := Response(500, Empty)

  const NotFoundText := "{\"error\":\"Message not found.\"}"
  const UpdatedText := "{\"message\":\"Message updated successfully.\"}"

  /** The registration test: a password of at least four characters, a
      non-empty username, and the existence check reporting the name free. */
  predicate RegistrationAccepted(account: Account, usernameTaken: bool)
  {
    |account.password| >= MinPasswordLength && |account.username| > 0 && !usernameTaken
  }

  /** The message-creation test: text of 1 to 255 characters and the
      existence check reporting the author present. Only the length is
      tested, so a text of spaces passes. */
  predicate MessageAccepted(message: Message, authorExists: bool)
  {
    0 < |message.text| <= MaxMessageLength && authorExists
  }

  /** The boundary cases of the message-creation test. */
  lemma MessageLengthBoundary(author: int, epoch: int)
    ensures MessageAccepted(Message(0, author, seq(255, _ => 'a'), epoch), true)
    ensures !MessageAccepted(Message(0, author, "", epoch), true)
    ensures !MessageAccepted(Message(0, author, seq(256, _ => 'a'), epoch), true)
    ensures !MessageAccepted(Message(0, author, "a", epoch), false)
    ensures MessageAccepted(Message(0, author, "   ", epoch), true)
  {
  }

  /** The controller, holding the two data-access objects its services forward to. */
  class SocialMediaController {
    const accounts: AccountDAO
    const messages: MessageDAO

    ghost predicate Valid()
      reads this, accounts, messages
    {
      accounts.Valid() && messages.Valid()
    }

    constructor (accounts: AccountDAO, messages: MessageDAO)
      requires accounts.Valid() && messages.Valid()
      ensures Valid()
      ensures this.accounts == accounts && this.messages == messages
    {
      this.accounts := accounts;
      this.messages := messages;
    }

    /** POST /register, as written. `checkOk` and `insertOk` say whether the
        existence query and the insert run without an SQL error. A failed
        existence query reads as "name free", so usernames stay unique only
        when that query ran. */
    method AddAccountHandler(account: Account, checkOk: bool, insertOk: bool) returns (resp: Response)
      requires Valid()
      modifies accounts
      ensures Valid()
      ensures resp.status == 200 <==>
        RegistrationAccepted(account, checkOk && HasUsername(old(accounts.rows), account.username))
      ensures resp.status != 200 ==>
        resp == Response(400, Empty) && accounts.rows == old(accounts.rows)
      ensures resp.status == 200 && insertOk ==>
        && resp.body.AccountJson? && resp.body.account.Some?
        && resp.body.account.value.username == account.username
        && resp.body.account.value.password == account.password
        && !HasAccountId(old(accounts.rows), resp.body.account.value.id)
        && accounts.rows == old(accounts.rows) + [resp.body.account.value]
      ensures resp.status == 200 && !insertOk ==>
        resp.body == AccountJson(None) && accounts.rows == old(accounts.rows)
      ensures checkOk && UniqueUsernames(old(accounts.rows)) ==> UniqueUsernames(accounts.rows)
    {
      var accepted := |account.password| >= MinPasswordLength && |account.username| > 0;
      if accepted {
        var taken := accounts.AccountExistsByUsername(account.username, checkOk);
        accepted := !taken;
      }
      if accepted {
        ghost var before := accounts.rows;
        var added := accounts.InsertAccount(account, insertOk);
        if added.Some? && UniqueUsernames(before) && checkOk {
          AppendFreshUsername(before, added.value);
        }
        resp := Response(200, AccountJson(added));
      } else {
        resp := Response(400, Empty);
      }
    }

    /** POST /register with the existence check read fail-closed: a failed
        query counts as "name taken". Usernames then stay unique whatever
        statement fails. */
    method AddAccountHandlerFailClosed(account: Account, checkOk: bool, insertOk: bool) returns (resp: Response)
      requires Valid()
      modifies accounts
      ensures Valid()
      ensures resp.status == 200 <==>
        RegistrationAccepted(account, !checkOk || HasUsername(old(accounts.rows), account.username))
      ensures resp.status != 200 ==>
        resp == Response(400, Empty) && accounts.rows == old(accounts.rows)
      ensures resp.status == 200 && insertOk ==>
        && resp.body.AccountJson? && resp.body.account.Some?
        && resp.body.account.value.username == account.username
        && resp.body.account.value.password == account.password
        && !HasAccountId(old(accounts.rows), resp.body.account.value.id)
        && accounts.rows == old(accounts.rows) + [resp.body.account.value]
      ensures resp.status == 200 && !insertOk ==>
        resp.body == AccountJson(None) && accounts.rows == old(accounts.rows)
      ensures UniqueUsernames(old(accounts.rows)) ==> UniqueUsernames(accounts.rows)
    {
      var accepted := |account.password| >= MinPasswordLength && |account.username| > 0;
      if accepted {
        var taken := accounts.UsernameMayBeTaken(account.username, checkOk);
        accepted := !taken;
      }
      if accepted {
        ghost var before := accounts.rows;
        var added := accounts.InsertAccount(account, insertOk);
        if added.Some? && UniqueUsernames(before) {
          AppendFreshUsername(before, added.value);
        }
        resp := Response(200, AccountJson(added));
      } else {
        resp := Response(400, Empty);
      }
    }

    /** POST /login. Whether the credentials are valid is decided by
        `validateUser`, which is given as a parameter; the handler only
        reads the store. When the lookup by username finds nothing, the
        `null` it passes to `ctx.json` makes the request fail. */
    method GetLoginHandler(login: Account, validateUser: (string, string) -> bool, lookupOk: bool)
      returns (resp: Response)
      ensures !validateUser(login.username, login.password) ==> resp == Response(401, Empty)
      ensures validateUser(login.username, login.password) ==>
        resp == if lookupOk && HasUsername(accounts.rows, login.username)
                then Response(200, AccountJson(FindByUsername(accounts.rows, login.username)))
                else ServerError
      ensures resp.status == 200 ==>
        resp.body.AccountJson? && resp.body.account.Some?
        && resp.body.account.value in accounts.rows
        && resp.body.account.value.username == login.username
    {
      var isValidUser := validateUser(login.username, login.password);
      if isValidUser {
        var found := accounts.GetAccountByUsername(login.username, lookupOk);
        if found.Some? {
          resp := Response(200, AccountJson(found));
        } else {
          resp := ServerError;
        }
      } else {
        resp := Response(401, Empty);
      }
    }

    /** POST /messages. `checkOk` and `insertOk` say whether the author
        query and the insert run without an SQL error. A failed insert
        yields `null`, which `ctx.json` does not accept. */
    method AddMessageHandler(message: Message, checkOk: bool, insertOk: bool) returns (resp: Response)
      requires Valid()
      modifies messages
      ensures Valid()
      ensures resp.status == 400 <==>
        !MessageAccepted(message, checkOk && HasAccountId(accounts.rows, message.postedBy))
      ensures resp.status == 400 ==> resp.body == Empty
      ensures resp.status == 200 <==>
        MessageAccepted(message, checkOk && HasAccountId(accounts.rows, message.postedBy)) && insertOk
      ensures resp.status != 200 && resp.status != 400 ==> resp == ServerError
      ensures resp.status == 200 ==>
        && resp.body.MessageJson?
        && resp.body.message.postedBy == message.postedBy
        && resp.body.message.text == message.text
        && resp.body.message.epoch == message.epoch
        && !HasMessageId(old(messages.rows), resp.body.message.id)
        && messages.rows == old(messages.rows) + [resp.body.message]
      ensures resp.status != 200 ==> messages.rows == old(messages.rows)
    {
      var accepted := 0 < |message.text| <= MaxMessageLength;
      if accepted {
        accepted := accounts.AccountExistsById(message.postedBy, checkOk);
      }
      if accepted {
        var added := messages.AddMessage(message, insertOk);
        if added.Some? {
          resp := Response(200, MessageJson(added.value));
        } else {
          resp := ServerError;
        }
      } else {
        resp := Response(400, Empty);
      }
    }

    /** GET /messages: always 200 with the list, empty when nothing is stored
        or the query fails. */
    method GetAllMessagesHandler(sqlOk: bool) returns (resp: Response)
      ensures resp == Response(200, MessagesJson(if sqlOk then messages.rows else []))
    {
      var all := messages.GetAllMessages(sqlOk);
      resp := Response(200, MessagesJson(all));
    }

    /** GET /messages/{id}: 200 with the stored row when the lookup finds
        it, 400 with no body otherwise. */
    method GetMessageByIdHandler(id: int, sqlOk: bool) returns (resp: Response)
      requires Valid()
      ensures resp == if sqlOk && HasMessageId(messages.rows, id)
                      then Response(200, MessageJson(FindById(messages.rows, id).value))
                      else Response(400, Empty)
      ensures resp.status == 200 ==>
        forall i :: 0 <= i < |messages.rows| && messages.rows[i].id == id ==>
          resp.body == MessageJson(messages.rows[i])
    {
      var retrieved := messages.GetMessageById(id, sqlOk);
      var result := false;
      if retrieved != None {
        result := true;
      }
      if result {
        forall i | 0 <= i < |messages.rows| && messages.rows[i].id == id
          ensures retrieved == Some(messages.rows[i])
        {
          FindByIdUnique(messages.rows, messages.nextId, i);
        }
        resp := Response(200, MessageJson(retrieved.value));
      } else {
        resp := Response(400, Empty);
      }
    }

    /** DELETE /messages/{id}: 200 with no body when a row was deleted, 400
        with an error text otherwise. */
    method DeleteMessageHandler(id: int, sqlOk: bool) returns (resp: Response)
      requires Valid()
      modifies messages
      ensures Valid()
      ensures resp.status == 200 <==> sqlOk && HasMessageId(old(messages.rows), id)
      ensures resp == if resp.status == 200 then Response(200, Empty) else Response(400, TextJson(NotFoundText))
      ensures messages.rows == if sqlOk then Without(old(messages.rows), id) else old(messages.rows)
    {
      var isDeleted := messages.DeleteMessage(id, sqlOk);
      if isDeleted {
        resp := Response(200, Empty);
      } else {
        resp := Response(400, TextJson(NotFoundText));
      }
    }

    /** PATCH /messages/{id}: the key comes from the path, whatever key the
        body carries; the new text and epoch come from the body, and their
        lengths are not checked. 200 when a row was updated, 400 otherwise. */
    method UpdateMessageHandler(id: int, body: Message, sqlOk: bool) returns (resp: Response)
      requires Valid()
      modifies messages
      ensures Valid()
      ensures resp.status == 200 <==> sqlOk && HasMessageId(old(messages.rows), id)
      ensures resp == if resp.status == 200 then Response(200, TextJson(UpdatedText)) else Response(400, TextJson(NotFoundText))
      ensures messages.rows ==
        if sqlOk then Replaced(old(messages.rows), id, body.text, body.epoch) else old(messages.rows)
    {
      var updatedMessage := body.(id := id);
      var isUpdated := messages.UpdateMessage(updatedMessage, sqlOk);
      if isUpdated {
        resp := Response(200, TextJson(UpdatedText));
      } else {
        resp := Response(400, TextJson(NotFoundText));
      }
    }

    /** GET /accounts/{id}/messages: always 200 with that author's rows,
        empty for an unknown author or a failed query. */
    method GetMessagesByUserHandler(userId: int, sqlOk: bool) returns (resp: Response)
      ensures resp == Response(200, MessagesJson(if sqlOk then ByAuthor(messages.rows, userId) else []))
      ensures forall m :: m in resp.body.messages <==> sqlOk && m in messages.rows && m.postedBy == userId
    {
      var found := messages.GetMessagesByUser(userId, sqlOk);
      resp := Response(200, MessagesJson(found));
    }
  }

  /** Registering the same valid username twice: the first request is
      accepted and the second rejected, whatever the table held before. */
  method RegisterTwice(c: SocialMediaController, account: Account) returns (first: Response, second: Response)
    requires c.Valid()
    requires |account.password| >= MinPasswordLength && |account.username| > 0
    requires !HasUsername(c.accounts.rows, account.username)
    modifies c.accounts
    ensures first.status == 200 && first.body.AccountJson? && first.body.account.Some?
    ensures second == Response(400, Empty)
  {
    first := c.AddAccountHandler(account, true, true);
    assert c.accounts.rows[|c.accounts.rows| - 1].username == account.username;
    second := c.AddAccountHandler(account, true, true);
  }

  /** The handler as written stores a duplicate username: `alice` is
      registered, then registered again while the existence query fails
      and the insert succeeds. */
  method DuplicateAfterFailedCheck() returns (rows: seq<Account>)
    ensures |rows| == 2 && rows[0].username == rows[1].username == "alice"
    ensures !UniqueUsernames(rows)
  {
    var accounts := new AccountDAO();
    var messages := new MessageDAO();
    var c := new SocialMediaController(accounts, messages);
    var first := c.AddAccountHandler(Account(0, "alice", "secret"), true, true);
    var second := c.AddAccountHandler(Account(0, "alice", "secret"), false, true);
    rows := accounts.rows;
  }

  /** Deleting the same key twice: once the first delete has run, the
      second request finds nothing and answers 400, leaving the table as
      the first left it. */
  method DeleteTwice(c: SocialMediaController, id: int, secondOk: bool) returns (first: Response, second: Response)
    requires c.Valid()
    modifies c.messages
    ensures second.status == 400
    ensures c.messages.rows == Without(old(c.messages.rows), id)
  {
    first := c.DeleteMessageHandler(id, true);
    ghost var afterFirst := c.messages.rows;
    second := c.DeleteMessageHandler(id, secondOk);
    if secondOk {
      WithoutAbsent(afterFirst, id);
    }
  }

  /** An update of key `k`, successful or not, leaves the lookup of any
      other key `j` answering exactly as before. */
  method UpdateKeepsOtherLookups(c: SocialMediaController, k: int, j: int, body: Message, updateOk: bool)
    returns (before: Response, update: Response, after: Response)
    requires c.Valid()
    requires j != k
    modifies c.messages
    ensures before == after
  {
    before := c.GetMessageByIdHandler(j, true);
    ghost var rows := c.messages.rows;
    update := c.UpdateMessageHandler(k, body, updateOk);
    if updateOk {
      FindByIdAfterReplaced(rows, k, body.text, body.epoch, j);
      assert HasMessageId(c.messages.rows, j) <==> HasMessageId(rows, j);
    }
    after := c.GetMessageByIdHandler(j, true);
  }

  /** No length check guards an update: an empty text sent to an existing
      key answers 200 and is what the next lookup of that key returns. */
  method UpdateStoresEmptyText(c: SocialMediaController, k: int, epoch: int)
    returns (update: Response, after: Response)
    requires c.Valid()
    requires HasMessageId(c.messages.rows, k)
    modifies c.messages
    ensures update.status == 200
    ensures after.status == 200 && after.body.MessageJson?
    ensures after.body.message.id == k && after.body.message.text == "" && after.body.message.epoch == epoch
  {
    ghost var rows := c.messages.rows;
    update := c.UpdateMessageHandler(k, Message(0, 0, "", epoch), true);
    FindByIdAfterReplacedSame(rows, k, "", epoch);
    after := c.GetMessageByIdHandler(k, true);
  }
}
