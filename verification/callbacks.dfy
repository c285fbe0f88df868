/**
 The selection prompt and the inline-button handlers: `inbox_or_delete_prompt`,
 `button_handler`, `handle_delete_callback`, `handle_inbox_callback` and
 `handle_view_message_callback`. Provider replies are inputs; each handler
 reports the login it attempts and the request that follows it: the remote
 delete, the message listing or the message fetch.
 */
module Callbacks {
  import opened Wrappers
  import opened PyStr
  import opened MailboxStore
  import opened ChoiceTokens
  import opened Rendering
  import RandomNames
  import Creation

  /** Most messages listed for one inbox. */
  const InboxPageSize: nat := 10

  /** One inline button: the text shown and the callback data it sends. */
  datatype Choice = Choice(text: string, data: string)

  /** `inbox_or_delete_prompt`: a notice when the user has no mailbox, otherwise one button per mailbox. */
  datatype PromptReply = NoEmails | SelectEmail(choices: seq<Choice>)

  function PromptChoices(rows: seq<Row>, action: string): (r: seq<Choice>)
    ensures |r| == |rows|
    ensures forall i :: 0 <= i < |rows| ==> r[i] == Choice(rows[i].address, Encode(action, rows[i].address))
  {
    if |rows| == 0 then [] else [Choice(rows[0].address, Encode(action, rows[0].address))] + PromptChoices(rows[1..], action)
  }

  function Prompt(s: Store, user: UserId, action: string): (r: PromptReply)
    ensures r.NoEmails? <==> UserEmails(s, user) == []
    ensures r.SelectEmail? ==> |r.choices| == |UserEmails(s, user)|
    ensures r.SelectEmail? ==> forall i :: 0 <= i < |r.choices| ==>
              r.choices[i].text == UserEmails(s, user)[i].address
              && r.choices[i].data == Encode(action, UserEmails(s, user)[i].address)
  {
    var rows := UserEmails(s, user);
    if |rows| == 0 then NoEmails else SelectEmail(PromptChoices(rows, action))
  }

  /** Every button of a prompt names one of the user's own mailboxes, and its
      data routes back to that mailbox under the prompt's action. */
  lemma PromptChoicesRoute(s: Store, user: UserId, action: string, i: nat)
    requires Valid(s)
    requires Prompt(s, user, action).SelectEmail? && i < |Prompt(s, user, action).choices|
    requires action == InboxAction || action == DeleteAction
    ensures var c := Prompt(s, user, action).choices[i];
            && Find(s, c.text).Some? && Find(s, c.text).value.owner == user
            && Route(c.data) == (if action == InboxAction then InboxCommand(c.text) else DeleteCommand(c.text))
  {
    var row := UserEmails(s, user)[i];
    assert row in UserEmails(s, user);
    FindRow(s, row);
    RouteEncode(row.address);
  }

  /** Credentials sent to `POST /token`. */
  datatype Login = Login(address: string, password: string)

  /** The remote delete request: the token and the provider's account id. */
  datatype RemoteDelete = RemoteDelete(token: string, accountId: string)

  datatype DeleteReply = DeleteGone | Deleted(address: string)

  /** The table afterwards, the reply, the login attempted and the remote
      delete requested. The remote call's own result is discarded by the
      source, so it is not an input here. */
  datatype DeleteOutcome = DeleteOutcome(store: Store, reply: DeleteReply, login: Option<Login>, remote: Option<RemoteDelete>)

  /** `handle_delete_callback` with `token` the reply of `get_auth_token`. */
  function HandleDelete(s: Store, address: string, token: Option<string>): (r: DeleteOutcome)
    ensures Find(s, address).None? ==> r == DeleteOutcome(s, DeleteGone, None, None)
    ensures Find(s, address).Some? ==>
              && r.reply == Deleted(address)
              && r.login == Some(Login(address, Find(s, address).value.password))
              && Find(r.store, address).None?
              && (forall other :: other != address ==> Find(r.store, other) == Find(s, other))
    ensures Find(s, address).Some? ==>
              (r.remote.Some? <==> Truthy(token))
              && (r.remote.Some? ==> r.remote.value == RemoteDelete(token.value, Find(s, address).value.accountId))
    ensures Valid(s) ==> Valid(r.store)
  {
    match Find(s, address)
    case None => DeleteOutcome(s, DeleteGone, None, None)
    case Some(entry) =>
      FindAfterRemoveAll(s, address);
      var remote := if Truthy(token) then Some(RemoteDelete(token.value, entry.accountId)) else None;
      DeleteOutcome(Remove(s, address), Deleted(address), Some(Login(address, entry.password)), remote)
  }

  /** Deletion is local whatever the provider does: the table afterwards does
      not depend on the token, and deleting again finds nothing. */
  lemma DeleteIndependentOfProvider(s: Store, address: string, token1: Option<string>, token2: Option<string>)
    ensures HandleDelete(s, address, token1).store == HandleDelete(s, address, token2).store
    ensures HandleDelete(HandleDelete(s, address, token1).store, address, token2).reply == DeleteGone
  {
  }

  /** A message as listed by `GET /messages`. */
  datatype MessageSummary = MessageSummary(id: string, fromName: string, subject: string)

  datatype InboxReply =
    | InboxGone
    | InboxAuthFailed
    | InboxEmpty(address: string)
    | InboxListing(address: string, buttons: seq<Choice>)

  /** `f"👤 {name} | ር {subject}"` */
  function MessageLabel(m: MessageSummary): string {
    "\U{1F464} " + m.fromName + " | \U{122D} " + m.subject
  }

  function MessageButtons(messages: seq<MessageSummary>, address: string): (r: seq<Choice>)
    ensures |r| == |messages|
    ensures forall i :: 0 <= i < |messages| ==>
              r[i] == Choice(MessageLabel(messages[i]), Encode(ViewAction, ViewValue(messages[i].id, address)))
  {
    if |messages| == 0 then []
    else [Choice(MessageLabel(messages[0]), Encode(ViewAction, ViewValue(messages[0].id, address)))]
         + MessageButtons(messages[1..], address)
  }

  /** What `handle_inbox_callback` did: the reply, the login it attempted and
      the token it listed the messages with. */
  datatype InboxOutcome = InboxOutcome(reply: InboxReply, login: Option<Login>, listedWith: Option<string>)

  /** `handle_inbox_callback` with `token` the reply of `get_auth_token` and
      `messages` the reply of `get_messages` (empty on failure). */
  function HandleInbox(s: Store, address: string, token: Option<string>, messages: seq<MessageSummary>): (r: InboxOutcome)
    ensures r.login.Some? <==> Find(s, address).Some?
    ensures r.login.Some? ==> r.login.value == Login(address, Find(s, address).value.password)
    ensures r.listedWith.Some? <==> r.login.Some? && Truthy(token)
    ensures r.listedWith.Some? ==> r.listedWith.value == token.value
    ensures r.reply.InboxGone? <==> Find(s, address).None?
    ensures r.reply.InboxAuthFailed? <==> r.login.Some? && !Truthy(token)
    ensures r.reply.InboxEmpty? <==> r.listedWith.Some? && |messages| == 0
    ensures r.reply.InboxEmpty? ==> r.reply.address == address
    ensures r.reply.InboxListing? ==>
              && r.reply.address == address
              && |r.reply.buttons| == Min(|messages|, InboxPageSize)
              && forall i :: 0 <= i < |r.reply.buttons| ==>
                   r.reply.buttons[i] == Choice(MessageLabel(messages[i]), Encode(ViewAction, ViewValue(messages[i].id, address)))
  {
    match Find(s, address)
    case None => InboxOutcome(InboxGone, None, None)
    case Some(entry) =>
      var login := Some(Login(address, entry.password));
      if !Truthy(token) then InboxOutcome(InboxAuthFailed, login, None)
      else if |messages| == 0 then InboxOutcome(InboxEmpty(address), login, token)
      else InboxOutcome(InboxListing(address, MessageButtons(Prefix(messages, InboxPageSize), address)), login, token)
  }

  /** The handlers receive the whole query, whose `from_user` is the presser,
      but none of them reads it, so the model takes no presser input. A
      crafted `inbox:` press for someone else's known address lists that inbox. */
  lemma InboxServesNonOwner(s: Store, requester: UserId, address: string, p: ProviderReplies)
    requires Find(s, address).Some? && Find(s, address).value.owner != requester
    requires Truthy(p.token) && |p.messages| > 0
    ensures var r := HandleButton(s, Encode(InboxAction, address), p);
            && r.0 == s
            && r.1.InboxShown? && r.1.inbox.reply.InboxListing? && r.1.inbox.reply.address == address
  {
    RouteEncode(address);
  }

  /** Each listed message's button routes to `view_msg` and splits back into
      that message's id and the inbox address, provided the id has no `|`. */
  lemma InboxButtonsRoute(s: Store, address: string, token: Option<string>, messages: seq<MessageSummary>, i: nat)
    requires HandleInbox(s, address, token, messages).reply.InboxListing?
    requires i < |HandleInbox(s, address, token, messages).reply.buttons|
    requires '|' !in messages[i].id
    ensures var data := HandleInbox(s, address, token, messages).reply.buttons[i].data;
            && Route(data) == ViewCommand(ViewValue(messages[i].id, address))
            && DecodeViewValue(Route(data).value) == Some((messages[i].id, address))
  {
    RouteEncode(ViewValue(messages[i].id, address));
    ViewTokenRoundTrip(messages[i].id, address);
  }

  datatype ViewReply =
    | ViewMalformed     // no `|` in the value: the unpacking raises ValueError
    | ViewGone
    | ViewAuthFailed
    | ViewFetchFailed
    | ViewBodyMissing   // falsy `text` and an empty `html` list: the indexing raises IndexError
    | ViewShown(view: MessageView)

  /** The request `get_message_by_id` receives: the token and the message id. */
  datatype FetchRequest = FetchRequest(token: string, messageId: string)

  /** What `handle_view_message_callback` did: the reply, the login it
      attempted and the message it asked the provider for. */
  datatype ViewOutcome = ViewOutcome(reply: ViewReply, login: Option<Login>, fetch: Option<FetchRequest>)

  /** `handle_view_message_callback` with `token` the reply of `get_auth_token`
      and `message` the reply of `get_message_by_id` to the fetch it makes. */
  function HandleViewMessage(s: Store, value: string, token: Option<string>, message: Option<MessageDetail>): (r: ViewOutcome)
    ensures r.reply.ViewMalformed? <==> '|' !in value
    ensures r.reply.ViewGone? <==> DecodeViewValue(value).Some? && Find(s, DecodeViewValue(value).value.1).None?
    ensures r.login.Some? <==> DecodeViewValue(value).Some? && Find(s, DecodeViewValue(value).value.1).Some?
    ensures r.login.Some? ==>
              var address := DecodeViewValue(value).value.1;
              r.login.value == Login(address, Find(s, address).value.password)
    ensures r.reply.ViewAuthFailed? <==> r.login.Some? && !Truthy(token)
    ensures r.fetch.Some? <==> r.login.Some? && Truthy(token)
    ensures r.fetch.Some? ==> r.fetch.value == FetchRequest(token.value, DecodeViewValue(value).value.0)
    ensures r.reply.ViewFetchFailed? <==> r.fetch.Some? && message.None?
    ensures r.reply.ViewBodyMissing? <==> r.fetch.Some? && message.Some? && RenderMessage(message.value).None?
    ensures r.reply.ViewShown? <==> r.fetch.Some? && message.Some? && RenderMessage(message.value).Some?
    ensures r.reply.ViewShown? ==> RenderMessage(message.value) == Some(r.reply.view)
  {
    match DecodeViewValue(value)
    case None => ViewOutcome(ViewMalformed, None, None)
    case Some((id, address)) =>
      match Find(s, address)
      case None => ViewOutcome(ViewGone, None, None)
      case Some(entry) =>
        var login := Some(Login(address, entry.password));
        if !Truthy(token) then ViewOutcome(ViewAuthFailed, login, None)
        else
          var fetch := Some(FetchRequest(token.value, id));
          match message
          case None => ViewOutcome(ViewFetchFailed, login, fetch)
          case Some(m) =>
            match RenderMessage(m)
            case None => ViewOutcome(ViewBodyMissing, login, fetch)
            case Some(v) => ViewOutcome(ViewShown(v), login, fetch)
  }

  /** The provider's replies during one button press: the token, the message
      list and the reply to the one message fetch, if any. */
  datatype ProviderReplies = ProviderReplies(token: Option<string>, messages: seq<MessageSummary>, message: Option<MessageDetail>)

  datatype ButtonReply =
    | PressMalformed
    | PressIgnored
    | DeleteDone(delete: DeleteOutcome)
    | InboxShown(inbox: InboxOutcome)
    | MessageShown(message: ViewOutcome)

  /** `button_handler`: route the data, then run the named handler. Only a
      delete changes the table. */
  function HandleButton(s: Store, data: string, p: ProviderReplies): (r: (Store, ButtonReply))
    ensures r.0 != s ==> Route(data).DeleteCommand?
    ensures Route(data).Malformed? ==> r == (s, PressMalformed)
    ensures Route(data).Ignored? ==> r == (s, PressIgnored)
    ensures Route(data).DeleteCommand? ==> r.1 == DeleteDone(HandleDelete(s, Route(data).address, p.token))
                                           && r.0 == r.1.delete.store
    ensures Route(data).InboxCommand? ==> r.1 == InboxShown(HandleInbox(s, Route(data).address, p.token, p.messages))
    ensures Route(data).ViewCommand? ==> r.1 == MessageShown(HandleViewMessage(s, Route(data).value, p.token, p.message))
  {
    match Route(data)
    case Malformed => (s, PressMalformed)
    case Ignored => (s, PressIgnored)
    case DeleteCommand(address) =>
      var d := HandleDelete(s, address, p.token);
      (d.store, DeleteDone(d))
    case InboxCommand(address) => (s, InboxShown(HandleInbox(s, address, p.token, p.messages)))
    case ViewCommand(value) => (s, MessageShown(HandleViewMessage(s, value, p.token, p.message)))
  }

  /** Pressing any button of a delete prompt removes that mailbox from the
      table and leaves every other mailbox as it was, whatever the provider replies. */
  lemma DeletePromptRemoves(s: Store, user: UserId, i: nat, p: ProviderReplies, other: string)
    requires Valid(s)
    requires Prompt(s, user, DeleteAction).SelectEmail? && i < |Prompt(s, user, DeleteAction).choices|
    ensures var c := Prompt(s, user, DeleteAction).choices[i];
            var after := HandleButton(s, c.data, p).0;
            && Find(after, c.text).None?
            && (other != c.text ==> Find(after, other) == Find(s, other))
            && UserEmails(after, user) == UserEmails(Remove(s, c.text), user)
  {
    PromptChoicesRoute(s, user, DeleteAction, i);
  }

  /** Pressing a message button of an inbox listing opens that message of
      that mailbox: the bot logs in with the stored password, asks the provider
      for that message's id, and with a renderable reply shows its rendering. */
  lemma InboxThenView(s: Store, address: string, token: Option<string>, messages: seq<MessageSummary>,
                      i: nat, p: ProviderReplies)
    requires HandleInbox(s, address, token, messages).reply.InboxListing?
    requires i < |HandleInbox(s, address, token, messages).reply.buttons|
    requires '|' !in messages[i].id
    requires Truthy(p.token) && p.message.Some? && RenderMessage(p.message.value).Some?
    ensures var data := HandleInbox(s, address, token, messages).reply.buttons[i].data;
            var r := HandleButton(s, data, p);
            && r.0 == s
            && r.1 == MessageShown(ViewOutcome(
                        ViewShown(RenderMessage(p.message.value).value),
                        Some(Login(address, Find(s, address).value.password)),
                        Some(FetchRequest(p.token.value, messages[i].id))))
  {
    InboxButtonsRoute(s, address, token, messages, i);
  }

  /** A mailbox made by `new_email` is created at the provider with the
      password drawn for it, and later logged into with that same password: by
      its inbox button, and by its delete button, whose remote delete names the
      provider's account. */
  lemma NewEmailThenButtons(s: Store, user: UserId, namePicks: seq<RandomNames.Pick>, passwordPicks: seq<RandomNames.Pick>,
                            domain: Option<string>, account: Option<Creation.AccountReply>, p: ProviderReplies)
    requires |namePicks| == RandomNames.UsernameLength && |passwordPicks| == RandomNames.PasswordLength
    requires Truthy(domain) && Creation.HasId(account) && Truthy(p.token)
    ensures var c := Creation.NewEmail(s, user, namePicks, passwordPicks, domain, account);
            var address := Creation.EmailAddress(RandomNames.RandomString(namePicks), domain.value);
            var login := Some(Login(address, RandomNames.RandomString(passwordPicks)));
            && c.reply == Creation.Created(address)
            && c.request == Some(Creation.AccountRequest(address, RandomNames.RandomString(passwordPicks)))
            && HandleButton(c.store, Encode(InboxAction, address), p).1 == InboxShown(HandleInbox(c.store, address, p.token, p.messages))
            && HandleInbox(c.store, address, p.token, p.messages).login == login
            && HandleButton(c.store, Encode(DeleteAction, address), p).1 == DeleteDone(HandleDelete(c.store, address, p.token))
            && HandleDelete(c.store, address, p.token).login == login
            && HandleDelete(c.store, address, p.token).remote == Some(RemoteDelete(p.token.value, account.value.id.value))
  {
    var c := Creation.NewEmail(s, user, namePicks, passwordPicks, domain, account);
    var address := Creation.EmailAddress(RandomNames.RandomString(namePicks), domain.value);
    var entry := Entry(user, RandomNames.RandomString(passwordPicks), account.value.id.value);
    assert c.reply == Creation.Created(address) && Find(c.store, address) == Some(entry);
    RouteEncode(address);
    assert HandleInbox(c.store, address, p.token, p.messages).login == Some(Login(address, entry.password));
    var d := HandleDelete(c.store, address, p.token);
    assert d.login == Some(Login(address, entry.password));
    assert d.remote == Some(RemoteDelete(p.token.value, entry.accountId));
    assert HandleButton(c.store, Encode(DeleteAction, address), p).1 == DeleteDone(d);
  }
}
