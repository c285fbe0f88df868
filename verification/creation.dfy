/**
 Mailbox creation: `new_email` (random username) and `get_custom_username`
 (username typed by the user). Both build `username@domain` from the
 provider's first domain, ask the provider to create the account, and record
 the mailbox only when the provider's reply carries an account `id`.
 */
module Creation {
  import opened Wrappers
  import opened PyStr
  import opened RandomNames
  import opened MailboxStore

  /** The part of the provider's reply to `POST /accounts` the bot reads:
      the account `id`, when the reply has one. */
  datatype AccountReply = AccountReply(id: Option<string>)

  /** What the user is told. */
  datatype CreateReply =
    | NoDomain                        // no domain could be fetched
    | CreateFailed(address: string)   // the provider refused or was unreachable
    | Created(address: string)

  /** `mail.create_account(email_address, password)`: the account the bot
      asks the provider to create. */
  datatype AccountRequest = AccountRequest(address: string, password: string)

  /** The table afterwards, the reply, and the account request sent, if any. */
  datatype CreateOutcome = CreateOutcome(store: Store, reply: CreateReply, request: Option<AccountRequest>)

  /** `f"{username}@{domain}"`. A username without `@` is recovered, with the
      domain, by splitting the address at its first `@`. */
  function EmailAddress(username: string, domain: string): (r: string)
    ensures '@' !in username ==> SplitOnce(r, '@') == Some((username, domain))
  {
    assert '@' !in username ==> SplitOnce(username + "@" + domain, '@') == Some((username, domain)) by {
      if '@' !in username {
        SplitOnceJoin(username, '@', domain);
      }
    }
    username + "@" + domain
  }

  /** `account_info and 'id' in account_info` */
  predicate HasId(account: Option<AccountReply>) {
    account.Some? && account.value.id.Some?
  }

  /** The steps both creation handlers share, after the username and password
      are chosen: check the domain, build the address, and store the mailbox
      if the provider created it. The provider is asked for an account, with
      the very password that is stored, exactly when a domain was found; the
      new mailbox is listed last among the user's. */
  function CreateMailbox(s: Store, user: UserId, username: string, password: string,
                         domain: Option<string>, account: Option<AccountReply>): (r: CreateOutcome)
    ensures !Truthy(domain) ==> r == CreateOutcome(s, NoDomain, None)
    ensures Truthy(domain) ==> !r.reply.NoDomain? && r.reply.address == EmailAddress(username, domain.value)
    ensures r.request.Some? <==> Truthy(domain)
    ensures r.request.Some? ==> r.request.value == AccountRequest(r.reply.address, password)
    ensures Truthy(domain) && !HasId(account) ==>
              r == CreateOutcome(s, CreateFailed(EmailAddress(username, domain.value)), r.request)
    ensures Truthy(domain) && HasId(account) ==>
              && r.reply.Created?
              && Find(r.store, r.reply.address) == Some(Entry(user, password, account.value.id.value))
              && (forall other :: other != r.reply.address ==> Find(r.store, other) == Find(s, other))
              && UserEmails(r.store, user)
                 == UserEmails(Remove(s, r.reply.address), user) + [Row(r.reply.address, Entry(user, password, account.value.id.value))]
    ensures Valid(s) ==> Valid(r.store)
  {
    if !Truthy(domain) then CreateOutcome(s, NoDomain, None)
    else
      var address := EmailAddress(username, domain.value);
      var request := Some(AccountRequest(address, password));
      if HasId(account) then
        var id := account.value.id.value;
        FindAfterAddAll(s, user, address, password, id);
        UserEmailsAfterAdd(s, user, address, password, id);
        CreateOutcome(Add(s, user, address, password, id), Created(address), request)
      else CreateOutcome(s, CreateFailed(address), request)
  }

  /** `new_email`: a 10-character random username and a 12-character random
      password, both drawn by `generate_random_string`. */
  function NewEmail(s: Store, user: UserId, namePicks: seq<Pick>, passwordPicks: seq<Pick>,
                    domain: Option<string>, account: Option<AccountReply>): (r: CreateOutcome)
    requires |namePicks| == UsernameLength && |passwordPicks| == PasswordLength
    ensures r.reply.NoDomain? <==> !Truthy(domain)
    ensures r.reply.Created? <==> Truthy(domain) && HasId(account)
    ensures !r.reply.Created? ==> r.store == s
    ensures !r.reply.NoDomain? ==> r.reply.address == EmailAddress(RandomString(namePicks), domain.value)
    ensures r.request.Some? <==> Truthy(domain)
    ensures r.request.Some? ==> r.request.value == AccountRequest(r.reply.address, RandomString(passwordPicks))
    ensures !r.reply.NoDomain? ==>
              && |r.reply.address| == UsernameLength + 1 + |domain.value|
              && AllLowerAlnum(r.reply.address[..UsernameLength])
              && r.reply.address[UsernameLength] == '@'
              && r.reply.address[UsernameLength + 1..] == domain.value
    ensures r.reply.Created? ==>
              && Find(r.store, r.reply.address).Some?
              && Find(r.store, r.reply.address).value.owner == user
              && |Find(r.store, r.reply.address).value.password| == PasswordLength
              && AllLowerAlnum(Find(r.store, r.reply.address).value.password)
              && Find(r.store, r.reply.address).value.accountId == account.value.id.value
              && Find(r.store, r.reply.address) == Some(Entry(user, RandomString(passwordPicks), account.value.id.value))
              && (forall other :: other != r.reply.address ==> Find(r.store, other) == Find(s, other))
    ensures r.reply.Created? ==>
              UserEmails(r.store, user) == UserEmails(Remove(s, r.reply.address), user)
                                           + [Row(r.reply.address, Entry(user, RandomString(passwordPicks), account.value.id.value))]
  {
    var username := RandomString(namePicks);
    var password := RandomString(passwordPicks);
    var r := CreateMailbox(s, user, username, password, domain, account);
    assert !r.reply.NoDomain? ==> r.reply.address[..UsernameLength] == username;
    r
  }

  /** `update.message.text.strip().lower()`: the typed text with whitespace
      cut from both ends and the rest lower-cased character by character, so
      no whitespace at either end and no ASCII capital left. */
  function CustomUsername(text: string): (r: string)
    ensures exists i :: LowerCutAt(text, i, r)
    ensures |r| <= |text|
    ensures |r| > 0 ==> !IsSpace(r[0]) && !IsSpace(r[|r| - 1])
    ensures forall k :: 0 <= k < |r| ==> !IsAsciiUpper(r[k])
  {
    StripLower(Strip(text));
    StripIdempotent(text);
    LowerStrip(text);
    Lower(Strip(text))
  }

  /** Lower-casing keeps a stripped string stripped: it never touches whitespace. */
  lemma StripLower(x: string)
    requires Strip(x) == x
    ensures Strip(Lower(x)) == Lower(x)
  {
    var y := Lower(x);
    if |y| > 0 {
      assert LeadingSpaces(y) == 0;
      assert TrailingSpaces(y) == 0;
      assert y[0..][..|y| - 0] == y;
    }
  }

  /** Normalising a username twice is normalising it once, so a user who types
      the normalised form gets the same address. */
  lemma CustomUsernameIdempotent(text: string)
    ensures CustomUsername(CustomUsername(text)) == CustomUsername(text)
  {
    StripIdempotent(text);
    StripLower(Strip(text));
    LowerIdempotent(Strip(text));
  }

  /** `get_custom_username`: the typed text, stripped and lower-cased, is the
      username; the password is random as for `new_email`. */
  function CustomEmail(s: Store, user: UserId, text: string, passwordPicks: seq<Pick>,
                       domain: Option<string>, account: Option<AccountReply>): (r: CreateOutcome)
    requires |passwordPicks| == PasswordLength
    ensures r.reply.NoDomain? <==> !Truthy(domain)
    ensures r.reply.Created? <==> Truthy(domain) && HasId(account)
    ensures !r.reply.Created? ==> r.store == s
    ensures !r.reply.NoDomain? ==> r.reply.address == EmailAddress(Lower(Strip(text)), domain.value)
    ensures r.request.Some? <==> Truthy(domain)
    ensures r.request.Some? ==> r.request.value == AccountRequest(r.reply.address, RandomString(passwordPicks))
    ensures r.reply.Created? ==>
              && Find(r.store, r.reply.address) == Some(Entry(user, RandomString(passwordPicks), account.value.id.value))
              && (forall other :: other != r.reply.address ==> Find(r.store, other) == Find(s, other))
    ensures r.reply.Created? ==>
              UserEmails(r.store, user) == UserEmails(Remove(s, r.reply.address), user)
                                           + [Row(r.reply.address, Entry(user, RandomString(passwordPicks), account.value.id.value))]
  {
    CreateMailbox(s, user, CustomUsername(text), RandomString(passwordPicks), domain, account)
  }

  /** Normalising introduces no `@`: characters other than ASCII capitals are
      kept, and capitals become small letters. */
  lemma {:induction false} CustomUsernameNoAt(text: string)
    requires '@' !in text
    ensures '@' !in CustomUsername(text)
  {
    var t := Strip(text);
    var i :| CutAt(text, i, t);
    assert forall k :: 0 <= k < |t| ==> t[k] == text[i + k];
    forall k | 0 <= k < |Lower(t)|
      ensures Lower(t)[k] != '@'
    {
      assert t[k] in text;
    }
  }

  /** A typed name without `@` can be read back from the created address:
      splitting it at `@` gives the normalised username and the domain. */
  lemma CustomEmailSplits(s: Store, user: UserId, text: string, passwordPicks: seq<Pick>,
                          domain: Option<string>, account: Option<AccountReply>)
    requires |passwordPicks| == PasswordLength
    requires Truthy(domain) && '@' !in text
    ensures SplitOnce(CustomEmail(s, user, text, passwordPicks, domain, account).reply.address, '@')
            == Some((CustomUsername(text), domain.value))
  {
    CustomUsernameNoAt(text);
  }

  /** A typed ` Alice ` becomes the username `alice`. */
  lemma CustomUsernameExample()
    ensures CustomUsername(" Alice ") == "alice"
  {
    var name := "Alice";
    StripPadded(name);
    assert " " + name + " " == " Alice ";
    assert Lower(name) == "alice";
  }

  /** The first mailbox created in an empty table is the creator's only
      listed address, stored with the password and the provider's id. */
  lemma CreateInEmptyTable(user: UserId, username: string, password: string, domain: string, id: string)
    requires domain != ""
    ensures var r := CreateMailbox([], user, username, password, Some(domain), Some(AccountReply(Some(id))));
            && r.reply == Created(EmailAddress(username, domain))
            && UserEmails(r.store, user) == [Row(EmailAddress(username, domain), Entry(user, password, id))]
  {
    var row := Row(EmailAddress(username, domain), Entry(user, password, id));
    assert Remove([], row.address) == [];
    assert UserEmails([row], user) == [row] by {
      assert [row][1..] == [];
    }
  }
}
