# Temporary-mail bot: mailbox lifecycle in Dafny

This project models the mailbox-lifecycle handlers of a Telegram bot that hands
out disposable addresses from the mail.gw provider. The handlers live in
`database.py`, even though the file's first line calls it `main.py`. The model covers:

- creating a mailbox with a random or a typed username (`new_email`,
  `get_custom_username`);
- the prompt that offers one button per owned mailbox (`inbox_or_delete_prompt`);
- routing a button press through its callback token (`button_handler`);
- deleting a mailbox (`handle_delete_callback`);
- listing an inbox (`handle_inbox_callback`);
- showing one message (`handle_view_message_callback`), including the
  `<[^<]+?>` tag stripping, the 3000-character cut and the attachment notice.

Modules, one per concern:

| file | module | what it holds |
|---|---|---|
| wrappers.dfy | `Wrappers` | `Option` |
| pystr.dfy | `PyStr` | Python `strip`, `lower`, `split(sep, 1)`, `s[:n]` and truthiness of optional strings |
| random_names.dfy | `RandomNames` | `generate_random_string` over `[a-z0-9]` |
| store.dfy | `MailboxStore` | the mailbox table: find, add, delete, per-user listing |
| tokens.dfy | `ChoiceTokens` | `action:address` and `view_msg:id\|address` tokens and their routing |
| tags.dfy | `TagStrip` | `re.sub('<[^<]+?>', '', s)` with Python's scan semantics |
| render.dfy | `Rendering` | body selection, truncation, the message view |
| creation.dfy | `Creation` | the two creation handlers |
| callbacks.dfy | `Callbacks` | the prompt and the three button handlers |

Choices made in the model:

- **The table.** The `db` module is not part of this model. Its table is a
  sequence of rows `(address, owner, password, account id)`, at most one row
  per address, kept in insertion order. `add_email` replaces any row with the
  same address and appends the new row. `find_email` looks an address up.
  `get_user_emails` lists one owner's rows in table order. `delete_email`
  removes the address.
- **Provider replies.** Every call into `mail_gw.py` becomes an input:
  - the domain is an `Option<string>`;
  - the account reply has an `id` or not;
  - the token is an `Option<string>`;
  - the message list is a sequence;
  - the message detail is an `Option`.

  Python truthiness is explicit: an empty domain or an empty token counts as
  a failure, as `if not domain` and `if token` make it. The result of the
  remote delete is discarded by the source, so it is not an input. The
  delete handler instead reports the request it makes, a token plus the
  account id.
- **Randomness.** `random.choices` becomes a sequence of draws. Each draw is
  an index below 36 into `abcdefghijklmnopqrstuvwxyz0123456789`.
  `RandomStringOnto` shows that every lowercase alphanumeric string of the
  right length is some outcome.
- **Exceptions.** Python raises in three places, and each becomes an error
  reply. `button_handler` raises `ValueError` on callback data without `:`.
  `handle_view_message_callback` raises `ValueError` on a value without `|`.
  It raises `IndexError` when `text` is falsy and `html` is an empty list
  (database.py:288). That last case is the `ViewBodyMissing` reply, not a
  precondition.
- **Ownership.** `button_handler` passes the whole query to each handler
  (database.py:215, 217, 219), and the query's `from_user` is the presser.
  None of `handle_delete_callback`, `handle_inbox_callback` and
  `handle_view_message_callback` reads it: each looks the address up and
  acts on it without asking who pressed (database.py:221-235, 237-264,
  266-311). Only the prompt restricts the offered buttons to the user's own
  mailboxes. The model follows the code and takes no presser input. `InboxServesNonOwner` states the consequence, and
  `PromptChoicesRoute` states what the prompt does guarantee.
- **Inbox order.** The comment at database.py:258 says "Show latest 10", but
  no sort is applied. The model lists the first ten messages in the
  provider's order.
- **Requests.** Each button handler reports the login it makes with the
  stored password, and the request that follows:
  - the remote delete with the account id;
  - the message listing with the token;
  - the message fetch with the token and the message id parsed from the
    button.

  The creation handlers report the `create_account` request, the address
  and the password, which is the password they then store.

## Model

| member | source | states |
|---|---|---|
| PyStr.Truthy | database.py:71 | Python truthiness of an optional string, as in `if not domain` and `if token`: `None` and `''` are false, every other string is true |
| PyStr.IsSpace | database.py:97 | `str.isspace()` for one character: exactly Python's 29 whitespace code points |
| PyStr.Strip | database.py:97 | `strip()` returns an infix of the text; everything cut from either end is whitespace, and the result neither starts nor ends with whitespace |
| PyStr.StripIdempotent | database.py:97 | stripping twice equals stripping once |
| PyStr.StripPadded | database.py:97 | a text that neither starts nor ends with whitespace is what `strip()` gives back after one space is added on each side |
| PyStr.Lower | database.py:97 | `lower()` keeps the length, maps each ASCII capital to its small letter, leaves every other character alone and leaves no ASCII capital |
| PyStr.LowerIdempotent | database.py:97 | lower-casing twice equals lower-casing once |
| PyStr.IndexOf | database.py:212 | the first occurrence of a separator is found: it is at the index returned, it does not occur before it, and None means it does not occur at all |
| PyStr.SplitOnce | database.py:212 | `split(sep, 1)` unpacked into two names: the text is head + sep + tail with no sep in head; it fails exactly when sep does not occur |
| PyStr.SplitOnceJoin | database.py:268 | splitting head + sep + tail gives back (head, tail) whenever head has no sep, even if tail has |
| PyStr.Prefix | database.py:258 | slicing `[:n]` keeps the first min(length, n) elements |
| RandomNames.AlphabetChars | database.py:37 | the alphabet `ascii_lowercase + digits` holds exactly the lowercase letters and digits |
| RandomNames.AlphabetLiteral | database.py:37 | spelled out, the alphabet is `abcdefghijklmnopqrstuvwxyz0123456789` |
| RandomNames.RandomString | database.py:35-37 | a generated string has one character per draw, all lowercase letters or digits |
| RandomNames.RandomStringOnto | database.py:35-37 | every lowercase alphanumeric string is an outcome of the generator for some draws of the same length |
| MailboxStore.Valid | database.py:79 | the table holds at most one row per address, so `find_email` has one answer; `add_email` and `delete_email` keep this |
| MailboxStore.Find | database.py:223 | `find_email` returns None exactly when no row has the address; otherwise the returned entry is stored under it |
| MailboxStore.FindRow | database.py:143-151 | in a table with one row per address, every listed row is what `find_email` returns for its address |
| MailboxStore.Remove | database.py:234 | `delete_email` keeps exactly the rows of other addresses and keeps one row per address |
| MailboxStore.RemoveAppend | database.py:234 | deletion distributes over concatenation, so the remaining rows keep their order |
| MailboxStore.FindAfterRemove | database.py:234 | after deletion the address is unknown and every other address is looked up as before |
| MailboxStore.FindAfterRemoveAll | database.py:234 | after deletion the address is unknown and all other addresses are unchanged, for all of them at once |
| MailboxStore.RemoveIdempotent | database.py:234 | deleting twice leaves the same table as deleting once |
| MailboxStore.Add | database.py:79 | `add_email` puts the new row last, after the old table minus that address, and keeps one row per address |
| MailboxStore.FindAfterAdd | database.py:109 | after adding, the address finds the new (owner, password, account id) and every other address is looked up as before |
| MailboxStore.FindAfterAddAll | database.py:79 | after adding, the address finds its new entry and all other addresses are unchanged, for all of them at once |
| MailboxStore.FindAppend | database.py:79 | an appended row is found only for an address the table did not hold yet |
| MailboxStore.UserEmails | database.py:143 | `get_user_emails` lists exactly the rows owned by the user |
| MailboxStore.UserEmailsAppend | database.py:143-151 | listing distributes over concatenation, so it keeps table order |
| MailboxStore.UserEmailsAfterAdd | database.py:79 | a newly added address is listed last among its owner's addresses |
| ChoiceTokens.Encode | database.py:150 | builds `action:value`; it is undone by `Decode` (see `DecodeEncode`) |
| ChoiceTokens.Decode | database.py:212 | `split(":", 1)` of the callback data, None for the ValueError; it inverts `Encode` (see `EncodeDecode`) |
| ChoiceTokens.ViewValue | database.py:259 | builds `id\|address` for a message button; it is undone by `DecodeViewValue` (see `ViewTokenRoundTrip`) |
| ChoiceTokens.DecodeViewValue | database.py:268 | `split("\|", 1)` of a message button's value, None for the ValueError |
| ChoiceTokens.DecodeEncode | database.py:150 | decoding `action:value` gives back (action, value) for every action without `:`, whatever the value holds |
| ChoiceTokens.EncodeDecode | database.py:212 | every callback data that decodes is the encoding of its parts, and data fails to decode exactly when it has no `:` |
| ChoiceTokens.ViewTokenRoundTrip | database.py:259 | a message button's data routes to `view_msg` and its value splits back into the message id and the address whenever the id has no `\|` |
| ChoiceTokens.Route | database.py:206-219 | a press is malformed exactly when the data has no `:`; a routed delete, inbox or view press carries the data after the first `:`; an ignored press has an action no branch names |
| ChoiceTokens.RouteEncode | database.py:212-219 | tokens built with `delete`, `inbox` or `view_msg` reach the matching handler with the value they were built from |
| TagStrip.StripTags | database.py:290 | `re.sub('<[^<]+?>', '', s)`, defined as the left-to-right scan that removes each shortest match; its properties are the `StripTags` lemmas below and `StripTagsScan` |
| TagStrip.CloseFrom | database.py:290 | the lazy search for the `>` that closes a tag, from a given position on; a position it finds lies inside the text, and `CloseFromFirst` states which one |
| TagStrip.TagEnd | database.py:290 | the end of the match starting at the first character, if any; a match ends at index 2 or later, inside the text, and `TagEndShortest` states which one |
| TagStrip.CloseFromFirst | database.py:290 | the lazy search finds the first `>` that closes the tag without an intervening `<`, and fails only when there is none |
| TagStrip.TagEndShortest | database.py:290 | a match found at a `<` is the shortest match of `<[^<]+?>` there, and no match is reported only when none exists |
| TagStrip.CloseFromBlocked | database.py:290 | the lazy search fails when a `<` comes before any `>` |
| TagStrip.StripTagsShorter | database.py:290 | stripping never lengthens the text |
| TagStrip.StripTagsPlainPrefix | database.py:290 | text before the first `<` is kept unchanged |
| TagStrip.StripTagsNoOpen | database.py:290 | a text without `<` is unchanged |
| TagStrip.StripTagsNoClose | database.py:290 | a text without `>` is unchanged |
| TagStrip.StripTagsTag | database.py:290 | a tag with a non-empty inside free of `<` and `>` is removed whole |
| TagStrip.StripTagsElement | database.py:290 | an opening tag goes and the plain text after it stays |
| TagStrip.StripTagsTwoTags | database.py:290 | two consecutive well-formed tags both vanish |
| TagStrip.StripTagsNested | database.py:290 | two nested elements around plain text lose their opening tags and whatever strips away after the inner text |
| TagStrip.StripTagsClosingExample | database.py:290 | `</b></p>` strips to nothing |
| TagStrip.StripTagsExampleParts | database.py:290 | the worked example assembled from its parts strips to `Hi there` |
| TagStrip.StripTagsExample | database.py:290 | `<p>Hi <b>there</b></p>` strips to `Hi there` |
| TagStrip.StripTagsReopened | database.py:290 | when a second `<` comes before any `>`, the first `<` opens no tag: everything before the second `<` is kept and the scan resumes there |
| TagStrip.StripTagsNotIdempotent | database.py:290 | one pass is not a fixed point: for any tag names a and b, `<a<b>>` strips to `<a>`, which strips to nothing |
| TagStrip.MatchAt | database.py:290 | the loop that looks for the end of a match at a position finds what the lazy search defines |
| TagStrip.StripTagsStep | database.py:290 | one scan step: a match at the position is dropped whole; otherwise the character is kept and the scan moves on by one |
| TagStrip.StripTagsScan | database.py:290 | the left-to-right loop that `re.sub` performs computes the recursive definition and never lengthens the text |
| Rendering.SelectBody | database.py:288 | the body is `text` when truthy, else the first `html` part, else empty when `html` is absent; the only failure is a falsy `text` with an empty `html` list; whatever is selected is the text, one of the HTML parts, or empty |
| Rendering.Truncate | database.py:298 | the shown body is the first min(length, 3000) characters of the cleaned body |
| Rendering.TruncateLongBody | database.py:298 | a 5000-character body is cut to exactly its first 3000 characters |
| Rendering.RenderMessage | database.py:288-308 | the display fails exactly when no body can be selected; otherwise its body is the prefix of the stripped body of length min(length, 3000), its header fields are the message's, and the attachment notice is present exactly when the attachment list is non-empty |
| Rendering.RenderLongPlainText | database.py:288-298 | a 5000-character plain-text message without markup shows exactly its first 3000 characters |
| Rendering.RenderedBodyBounded | database.py:290-298 | the shown body is at most 3000 characters and never longer than the raw body |
| Creation.EmailAddress | database.py:75 | a username without `@` is recovered, together with the domain, by splitting the address at its first `@` |
| Creation.HasId | database.py:78 | an account reply counts only when it is present and carries an `id`; the creation contracts use it for their success condition |
| Creation.CreateMailbox | database.py:69-79 | with no truthy domain nothing is stored and no account is requested; otherwise the address is `username@domain` and `create_account` is asked for it with the given password; the table changes only when the account reply has an `id`, and then the address finds (user, password, id), every other address is unchanged, and the new mailbox is listed last among the user's |
| Creation.NewEmail | database.py:64-87 | the address is the drawn username `@` the domain, that is 10 lowercase alphanumerics, `@`, then the domain; success exactly when the domain is truthy and the reply has an `id`; `create_account` is asked for the address with the drawn password exactly when the domain is truthy; on success the address finds the user, that same drawn 12-character lowercase alphanumeric password and the provider's account id, every other address is unchanged, and the new mailbox is listed last among the user's; on failure the table is unchanged |
| Creation.CustomUsername | database.py:97 | the normalised username is the infix of the typed text left by cutting whitespace from both ends, lower-cased character by character; it has no whitespace at either end and no ASCII capital |
| Creation.CustomUsernameNoAt | database.py:97 | normalising a text without `@` introduces no `@` |
| Creation.StripLower | database.py:97 | lower-casing a stripped text leaves it stripped |
| Creation.CustomUsernameIdempotent | database.py:97 | normalising a typed username twice equals normalising it once |
| Creation.CustomEmail | database.py:94-119 | no domain exactly when the domain is falsy; otherwise the address is the typed text stripped and lower-cased, `@`, then the domain; `create_account` is asked for the address with the random password exactly when the domain is truthy; success exactly when the reply has an `id`, and then the address finds the user, that same password and the id, every other address is unchanged, and the new mailbox is listed last among the user's; otherwise the table is unchanged |
| Creation.CustomEmailSplits | database.py:97-105 | for a typed name without `@`, splitting the created address at `@` gives back the normalised username and the domain |
| Creation.CustomUsernameExample | database.py:97 | a typed ` Alice ` becomes the username `alice` |
| Creation.CreateInEmptyTable | database.py:105-109 | the first mailbox created in an empty table is the creator's only listed address, stored with the password and the provider's id |
| Callbacks.PromptChoices | database.py:149-151 | one button per listed row, in order, showing the address and carrying `action:address` |
| Callbacks.Prompt | database.py:140-151 | a notice exactly when the user owns no mailbox; otherwise one button per owned mailbox in table order, labelled with the address and carrying `action:address` |
| Callbacks.PromptChoicesRoute | database.py:143-151 | every prompt button names a mailbox the user owns, and its data routes back to that mailbox under the prompt's action |
| Callbacks.HandleDelete | database.py:221-235 | an unknown address leaves the table alone with no login and no remote call; a known one is gone afterwards, every other address is unchanged, and the remote delete with the stored account id is requested exactly when the token is truthy |
| Callbacks.DeleteIndependentOfProvider | database.py:228-234 | the table after deletion does not depend on the provider's token, and a second delete finds nothing |
| Callbacks.MessageLabel | database.py:260 | the button text: the sender's name and the subject behind their two icons |
| Callbacks.MessageButtons | database.py:258-261 | one button per message, in order, labelled with its sender and subject and carrying `view_msg:id\|address` |
| Callbacks.HandleInbox | database.py:237-264 | the login with the stored password happens exactly when the address is known; messages are listed with the token exactly when it is truthy; unknown address, failed login, empty inbox and listing are told apart exactly; a listing has min(count, 10) buttons, the i-th for the i-th message in provider order |
| Callbacks.InboxServesNonOwner | database.py:206-219 | a crafted `inbox:` press for a known address that the presser does not own still lists that inbox and leaves the table alone |
| Callbacks.InboxButtonsRoute | database.py:258-261 | every listing button routes to `view_msg` and splits back into its message id and the inbox address when the id has no `\|` |
| Callbacks.HandleViewMessage | database.py:266-311 | malformed exactly when the value has no `\|`; gone exactly when the parsed address is unknown; otherwise the login uses the stored password, authentication fails exactly when the token is falsy, and otherwise the fetch asks for the parsed message id with that token; fetch failure, missing body and display are told apart exactly, and a display is the rendering of the fetched message |
| Callbacks.HandleButton | database.py:206-219 | only a delete press changes the table; malformed and unnamed actions change nothing; each routed press runs its handler with the value after the first `:` |
| Callbacks.DeletePromptRemoves | database.py:149-150 | pressing any button of a delete prompt removes that mailbox whatever the provider replies, leaves every other mailbox as it was, and drops it from the user's list |
| Callbacks.NewEmailThenButtons | database.py:221-245 | a mailbox made by `new_email` (database.py:68-79) is requested from the provider with the password drawn for it and is logged into, by its inbox button and by its delete button, with that same password, and the remote delete names the provider's account id |
| Callbacks.InboxThenView | database.py:259-282 | pressing the i-th button of a listing logs in with the mailbox's stored password, fetches `messages[i].id` and, with a renderable reply to that fetch, shows its rendering, leaving the table alone |

## Left out

- `mail_gw.py`, the provider client: HTTP requests, JSON indexing and logging. Its replies are inputs, and `delete_account_by_id` is a stub whose result the handler discards.
- The `db` module internals: how `add_email`, `find_email`, `get_user_emails` and `delete_email` are stored. They are modelled as the table above.
- `cleanup_old_emails`, `get_stats` and `auto_cleanup_job`, which depend on the clock and on storage not in view.
- `auto_check_new_mail_job`, which does nothing in the source.
- `stats`, which only formats the two counts of `get_stats`.
- Telegram plumbing:
  - `Update`, `CallbackContext` and `query.answer`;
  - inline keyboards, beyond the text and data of each button;
  - the `/start`, `/help` and `/cancel` texts and `custom_email_start`;
  - conversation states.
- Reply wording and Markdown layout. Replies are datatypes. The message view keeps the recipients as a list rather than the `', '.join` text, and leaves out the header labels and the dashed rule.
- `list_emails`. It formats the same `get_user_emails` listing that `MailboxStore.UserEmails` models.
- The prompt's lead-in sentence, which varies with the action.
- The random source itself, the Flask keep-alive thread, job scheduling, the environment-variable check and the logging setup.
- The welcome text of `start` (database.py:43-47). It is a single-quoted f-string spanning lines, which Python rejects as written; it is display text outside the handlers modelled.
- Malformed provider JSON:
  - a message summary without `from` or `subject`;
  - an `html` field that is JSON null;
  - an account `id` that is null.

  The model assumes well-shaped replies.
- PyStr.Lower: maps only the ASCII capitals; Python's `lower()` also lower-cases non-ASCII letters such as `É`.
