/**
 Choice tokens: the callback data attached to inline buttons. A prompt button
 carries `action:address`; an inbox button carries `view_msg:id|address`.
 A press is routed by splitting the data at its first `:`; a message button's
 value is split again at its first `|`.
 */
module ChoiceTokens {
  import opened Wrappers
  import opened PyStr

  const InboxAction: string := "inbox"
  const DeleteAction: string := "delete"
  const ViewAction: string := "view_msg"

  /** `f"{action}:{value}"` */
  function Encode(action: string, value: string): string {
    action + ":" + value
  }

  /** `action, value = data.split(":", 1)`; None is the ValueError of a data string without `:`. */
  function Decode(data: string): Option<(string, string)> {
    SplitOnce(data, ':')
  }

  /** `f"{message_id}|{email_address}"`, the value part of a message button. */
  function ViewValue(id: string, address: string): string {
    id + "|" + address
  }

  /** `message_id, email_address = value.split("|", 1)` */
  function DecodeViewValue(value: string): Option<(string, string)> {
    SplitOnce(value, '|')
  }

  /** Decoding an encoded token gives back its parts whenever the action has
      no `:`; the address may contain any character, `:` included. */
  lemma DecodeEncode(action: string, value: string)
    requires ':' !in action
    ensures Decode(Encode(action, value)) == Some((action, value))
  {
    SplitOnceJoin(action, ':', value);
  }

  /** Every data string that decodes is the encoding of what it decodes to,
      and its action part has no `:`. */
  lemma EncodeDecode(data: string)
    ensures Decode(data).Some? ==>
              ':' !in Decode(data).value.0 && Encode(Decode(data).value.0, Decode(data).value.1) == data
    ensures Decode(data).None? <==> ':' !in data
  {
  }

  /** A message button round-trips: the press is routed as `view_msg` with the
      value `id|address`, which splits back into `id` and `address` whenever
      the message id has no `|`. */
  lemma ViewTokenRoundTrip(id: string, address: string)
    requires '|' !in id
    ensures Decode(Encode(ViewAction, ViewValue(id, address))) == Some((ViewAction, ViewValue(id, address)))
    ensures DecodeViewValue(ViewValue(id, address)) == Some((id, address))
  {
    DecodeEncode(ViewAction, ViewValue(id, address));
    SplitOnceJoin(id, '|', address);
  }

  /** An action free of `:` that none of the branches of `button_handler` names. */
  predicate UnknownAction(action: string) {
    ':' !in action && action != DeleteAction && action != InboxAction && action != ViewAction
  }

  /** Where `button_handler` sends a press. */
  datatype Command =
    | DeleteCommand(address: string)
    | InboxCommand(address: string)
    | ViewCommand(value: string)
    | Ignored          // an action none of the branches names: nothing happens
    | Malformed        // no `:` in the data: the unpacking raises ValueError

  /** `button_handler`: split the data at its first `:` and dispatch on the action. */
  function Route(data: string): (c: Command)
    ensures c.Malformed? <==> ':' !in data
    ensures c.DeleteCommand? ==> data == Encode(DeleteAction, c.address)
    ensures c.InboxCommand? ==> data == Encode(InboxAction, c.address)
    ensures c.ViewCommand? ==> data == Encode(ViewAction, c.value)
    ensures c.Ignored? ==> exists action, value :: data == Encode(action, value) && UnknownAction(action)
  {
    match Decode(data)
    case None => Malformed
    case Some((action, value)) =>
      if action == DeleteAction then DeleteCommand(value)
      else if action == InboxAction then InboxCommand(value)
      else if action == ViewAction then ViewCommand(value)
      else
        assert data == Encode(action, value);
        Ignored
  }

  /** Every token a button can carry is routed to the handler its action names,
      with the address (or message value) it was built from. */
  lemma RouteEncode(value: string)
    ensures Route(Encode(DeleteAction, value)) == DeleteCommand(value)
    ensures Route(Encode(InboxAction, value)) == InboxCommand(value)
    ensures Route(Encode(ViewAction, value)) == ViewCommand(value)
  {
    DecodeEncode(DeleteAction, value);
    DecodeEncode(InboxAction, value);
    DecodeEncode(ViewAction, value);
  }
}
