/** `DeleteMessageCommand`: a per-participant soft delete. The acting user
    comes from the request's user context, never from the command. */
module DeleteMessage {
  import opened Optional
  import opened Guids
  import opened Messages
  import opened MessageRepository
  import opened Results
  import opened ValidationPipeline

  datatype DeleteMessageCommand = DeleteMessageCommand(id: Guid)

  /** The validator's message names the wrong field; it is kept verbatim. */
  const IdRequired := "Username is required"
  const NotAuthenticated := "User is not authenticated."
  const NotFound := "Message not found."
  const Forbidden := "You do not have permission to delete this message."

  /** `DeleteMessageCommandValidator`: the id must not be `Guid.Empty`. */
  function Validator(cmd: DeleteMessageCommand): (errors: seq<Option<string>>)
    ensures ErrorMessages(errors) == [] <==> cmd.id != EmptyGuid
    ensures cmd.id == EmptyGuid ==> ErrorMessages(errors) == [IdRequired]
  {
    if cmd.id == EmptyGuid then [Some(IdRequired)] else []
  }

  /** The soft delete applied on behalf of participant `u`. The sender flag
      takes precedence: a user who is both sender and recipient only gets
      the sender flag set. Every call stamps the deletion audit. */
  function SoftDelete(m: Message, u: UserId, now: Time): (r: Message)
    ensures r.isDeletedBySender == (m.isDeletedBySender || m.senderId == u)
    ensures r.isDeletedByRecipient == (m.isDeletedByRecipient || (m.recipientId == u && m.senderId != u))
    ensures r.deletedAt == Some(now) && r.deletedBy == u
    ensures Strip(r) == Strip(m) && r.isRead == m.isRead
  {
    var flagged :=
      if m.senderId == u then m.(isDeletedBySender := true)
      else if m.recipientId == u then m.(isDeletedByRecipient := true)
      else m;
    flagged.(deletedAt := Some(now), deletedBy := u)
  }

  /** `DeleteMessageCommandHandler.Handle`. Failures leave the store as it
      was; a success rewrites exactly the target row through one update. */
  function Handle(store: seq<Message>, caller: Option<UserId>, cmd: DeleteMessageCommand, now: Time)
    : (r: Handled<seq<Message>, string, StoreError>)
    ensures Valid(store) ==> r.Completed?
    ensures !Identified(caller) ==> r == Completed(store, FailureResult(NotAuthenticated))
    ensures Identified(caller) && cmd.id !in Ids(store) ==> r == Completed(store, FailureResult(NotFound))
    ensures Identified(caller) && cmd.id in Ids(store) ==>
              var m := GetById(store, cmd.id).value;
              var u := caller.value;
              if m.senderId != u && m.recipientId != u then
                r == Completed(store, FailureResult(Forbidden))
              else
                r.Completed? ==>
                  && r.result == SuccessResult("Message " + IdString(cmd.id) + " deleted successfully.")
                  && GetById(r.state, cmd.id) == Some(SoftDelete(m, u, now))
                  && (forall other :: other != cmd.id ==> GetById(r.state, other) == GetById(store, other))
                  && Ids(r.state) == Ids(store)
                  && (Valid(store) ==> Valid(r.state))
  {
    if !Identified(caller) then Completed(store, FailureResult(NotAuthenticated))
    else
      var u := caller.value;
      match GetById(store, cmd.id)
      case None => Completed(store, FailureResult(NotFound))
      case Some(m) =>
        if m.senderId != u && m.recipientId != u then Completed(store, FailureResult(Forbidden))
        else
          assert Valid(store) ==> ValidRow(m) by {
            var j :| 0 <= j < |store| && store[j] == m;
          }
          match Update(store, SoftDelete(m, u, now))
          case Saved(s) => Completed(s, SuccessResult("Message " + IdString(cmd.id) + " deleted successfully."))
          case Rejected(e) => Threw(e)
  }

  /** Deleting hides the message from the acting participant when they hold
      only one role, and changes nothing about what anyone else sees. */
  lemma DeleteHidesFromActorOnly(m: Message, u: UserId, now: Time, other: UserId)
    requires m.senderId == u || m.recipientId == u
    requires other != u
    ensures m.senderId != m.recipientId ==> !Visible(u, SoftDelete(m, u, now))
    ensures Visible(other, SoftDelete(m, u, now)) == Visible(other, m)
  {
  }

  /** A user deleting a message to themself sets only the sender flag, so
      the message stays in their feed through the recipient role. */
  lemma SelfDeleteStaysVisible(m: Message, u: UserId, now: Time)
    requires m.senderId == u && m.recipientId == u && !m.isDeletedByRecipient
    ensures SoftDelete(m, u, now).isDeletedBySender
    ensures !SoftDelete(m, u, now).isDeletedByRecipient
    ensures Visible(u, SoftDelete(m, u, now))
  {
  }

  /** Deleting again by the same participant re-stamps the audit but leaves
      both flags where the first delete put them. */
  lemma RedeleteRestamps(m: Message, u: UserId, t1: Time, t2: Time)
    requires m.senderId == u || m.recipientId == u
    ensures var once := SoftDelete(m, u, t1);
      var twice := SoftDelete(once, u, t2);
      && twice.isDeletedBySender == once.isDeletedBySender
      && twice.isDeletedByRecipient == once.isDeletedByRecipient
      && twice.deletedAt == Some(t2) && twice.deletedBy == u
  {
  }

  /** Through the validation stage: an empty id never reaches the handler. */
  function Send(store: seq<Message>, caller: Option<UserId>, cmd: DeleteMessageCommand, now: Time)
    : Handled<seq<Message>, string, StoreError>
  {
    Validated([Validator], cmd, store, (c, s) => Handle(s, caller, c, now))
  }

  lemma SendRejectsEmptyId(store: seq<Message>, caller: Option<UserId>, now: Time)
    ensures Send(store, caller, DeleteMessageCommand(EmptyGuid), now)
            == Completed(store, Fresh<string>().SetFailures([IdRequired]))
  {
    ErrorsSingle(Validator, DeleteMessageCommand(EmptyGuid));
  }
}
