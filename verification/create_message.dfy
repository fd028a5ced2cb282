/** `CreateMessageCommand`: its validator, its handler, and the two composed
    through the validation stage. The sender is taken from the command as
    given; nothing checks it against the caller. */
module CreateMessage {
  import opened Optional
  import opened Guids
  import opened Messages
  import opened MessageRepository
  import opened Results
  import opened ValidationPipeline

  datatype CreateMessageCommand = CreateMessageCommand(senderId: string, recipientId: string, content: string)

  /** The creation path's bound on content, far below the column's 2000. */
  const MaxContentLength: nat := 500

  const SenderRequired := "Sender ID is required."
  const RecipientRequired := "Recipient ID is required."
  const ContentRequired := "Message content cannot be empty."
  const ContentTooLongMessage := "Message content cannot exceed 500 characters."

  /** `char.IsWhiteSpace`: the Unicode space, line and paragraph separators
      plus the control characters U+0009 to U+000D and U+0085. */
  predicate IsWhiteSpace(c: char) {
    || c == ' ' || '\t' <= c <= '\r' || c == '\U{85}' || c == '\U{A0}' || c == '\U{1680}'
    || '\U{2000}' <= c <= '\U{200A}' || c == '\U{2028}' || c == '\U{2029}'
    || c == '\U{202F}' || c == '\U{205F}' || c == '\U{3000}'
  }

  /** The `NotEmpty` rule on a string: not empty and not only white space. */
  predicate NotBlank(s: string) {
    exists i :: 0 <= i < |s| && !IsWhiteSpace(s[i])
  }

  /** The message of one rule: its text when the rule fails, else nothing. */
  function Rule(passes: bool, message: string): (errors: seq<Option<string>>)
    ensures ErrorMessages(errors) == if passes then [] else [message]
  {
    ErrorMessagesAppend([], []);
    if passes then [] else [Some(message)]
  }

  /** `CreateMessageCommandValidator`: each rule reports its own message
      exactly when it fails, and the messages follow the order in which the
      rules are declared, each at most once. */
  function Validator(cmd: CreateMessageCommand): (errors: seq<Option<string>>)
    ensures SenderRequired in ErrorMessages(errors) <==> !NotBlank(cmd.senderId)
    ensures RecipientRequired in ErrorMessages(errors) <==> !NotBlank(cmd.recipientId)
    ensures ContentRequired in ErrorMessages(errors) <==> !NotBlank(cmd.content)
    ensures ContentTooLongMessage in ErrorMessages(errors) <==> |cmd.content| > MaxContentLength
    ensures forall e :: e in ErrorMessages(errors) ==>
              e in [SenderRequired, RecipientRequired, ContentRequired, ContentTooLongMessage]
    ensures ErrorMessages(errors) == FailedRules(
              NotBlank(cmd.senderId), NotBlank(cmd.recipientId), NotBlank(cmd.content),
              |cmd.content| <= MaxContentLength)
    ensures ErrorMessages(errors) == [] <==>
              NotBlank(cmd.senderId) && NotBlank(cmd.recipientId) && NotBlank(cmd.content)
              && |cmd.content| <= MaxContentLength
  {
    var p1, p2, p3, p4 := NotBlank(cmd.senderId), NotBlank(cmd.recipientId), NotBlank(cmd.content),
                          |cmd.content| <= MaxContentLength;
    RulesReport(p1, p2, p3, p4);
    RulesMessages(p1, p2, p3, p4);
    Rules(p1, p2, p3, p4)
  }

  /** The four rules' entries, in declaration order, given which pass. */
  function Rules(p1: bool, p2: bool, p3: bool, p4: bool): seq<Option<string>> {
    Rule(p1, SenderRequired) + Rule(p2, RecipientRequired) + Rule(p3, ContentRequired)
    + Rule(p4, ContentTooLongMessage)
  }

  /** The texts of the failed rules, each once, in the order the rules are
      declared. */
  function FailedRules(p1: bool, p2: bool, p3: bool, p4: bool): seq<string> {
    (if p1 then [] else [SenderRequired]) + (if p2 then [] else [RecipientRequired])
    + (if p3 then [] else [ContentRequired]) + (if p4 then [] else [ContentTooLongMessage])
  }

  /** The messages of the four rules are the failed rules' texts, in order. */
  lemma RulesMessages(p1: bool, p2: bool, p3: bool, p4: bool)
    ensures ErrorMessages(Rules(p1, p2, p3, p4)) == FailedRules(p1, p2, p3, p4)
  {
    var e1, e2, e3 := Rule(p1, SenderRequired), Rule(p2, RecipientRequired), Rule(p3, ContentRequired);
    var e4 := Rule(p4, ContentTooLongMessage);
    ErrorMessagesAppend(e1 + e2 + e3, e4);
    ErrorMessagesAppend(e1 + e2, e3);
    ErrorMessagesAppend(e1, e2);
  }

  /** Each rule's message is reported exactly when that rule fails, and no
      other message is. */
  lemma RulesReport(p1: bool, p2: bool, p3: bool, p4: bool)
    ensures var r := FailedRules(p1, p2, p3, p4);
      && (SenderRequired in r <==> !p1) && (RecipientRequired in r <==> !p2)
      && (ContentRequired in r <==> !p3) && (ContentTooLongMessage in r <==> !p4)
      && (forall e :: e in r ==> e in [SenderRequired, RecipientRequired, ContentRequired, ContentTooLongMessage])
      && (r == [] <==> p1 && p2 && p3 && p4)
  {
    assert SenderRequired[0] == 'S' && RecipientRequired[0] == 'R';
    assert ContentRequired[0] == 'M' && ContentTooLongMessage[0] == 'M';
    assert ContentRequired[23] == 'b' && ContentTooLongMessage[23] == 'e';
  }

  /** `CreateMessageCommandHandler.Handle`: stores a message with the fresh
      key `id`, stamped `now`, and answers with the key's text. A database
      error is re-thrown, never turned into a failed result. */
  function Handle(store: seq<Message>, cmd: CreateMessageCommand, id: Guid, now: Time): (r: Handled<seq<Message>, string, StoreError>)
    ensures r.Completed? <==> id !in Ids(store) && |cmd.content| <= MaxStoredContent
    ensures r.Completed? ==>
              && r.result == SuccessResult(IdString(id))
              && GetById(r.state, id) == Some(NewMessage(id, cmd.senderId, cmd.recipientId, cmd.content, now))
              && (forall other :: other != id ==> GetById(r.state, other) == GetById(store, other))
              && multiset(r.state) == multiset(store) + multiset{NewMessage(id, cmd.senderId, cmd.recipientId, cmd.content, now)}
    ensures r.Completed? && Valid(store) ==> Valid(r.state)
    ensures r.Threw? && id in Ids(store) ==> r.error == DuplicateKey(id)
    ensures r.Threw? && id !in Ids(store) ==> r.error == ContentTooLong(id)
  {
    var m := NewMessage(id, cmd.senderId, cmd.recipientId, cmd.content, now);
    match Add(store, m)
    case Saved(s) => Completed(s, SuccessResult(IdString(id)))
    case Rejected(e) => Threw(e)
  }

  /** Sending the command through the validation stage to the handler. */
  function Send(store: seq<Message>, cmd: CreateMessageCommand, id: Guid, now: Time): Handled<seq<Message>, string, StoreError>
  {
    Validated([Validator], cmd, store, (c, s) => Handle(s, c, id, now))
  }

  /** An invalid command is answered with its rule messages and stores nothing. */
  lemma SendRejectsInvalid(store: seq<Message>, cmd: CreateMessageCommand, id: Guid, now: Time)
    requires !NotBlank(cmd.senderId) || !NotBlank(cmd.recipientId) || !NotBlank(cmd.content)
             || |cmd.content| > MaxContentLength
    ensures var r := Send(store, cmd, id, now);
      && r.Completed? && r.state == store && r.result.HasFailed()
      && r.result.failures == ErrorMessages(Validator(cmd)) && |r.result.failures| > 0
  {
    OneValidator(cmd);
  }

  /** The stage's messages are those of the one validator: the failed rules'
      texts. */
  lemma OneValidator(cmd: CreateMessageCommand)
    ensures Errors([Validator], cmd) == ErrorMessages(Validator(cmd))
    ensures Errors([Validator], cmd) == FailedRules(
              NotBlank(cmd.senderId), NotBlank(cmd.recipientId), NotBlank(cmd.content),
              |cmd.content| <= MaxContentLength)
  {
    ErrorsSingle(Validator, cmd);
  }

  /** A valid command with a fresh key stores exactly one message, whose
      content has between 1 and 500 characters, and answers with text from
      which the key can be read back. */
  lemma SendStoresValid(store: seq<Message>, cmd: CreateMessageCommand, id: Guid, now: Time)
    requires NotBlank(cmd.senderId) && NotBlank(cmd.recipientId) && NotBlank(cmd.content)
             && |cmd.content| <= MaxContentLength
    requires id !in Ids(store)
    ensures var r := Send(store, cmd, id, now);
      && r.Completed? && !r.result.HasFailed()
      && r.result == SuccessResult(IdString(id)) && ParseId(r.result.value.value) == id
      && multiset(r.state) == multiset(store) + multiset{NewMessage(id, cmd.senderId, cmd.recipientId, cmd.content, now)}
      && 1 <= |GetById(r.state, id).value.content| <= MaxContentLength
  {
    ValidReachesHandler(store, cmd, id, now);
    HandleStoresValid(store, cmd, id, now);
  }

  /** A command that passes every rule goes straight to the handler. */
  lemma ValidReachesHandler(store: seq<Message>, cmd: CreateMessageCommand, id: Guid, now: Time)
    requires NotBlank(cmd.senderId) && NotBlank(cmd.recipientId) && NotBlank(cmd.content)
             && |cmd.content| <= MaxContentLength
    ensures Send(store, cmd, id, now) == Handle(store, cmd, id, now)
  {
    OneValidator(cmd);
  }

  lemma HandleStoresValid(store: seq<Message>, cmd: CreateMessageCommand, id: Guid, now: Time)
    requires 1 <= |cmd.content| <= MaxContentLength
    requires id !in Ids(store)
    ensures var r := Handle(store, cmd, id, now);
      && r.Completed? && !r.result.HasFailed()
      && r.result == SuccessResult(IdString(id)) && ParseId(r.result.value.value) == id
      && multiset(r.state) == multiset(store) + multiset{NewMessage(id, cmd.senderId, cmd.recipientId, cmd.content, now)}
      && 1 <= |GetById(r.state, id).value.content| <= MaxContentLength
  {
    IdStringRoundTrip(id);
  }
}
