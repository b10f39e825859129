/** The shapes of what the handler exchanges with the bot service: the
    per-slot validation result and the three dialog-action responses. */
module Lex {
  import opened Basics

  /** Slot values by slot name; a slot the user has not filled is `None`. */
  type Slots = map<string, Option<string>>

  /** Session attributes, handed in by the service and echoed back. */
  type SessionAttributes = map<string, string>

  const PlainText := "PlainText"

  /** A message object: `{"contentType": ..., "content": ...}`. */
  datatype Message = Message(contentType: string, content: string)

  /** `{"isValid": ..., "violatedSlot": ..., "message"?: ...}`; `message` is
      `None` when the key is absent. */
  datatype ValidationResult = ValidationResult(
    isValid: bool,
    violatedSlot: Option<string>,
    message: Option<Message>)

  /** The `dialogAction` part of a response, tagged by its `type`. */
  datatype DialogAction =
    | ElicitSlot(intentName: string, slots: Slots, slotToElicit: string, message: Message)
    | Delegate(slots: Slots)
    | Close(fulfillmentState: string, message: Message)

  datatype Response = Response(sessionAttributes: SessionAttributes, dialogAction: DialogAction)

  /** `build_validation_result`: the `message` key is present, as a plain-text
      message, exactly when some message content is given. */
  function BuildValidationResult(isValid: bool, violatedSlot: Option<string>, content: Option<string>)
    : (r: ValidationResult)
    ensures r.isValid == isValid && r.violatedSlot == violatedSlot
    ensures r.message.None? <==> content.None?
    ensures content.Some? ==> r.message == Some(Message(PlainText, content.value))
  {
    match content
    case None => ValidationResult(isValid, violatedSlot, None)
    case Some(c) => ValidationResult(isValid, violatedSlot, Some(Message(PlainText, c)))
  }

  /** `elicit_slot`: asks the user again for one slot, carrying every input through. */
  function ElicitSlotResponse(
    sessionAttributes: SessionAttributes, intentName: string, slots: Slots,
    slotToElicit: string, message: Message): (r: Response)
    ensures r.sessionAttributes == sessionAttributes
    ensures r.dialogAction.ElicitSlot?
    ensures r.dialogAction.intentName == intentName && r.dialogAction.slots == slots
    ensures r.dialogAction.slotToElicit == slotToElicit && r.dialogAction.message == message
  {
    Response(sessionAttributes, ElicitSlot(intentName, slots, slotToElicit, message))
  }

  /** `delegate`: lets the service choose the next step, slots unchanged. */
  function DelegateResponse(sessionAttributes: SessionAttributes, slots: Slots): (r: Response)
    ensures r.sessionAttributes == sessionAttributes
    ensures r.dialogAction.Delegate? && r.dialogAction.slots == slots
  {
    Response(sessionAttributes, Delegate(slots))
  }

  /** `close`: ends the conversation with a fulfilment state and a final message. */
  function CloseResponse(sessionAttributes: SessionAttributes, fulfillmentState: string, message: Message)
    : (r: Response)
    ensures r.sessionAttributes == sessionAttributes
    ensures r.dialogAction.Close?
    ensures r.dialogAction.fulfillmentState == fulfillmentState && r.dialogAction.message == message
  {
    Response(sessionAttributes, Close(fulfillmentState, message))
  }
}
