/**
 The data model of the streaming client: the inbound wire payload of one
 streamed event, the typed response chunks handed to callers, the
 server's whole-response envelope, and the library's error taxonomy.
 */
module Types {

  datatype Option<+T> = None | Some(value: T)

  datatype Result<+T, +E> = Ok(value: T) | Err(error: E)

  /** The author of a chat message. */
  datatype Role = System | User | Assistant | Function

  /** The `delta` object of a streamed choice; its shape selects the event. */
  datatype InboundChunkPayload =
    | AnnounceRoles(role: Role)
    | StreamContent(content: string)
    | Close

  /** One element of the `choices` array of a streamed payload. */
  datatype InboundChoice = InboundChoice(index: nat, delta: InboundChunkPayload)

  /** The decoded JSON object carried by one `data: ` event. */
  datatype InboundResponseChunk = InboundResponseChunk(choices: seq<InboundChoice>)

  /** The typed event a stream consumer receives. */
  datatype ResponseChunk =
    | BeginResponse(role: Role, responseIndex: nat)
    | Content(delta: string, responseIndex: nat)
    | CloseResponse(responseIndex: nat)
    | Done

  /** The error object of a failed (non-streamed) request. */
  datatype ServerError = ServerError(message: string, errorType: string)

  /** The body of a non-streamed response; `C` is the completion payload. */
  datatype ServerResponse<C> = Error(error: ServerError) | Completion(completion: C)

  /** The library's error taxonomy, as far as the streaming core produces it. */
  datatype CrateError =
    | ClientError(detail: string)
    | ParsingError(detail: string)
    | BackendError(message: string, errorType: string)

  /** One element of the stream handed to the caller. */
  type Item = Result<ResponseChunk, CrateError>
}
