/**
 * The shapes of the mock's in-memory state (src/index.ts:12-33).
 *
 * Payloads, twin values and the bodies of invocation requests are opaque
 * JSON the mock only passes through; they are the type parameter `P`.
 */
module DeviceModel {

  datatype Option<+T> = None | Some(value: T)

  /**
   * A scripted response (`DirectMethodResponse`). `count` is its consumption
   * policy: above 1 it is decremented per call, exactly 1 means "use once",
   * anything else (0, negative, absent) means "use forever".
   */
  datatype ScriptedResponse<P> = ScriptedResponse(count: int, status: int, payload: P)

  type Copies = c: nat | c >= 1 witness 1

  /**
   * One response OBJECT of a method's `responses` array together with the
   * number of consecutive array slots that refer to it. The source keeps
   * object references in that array, and the first registration of a method
   * pushes the same object twice, so an in-place `count--` on the head is seen
   * through both slots. `copies` records exactly that sharing.
   */
  datatype QueueEntry<P> = QueueEntry(response: ScriptedResponse<P>, copies: Copies)

  /**
   * A registered direct method (`DirectMethod`), keyed by its method name and
   * optional module name; `moduleName == None` is the module-less key.
   */
  datatype MethodRecord<P> = MethodRecord(
    methodName: string,
    moduleName: Option<string>,
    callHistory: seq<P>,
    queue: seq<QueueEntry<P>>)

  datatype Twin<P> = Twin(value: P, history: seq<P>)

  datatype Device<P> = Device(methods: seq<MethodRecord<P>>, twin: Twin<P>)

  /** What an invocation answers: the three 404 kinds, or the scripted reply. */
  datatype Outcome<P> = UnknownDevice | UnknownMethod | NoResponse | Success(status: int, payload: P)

  /** What twin update and response registration answer (200 or 404). */
  datatype Ack = Ok | DeviceNotFound

  /** An HTTP status code and the body a query handler sends. */
  datatype Reply<T> = Reply(code: int, body: T)

  const HTTP_OK := 200
  const HTTP_NOT_FOUND := 404
}
