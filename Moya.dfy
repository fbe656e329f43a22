/** The two Moya types the stubber hands to its provider. */
module Moya {
  import opened Foundation

  /** `EndpointSampleResponse`. */
  datatype SampleResponse =
    | NetworkResponse(statusCode: int, data: Bytes)
    | Response(response: HttpUrlResponse, data: Bytes)
    | NetworkError(error: NSError)

  /** `StubBehavior`. */
  datatype StubBehavior = Never | Immediate | Delayed(seconds: real)
}
