/**
 * The stub value types declared beside the stubber: a stub that also records whether it is
 * generic, whose hand-written `==` nevertheless ignores that flag, and the endpoint that
 * holds such stubs, compared with the synthesized `==`.
 */
module StubModels {
  import opened Wrappers
  import opened Foundation
  import opened Moya

  /** `Stub`: a name, its file name, whether it is generic, and Moya's sample response. */
  datatype Stub = Stub(name: string, fileName: Option<string>, isGeneric: bool, response: SampleResponse)

  /** `StubbableEndpoint`. */
  datatype StubbableEndpoint = StubbableEndpoint(name: string, availableStubs: seq<Stub>)

  /** `Stub.timeoutError`: a generic stub without a file that simulates a timed-out request. */
  const TimeoutError: Stub :=
    Stub("Network timeout", None, true, NetworkError(NSError(NSURLErrorDomain, NSURLErrorTimedOut)))

  /** `Stub.data`. */
  function StubData(s: Stub): (r: Option<Bytes>)
    ensures r.None? <==> s.response.NetworkError?
    ensures r.Some? ==> r.value == s.response.data
  {
    match s.response
    case NetworkResponse(_, data) => Some(data)
    case Response(_, data) => Some(data)
    case NetworkError(_) => None
  }

  /** `Stub.statusCode`: a full HTTP response reports the status code of that response. */
  function StubStatusCode(s: Stub): (r: Option<int>)
    ensures r.None? <==> s.response.NetworkError?
    ensures s.response.NetworkResponse? ==> r == Some(s.response.statusCode)
    ensures s.response.Response? ==> r == Some(s.response.response.statusCode)
  {
    match s.response
    case NetworkResponse(statusCode, _) => Some(statusCode)
    case Response(response, _) => Some(response.statusCode)
    case NetworkError(_) => None
  }

  /** The timeout stub carries neither data nor a status code; it is generic and has no file. */
  lemma TimeoutErrorHasNoPayload()
    ensures StubData(TimeoutError).None? && StubStatusCode(TimeoutError).None?
    ensures TimeoutError.isGeneric && TimeoutError.fileName.None?
  {
  }

  /** `Stub ==`: names, file names, and responses of the same case with equal payloads; `isGeneric` is not compared. */
  predicate StubEquals(lhs: Stub, rhs: Stub)
  {
    if lhs.name != rhs.name then false
    else if lhs.fileName != rhs.fileName then false
    else
      match (lhs.response, rhs.response)
      case (NetworkResponse(lhsStatusCode, lhsData), NetworkResponse(rhsStatusCode, rhsData)) =>
        lhsStatusCode == rhsStatusCode && lhsData == rhsData
      case (Response(lhsResponse, lhsData), Response(rhsResponse, rhsData)) =>
        lhsResponse == rhsResponse && lhsData == rhsData
      case (NetworkError(lhsError), NetworkError(rhsError)) =>
        lhsError == rhsError
      case _ => false
  }

  /** The stub with `isGeneric`, the one field `==` does not compare, set to `false`. */
  function WithoutGenericFlag(s: Stub): (r: Stub)
    ensures !r.isGeneric
    ensures r.name == s.name && r.fileName == s.fileName && r.response == s.response
  {
    s.(isGeneric := false)
  }

  /** `==` is equality of everything but `isGeneric`. */
  lemma StubEqualsIgnoresOnlyGenericFlag(lhs: Stub, rhs: Stub)
    ensures StubEquals(lhs, rhs) <==> WithoutGenericFlag(lhs) == WithoutGenericFlag(rhs)
  {
  }

  /** A generic stub and a specific stub with the same name, file and response are equal. */
  lemma GenericFlagNotCompared(s: Stub)
    ensures StubEquals(s, s.(isGeneric := !s.isGeneric))
    ensures s != s.(isGeneric := !s.isGeneric)
  {
  }

  /** Responses of different cases are never equal, whatever their payloads. */
  lemma DifferentCasesDiffer(lhs: Stub, rhs: Stub)
    requires lhs.response.NetworkResponse? != rhs.response.NetworkResponse?
          || lhs.response.Response? != rhs.response.Response?
    ensures !StubEquals(lhs, rhs)
  {
  }

  /** `==` is an equivalence relation. */
  lemma StubEqualsEquivalence(a: Stub, b: Stub, c: Stub)
    ensures StubEquals(a, a)
    ensures StubEquals(a, b) ==> StubEquals(b, a)
    ensures StubEquals(a, b) && StubEquals(b, c) ==> StubEquals(a, c)
  {
    StubEqualsIgnoresOnlyGenericFlag(a, a);
    StubEqualsIgnoresOnlyGenericFlag(a, b);
    StubEqualsIgnoresOnlyGenericFlag(b, a);
    StubEqualsIgnoresOnlyGenericFlag(b, c);
    StubEqualsIgnoresOnlyGenericFlag(a, c);
  }

  /** Array `==` over stubs: equal counts, then element by element with the stub `==`. */
  predicate StubsEqual(lhs: seq<Stub>, rhs: seq<Stub>)
  {
    if |lhs| != |rhs| then false
    else if lhs == [] then true
    else StubEquals(lhs[0], rhs[0]) && StubsEqual(lhs[1..], rhs[1..])
  }

  /** The synthesized `StubbableEndpoint ==`: names, then the stub arrays. */
  predicate EndpointEquals(lhs: StubbableEndpoint, rhs: StubbableEndpoint)
  {
    lhs.name == rhs.name && StubsEqual(lhs.availableStubs, rhs.availableStubs)
  }

  /** Array `==` holds exactly when the counts agree and every pair of stubs at the same index is equal. */
  lemma {:induction false} StubsEqualElementwise(lhs: seq<Stub>, rhs: seq<Stub>)
    ensures StubsEqual(lhs, rhs) <==> |lhs| == |rhs| && forall i :: 0 <= i < |lhs| ==> StubEquals(lhs[i], rhs[i])
  {
    if |lhs| == |rhs| && lhs != [] {
      StubsEqualElementwise(lhs[1..], rhs[1..]);
      assert forall i :: 1 <= i < |lhs| ==> lhs[i] == lhs[1..][i - 1] && rhs[i] == rhs[1..][i - 1];
    }
  }

  /** Two endpoints are equal exactly when their stubs agree once the generic flags are dropped. */
  lemma EndpointEqualsIgnoresGenericFlags(lhs: StubbableEndpoint, rhs: StubbableEndpoint)
    ensures EndpointEquals(lhs, rhs) <==>
      && lhs.name == rhs.name
      && |lhs.availableStubs| == |rhs.availableStubs|
      && forall i :: 0 <= i < |lhs.availableStubs| ==>
           WithoutGenericFlag(lhs.availableStubs[i]) == WithoutGenericFlag(rhs.availableStubs[i])
  {
    StubsEqualElementwise(lhs.availableStubs, rhs.availableStubs);
    forall i | 0 <= i < |lhs.availableStubs| && i < |rhs.availableStubs| {
      StubEqualsIgnoresOnlyGenericFlag(lhs.availableStubs[i], rhs.availableStubs[i]);
    }
  }
}
