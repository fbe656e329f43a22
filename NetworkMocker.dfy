/**
 * The network mocker: an ordered registry of endpoints, each keyed by its exact
 * `(path, method)`, with at most one active mock per endpoint, and the resolution of a
 * request to the active mock of the first endpoint whose path template matches.
 */
module NetworkMocker {
  import opened Wrappers
  import opened Foundation
  import opened Seqs
  import opened Text
  import opened NetworkModels
  import opened MocksBundle

  /** The id and name of a mock activated from code rather than from a fixture file. */
  const AdHoc: string := "ad-hoc"

  /** The simulated network delay of a new mocker, in seconds. */
  const DefaultDelay: real := 0.5

  // ---------------------------------------------------------------------------
  // Lookup

  /** The endpoint is keyed by exactly this path and method. */
  predicate HasKey(e: Endpoint, path: string, httpMethod: string)
  {
    e.path == path && e.httpMethod == httpMethod
  }

  /** `i` is the first position of an endpoint keyed by `(path, httpMethod)`. */
  predicate IsFirstWithKey(endpoints: seq<Endpoint>, i: nat, path: string, httpMethod: string)
  {
    i < |endpoints| && HasKey(endpoints[i], path, httpMethod)
    && forall j :: 0 <= j < i ==> !HasKey(endpoints[j], path, httpMethod)
  }

  /** `index(ofEndpointWithPath:method:)`. */
  function IndexOfEndpoint(endpoints: seq<Endpoint>, path: string, httpMethod: string): (r: Option<nat>)
    ensures r.None? <==> forall i :: 0 <= i < |endpoints| ==> !HasKey(endpoints[i], path, httpMethod)
    ensures r.Some? ==> IsFirstWithKey(endpoints, r.value, path, httpMethod)
  {
    FirstIndex(endpoints, (e: Endpoint) => HasKey(e, path, httpMethod))
  }

  /** The position of `availableMocks.first(where: { $0.id == name })`. */
  function IndexOfMock(mocks: seq<Mock>, name: string): (r: Option<nat>)
    ensures r.None? <==> forall k :: 0 <= k < |mocks| ==> mocks[k].id != name
    ensures r.Some? ==> r.value < |mocks| && mocks[r.value].id == name && forall k :: 0 <= k < r.value ==> mocks[k].id != name
  {
    FirstIndex(mocks, (m: Mock) => m.id == name)
  }

  // ---------------------------------------------------------------------------
  // Path templates

  /** A template segment matches a request segment when equal, or when it is a `{…}` placeholder. */
  predicate SegmentMatches(input: string, check: string)
  {
    input == check || IsPlaceholder(check)
  }

  /** `check.hasPrefix("{") && check.hasSuffix("}")`. */
  predicate IsPlaceholder(segment: string)
  {
    |segment| >= 1 && segment[0] == '{' && segment[|segment| - 1] == '}'
  }

  /** `pathComponentsMatch(input:check:)`: same number of `/`-separated segments, each matching. */
  predicate PathComponentsMatch(input: string, check: string)
  {
    var inputs, checks := Split(input, '/'), Split(check, '/');
    |inputs| == |checks| && forall i :: 0 <= i < |inputs| ==> SegmentMatches(inputs[i], checks[i])
  }

  /** Every path matches itself as a template. */
  lemma PathMatchesItself(path: string)
    ensures PathComponentsMatch(path, path)
  {
  }

  /** Paths with different numbers of segments never match, whatever the placeholders. */
  lemma SegmentCountMustAgree(input: string, check: string)
    requires |Split(input, '/')| != |Split(check, '/')|
    ensures !PathComponentsMatch(input, check)
  {
  }

  /** A template without placeholders matches exactly the request path equal to it. */
  lemma LiteralTemplateMatchesOnlyItself(input: string, check: string)
    requires forall i :: 0 <= i < |Split(check, '/')| ==> !IsPlaceholder(Split(check, '/')[i])
    ensures PathComponentsMatch(input, check) <==> input == check
  {
    if PathComponentsMatch(input, check) {
      assert Split(input, '/') == Split(check, '/');
      JoinSplit(input, '/');
      JoinSplit(check, '/');
    }
  }

  /** Templates and paths built from `/`-free segments match when their segments match pairwise. */
  lemma JoinedSegmentsMatch(inputs: seq<string>, checks: seq<string>)
    requires |inputs| == |checks| >= 1
    requires forall i :: 0 <= i < |inputs| ==> '/' !in inputs[i] && '/' !in checks[i]
    requires forall i :: 0 <= i < |inputs| ==> SegmentMatches(inputs[i], checks[i])
    ensures PathComponentsMatch(Join(inputs, '/'), Join(checks, '/'))
  {
    SplitJoin(inputs, '/');
    SplitJoin(checks, '/');
  }

  /** Appending a `/`-free segment to `/`-free segments keeps them `/`-free. */
  lemma AppendSegment(prefix: seq<string>, last: string)
    requires forall i :: 0 <= i < |prefix| ==> '/' !in prefix[i]
    requires '/' !in last
    ensures forall i :: 0 <= i < |prefix + [last]| ==> '/' !in (prefix + [last])[i]
  {
    forall i | 0 <= i < |prefix + [last]| ensures '/' !in (prefix + [last])[i] {
      if i < |prefix| { assert (prefix + [last])[i] == prefix[i]; }
    }
  }

  /** A placeholder segment matches any single segment: `/users/{id}` matches `/users/<v>`. */
  lemma PlaceholderMatchesAnySegment(prefix: seq<string>, placeholder: string, value: string)
    requires forall i :: 0 <= i < |prefix| ==> '/' !in prefix[i]
    requires IsPlaceholder(placeholder) && '/' !in placeholder && '/' !in value
    ensures PathComponentsMatch(Join(prefix + [value], '/'), Join(prefix + [placeholder], '/'))
  {
    var inputs, checks := prefix + [value], prefix + [placeholder];
    AppendSegment(prefix, value);
    AppendSegment(prefix, placeholder);
    forall i | 0 <= i < |inputs| ensures SegmentMatches(inputs[i], checks[i]) {
      if i < |prefix| { assert inputs[i] == prefix[i] == checks[i]; }
    }
    JoinedSegmentsMatch(inputs, checks);
  }

  // ---------------------------------------------------------------------------
  // Resolution

  /** The endpoint answers a request: it has an active mock, the same method and a matching template. */
  predicate Answers(e: Endpoint, path: string, httpMethod: string)
  {
    e.activeMock.Some? && e.httpMethod == httpMethod && PathComponentsMatch(path, e.path)
  }

  /** The position of the first endpoint that answers the request. */
  function FirstAnswering(endpoints: seq<Endpoint>, path: string, httpMethod: string): (r: Option<nat>)
    ensures r.None? <==> forall i :: 0 <= i < |endpoints| ==> !Answers(endpoints[i], path, httpMethod)
    ensures r.Some? ==>
      && r.value < |endpoints| && Answers(endpoints[r.value], path, httpMethod)
      && forall j :: 0 <= j < r.value ==> !Answers(endpoints[j], path, httpMethod)
  {
    FirstIndex(endpoints, (e: Endpoint) => Answers(e, path, httpMethod))
  }

  /** The mock that answers a request: that of the first answering endpoint, or none. */
  function Resolve(endpoints: seq<Endpoint>, path: string, httpMethod: string): (r: Option<Mock>)
    ensures r.None? <==> forall i :: 0 <= i < |endpoints| ==> !Answers(endpoints[i], path, httpMethod)
    ensures r.Some? ==> r == endpoints[FirstAnswering(endpoints, path, httpMethod).value].activeMock
  {
    match FirstAnswering(endpoints, path, httpMethod)
    case None => None
    case Some(i) => endpoints[i].activeMock
  }

  // ---------------------------------------------------------------------------
  // Registry operations as functions of the endpoint list

  /** `activate(mockNamed:forPath:method:)` on an endpoint list. */
  function ActivateNamedIn(endpoints: seq<Endpoint>, name: string, path: string, httpMethod: string): (r: Result<seq<Endpoint>, MockerError>)
    ensures r.Failure? ==> r.error == MockNotFound(name, path, httpMethod)
    ensures r.Success? ==> Keys(r.value) == Keys(endpoints)
  {
    match IndexOfEndpoint(endpoints, path, httpMethod)
    case None => Failure(MockNotFound(name, path, httpMethod))
    case Some(i) =>
      match IndexOfMock(endpoints[i].availableMocks, name)
      case None => Failure(MockNotFound(name, path, httpMethod))
      case Some(k) => Success(endpoints[i := Activated(endpoints[i], endpoints[i].availableMocks[k])])
  }

  /** Named activation fails exactly when no endpoint has the key, or the first one has no mock with that id. */
  lemma NamedActivationFails(endpoints: seq<Endpoint>, name: string, path: string, httpMethod: string)
    ensures (forall i :: 0 <= i < |endpoints| ==> !HasKey(endpoints[i], path, httpMethod)) ==>
      ActivateNamedIn(endpoints, name, path, httpMethod).Failure?
    ensures forall i :: 0 <= i < |endpoints| && IsFirstWithKey(endpoints, i, path, httpMethod) ==>
      (ActivateNamedIn(endpoints, name, path, httpMethod).Failure? <==>
        forall k :: 0 <= k < |endpoints[i].availableMocks| ==> endpoints[i].availableMocks[k].id != name)
  {
    forall i | 0 <= i < |endpoints| && IsFirstWithKey(endpoints, i, path, httpMethod)
      ensures ActivateNamedIn(endpoints, name, path, httpMethod).Failure? <==>
        forall k :: 0 <= k < |endpoints[i].availableMocks| ==> endpoints[i].availableMocks[k].id != name
    {
      FirstWithKeyUnique(endpoints, i, IndexOfEndpoint(endpoints, path, httpMethod).value, path, httpMethod);
    }
  }

  lemma FirstWithKeyUnique(endpoints: seq<Endpoint>, i: nat, j: nat, path: string, httpMethod: string)
    requires IsFirstWithKey(endpoints, i, path, httpMethod) && IsFirstWithKey(endpoints, j, path, httpMethod)
    ensures i == j
  {
  }

  /**
   * Successful named activation changes only the first endpoint with the key, and only its
   * active mock, which becomes the first of its available mocks with that id.
   */
  lemma NamedActivationChangesOnlyTarget(endpoints: seq<Endpoint>, name: string, path: string, httpMethod: string, i: nat)
    requires IsFirstWithKey(endpoints, i, path, httpMethod)
    requires ActivateNamedIn(endpoints, name, path, httpMethod).Success?
    ensures var r, mocks := ActivateNamedIn(endpoints, name, path, httpMethod).value, endpoints[i].availableMocks;
      && IndexOfMock(mocks, name).Some?
      && |r| == |endpoints|
      && r[i] == Activated(endpoints[i], mocks[IndexOfMock(mocks, name).value])
      && forall j :: 0 <= j < |endpoints| && j != i ==> r[j] == endpoints[j]
  {
    FirstWithKeyUnique(endpoints, i, IndexOfEndpoint(endpoints, path, httpMethod).value, path, httpMethod);
  }

  /** The mock installed by `activate(mockForPath:method:statusCode:data:)` and its `networkError` twin. */
  function AdHocMock(httpMethod: string, response: Response): (m: Mock)
    ensures m.id == AdHoc && m.name == AdHoc && !m.isGeneric
    ensures m.httpMethod == httpMethod && m.response == response
  {
    Mock(AdHoc, httpMethod, AdHoc, false, response)
  }

  /** Ad-hoc activation on an endpoint list: activates the endpoint with the key, or appends one. */
  function ActivateAdHocIn(endpoints: seq<Endpoint>, path: string, httpMethod: string, response: Response): (r: seq<Endpoint>)
    ensures IndexOfEndpoint(endpoints, path, httpMethod).Some? ==> Keys(r) == Keys(endpoints)
    ensures IndexOfEndpoint(endpoints, path, httpMethod).None? ==> Keys(r) == Keys(endpoints) + [(path, httpMethod)]
  {
    var mock := AdHocMock(httpMethod, response);
    match IndexOfEndpoint(endpoints, path, httpMethod)
    case Some(i) => endpoints[i := Activated(endpoints[i], mock)]
    case None => endpoints + [Endpoint(path, httpMethod, [], Some(mock))]
  }

  /**
   * Ad-hoc activation never fails. With an endpoint for the key, only the first such endpoint's
   * active mock changes; without one, a single endpoint with no available mocks is appended.
   */
  lemma AdHocActivationShape(endpoints: seq<Endpoint>, path: string, httpMethod: string, response: Response)
    ensures var r := ActivateAdHocIn(endpoints, path, httpMethod, response);
      && |endpoints| <= |r| <= |endpoints| + 1
      && (forall i :: 0 <= i < |endpoints| && IsFirstWithKey(endpoints, i, path, httpMethod) ==>
            && |r| == |endpoints|
            && r[i] == Activated(endpoints[i], AdHocMock(httpMethod, response))
            && forall j :: 0 <= j < |endpoints| && j != i ==> r[j] == endpoints[j])
      && ((forall i :: 0 <= i < |endpoints| ==> !HasKey(endpoints[i], path, httpMethod)) ==>
            r == endpoints + [Endpoint(path, httpMethod, [], Some(AdHocMock(httpMethod, response)))])
  {
    var index := IndexOfEndpoint(endpoints, path, httpMethod);
    forall i | 0 <= i < |endpoints| && IsFirstWithKey(endpoints, i, path, httpMethod)
      ensures index == Some(i)
    {
      FirstWithKeyUnique(endpoints, i, index.value, path, httpMethod);
    }
  }

  /** `deactivateMock(forPath:method:)` on an endpoint list. */
  function DeactivateIn(endpoints: seq<Endpoint>, path: string, httpMethod: string): (r: seq<Endpoint>)
    ensures |r| == |endpoints|
    ensures IndexOfEndpoint(endpoints, path, httpMethod).None? ==> r == endpoints
    ensures Keys(r) == Keys(endpoints)
  {
    match IndexOfEndpoint(endpoints, path, httpMethod)
    case None => endpoints
    case Some(i) => endpoints[i := Deactivated(endpoints[i])]
  }

  /** Deactivation clears only the first endpoint with the key, and deactivating twice is deactivating once. */
  lemma DeactivationChangesOnlyTarget(endpoints: seq<Endpoint>, path: string, httpMethod: string)
    ensures var r := DeactivateIn(endpoints, path, httpMethod);
      && (forall i :: 0 <= i < |endpoints| && IsFirstWithKey(endpoints, i, path, httpMethod) ==>
            r[i] == Deactivated(endpoints[i]) && forall j :: 0 <= j < |endpoints| && j != i ==> r[j] == endpoints[j])
      && DeactivateIn(r, path, httpMethod) == r
  {
    var index := IndexOfEndpoint(endpoints, path, httpMethod);
    var r := DeactivateIn(endpoints, path, httpMethod);
    forall i | 0 <= i < |endpoints| && IsFirstWithKey(endpoints, i, path, httpMethod)
      ensures index == Some(i)
    {
      FirstWithKeyUnique(endpoints, i, index.value, path, httpMethod);
    }
    if index.Some? {
      var i := index.value;
      assert IsFirstWithKey(r, i, path, httpMethod);
      FirstWithKeyUnique(r, i, IndexOfEndpoint(r, path, httpMethod).value, path, httpMethod);
    }
  }

  /** `endpoints.map { $0.deactivated() }`. */
  function DeactivateAll(endpoints: seq<Endpoint>): (r: seq<Endpoint>)
    ensures Keys(r) == Keys(endpoints)
    ensures forall i :: 0 <= i < |r| ==> r[i].availableMocks == endpoints[i].availableMocks && r[i].activeMock.None?
  {
    seq(|endpoints|, i requires 0 <= i < |endpoints| => Deactivated(endpoints[i]))
  }

  /** Reset keeps the endpoints, their order, keys and available mocks, and no request resolves afterwards. */
  lemma ResetClearsEveryMock(endpoints: seq<Endpoint>, path: string, httpMethod: string)
    ensures var r := DeactivateAll(endpoints);
      && |r| == |endpoints|
      && (forall i :: 0 <= i < |r| ==>
            && r[i].path == endpoints[i].path && r[i].httpMethod == endpoints[i].httpMethod
            && r[i].availableMocks == endpoints[i].availableMocks && r[i].activeMock.None?)
      && Resolve(r, path, httpMethod).None?
  {
  }

  /** In a uniquely keyed list, the first endpoint with a key is the only one, so lookups by key see every endpoint. */
  lemma UniqueKeyIsFirst(endpoints: seq<Endpoint>, i: nat, path: string, httpMethod: string)
    requires UniqueKeys(endpoints) && i < |endpoints| && HasKey(endpoints[i], path, httpMethod)
    ensures IsFirstWithKey(endpoints, i, path, httpMethod)
  {
    forall j | 0 <= j < i ensures !HasKey(endpoints[j], path, httpMethod) {
      assert Key(endpoints[j]) != Key(endpoints[i]);
    }
  }

  /** Named activation keeps a uniquely keyed endpoint list uniquely keyed. */
  lemma NamedActivationKeepsUniqueKeys(endpoints: seq<Endpoint>, name: string, path: string, httpMethod: string)
    requires UniqueKeys(endpoints)
    ensures var r := ActivateNamedIn(endpoints, name, path, httpMethod); r.Success? ==> UniqueKeys(r.value)
  {
    var r := ActivateNamedIn(endpoints, name, path, httpMethod);
    if r.Success? {
      SameKeysUnique(r.value, endpoints);
    }
  }

  /** Ad-hoc activation keeps a uniquely keyed endpoint list uniquely keyed: it appends only a key that is new. */
  lemma AdHocActivationKeepsUniqueKeys(endpoints: seq<Endpoint>, path: string, httpMethod: string, response: Response)
    requires UniqueKeys(endpoints)
    ensures UniqueKeys(ActivateAdHocIn(endpoints, path, httpMethod, response))
  {
    var r := ActivateAdHocIn(endpoints, path, httpMethod, response);
    if IndexOfEndpoint(endpoints, path, httpMethod).Some? {
      SameKeysUnique(r, endpoints);
    } else {
      var added := Endpoint(path, httpMethod, [], Some(AdHocMock(httpMethod, response)));
      assert r == endpoints + [added];
      assert Key(added) !in Keys(endpoints) by {
        forall i | 0 <= i < |endpoints| ensures Keys(endpoints)[i] != Key(added) {
          assert !HasKey(endpoints[i], path, httpMethod);
        }
      }
      AppendNewKeyUnique(endpoints, added);
    }
  }

  /** Deactivating one endpoint keeps a uniquely keyed endpoint list uniquely keyed. */
  lemma DeactivationKeepsUniqueKeys(endpoints: seq<Endpoint>, path: string, httpMethod: string)
    requires UniqueKeys(endpoints)
    ensures UniqueKeys(DeactivateIn(endpoints, path, httpMethod))
  {
    SameKeysUnique(DeactivateIn(endpoints, path, httpMethod), endpoints);
  }

  /** Deactivating every endpoint keeps a uniquely keyed endpoint list uniquely keyed. */
  lemma ResetKeepsUniqueKeys(endpoints: seq<Endpoint>)
    requires UniqueKeys(endpoints)
    ensures UniqueKeys(DeactivateAll(endpoints))
  {
    SameKeysUnique(DeactivateAll(endpoints), endpoints);
  }

  // ---------------------------------------------------------------------------
  // Round trips

  /**
   * When no endpoint answered a request before, activating a mock by name for its exact path and
   * method makes that request resolve to the activated mock.
   */
  lemma NamedActivationThenResolve(endpoints: seq<Endpoint>, name: string, path: string, httpMethod: string)
    requires Resolve(endpoints, path, httpMethod).None?
    requires ActivateNamedIn(endpoints, name, path, httpMethod).Success?
    ensures var i := IndexOfEndpoint(endpoints, path, httpMethod).value;
      var mocks := endpoints[i].availableMocks;
      && Resolve(ActivateNamedIn(endpoints, name, path, httpMethod).value, path, httpMethod) == Some(mocks[IndexOfMock(mocks, name).value])
      && mocks[IndexOfMock(mocks, name).value].id == name
  {
    var i := IndexOfEndpoint(endpoints, path, httpMethod).value;
    var r := ActivateNamedIn(endpoints, name, path, httpMethod).value;
    NamedActivationChangesOnlyTarget(endpoints, name, path, httpMethod, i);
    PathMatchesItself(path);
    assert Answers(r[i], path, httpMethod);
    assert forall j :: 0 <= j < i ==> r[j] == endpoints[j];
    assert FirstAnswering(r, path, httpMethod) == Some(i);
  }

  /** Deactivating undoes a named activation: the endpoint list is as it was with that endpoint deactivated. */
  lemma DeactivationUndoesActivation(endpoints: seq<Endpoint>, name: string, path: string, httpMethod: string)
    requires ActivateNamedIn(endpoints, name, path, httpMethod).Success?
    ensures DeactivateIn(ActivateNamedIn(endpoints, name, path, httpMethod).value, path, httpMethod) == DeactivateIn(endpoints, path, httpMethod)
  {
    var i := IndexOfEndpoint(endpoints, path, httpMethod).value;
    var r := ActivateNamedIn(endpoints, name, path, httpMethod).value;
    NamedActivationChangesOnlyTarget(endpoints, name, path, httpMethod, i);
    assert IsFirstWithKey(r, i, path, httpMethod);
    FirstWithKeyUnique(r, i, IndexOfEndpoint(r, path, httpMethod).value, path, httpMethod);
  }

  /** Activating then deactivating a freshly discovered endpoint leaves the request unanswered again. */
  lemma ActivateDeactivateResolve(endpoints: seq<Endpoint>, name: string, path: string, httpMethod: string)
    requires forall e :: e in endpoints ==> e.activeMock.None?
    requires ActivateNamedIn(endpoints, name, path, httpMethod).Success?
    ensures Resolve(DeactivateIn(ActivateNamedIn(endpoints, name, path, httpMethod).value, path, httpMethod), path, httpMethod).None?
  {
    DeactivationUndoesActivation(endpoints, name, path, httpMethod);
    var r := DeactivateIn(endpoints, path, httpMethod);
    var i := IndexOfEndpoint(endpoints, path, httpMethod).value;
    assert forall j :: 0 <= j < |r| ==> r[j].activeMock.None? by {
      forall j | 0 <= j < |r| ensures r[j].activeMock.None? {
        assert endpoints[j] in endpoints;
      }
    }
  }

  /** When no endpoint answered a request before, ad-hoc activation makes it resolve to the ad-hoc mock. */
  lemma AdHocActivationThenResolve(endpoints: seq<Endpoint>, path: string, httpMethod: string, response: Response)
    requires Resolve(endpoints, path, httpMethod).None?
    ensures Resolve(ActivateAdHocIn(endpoints, path, httpMethod, response), path, httpMethod) == Some(AdHocMock(httpMethod, response))
  {
    var r := ActivateAdHocIn(endpoints, path, httpMethod, response);
    PathMatchesItself(path);
    AdHocActivationShape(endpoints, path, httpMethod, response);
    var i := match IndexOfEndpoint(endpoints, path, httpMethod) case Some(i) => i case None => |endpoints|;
    assert Answers(r[i], path, httpMethod);
    assert forall j :: 0 <= j < i ==> r[j] == endpoints[j];
    assert FirstAnswering(r, path, httpMethod) == Some(i);
  }

  /** A freshly discovered bundle answers no request until a mock is activated. */
  lemma DiscoveredEndpointsResolveNothing(bundle: Bundle, baseURL: Option<string>, path: string, httpMethod: string)
    requires Discover(bundle, baseURL).Success?
    ensures Resolve(Discover(bundle, baseURL).value, path, httpMethod).None?
  {
    var endpoints := Discover(bundle, baseURL).value;
    assert forall i :: 0 <= i < |endpoints| ==> endpoints[i] in endpoints;
  }

  // ---------------------------------------------------------------------------
  // The mocker

  /** `Mocker`: the endpoint registry and the simulated delay. */
  class Mocker {
    /** The simulated network delay applied to every activated mock, in seconds. */
    var delay: real

    /** All endpoints available for mocking, in discovery order followed by ad-hoc additions. */
    var endpoints: seq<Endpoint>

    /** The shared mocker before any bundle is set: no endpoints. */
    constructor ()
      ensures delay == DefaultDelay && endpoints == []
    {
      delay := DefaultDelay;
      endpoints := [];
    }

    /** `init(mocksBundle:baseURL:)`: a mocker over the endpoints of a bundle, or the discovery error. */
    static method Load(bundle: Bundle, baseURL: string) returns (r: Result<Mocker, MockerError>)
      ensures Discover(bundle, Some(baseURL)).Failure? ==> r == Failure(Discover(bundle, Some(baseURL)).error)
      ensures Discover(bundle, Some(baseURL)).Success? ==>
        && r.Success? && fresh(r.value)
        && r.value.endpoints == Discover(bundle, Some(baseURL)).value && r.value.delay == DefaultDelay
      ensures r.Success? && EntriesWellFormed(bundle.endpoints.entries) ==> UniqueKeys(r.value.endpoints)
    {
      match Discover(bundle, Some(baseURL))
      case Failure(e) =>
        return Failure(e);
      case Success(discovered) =>
        if EntriesWellFormed(bundle.endpoints.entries) {
          DiscoverKeysUnique(bundle, Some(baseURL));
        }
        var mocker := new Mocker();
        mocker.endpoints := discovered;
        return Success(mocker);
    }

    /** `setMocksBundle(_:baseURL:)`: replaces every endpoint, or changes nothing when discovery fails. */
    method SetMocksBundle(bundle: Bundle, baseURL: string) returns (outcome: Outcome<MockerError>)
      modifies this`endpoints
      ensures Discover(bundle, Some(baseURL)).Success? ==> outcome.Pass? && endpoints == Discover(bundle, Some(baseURL)).value
      ensures Discover(bundle, Some(baseURL)).Failure? ==>
        outcome == Fail(Discover(bundle, Some(baseURL)).error) && endpoints == old(endpoints)
      ensures outcome.Pass? && EntriesWellFormed(bundle.endpoints.entries) ==> UniqueKeys(endpoints)
    {
      match Discover(bundle, Some(baseURL))
      case Failure(e) =>
        return Fail(e);
      case Success(discovered) =>
        if EntriesWellFormed(bundle.endpoints.entries) {
          DiscoverKeysUnique(bundle, Some(baseURL));
        }
        endpoints := discovered;
        return Pass;
    }

    /** `activate(mockNamed:forPath:method:)`. */
    method ActivateNamed(name: string, path: string, httpMethod: string) returns (outcome: Outcome<MockerError>)
      modifies this`endpoints
      ensures UniqueKeys(old(endpoints)) ==> UniqueKeys(endpoints)
      ensures ActivateNamedIn(old(endpoints), name, path, httpMethod).Success? ==>
        outcome.Pass? && endpoints == ActivateNamedIn(old(endpoints), name, path, httpMethod).value
      ensures ActivateNamedIn(old(endpoints), name, path, httpMethod).Failure? ==>
        outcome == Fail(MockNotFound(name, path, httpMethod)) && endpoints == old(endpoints)
    {
      if UniqueKeys(endpoints) {
        NamedActivationKeepsUniqueKeys(endpoints, name, path, httpMethod);
      }
      var index := IndexOfEndpoint(endpoints, path, httpMethod);
      if index.None? {
        return Fail(MockNotFound(name, path, httpMethod));
      }
      var i := index.value;
      var k := IndexOfMock(endpoints[i].availableMocks, name);
      if k.None? {
        return Fail(MockNotFound(name, path, httpMethod));
      }
      endpoints := endpoints[i := Activated(endpoints[i], endpoints[i].availableMocks[k.value])];
      return Pass;
    }

    /** `activate(mockForPath:method:statusCode:data:)`. */
    method ActivateResponse(path: string, httpMethod: string, statusCode: int, data: Bytes)
      modifies this`endpoints
      ensures UniqueKeys(old(endpoints)) ==> UniqueKeys(endpoints)
      ensures endpoints == ActivateAdHocIn(old(endpoints), path, httpMethod, NetworkResponse(data, statusCode))
    {
      ActivateAdHoc(path, httpMethod, NetworkResponse(data, statusCode));
    }

    /** `activate(mockForPath:method:networkError:)`. */
    method ActivateError(path: string, httpMethod: string, error: NSError)
      modifies this`endpoints
      ensures UniqueKeys(old(endpoints)) ==> UniqueKeys(endpoints)
      ensures endpoints == ActivateAdHocIn(old(endpoints), path, httpMethod, NetworkError(error))
    {
      ActivateAdHoc(path, httpMethod, NetworkError(error));
    }

    /** The body both ad-hoc activations share. */
    method ActivateAdHoc(path: string, httpMethod: string, response: Response)
      modifies this`endpoints
      ensures UniqueKeys(old(endpoints)) ==> UniqueKeys(endpoints)
      ensures endpoints == ActivateAdHocIn(old(endpoints), path, httpMethod, response)
    {
      if UniqueKeys(endpoints) {
        AdHocActivationKeepsUniqueKeys(endpoints, path, httpMethod, response);
      }
      var mock := AdHocMock(httpMethod, response);
      var index := IndexOfEndpoint(endpoints, path, httpMethod);
      if index.Some? {
        endpoints := endpoints[index.value := Activated(endpoints[index.value], mock)];
      } else {
        endpoints := endpoints + [Endpoint(path, httpMethod, [], Some(mock))];
      }
    }

    /** `deactivateMock(forPath:method:)`: a silent no-op for an unknown key. */
    method DeactivateMock(path: string, httpMethod: string)
      modifies this`endpoints
      ensures UniqueKeys(old(endpoints)) ==> UniqueKeys(endpoints)
      ensures endpoints == DeactivateIn(old(endpoints), path, httpMethod)
    {
      if UniqueKeys(endpoints) {
        DeactivationKeepsUniqueKeys(endpoints, path, httpMethod);
      }
      var index := IndexOfEndpoint(endpoints, path, httpMethod);
      if index.None? {
        return;
      }
      endpoints := endpoints[index.value := Deactivated(endpoints[index.value])];
    }

    /** `reset()`: zero delay and no active mock anywhere. */
    method Reset()
      modifies this
      ensures UniqueKeys(old(endpoints)) ==> UniqueKeys(endpoints)
      ensures delay == 0.0 && endpoints == DeactivateAll(old(endpoints))
    {
      if UniqueKeys(endpoints) {
        ResetKeepsUniqueKeys(endpoints);
      }
      delay := 0.0;
      endpoints := DeactivateAll(endpoints);
    }

    /** `activeMock(for:method:)`: scans the endpoints in order and returns the first answering one's mock. */
    method ActiveMock(path: string, httpMethod: string) returns (r: Option<Mock>)
      ensures r == Resolve(endpoints, path, httpMethod)
      ensures r.Some? ==> exists i :: 0 <= i < |endpoints| && Answers(endpoints[i], path, httpMethod) && r == endpoints[i].activeMock
    {
      var i := 0;
      while i < |endpoints|
        invariant 0 <= i <= |endpoints|
        invariant forall j :: 0 <= j < i ==> !Answers(endpoints[j], path, httpMethod)
      {
        var endpoint := endpoints[i];
        if endpoint.activeMock.Some? && endpoint.httpMethod == httpMethod && PathComponentsMatch(path, endpoint.path) {
          assert FirstAnswering(endpoints, path, httpMethod) == Some(i);
          return endpoint.activeMock;
        }
        i := i + 1;
      }
      return None;
    }
  }
}
