/** The value model of the network mocker: endpoints, mocks, their responses, and its errors. */
module NetworkModels {
  import opened Wrappers
  import opened Foundation
  import opened Seqs
  import opened Numerals

  /** `Mock.Response`: a canned HTTP response or a simulated transport error, never both. */
  datatype Response =
    | NetworkResponse(data: Bytes, statusCode: int)
    | NetworkError(error: NSError)

  /** A mock for one route; `id` is the fixture's file name, or `"ad-hoc"`. */
  datatype Mock = Mock(id: string, httpMethod: string, name: string, isGeneric: bool, response: Response)

  /** A `(path, method)` route with the mocks offered for it and the one that answers it, if any. */
  datatype Endpoint = Endpoint(path: string, httpMethod: string, availableMocks: seq<Mock>, activeMock: Option<Mock>)

  /** `MockerError` (thrown as `NetworkMockerError` by the bundle reader). */
  datatype MockerError =
    | InvalidFileName(url: Url)
    | CouldNotEnumerate(url: Url)
    | CouldNotLoadFile(url: Url)
    | MockNotFound(name: string, path: string, httpMethod: string)

  /** The key of an endpoint: its exact path and method. */
  function Key(e: Endpoint): (string, string)
  {
    (e.path, e.httpMethod)
  }

  /** The keys of a list of endpoints, position by position. */
  function Keys(eps: seq<Endpoint>): (keys: seq<(string, string)>)
    ensures |keys| == |eps| && forall i :: 0 <= i < |eps| ==> keys[i] == Key(eps[i])
  {
    seq(|eps|, i requires 0 <= i < |eps| => Key(eps[i]))
  }

  /** No two endpoints of the list share a `(path, method)` key. */
  predicate UniqueKeys(eps: seq<Endpoint>)
  {
    forall i, j :: 0 <= i < j < |eps| ==> Key(eps[i]) != Key(eps[j])
  }

  /** Endpoint lists with the same keys at the same positions are both keyed uniquely or both not. */
  lemma SameKeysUnique(a: seq<Endpoint>, b: seq<Endpoint>)
    requires Keys(a) == Keys(b)
    ensures UniqueKeys(a) <==> UniqueKeys(b)
  {
    assert |a| == |Keys(a)| == |b|;
    assert forall i :: 0 <= i < |a| ==> Key(a[i]) == Keys(a)[i] == Key(b[i]);
  }

  /** Appending an endpoint whose key is new keeps the keys unique. */
  lemma AppendNewKeyUnique(eps: seq<Endpoint>, e: Endpoint)
    requires UniqueKeys(eps) && Key(e) !in Keys(eps)
    ensures UniqueKeys(eps + [e])
  {
    var r := eps + [e];
    forall i, j | 0 <= i < j < |r| ensures Key(r[i]) != Key(r[j]) {
      assert r[i] == eps[i];
      if j == |eps| {
        assert Keys(eps)[i] == Key(eps[i]);
      } else {
        assert r[j] == eps[j];
      }
    }
  }

  /** Two uniquely keyed lists that share no key concatenate to a uniquely keyed list. */
  lemma UniqueKeysConcat(a: seq<Endpoint>, b: seq<Endpoint>)
    requires UniqueKeys(a) && UniqueKeys(b)
    requires forall x, y :: x in a && y in b ==> Key(x) != Key(y)
    ensures UniqueKeys(a + b)
  {
    var r := a + b;
    forall i, j | 0 <= i < j < |r| ensures Key(r[i]) != Key(r[j]) {
      if j < |a| {
        assert r[i] == a[i] && r[j] == a[j];
      } else if i >= |a| {
        assert r[i] == b[i - |a|] && r[j] == b[j - |a|];
      } else {
        assert r[i] == a[i] && r[j] == b[j - |a|];
      }
    }
  }

  /** An element that occurs at two positions occurs at least twice in the multiset. */
  lemma TwiceInMultiset<T>(s: seq<T>, i: nat, j: nat)
    requires i < j < |s| && s[i] == s[j]
    ensures multiset(s)[s[i]] >= 2
  {
    assert s == s[..j] + s[j..];
    assert s[..j][i] == s[i];
    assert s[j..][0] == s[j];
    assert multiset(s) == multiset(s[..j]) + multiset(s[j..]);
  }

  /** An element that occurs at least twice in the multiset occurs at some other position too. */
  lemma SecondOccurrence<T>(s: seq<T>, p: nat)
    requires p < |s| && multiset(s)[s[p]] >= 2
    ensures exists q :: 0 <= q < |s| && q != p && s[q] == s[p]
  {
    var x := s[p];
    assert s == s[..p] + [x] + s[p + 1..];
    assert multiset(s) == multiset(s[..p]) + multiset{x} + multiset(s[p + 1..]);
    if x in s[..p] {
      var q :| 0 <= q < p && s[..p][q] == x;
      assert s[q] == x;
    } else {
      assert x in multiset(s[p + 1..]);
      var q :| 0 <= q < |s| - p - 1 && s[p + 1..][q] == x;
      assert s[p + 1 + q] == x;
    }
  }

  /** Reordering keeps the keys unique: a key cannot repeat in a permutation of a uniquely keyed list. */
  lemma UniqueKeysPermutation(a: seq<Endpoint>, b: seq<Endpoint>)
    requires multiset(a) == multiset(b) && UniqueKeys(a)
    ensures UniqueKeys(b)
  {
    forall i, j | 0 <= i < j < |b| ensures Key(b[i]) != Key(b[j]) {
      assert b[i] in multiset(a) && b[j] in multiset(a);
      var p :| 0 <= p < |a| && a[p] == b[i];
      if b[i] == b[j] {
        TwiceInMultiset(b, i, j);
        SecondOccurrence(a, p);
        assert false;
      } else {
        var q :| 0 <= q < |a| && a[q] == b[j];
        assert p != q;
        if p < q { assert Key(a[p]) != Key(a[q]); } else { assert Key(a[q]) != Key(a[p]); }
      }
    }
  }

  /** `Endpoint.id`: the method, a space, then the path. */
  function EndpointId(e: Endpoint): string
  {
    e.httpMethod + " " + e.path
  }

  /** While methods contain no space, the `id` of an endpoint determines its `(path, method)` key. */
  lemma EndpointIdDeterminesKey(a: Endpoint, b: Endpoint)
    requires ' ' !in a.httpMethod && ' ' !in b.httpMethod
    requires EndpointId(a) == EndpointId(b)
    ensures a.httpMethod == b.httpMethod && a.path == b.path
  {
    var x, y := EndpointId(a), EndpointId(b);
    FirstSpace(a.httpMethod, a.path);
    FirstSpace(b.httpMethod, b.path);
    assert |a.httpMethod| == |b.httpMethod|;
    assert a.httpMethod == x[..|a.httpMethod|] && b.httpMethod == y[..|b.httpMethod|];
    assert a.path == x[|a.httpMethod| + 1..] && b.path == y[|b.httpMethod| + 1..];
  }

  /** In `m + " " + p` with no space in `m`, the first space is the one after `m`. */
  lemma FirstSpace(m: string, p: string)
    requires ' ' !in m
    ensures (m + " " + p)[|m|] == ' '
    ensures forall k :: 0 <= k < |m| ==> (m + " " + p)[k] != ' '
  {
    forall k | 0 <= k < |m|
      ensures (m + " " + p)[k] != ' '
    {
      assert (m + " " + p)[k] == m[k];
    }
  }

  predicate IsGenericMock(m: Mock)
  {
    m.isGeneric
  }

  predicate IsSpecificMock(m: Mock)
  {
    !m.isGeneric
  }

  /** `Endpoint.genericMocks`. */
  function GenericMocks(e: Endpoint): (r: seq<Mock>)
    ensures forall m :: m in r <==> m in e.availableMocks && m.isGeneric
  {
    Filter(e.availableMocks, IsGenericMock)
  }

  /** `Endpoint.nonGenericMocks`. */
  function NonGenericMocks(e: Endpoint): (r: seq<Mock>)
    ensures forall m :: m in r <==> m in e.availableMocks && !m.isGeneric
  {
    Filter(e.availableMocks, IsSpecificMock)
  }

  /** The generic and non-generic mocks split the available ones by `isGeneric`, each keeping their order. */
  lemma GenericPartition(e: Endpoint)
    ensures forall m :: m in GenericMocks(e) ==> m in e.availableMocks && m.isGeneric
    ensures forall m :: m in NonGenericMocks(e) ==> m in e.availableMocks && !m.isGeneric
    ensures |GenericMocks(e)| + |NonGenericMocks(e)| == |e.availableMocks|
    ensures multiset(GenericMocks(e)) + multiset(NonGenericMocks(e)) == multiset(e.availableMocks)
    ensures IsSubsequence(GenericMocks(e), e.availableMocks)
    ensures IsSubsequence(NonGenericMocks(e), e.availableMocks)
  {
    FilterPartition(e.availableMocks, IsGenericMock, IsSpecificMock);
    FilterIsSubsequence(e.availableMocks, IsGenericMock);
    FilterIsSubsequence(e.availableMocks, IsSpecificMock);
  }

  /** `Endpoint.activated(mock:)`. */
  function Activated(e: Endpoint, mock: Mock): (r: Endpoint)
    ensures r.path == e.path && r.httpMethod == e.httpMethod && r.availableMocks == e.availableMocks
    ensures r.activeMock == Some(mock)
  {
    Endpoint(e.path, e.httpMethod, e.availableMocks, Some(mock))
  }

  /** `Endpoint.deactivated()`. */
  function Deactivated(e: Endpoint): (r: Endpoint)
    ensures r.path == e.path && r.httpMethod == e.httpMethod && r.availableMocks == e.availableMocks
    ensures r.activeMock.None?
  {
    Endpoint(e.path, e.httpMethod, e.availableMocks, None)
  }

  /** Deactivating twice is deactivating once, and deactivation forgets any earlier activation. */
  lemma DeactivatedIdempotent(e: Endpoint, mock: Mock)
    ensures Deactivated(Deactivated(e)) == Deactivated(e)
    ensures Deactivated(Activated(e, mock)) == Deactivated(e)
    ensures e.activeMock.None? ==> Deactivated(Activated(e, mock)) == e
  {
  }

  /** `Mock.data`. */
  function MockData(m: Mock): (r: Option<Bytes>)
    ensures r.None? <==> m.response.NetworkError?
    ensures r.Some? ==> r.value == m.response.data
  {
    match m.response
    case NetworkResponse(data, _) => Some(data)
    case NetworkError(_) => None
  }

  /** `Mock.statusCode`. */
  function MockStatusCode(m: Mock): (r: Option<int>)
    ensures r.None? <==> m.response.NetworkError?
    ensures r.Some? ==> r.value == m.response.statusCode
  {
    match m.response
    case NetworkResponse(_, statusCode) => Some(statusCode)
    case NetworkError(_) => None
  }

  /** `Mock.displayName`: `"<name> (<statusCode>)"`, or the bare name for an error mock. */
  function DisplayName(m: Mock): string
  {
    match MockStatusCode(m)
    case Some(code) => m.name + " (" + IntToString(code) + ")"
    case None => m.name
  }

  /**
   * The display name is the bare name for an error mock, and otherwise the name, `" ("`, the
   * description of the status code and `")"`, so the code can be read back from between the parentheses.
   */
  lemma DisplayNameShowsStatusCode(m: Mock)
    requires m.response.NetworkResponse? ==> IntMin <= m.response.statusCode <= IntMax
    ensures |DisplayName(m)| >= |m.name| && DisplayName(m)[..|m.name|] == m.name
    ensures MockStatusCode(m).None? <==> DisplayName(m) == m.name
    ensures MockStatusCode(m).Some? ==>
      var d := DisplayName(m);
      && |d| >= |m.name| + 3
      && d[|m.name|..|m.name| + 2] == " (" && d[|d| - 1] == ')'
      && d[|m.name| + 2..|d| - 1] == IntToString(MockStatusCode(m).value)
      && ParseInt(d[|m.name| + 2..|d| - 1]) == MockStatusCode(m)
  {
    if m.response.NetworkResponse? {
      var code := m.response.statusCode;
      var digits := IntToString(code);
      var d := DisplayName(m);
      assert d == m.name + " (" + digits + ")";
      assert d[|m.name| + 2..|d| - 1] == digits;
      ParseIntToString(code);
    }
  }
}
