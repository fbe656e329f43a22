/**
 * Discovery of the endpoints and mocks of a mocks bundle.
 *
 * A bundle holds a flat `generic/` directory of mocks offered to every endpoint of a
 * matching method, and an `endpoints/` tree whose directories mirror URL paths. Every
 * fixture file is named `<method>.<name>.<statusCode>.<extension>`.
 */
module MocksBundle {
  import opened Wrappers
  import opened Foundation
  import opened Seqs
  import opened Text
  import opened Numerals
  import opened NetworkModels

  /** A bundle's `generic/` and `endpoints/` directories. */
  datatype Bundle = Bundle(generic: Dir, endpoints: Dir)

  const GenericDirectory: string := "generic"
  const EndpointsDirectory: string := "endpoints"

  /** The method of a generic mock that applies to endpoints of every method. */
  const AnyMethod: string := "ANY"

  // ---------------------------------------------------------------------------
  // Base URL

  /** `MocksBundle.init`: no base URL is `""`; any other is `"/"` and the value with its slashes trimmed. */
  function NormalizedBaseURL(baseURL: Option<string>): (r: string)
    ensures baseURL.None? ==> r == ""
    ensures baseURL.Some? ==> r == "/" + Trim(baseURL.value, '/')
    ensures baseURL.Some? ==> |r| >= 1 && r[0] == '/' && (|r| == 1 || (r[1] != '/' && r[|r| - 1] != '/'))
  {
    match baseURL
    case None => ""
    case Some(b) => "/" + Trim(b, '/')
  }

  /** Normalizing an already normalized base URL leaves it as it is. */
  lemma NormalizedBaseURLIdempotent(baseURL: string)
    ensures NormalizedBaseURL(Some(NormalizedBaseURL(Some(baseURL)))) == NormalizedBaseURL(Some(baseURL))
  {
    var t := Trim(baseURL, '/');
    var n := "/" + t;
    assert NormalizedBaseURL(Some(baseURL)) == n;
    assert n[1..] == t;
    assert TrimLeading(t, '/') == t;
    assert TrimLeading(n, '/') == t;
    assert TrimTrailing(t, '/') == t;
    assert Trim(n, '/') == t;
  }

  // ---------------------------------------------------------------------------
  // File names

  /** The parts of a fixture file name. */
  datatype FileNameParts = FileNameParts(fileName: string, httpMethod: string, name: string, statusCode: int)

  /** A file name with at least three `.`-separated components whose third is an `Int`. */
  predicate ValidFileName(fileName: string)
  {
    var components := Split(fileName, '.');
    |components| >= 3 && ParseInt(components[2]).Some?
  }

  /** `parseFileName(ofMockAt:)` for the file `fileName` in the directory at `dirUrl`. */
  function ParseFileName(dirUrl: Url, fileName: string): (r: Result<FileNameParts, MockerError>)
    ensures r.Success? <==> ValidFileName(fileName)
    ensures r.Failure? ==> r.error == InvalidFileName(dirUrl + [fileName])
    ensures r.Success? ==> var components := Split(fileName, '.');
      r.value == FileNameParts(fileName, components[0], components[1], ParseInt(components[2]).value)
  {
    var components := Split(fileName, '.');
    if |components| >= 3 && ParseInt(components[2]).Some? then
      Success(FileNameParts(fileName, components[0], components[1], ParseInt(components[2]).value))
    else
      Failure(InvalidFileName(dirUrl + [fileName]))
  }

  /** A file named `<method>.<name>.<code>.<extension>` parses back to its method, name and code. */
  lemma ParseFileNameRoundTrip(dirUrl: Url, httpMethod: string, name: string, statusCode: int, extension: string)
    requires '.' !in httpMethod && '.' !in name
    requires IntMin <= statusCode <= IntMax
    ensures var fileName := httpMethod + "." + name + "." + IntToString(statusCode) + "." + extension;
      ParseFileName(dirUrl, fileName) == Success(FileNameParts(fileName, httpMethod, name, statusCode))
  {
    var code := IntToString(statusCode);
    var fileName := httpMethod + "." + name + "." + code + "." + extension;
    assert '.' !in code;
    var head := [httpMethod, name, code];
    var tail := Split(extension, '.');
    JoinSplit(extension, '.');
    JoinAppend(head, tail, '.');
    assert Join(head, '.') == httpMethod + "." + name + "." + code by {
      assert head[1..] == [name, code];
      assert head[1..][1..] == [code];
      assert Join(head[1..], '.') == name + ['.'] + code;
      assert Join(head, '.') == httpMethod + ['.'] + (name + ['.'] + code);
    }
    assert Join(head + tail, '.') == fileName;
    SplitJoin(head + tail, '.');
    assert (head + tail)[2] == code;
    ParseIntToString(statusCode);
  }

  /** A name with only two `.`-separated components, such as `bad-name.json`, is rejected with its own URL. */
  lemma TwoComponentNameRejected(dirUrl: Url, stem: string, extension: string)
    requires '.' !in stem && '.' !in extension
    ensures ParseFileName(dirUrl, stem + "." + extension) == Failure(InvalidFileName(dirUrl + [stem + "." + extension]))
  {
    var parts := [stem, extension];
    assert parts[1..] == [extension];
    assert Join(parts, '.') == stem + "." + extension;
    SplitJoin(parts, '.');
  }

  // ---------------------------------------------------------------------------
  // Mocks of one directory

  /** One fixture file as a mock: its name is parsed before its bytes are read. */
  function LoadMock(dirUrl: Url, fileName: string, contents: Option<Bytes>, isGeneric: bool): (r: Result<Mock, MockerError>)
    ensures !ValidFileName(fileName) ==> r == Failure(InvalidFileName(dirUrl + [fileName]))
    ensures ValidFileName(fileName) && contents.None? ==> r == Failure(CouldNotLoadFile(dirUrl + [fileName]))
    ensures r.Success? <==> ValidFileName(fileName) && contents.Some?
    ensures r.Success? ==>
      var parts := ParseFileName(dirUrl, fileName).value;
      && r.value.id == fileName && r.value.httpMethod == parts.httpMethod && r.value.name == parts.name
      && r.value.isGeneric == isGeneric
      && r.value.response == NetworkResponse(contents.value, parts.statusCode)
  {
    match ParseFileName(dirUrl, fileName)
    case Failure(e) => Failure(e)
    case Success(parts) =>
      match contents
      case None => Failure(CouldNotLoadFile(dirUrl + [fileName]))
      case Some(data) => Success(Mock(parts.fileName, parts.httpMethod, parts.name, isGeneric, NetworkResponse(data, parts.statusCode)))
  }

  /** The file entry loads as a mock (directories are skipped and always succeed). */
  predicate Loads(dirUrl: Url, e: Entry, isGeneric: bool)
  {
    e.File? ==> LoadMock(dirUrl, e.name, e.contents, isGeneric).Success?
  }

  /** Every file among `entries` loads. */
  predicate AllLoad(dirUrl: Url, entries: seq<Entry>, isGeneric: bool)
  {
    forall i :: 0 <= i < |entries| ==> Loads(dirUrl, entries[i], isGeneric)
  }

  /** The files of a directory, in enumeration order, as mocks; the first failing file aborts. */
  function LoadMocks(dirUrl: Url, entries: seq<Entry>, isGeneric: bool): (r: Result<seq<Mock>, MockerError>)
    ensures r.Success? <==> AllLoad(dirUrl, entries, isGeneric)
  {
    if entries == [] then Success([])
    else
      AllLoadCons(dirUrl, entries, isGeneric);
      match entries[0]
      case Folder(_, _) => LoadMocks(dirUrl, entries[1..], isGeneric)
      case File(name, contents) =>
        match LoadMock(dirUrl, name, contents, isGeneric)
        case Failure(e) => Failure(e)
        case Success(m) =>
          match LoadMocks(dirUrl, entries[1..], isGeneric)
          case Failure(e) => Failure(e)
          case Success(ms) => Success([m] + ms)
  }

  lemma AllLoadCons(dirUrl: Url, entries: seq<Entry>, isGeneric: bool)
    requires entries != []
    ensures AllLoad(dirUrl, entries, isGeneric) <==> Loads(dirUrl, entries[0], isGeneric) && AllLoad(dirUrl, entries[1..], isGeneric)
  {
    assert forall i :: 1 <= i < |entries| ==> entries[i] == entries[1..][i - 1];
  }

  /** A file at the front contributes its mock at the front; a directory at the front contributes nothing. */
  lemma LoadMocksStep(dirUrl: Url, entries: seq<Entry>, isGeneric: bool)
    requires entries != [] && LoadMocks(dirUrl, entries, isGeneric).Success?
    ensures LoadMocks(dirUrl, entries[1..], isGeneric).Success?
    ensures entries[0].File? ==>
      && LoadMock(dirUrl, entries[0].name, entries[0].contents, isGeneric).Success?
      && LoadMocks(dirUrl, entries, isGeneric).value
         == [LoadMock(dirUrl, entries[0].name, entries[0].contents, isGeneric).value] + LoadMocks(dirUrl, entries[1..], isGeneric).value
      && Filter(entries, IsFile) == [entries[0]] + Filter(entries[1..], IsFile)
    ensures entries[0].Folder? ==>
      && LoadMocks(dirUrl, entries, isGeneric) == LoadMocks(dirUrl, entries[1..], isGeneric)
      && Filter(entries, IsFile) == Filter(entries[1..], IsFile)
  {
  }

  /** On success the k-th mock is the k-th file of the directory, loaded: one mock per file, in order. */
  lemma {:induction false} LoadMocksInOrder(dirUrl: Url, entries: seq<Entry>, isGeneric: bool)
    requires LoadMocks(dirUrl, entries, isGeneric).Success?
    ensures var mocks, files := LoadMocks(dirUrl, entries, isGeneric).value, Filter(entries, IsFile);
      && |mocks| == |files|
      && forall k :: 0 <= k < |mocks| ==> files[k].File? && Success(mocks[k]) == LoadMock(dirUrl, files[k].name, files[k].contents, isGeneric)
  {
    if entries != [] {
      LoadMocksStep(dirUrl, entries, isGeneric);
      LoadMocksInOrder(dirUrl, entries[1..], isGeneric);
      if entries[0].File? {
        var mocks, tail := LoadMocks(dirUrl, entries, isGeneric).value, LoadMocks(dirUrl, entries[1..], isGeneric).value;
        var files, rest := Filter(entries, IsFile), Filter(entries[1..], IsFile);
        forall k | 0 <= k < |mocks|
          ensures files[k].File? && Success(mocks[k]) == LoadMock(dirUrl, files[k].name, files[k].contents, isGeneric)
        {
          if k > 0 {
            assert mocks[k] == tail[k - 1] && files[k] == rest[k - 1];
          }
        }
      }
    }
  }

  /** On failure the error is that of the first file that does not load. */
  lemma {:induction false} LoadMocksFirstFailure(dirUrl: Url, entries: seq<Entry>, isGeneric: bool) returns (i: nat)
    requires LoadMocks(dirUrl, entries, isGeneric).Failure?
    ensures i < |entries| && entries[i].File?
    ensures LoadMock(dirUrl, entries[i].name, entries[i].contents, isGeneric) == Failure(LoadMocks(dirUrl, entries, isGeneric).error)
    ensures forall j :: 0 <= j < i ==> Loads(dirUrl, entries[j], isGeneric)
  {
    var head := entries[0];
    if head.File? && LoadMock(dirUrl, head.name, head.contents, isGeneric).Failure? {
      i := 0;
    } else {
      var k := LoadMocksFirstFailure(dirUrl, entries[1..], isGeneric);
      i := k + 1;
      assert entries[i] == entries[1..][k];
      forall j | 0 <= j < i ensures Loads(dirUrl, entries[j], isGeneric) {
        if j > 0 { assert entries[j] == entries[1..][j - 1]; }
      }
    }
  }

  /** `lhs.fileName < rhs.fileName`: mocks are ordered by their file name. */
  predicate MockLess(a: Mock, b: Mock)
  {
    StrLess(a.id, b.id)
  }

  lemma MockLessStrictOrder()
    ensures StrictOrder(MockLess)
  {
    forall a: Mock ensures !MockLess(a, a) {
      StrLessIrreflexive(a.id);
    }
    forall a: Mock, b: Mock, c: Mock | MockLess(a, b) && MockLess(b, c) ensures MockLess(a, c) {
      StrLessTransitive(a.id, b.id, c.id);
    }
  }

  /** `discoverMocks(fromDirectory:isGeneric:)`: the directory's files as mocks, sorted by file name. */
  function DiscoverMocksIn(dir: Dir, dirUrl: Url, isGeneric: bool): (r: Result<seq<Mock>, MockerError>)
    ensures !dir.listable ==> r == Failure(CouldNotEnumerate(dirUrl))
    ensures r.Success? <==> dir.listable && AllLoad(dirUrl, dir.entries, isGeneric)
    ensures r.Success? ==> SortedBy(r.value, MockLess)
    ensures r.Success? ==>
      LoadMocks(dirUrl, dir.entries, isGeneric).Success? && multiset(r.value) == multiset(LoadMocks(dirUrl, dir.entries, isGeneric).value)
  {
    if !dir.listable then Failure(CouldNotEnumerate(dirUrl))
    else
      match LoadMocks(dirUrl, dir.entries, isGeneric)
      case Failure(e) => Failure(e)
      case Success(mocks) =>
        MockLessStrictOrder();
        Success(SortBy(mocks, MockLess))
  }

  /** Every discovered mock carries the call's `isGeneric` flag and is the mock of a file of the directory. */
  lemma DiscoveredMocksComeFromFiles(dir: Dir, dirUrl: Url, isGeneric: bool)
    requires DiscoverMocksIn(dir, dirUrl, isGeneric).Success?
    ensures var mocks := DiscoverMocksIn(dir, dirUrl, isGeneric).value;
      && |mocks| == |Filter(dir.entries, IsFile)|
      && forall m :: m in mocks ==>
           && m.isGeneric == isGeneric && m.response.NetworkResponse?
           && exists i :: (
                && 0 <= i < |dir.entries| && dir.entries[i].File?
                && LoadMock(dirUrl, dir.entries[i].name, dir.entries[i].contents, isGeneric) == Success(m))
  {
    var sorted := DiscoverMocksIn(dir, dirUrl, isGeneric).value;
    var loaded := LoadMocks(dirUrl, dir.entries, isGeneric).value;
    LoadMocksInOrder(dirUrl, dir.entries, isGeneric);
    assert |sorted| == |multiset(sorted)| == |multiset(loaded)| == |loaded|;
    forall m | m in sorted
      ensures m.isGeneric == isGeneric && m.response.NetworkResponse?
      ensures exists i :: (
        && 0 <= i < |dir.entries| && dir.entries[i].File?
        && LoadMock(dirUrl, dir.entries[i].name, dir.entries[i].contents, isGeneric) == Success(m))
    {
      assert m in multiset(loaded);
      LoadedMockComesFromFile(dirUrl, dir.entries, isGeneric, m);
    }
  }

  /** A mock loaded from `entries` carries the call's flag and is the mock of one of the files. */
  lemma LoadedMockComesFromFile(dirUrl: Url, entries: seq<Entry>, isGeneric: bool, m: Mock)
    requires LoadMocks(dirUrl, entries, isGeneric).Success? && m in LoadMocks(dirUrl, entries, isGeneric).value
    ensures m.isGeneric == isGeneric && m.response.NetworkResponse?
    ensures exists i :: 0 <= i < |entries| && entries[i].File? && LoadMock(dirUrl, entries[i].name, entries[i].contents, isGeneric) == Success(m)
  {
    var loaded := LoadMocks(dirUrl, entries, isGeneric).value;
    var files := Filter(entries, IsFile);
    LoadMocksInOrder(dirUrl, entries, isGeneric);
    var k :| 0 <= k < |loaded| && loaded[k] == m;
    assert files[k] in files;
    var i :| 0 <= i < |entries| && entries[i] == files[k];
  }

  /** No file is lost: the mock of every file of the directory is among the discovered ones. */
  lemma EveryFileIsDiscovered(dir: Dir, dirUrl: Url, isGeneric: bool, i: nat)
    requires DiscoverMocksIn(dir, dirUrl, isGeneric).Success?
    requires i < |dir.entries| && dir.entries[i].File?
    ensures LoadMock(dirUrl, dir.entries[i].name, dir.entries[i].contents, isGeneric).Success?
    ensures LoadMock(dirUrl, dir.entries[i].name, dir.entries[i].contents, isGeneric).value in DiscoverMocksIn(dir, dirUrl, isGeneric).value
  {
    var sorted := DiscoverMocksIn(dir, dirUrl, isGeneric).value;
    var loaded := LoadMocks(dirUrl, dir.entries, isGeneric).value;
    var files := Filter(dir.entries, IsFile);
    LoadMocksInOrder(dirUrl, dir.entries, isGeneric);
    assert Loads(dirUrl, dir.entries[i], isGeneric);
    assert dir.entries[i] in files;
    var k :| 0 <= k < |files| && files[k] == dir.entries[i];
    assert loaded[k] in multiset(sorted);
  }

  // ---------------------------------------------------------------------------
  // Endpoints of one directory

  /** The distinct methods of `mocks`, in order of first occurrence (`Dictionary(grouping:by:)` keys). */
  function DistinctMethods(mocks: seq<Mock>): (methods: seq<string>)
    ensures forall i, j :: 0 <= i < j < |methods| ==> methods[i] != methods[j]
    ensures forall m :: m in methods <==> exists k :: 0 <= k < |mocks| && mocks[k].httpMethod == m
  {
    if mocks == [] then []
    else
      var init := DistinctMethods(mocks[..|mocks| - 1]);
      var last := mocks[|mocks| - 1].httpMethod;
      assert forall k :: 0 <= k < |mocks| - 1 ==> mocks[..|mocks| - 1][k] == mocks[k];
      if last in init then init else init + [last]
  }

  /** Whether a generic mock is offered to an endpoint of `httpMethod`. */
  predicate GenericAppliesTo(m: Mock, httpMethod: string)
  {
    m.httpMethod == httpMethod || m.httpMethod == AnyMethod
  }

  /** The directory's mocks of `httpMethod`, then the generic mocks of that method or `ANY`. */
  function AvailableMocks(httpMethod: string, mocks: seq<Mock>, genericMocks: seq<Mock>): (r: seq<Mock>)
    ensures forall m :: m in r <==>
      (m in mocks && m.httpMethod == httpMethod) || (m in genericMocks && GenericAppliesTo(m, httpMethod))
  {
    Filter(mocks, (m: Mock) => m.httpMethod == httpMethod) + Filter(genericMocks, (m: Mock) => GenericAppliesTo(m, httpMethod))
  }

  /** The specific mocks come first and keep their order, the applicable generic ones follow in theirs, and none is dropped. */
  lemma AvailableMocksOrder(httpMethod: string, mocks: seq<Mock>, genericMocks: seq<Mock>)
    ensures var r, own := AvailableMocks(httpMethod, mocks, genericMocks), Filter(mocks, (m: Mock) => m.httpMethod == httpMethod);
      && |own| <= |r|
      && r[..|own|] == own && IsSubsequence(own, mocks)
      && (forall m :: m in own ==> m.httpMethod == httpMethod)
      && IsSubsequence(r[|own|..], genericMocks)
      && (forall m :: m in r[|own|..] ==> GenericAppliesTo(m, httpMethod))
      && (forall k :: 0 <= k < |mocks| && mocks[k].httpMethod == httpMethod ==> mocks[k] in r[..|own|])
      && (forall k :: 0 <= k < |genericMocks| && GenericAppliesTo(genericMocks[k], httpMethod) ==> genericMocks[k] in r[|own|..])
  {
    var own := Filter(mocks, (m: Mock) => m.httpMethod == httpMethod);
    var shared := Filter(genericMocks, (m: Mock) => GenericAppliesTo(m, httpMethod));
    var r := own + shared;
    assert r[..|own|] == own && r[|own|..] == shared;
    FilterIsSubsequence(mocks, (m: Mock) => m.httpMethod == httpMethod);
    FilterIsSubsequence(genericMocks, (m: Mock) => GenericAppliesTo(m, httpMethod));
  }

  /** One endpoint at `path` per method of `methods`, none active. */
  function EndpointsFor(path: string, methods: seq<string>, mocks: seq<Mock>, genericMocks: seq<Mock>): (eps: seq<Endpoint>)
    ensures |eps| == |methods|
    ensures forall i :: 0 <= i < |eps| ==> eps[i] == Endpoint(path, methods[i], AvailableMocks(methods[i], mocks, genericMocks), None)
  {
    if methods == [] then []
    else [Endpoint(path, methods[0], AvailableMocks(methods[0], mocks, genericMocks), None)] + EndpointsFor(path, methods[1..], mocks, genericMocks)
  }

  /**
   * `e` is an endpoint a directory at `path` yields: inactive, at that path, for a method some of
   * the directory's mocks have, offering the directory's mocks of that method and then the generic ones.
   */
  predicate IsDirectoryEndpoint(path: string, mocks: seq<Mock>, genericMocks: seq<Mock>, e: Endpoint)
  {
    && e.path == path && e.activeMock.None?
    && (exists k :: 0 <= k < |mocks| && mocks[k].httpMethod == e.httpMethod)
    && e.availableMocks == AvailableMocks(e.httpMethod, mocks, genericMocks)
  }

  /** The endpoints of one directory: one per distinct method among its own mocks, and no method twice. */
  function DirectoryEndpoints(path: string, mocks: seq<Mock>, genericMocks: seq<Mock>): (eps: seq<Endpoint>)
    ensures forall i, j :: 0 <= i < j < |eps| ==> eps[i].httpMethod != eps[j].httpMethod
    ensures forall e :: e in eps <==> IsDirectoryEndpoint(path, mocks, genericMocks, e)
  {
    var methods := DistinctMethods(mocks);
    var eps := EndpointsFor(path, methods, mocks, genericMocks);
    assert forall i :: 0 <= i < |eps| ==> eps[i].httpMethod == methods[i];
    assert forall e :: e in eps <==> IsDirectoryEndpoint(path, mocks, genericMocks, e) by {
      forall e ensures e in eps <==> IsDirectoryEndpoint(path, mocks, genericMocks, e) {
        if e in eps {
          var i :| 0 <= i < |eps| && eps[i] == e;
          assert methods[i] in methods;
        }
        if IsDirectoryEndpoint(path, mocks, genericMocks, e) {
          assert e.httpMethod in methods;
          var i :| 0 <= i < |methods| && methods[i] == e.httpMethod;
          assert eps[i] == e;
        }
      }
    }
    eps
  }

  /** Each method present among the directory's own mocks yields an endpoint, and no other does. */
  lemma DirectoryEndpointsCoverMethods(path: string, mocks: seq<Mock>, genericMocks: seq<Mock>)
    ensures var eps := DirectoryEndpoints(path, mocks, genericMocks);
      (set i | 0 <= i < |eps| :: eps[i].httpMethod) == (set k | 0 <= k < |mocks| :: mocks[k].httpMethod)
  {
    var methods := DistinctMethods(mocks);
    var eps := DirectoryEndpoints(path, mocks, genericMocks);
    var left, right := (set i | 0 <= i < |eps| :: eps[i].httpMethod), (set k | 0 <= k < |mocks| :: mocks[k].httpMethod);
    forall m | m in left ensures m in right {
      var i :| 0 <= i < |eps| && eps[i].httpMethod == m;
      assert methods[i] in methods;
    }
    forall m | m in right ensures m in left {
      var k :| 0 <= k < |mocks| && mocks[k].httpMethod == m;
      assert m in methods;
      var i :| 0 <= i < |methods| && methods[i] == m;
      assert eps[i].httpMethod == m;
    }
  }

  // ---------------------------------------------------------------------------
  // Endpoint paths

  /** A file system name: not empty and free of `/`. */
  predicate ValidName(name: string)
  {
    name != [] && '/' !in name
  }

  predicate ValidNames(names: seq<string>)
  {
    forall i :: 0 <= i < |names| ==> ValidName(names[i])
  }

  /**
   * `directory.path.components(separatedBy: root.path)[1]` for the directory reached through
   * `names`: empty for the root, and otherwise the names joined with `/`, trimmed or not.
   */
  function RelativePath(names: seq<string>): (r: string)
    ensures names == [] ==> r == ""
    ensures ValidNames(names) ==> Trim(r, '/') == Join(names, '/')
  {
    if names == [] then ""
    else
      var r := "/" + Join(names, '/');
      assert ValidNames(names) ==> Trim(r, '/') == Join(names, '/') by {
        if ValidNames(names) {
          SlashJoinTrimmed(names);
        }
      }
      r
  }

  /** A `/` in front of names joined with `/` is all that trimming slashes removes. */
  lemma SlashJoinTrimmed(names: seq<string>)
    requires names != [] && ValidNames(names)
    ensures Trim("/" + Join(names, '/'), '/') == Join(names, '/')
  {
    var joined := Join(names, '/');
    var first, last := names[0], names[|names| - 1];
    assert ValidName(first) && ValidName(last);
    JoinFirst(names, '/');
    JoinLast(names, '/');
    assert first[0] != '/' by { assert first[0] in first; }
    assert last[|last| - 1] != '/' by { assert last[|last| - 1] in last; }
    assert ("/" + joined)[1..] == joined;
    assert TrimLeading("/" + joined, '/') == TrimLeading(joined, '/');
    TrimUnchanged(joined, '/');
  }

  /**
   * `[baseURL, relative path trimmed of slashes].joined(separator: "/")`: directory names,
   * placeholders such as `{id}` included, are kept verbatim after the base URL and a `/`.
   */
  function EndpointPath(baseURL: string, names: seq<string>): (path: string)
    ensures ValidNames(names) ==> path == baseURL + "/" + Join(names, '/')
  {
    baseURL + "/" + Trim(RelativePath(names), '/')
  }

  /** Joined names start with the first name. */
  lemma JoinFirst(names: seq<string>, sep: char)
    requires |names| >= 1 && names[0] != []
    ensures |Join(names, sep)| >= 1 && Join(names, sep)[0] == names[0][0]
  {
  }

  /** Joined names end with the last name. */
  lemma {:induction false} JoinLast(names: seq<string>, sep: char)
    requires |names| >= 1 && names[|names| - 1] != []
    ensures |Join(names, sep)| >= 1
    ensures Join(names, sep)[|Join(names, sep)| - 1] == names[|names| - 1][|names[|names| - 1]| - 1]
  {
    if |names| > 1 {
      JoinLast(names[1..], sep);
    }
  }

  /** With the mocker's default base URL `""`, a directory such as `users` becomes the path `//users`. */
  lemma DefaultBaseURLDoublesSlash(names: seq<string>)
    requires ValidNames(names)
    ensures EndpointPath(NormalizedBaseURL(Some("")), names) == "//" + Join(names, '/')
  {
    var base := NormalizedBaseURL(Some(""));
    assert base == "/" by { assert Trim("", '/') == ""; }
    assert base + "/" == "//";
  }

  // ---------------------------------------------------------------------------
  // The endpoint tree

  /** `discoverEndpoints(fromDirectory:root:genericMocks:)` for the directory reached from `endpoints/` through `names`. */
  function DiscoverEndpoints(baseURL: string, genericMocks: seq<Mock>, dir: Dir, names: seq<string>): (r: Result<seq<Endpoint>, MockerError>)
    ensures r.Success? ==> forall e :: e in r.value ==> e.activeMock.None?
    decreases dir, 1
  {
    match DiscoverMocksIn(dir, [EndpointsDirectory] + names, false)
    case Failure(e) => Failure(e)
    case Success(mocks) =>
      var own := DirectoryEndpoints(EndpointPath(baseURL, names), mocks, genericMocks);
      match DiscoverChildren(baseURL, genericMocks, dir.entries, names)
      case Failure(e) => Failure(e)
      case Success(children) => Success(own + children)
  }

  /** The endpoints of the sub-directories among `entries`, depth first, in enumeration order. */
  function DiscoverChildren(baseURL: string, genericMocks: seq<Mock>, entries: seq<Entry>, names: seq<string>): (r: Result<seq<Endpoint>, MockerError>)
    ensures r.Success? ==> forall e :: e in r.value ==> e.activeMock.None?
    decreases entries, 0
  {
    if entries == [] then Success([])
    else
      match entries[0]
      case File(_, _) => DiscoverChildren(baseURL, genericMocks, entries[1..], names)
      case Folder(name, dir) =>
        match DiscoverEndpoints(baseURL, genericMocks, dir, names + [name])
        case Failure(e) => Failure(e)
        case Success(first) =>
          match DiscoverChildren(baseURL, genericMocks, entries[1..], names)
          case Failure(e) => Failure(e)
          case Success(rest) => Success(first + rest)
  }

  /** Endpoints are ordered by path, then by method. */
  predicate EndpointLess(a: Endpoint, b: Endpoint)
  {
    if a.path == b.path then StrLess(a.httpMethod, b.httpMethod) else StrLess(a.path, b.path)
  }

  lemma EndpointLessStrictOrder()
    ensures StrictOrder(EndpointLess)
  {
    forall a: Endpoint ensures !EndpointLess(a, a) {
      StrLessIrreflexive(a.httpMethod);
    }
    forall a: Endpoint, b: Endpoint, c: Endpoint | EndpointLess(a, b) && EndpointLess(b, c)
      ensures EndpointLess(a, c)
    {
      if a.path == b.path && b.path == c.path {
        StrLessTransitive(a.httpMethod, b.httpMethod, c.httpMethod);
      } else if a.path != b.path && b.path != c.path {
        StrLessTransitive(a.path, b.path, c.path);
        StrLessIrreflexive(a.path);
      }
    }
  }

  /** Two endpoints with different keys are ordered one way round. */
  lemma EndpointLessTotal(a: Endpoint, b: Endpoint)
    requires (a.path, a.httpMethod) != (b.path, b.httpMethod)
    ensures EndpointLess(a, b) || EndpointLess(b, a)
  {
    if a.path == b.path {
      StrLessTotal(a.httpMethod, b.httpMethod);
    } else {
      StrLessTotal(a.path, b.path);
    }
  }

  /** `discoverMocks()`: generic mocks first, then the endpoint tree, sorted by path and method. */
  function Discover(bundle: Bundle, baseURL: Option<string>): (r: Result<seq<Endpoint>, MockerError>)
    ensures r.Success? ==> SortedBy(r.value, EndpointLess)
    ensures r.Success? ==> forall e :: e in r.value ==> e.activeMock.None?
  {
    match DiscoverMocksIn(bundle.generic, [GenericDirectory], true)
    case Failure(e) => Failure(e)
    case Success(genericMocks) =>
      match DiscoverEndpoints(NormalizedBaseURL(baseURL), genericMocks, bundle.endpoints, [])
      case Failure(e) => Failure(e)
      case Success(eps) =>
        EndpointLessStrictOrder();
        var sorted := SortBy(eps, EndpointLess);
        assert forall e :: e in sorted ==> e in multiset(eps);
        Success(sorted)
  }

  /** The discovered endpoints are exactly those of the tree walk, reordered. */
  lemma DiscoverIsSortedWalk(bundle: Bundle, baseURL: Option<string>)
    requires Discover(bundle, baseURL).Success?
    ensures var generic := DiscoverMocksIn(bundle.generic, [GenericDirectory], true);
      && generic.Success?
      && var walk := DiscoverEndpoints(NormalizedBaseURL(baseURL), generic.value, bundle.endpoints, []);
      && walk.Success?
      && multiset(Discover(bundle, baseURL).value) == multiset(walk.value)
  {
    EndpointLessStrictOrder();
  }

  // ---------------------------------------------------------------------------
  // When the walk succeeds

  /** Every directory from `dir` down, below `endpoints/` at `names`, can be listed and every file in it loads. */
  ghost predicate TreeLoads(dir: Dir, names: seq<string>)
    decreases dir, 1
  {
    && dir.listable && AllLoad([EndpointsDirectory] + names, dir.entries, false)
    && forall i :: 0 <= i < |dir.entries| ==> EntryTreeLoads(dir.entries[i], names)
  }

  ghost predicate EntryTreeLoads(e: Entry, names: seq<string>)
    decreases e, 0
  {
    e.Folder? ==> TreeLoads(e.dir, names + [e.name])
  }

  /**
   * The walk succeeds exactly when every directory below can be listed and every file in it
   * loads: an unlistable directory or an unloadable file at any depth aborts it.
   */
  lemma {:induction false} WalkSucceeds(baseURL: string, genericMocks: seq<Mock>, dir: Dir, names: seq<string>)
    ensures DiscoverEndpoints(baseURL, genericMocks, dir, names).Success? <==> TreeLoads(dir, names)
    decreases dir, 1
  {
    ChildrenSucceed(baseURL, genericMocks, dir.entries, names);
  }

  lemma {:induction false} ChildrenSucceed(baseURL: string, genericMocks: seq<Mock>, entries: seq<Entry>, names: seq<string>)
    ensures DiscoverChildren(baseURL, genericMocks, entries, names).Success? <==>
      forall i :: 0 <= i < |entries| ==> EntryTreeLoads(entries[i], names)
    decreases entries, 0
  {
    if entries != [] {
      ChildrenSucceed(baseURL, genericMocks, entries[1..], names);
      assert forall i :: 1 <= i < |entries| ==> entries[i] == entries[1..][i - 1];
      if entries[0].Folder? {
        WalkSucceeds(baseURL, genericMocks, entries[0].dir, names + [entries[0].name]);
      }
    }
  }

  // ---------------------------------------------------------------------------
  // What the walk finds

  /** `sub` is the directory reached from `dir` through the folder names `p`. */
  ghost predicate Reaches(dir: Dir, p: seq<string>, sub: Dir)
    decreases |p|
  {
    if p == [] then sub == dir
    else exists i :: 0 <= i < |dir.entries| && dir.entries[i].Folder? && dir.entries[i].name == p[0] && Reaches(dir.entries[i].dir, p[1..], sub)
  }

  /** `e` is one of the endpoints that the directory `sub`, below `endpoints/` at `names`, yields for its own mocks. */
  ghost predicate OwnEndpoint(baseURL: string, genericMocks: seq<Mock>, sub: Dir, names: seq<string>, e: Endpoint)
  {
    var mocks := DiscoverMocksIn(sub, [EndpointsDirectory] + names, false);
    mocks.Success? && IsDirectoryEndpoint(EndpointPath(baseURL, names), mocks.value, genericMocks, e)
  }

  /** Which endpoints a directory, reached at a name sequence, yields of its own. */
  type Yield = (Dir, seq<string>, Endpoint) -> bool

  /** What the walk yields per directory: the endpoints of that directory's own mocks. */
  ghost function Yields(baseURL: string, genericMocks: seq<Mock>): Yield
  {
    (sub, names, e) => OwnEndpoint(baseURL, genericMocks, sub, names, e)
  }

  /** `sub` is the directory reached from `dir`, itself at `names`, by the folder names after `names` in `full`. */
  ghost predicate ReachedAt(dir: Dir, names: seq<string>, full: seq<string>, sub: Dir)
  {
    |names| <= |full| && full[..|names|] == names && Reaches(dir, full[|names|..], sub)
  }

  /** `e` is yielded by some directory reached from `dir`, `dir` included. */
  ghost predicate InTree(own: Yield, dir: Dir, names: seq<string>, e: Endpoint)
  {
    exists full, sub :: ReachedAt(dir, names, full, sub) && own(sub, full, e)
  }

  /** `e` is yielded below one of the sub-directories among `entries`. */
  ghost predicate InChildren(own: Yield, entries: seq<Entry>, names: seq<string>, e: Endpoint)
  {
    exists i :: 0 <= i < |entries| && entries[i].Folder? && InTree(own, entries[i].dir, names + [entries[i].name], e)
  }

  /** A tree yields the endpoints of its top directory and those of its sub-directories' trees. */
  lemma InTreeUnfold(own: Yield, dir: Dir, names: seq<string>, e: Endpoint)
    ensures InTree(own, dir, names, e) <==>
      own(dir, names, e) || InChildren(own, dir.entries, names, e)
  {
    if InTree(own, dir, names, e) {
      InTreeSplit(own, dir, names, e);
    }
    if own(dir, names, e) {
      assert names[..|names|] == names && names[|names|..] == [];
      assert ReachedAt(dir, names, names, dir);
    }
    if InChildren(own, dir.entries, names, e) {
      InTreeFromChild(own, dir, names, e);
    }
  }

  lemma InTreeSplit(own: Yield, dir: Dir, names: seq<string>, e: Endpoint)
    requires InTree(own, dir, names, e)
    ensures own(dir, names, e) || InChildren(own, dir.entries, names, e)
  {
    var full, sub :| ReachedAt(dir, names, full, sub) && own(sub, full, e);
    var p := full[|names|..];
    if p == [] {
      assert full == full[..|names|] == names;
    } else {
      var i :| 0 <= i < |dir.entries| && dir.entries[i].Folder? && dir.entries[i].name == p[0] && Reaches(dir.entries[i].dir, p[1..], sub);
      var child := names + [dir.entries[i].name];
      ChildPrefix(names, full, dir.entries[i].name);
      assert ReachedAt(dir.entries[i].dir, child, full, sub);
      assert InTree(own, dir.entries[i].dir, child, e);
    }
  }

  /** A name sequence extending `names` by `n` and then more has `names + [n]` as its prefix. */
  lemma ChildPrefix(names: seq<string>, full: seq<string>, n: string)
    requires |names| < |full| && full[..|names|] == names && full[|names|] == n
    ensures full[..|names| + 1] == names + [n]
    ensures full[|names| + 1..] == full[|names|..][1..]
  {
  }

  lemma InTreeFromChild(own: Yield, dir: Dir, names: seq<string>, e: Endpoint)
    requires InChildren(own, dir.entries, names, e)
    ensures InTree(own, dir, names, e)
  {
    var i :| 0 <= i < |dir.entries| && dir.entries[i].Folder? && InTree(own, dir.entries[i].dir, names + [dir.entries[i].name], e);
    var n := dir.entries[i].name;
    var full, sub :| ReachedAt(dir.entries[i].dir, names + [n], full, sub) && own(sub, full, e);
    var p := full[|names|..];
    assert full[..|names|] == full[..|names| + 1][..|names|] == names;
    assert p[0] == n && p[1..] == full[|names| + 1..];
    assert Reaches(dir, p, sub);
    assert ReachedAt(dir, names, full, sub);
  }

  lemma InChildrenCons(own: Yield, entries: seq<Entry>, names: seq<string>, e: Endpoint)
    requires entries != []
    ensures InChildren(own, entries, names, e) <==>
      || (entries[0].Folder? && InTree(own, entries[0].dir, names + [entries[0].name], e))
      || InChildren(own, entries[1..], names, e)
  {
    if InChildren(own, entries[1..], names, e) {
      var i :| 0 <= i < |entries[1..]| && entries[1..][i].Folder? && InTree(own, entries[1..][i].dir, names + [entries[1..][i].name], e);
      assert entries[i + 1] == entries[1..][i];
    }
    if InChildren(own, entries, names, e) {
      var i :| 0 <= i < |entries| && entries[i].Folder? && InTree(own, entries[i].dir, names + [entries[i].name], e);
      if i > 0 {
        assert entries[1..][i - 1] == entries[i];
      }
    }
  }

  /**
   * The walk finds exactly the endpoints of the directories reached from its start: for a
   * directory reached through folder names `p`, one inactive endpoint at the path of `names + p`
   * per method of that directory's own mocks, offering those of that method and then the
   * applicable generic mocks. Directories without files are walked through all the same.
   */
  lemma {:induction false} WalkFinds(baseURL: string, genericMocks: seq<Mock>, dir: Dir, names: seq<string>)
    requires DiscoverEndpoints(baseURL, genericMocks, dir, names).Success?
    ensures forall e :: e in DiscoverEndpoints(baseURL, genericMocks, dir, names).value <==> InTree(Yields(baseURL, genericMocks), dir, names, e)
    decreases dir, 1
  {
    ChildrenFind(baseURL, genericMocks, dir.entries, names);
    forall e ensures e in DiscoverEndpoints(baseURL, genericMocks, dir, names).value <==> InTree(Yields(baseURL, genericMocks), dir, names, e) {
      InTreeUnfold(Yields(baseURL, genericMocks), dir, names, e);
    }
  }

  lemma {:induction false} ChildrenFind(baseURL: string, genericMocks: seq<Mock>, entries: seq<Entry>, names: seq<string>)
    requires DiscoverChildren(baseURL, genericMocks, entries, names).Success?
    ensures forall e :: e in DiscoverChildren(baseURL, genericMocks, entries, names).value <==> InChildren(Yields(baseURL, genericMocks), entries, names, e)
    decreases entries, 0
  {
    if entries != [] {
      var found := DiscoverChildren(baseURL, genericMocks, entries, names).value;
      ChildrenFind(baseURL, genericMocks, entries[1..], names);
      if entries[0].Folder? {
        WalkFinds(baseURL, genericMocks, entries[0].dir, names + [entries[0].name]);
      }
      forall e ensures e in found <==> InChildren(Yields(baseURL, genericMocks), entries, names, e) {
        InChildrenCons(Yields(baseURL, genericMocks), entries, names, e);
      }
    }
  }

  /** Discovery succeeds exactly when `generic/` loads and every directory below `endpoints/` can be listed and loads. */
  lemma DiscoverSucceeds(bundle: Bundle, baseURL: Option<string>)
    ensures Discover(bundle, baseURL).Success? <==>
      && bundle.generic.listable && AllLoad([GenericDirectory], bundle.generic.entries, true)
      && TreeLoads(bundle.endpoints, [])
  {
    var generic := DiscoverMocksIn(bundle.generic, [GenericDirectory], true);
    if generic.Success? {
      WalkSucceeds(NormalizedBaseURL(baseURL), generic.value, bundle.endpoints, []);
    }
  }

  /** Discovery yields exactly the endpoints of every directory below `endpoints/`, each once per method of its mocks. */
  lemma DiscoverFinds(bundle: Bundle, baseURL: Option<string>)
    requires Discover(bundle, baseURL).Success?
    ensures var generic := DiscoverMocksIn(bundle.generic, [GenericDirectory], true);
      && generic.Success?
      && forall e :: e in Discover(bundle, baseURL).value <==> InTree(Yields(NormalizedBaseURL(baseURL), generic.value), bundle.endpoints, [], e)
  {
    DiscoverIsSortedWalk(bundle, baseURL);
    var generic := DiscoverMocksIn(bundle.generic, [GenericDirectory], true).value;
    var walk := DiscoverEndpoints(NormalizedBaseURL(baseURL), generic, bundle.endpoints, []).value;
    WalkFinds(NormalizedBaseURL(baseURL), generic, bundle.endpoints, []);
    forall e ensures e in Discover(bundle, baseURL).value <==> e in walk {
      assert e in Discover(bundle, baseURL).value <==> e in multiset(Discover(bundle, baseURL).value);
    }
  }

  // ---------------------------------------------------------------------------
  // No two endpoints share a key

  /**
   * What a file system guarantees of a directory listing: every entry has a valid name, no two
   * siblings share a name, and the same holds in every sub-directory.
   */
  ghost predicate EntriesWellFormed(entries: seq<Entry>)
    decreases entries, 1
  {
    && (forall i :: 0 <= i < |entries| ==> ValidName(entries[i].name))
    && (forall i, j :: 0 <= i < j < |entries| ==> entries[i].name != entries[j].name)
    && (forall i :: 0 <= i < |entries| ==> EntryWellFormed(entries[i]))
  }

  ghost predicate EntryWellFormed(e: Entry)
    decreases e, 0
  {
    e.Folder? ==> EntriesWellFormed(e.dir.entries)
  }

  lemma EntriesWellFormedTail(entries: seq<Entry>)
    requires entries != [] && EntriesWellFormed(entries)
    ensures EntriesWellFormed(entries[1..])
    ensures forall k :: 0 <= k < |entries| - 1 ==> entries[1..][k].name != entries[0].name
  {
    assert forall k :: 0 <= k < |entries| - 1 ==> entries[1..][k] == entries[k + 1];
  }

  /** `path` is the endpoint path of `full`, a sequence of valid names that extends `names`. */
  predicate PathAt(baseURL: string, names: seq<string>, full: seq<string>, path: string)
  {
    ValidNames(full) && |names| <= |full| && full[..|names|] == names && path == EndpointPath(baseURL, full)
  }

  /** A path below `names + [n]` is a path strictly below `names`, through `n`. */
  lemma PathAtParent(baseURL: string, names: seq<string>, n: string, full: seq<string>, path: string)
    requires PathAt(baseURL, names + [n], full, path)
    ensures |names| < |full| && full[|names|] == n && PathAt(baseURL, names, full, path)
  {
    assert full[..|names|] == full[..|names| + 1][..|names|];
    assert full[|names|] == full[..|names| + 1][|names|];
  }

  /** Valid names joined with `/` determine the names. */
  lemma JoinInjective(a: seq<string>, b: seq<string>)
    requires ValidNames(a) && ValidNames(b) && Join(a, '/') == Join(b, '/')
    ensures a == b
  {
    if a != [] && b != [] {
      SplitJoin(a, '/');
      SplitJoin(b, '/');
    } else if a != [] {
      JoinFirst(a, '/');
      assert false;
    } else if b != [] {
      JoinFirst(b, '/');
      assert false;
    }
  }

  /** Directories reached through different valid names have different endpoint paths. */
  lemma EndpointPathInjective(baseURL: string, a: seq<string>, b: seq<string>)
    requires ValidNames(a) && ValidNames(b)
    ensures EndpointPath(baseURL, a) == EndpointPath(baseURL, b) <==> a == b
  {
    var prefix := baseURL + "/";
    if EndpointPath(baseURL, a) == EndpointPath(baseURL, b) {
      assert (prefix + Join(a, '/'))[|prefix|..] == Join(a, '/');
      assert (prefix + Join(b, '/'))[|prefix|..] == Join(b, '/');
      JoinInjective(a, b);
    }
  }

  /** `e` is at the path of some directory at or below `names`. */
  ghost predicate Below(baseURL: string, names: seq<string>, e: Endpoint)
  {
    exists full :: PathAt(baseURL, names, full, e.path)
  }

  /** The names of the sub-directories among `entries`. */
  function FolderNames(entries: seq<Entry>): (r: set<string>)
    ensures forall k :: 0 <= k < |entries| && entries[k].Folder? ==> entries[k].name in r
  {
    if entries == [] then {}
    else (if entries[0].Folder? then {entries[0].name} else {}) + FolderNames(entries[1..])
  }

  /** A name that no entry carries is not the name of a sub-directory. */
  lemma {:induction false} NotAFolderName(entries: seq<Entry>, n: string)
    requires forall k :: 0 <= k < |entries| ==> entries[k].name != n
    ensures n !in FolderNames(entries)
  {
    if entries != [] {
      assert forall k :: 0 <= k < |entries| - 1 ==> entries[1..][k] == entries[k + 1];
      NotAFolderName(entries[1..], n);
    }
  }

  /** `e` is at the path of some directory at or below one of the sub-directories among `entries`. */
  ghost predicate BelowFolders(baseURL: string, names: seq<string>, entries: seq<Entry>, e: Endpoint)
  {
    exists n :: n in FolderNames(entries) && Below(baseURL, names + [n], e)
  }

  lemma BelowFoldersHead(baseURL: string, names: seq<string>, entries: seq<Entry>, e: Endpoint)
    requires entries != [] && entries[0].Folder? && Below(baseURL, names + [entries[0].name], e)
    ensures BelowFolders(baseURL, names, entries, e)
  {
    assert entries[0].name in FolderNames(entries);
  }

  lemma BelowFoldersTail(baseURL: string, names: seq<string>, entries: seq<Entry>, e: Endpoint)
    requires entries != [] && BelowFolders(baseURL, names, entries[1..], e)
    ensures BelowFolders(baseURL, names, entries, e)
  {
    var n :| n in FolderNames(entries[1..]) && Below(baseURL, names + [n], e);
    assert n in FolderNames(entries);
  }

  /** An endpoint below one of the sub-directories is strictly below the directory itself. */
  lemma BelowFoldersStrictly(baseURL: string, names: seq<string>, entries: seq<Entry>, e: Endpoint)
    requires BelowFolders(baseURL, names, entries, e)
    ensures exists full :: |names| < |full| && PathAt(baseURL, names, full, e.path)
  {
    var n :| n in FolderNames(entries) && Below(baseURL, names + [n], e);
    var full :| PathAt(baseURL, names + [n], full, e.path);
    PathAtParent(baseURL, names, n, full, e.path);
  }

  /** A directory's own endpoints, one per method at its own path, share no key with those found strictly below it. */
  lemma OwnThenBelowUnique(baseURL: string, names: seq<string>, own: seq<Endpoint>, below: seq<Endpoint>)
    requires ValidNames(names)
    requires forall i, j :: 0 <= i < j < |own| ==> own[i].httpMethod != own[j].httpMethod
    requires forall e :: e in own ==> e.path == EndpointPath(baseURL, names)
    requires UniqueKeys(below)
    requires forall e :: e in below ==> exists full :: |names| < |full| && PathAt(baseURL, names, full, e.path)
    ensures UniqueKeys(own + below)
  {
    forall x, y | x in own && y in below ensures Key(x) != Key(y) {
      var full :| |names| < |full| && PathAt(baseURL, names, full, y.path);
      EndpointPathInjective(baseURL, names, full);
    }
    UniqueKeysConcat(own, below);
  }

  /** The endpoints below a sub-directory named `n` share no key with those below its later siblings. */
  lemma SiblingsUnique(baseURL: string, names: seq<string>, n: string, tail: seq<Entry>, first: seq<Endpoint>, rest: seq<Endpoint>)
    requires forall k :: 0 <= k < |tail| ==> tail[k].name != n
    requires UniqueKeys(first) && UniqueKeys(rest)
    requires forall e :: e in first ==> Below(baseURL, names + [n], e)
    requires forall e :: e in rest ==> BelowFolders(baseURL, names, tail, e)
    ensures UniqueKeys(first + rest)
  {
    NotAFolderName(tail, n);
    forall x, y | x in first && y in rest ensures Key(x) != Key(y) {
      var f :| PathAt(baseURL, names + [n], f, x.path);
      var m :| m in FolderNames(tail) && Below(baseURL, names + [m], y);
      var g :| PathAt(baseURL, names + [m], g, y.path);
      PathAtParent(baseURL, names, n, f, x.path);
      PathAtParent(baseURL, names, m, g, y.path);
      EndpointPathInjective(baseURL, f, g);
    }
    UniqueKeysConcat(first, rest);
  }

  /** The walk from a directory at valid `names` keys its endpoints uniquely, all at paths below `names`. */
  lemma {:induction false} WalkKeysUnique(baseURL: string, genericMocks: seq<Mock>, dir: Dir, names: seq<string>)
    requires ValidNames(names) && EntriesWellFormed(dir.entries)
    requires DiscoverEndpoints(baseURL, genericMocks, dir, names).Success?
    ensures var walk := DiscoverEndpoints(baseURL, genericMocks, dir, names).value;
      UniqueKeys(walk) && forall e :: e in walk ==> Below(baseURL, names, e)
    decreases dir, 1
  {
    var mocks := DiscoverMocksIn(dir, [EndpointsDirectory] + names, false).value;
    var own := DirectoryEndpoints(EndpointPath(baseURL, names), mocks, genericMocks);
    var below := DiscoverChildren(baseURL, genericMocks, dir.entries, names).value;
    ChildrenKeysUnique(baseURL, genericMocks, dir.entries, names);
    forall e | e in below ensures exists full :: |names| < |full| && PathAt(baseURL, names, full, e.path) {
      BelowFoldersStrictly(baseURL, names, dir.entries, e);
    }
    OwnThenBelowUnique(baseURL, names, own, below);
    assert names[..|names|] == names;
    assert forall e :: e in own ==> PathAt(baseURL, names, names, e.path);
  }

  lemma {:induction false} ChildrenKeysUnique(baseURL: string, genericMocks: seq<Mock>, entries: seq<Entry>, names: seq<string>)
    requires ValidNames(names) && EntriesWellFormed(entries)
    requires DiscoverChildren(baseURL, genericMocks, entries, names).Success?
    ensures var found := DiscoverChildren(baseURL, genericMocks, entries, names).value;
      UniqueKeys(found) && forall e :: e in found ==> BelowFolders(baseURL, names, entries, e)
    decreases entries, 0
  {
    if entries != [] {
      var tail := entries[1..];
      EntriesWellFormedTail(entries);
      ChildrenKeysUnique(baseURL, genericMocks, tail, names);
      var rest := DiscoverChildren(baseURL, genericMocks, tail, names).value;
      forall e | e in rest ensures BelowFolders(baseURL, names, entries, e) {
        BelowFoldersTail(baseURL, names, entries, e);
      }
      if entries[0].Folder? {
        var n := entries[0].name;
        assert ValidName(n) && EntryWellFormed(entries[0]);
        assert ValidNames(names + [n]);
        WalkKeysUnique(baseURL, genericMocks, entries[0].dir, names + [n]);
        var first := DiscoverEndpoints(baseURL, genericMocks, entries[0].dir, names + [n]).value;
        SiblingsUnique(baseURL, names, n, tail, first, rest);
        forall e | e in first ensures BelowFolders(baseURL, names, entries, e) {
          BelowFoldersHead(baseURL, names, entries, e);
        }
      }
    }
  }

  /**
   * On a file system, where names are valid and siblings are named apart, discovery never yields
   * two endpoints with the same path and method, so the first-match lookups see every endpoint.
   */
  lemma DiscoverKeysUnique(bundle: Bundle, baseURL: Option<string>)
    requires Discover(bundle, baseURL).Success? && EntriesWellFormed(bundle.endpoints.entries)
    ensures UniqueKeys(Discover(bundle, baseURL).value)
  {
    DiscoverIsSortedWalk(bundle, baseURL);
    var generic := DiscoverMocksIn(bundle.generic, [GenericDirectory], true).value;
    var walk := DiscoverEndpoints(NormalizedBaseURL(baseURL), generic, bundle.endpoints, []).value;
    WalkKeysUnique(NormalizedBaseURL(baseURL), generic, bundle.endpoints, []);
    UniqueKeysPermutation(walk, Discover(bundle, baseURL).value);
  }

  /** Of two uniquely keyed lists with the same endpoints, both sorted by path and method, neither starts with a larger endpoint. */
  lemma SortedHeadsAgree(a: seq<Endpoint>, b: seq<Endpoint>)
    requires a != [] && b != [] && UniqueKeys(a) && multiset(a) == multiset(b)
    requires SortedBy(a, EndpointLess) && SortedBy(b, EndpointLess)
    ensures a[0] == b[0]
  {
    if a[0] != b[0] {
      assert a[0] in multiset(b) && b[0] in multiset(a);
      var k :| 0 <= k < |b| && b[k] == a[0];
      var m :| 0 <= m < |a| && a[m] == b[0];
      assert Key(a[0]) != Key(a[m]);
      EndpointLessTotal(a[0], b[0]);
      assert false;
    }
  }

  /** The tail of a uniquely keyed list sorted by path and method is both. */
  lemma SortedUniqueTail(a: seq<Endpoint>)
    requires a != [] && UniqueKeys(a) && SortedBy(a, EndpointLess)
    ensures UniqueKeys(a[1..]) && SortedBy(a[1..], EndpointLess)
  {
    assert forall i :: 0 <= i < |a| - 1 ==> a[1..][i] == a[i + 1];
  }

  /** Two uniquely keyed lists with the same endpoints, both sorted by path and method, are the same list. */
  lemma {:induction false} SortedOrderDetermined(a: seq<Endpoint>, b: seq<Endpoint>)
    requires UniqueKeys(a) && multiset(a) == multiset(b)
    requires SortedBy(a, EndpointLess) && SortedBy(b, EndpointLess)
    ensures a == b
  {
    assert |a| == |multiset(a)| == |multiset(b)| == |b|;
    if a != [] {
      SortedHeadsAgree(a, b);
      TailMultiset(a, b);
      SortedUniqueTail(a);
      UniqueKeysPermutation(a, b);
      SortedUniqueTail(b);
      SortedOrderDetermined(a[1..], b[1..]);
      assert a == [a[0]] + a[1..] && b == [b[0]] + b[1..];
    }
  }

  /**
   * Discovery's order does not depend on how the sort breaks ties: on a file system there are
   * none, and every list of the walk's endpoints sorted by path and method is the discovered list.
   */
  lemma DiscoverOrderDetermined(bundle: Bundle, baseURL: Option<string>, sorted: seq<Endpoint>)
    requires Discover(bundle, baseURL).Success? && EntriesWellFormed(bundle.endpoints.entries)
    requires multiset(sorted) == multiset(Discover(bundle, baseURL).value) && SortedBy(sorted, EndpointLess)
    ensures sorted == Discover(bundle, baseURL).value
  {
    DiscoverKeysUnique(bundle, baseURL);
    SortedOrderDetermined(Discover(bundle, baseURL).value, sorted);
  }

  // ---------------------------------------------------------------------------
  // Failures abort the whole discovery

  /** Some file directly in `dir` has an invalid name. */
  predicate HasInvalidFile(dir: Dir)
  {
    exists i :: 0 <= i < |dir.entries| && dir.entries[i].File? && !ValidFileName(dir.entries[i].name)
  }

  /** Some file anywhere below `dir` has an invalid name. */
  ghost predicate HasInvalidFileName(dir: Dir)
    decreases dir, 1
  {
    exists i :: 0 <= i < |dir.entries| && EntryHasInvalidFileName(dir.entries[i])
  }

  ghost predicate EntryHasInvalidFileName(e: Entry)
    decreases e, 0
  {
    match e
    case File(name, _) => !ValidFileName(name)
    case Folder(_, dir) => HasInvalidFileName(dir)
  }

  lemma {:induction false} InvalidNameAbortsDirectory(baseURL: string, genericMocks: seq<Mock>, dir: Dir, names: seq<string>)
    requires HasInvalidFileName(dir)
    ensures DiscoverEndpoints(baseURL, genericMocks, dir, names).Failure?
    decreases dir, 1
  {
    var i :| 0 <= i < |dir.entries| && EntryHasInvalidFileName(dir.entries[i]);
    if DiscoverMocksIn(dir, [EndpointsDirectory] + names, false).Success? {
      assert Loads([EndpointsDirectory] + names, dir.entries[i], false);
      InvalidNameAbortsChildren(baseURL, genericMocks, dir.entries, names, i);
    }
  }

  lemma {:induction false} InvalidNameAbortsChildren(baseURL: string, genericMocks: seq<Mock>, entries: seq<Entry>, names: seq<string>, i: nat)
    requires i < |entries| && entries[i].Folder? && HasInvalidFileName(entries[i].dir)
    ensures DiscoverChildren(baseURL, genericMocks, entries, names).Failure?
    decreases entries, 0
  {
    if i == 0 {
      InvalidNameAbortsDirectory(baseURL, genericMocks, entries[0].dir, names + [entries[0].name]);
    } else {
      assert entries[1..][i - 1] == entries[i];
      match entries[0]
      case File(_, _) =>
        InvalidNameAbortsChildren(baseURL, genericMocks, entries[1..], names, i - 1);
      case Folder(name, dir) =>
        if DiscoverEndpoints(baseURL, genericMocks, dir, names + [name]).Success? {
          InvalidNameAbortsChildren(baseURL, genericMocks, entries[1..], names, i - 1);
        }
    }
  }

  /** A single badly named fixture, directly in `generic/` or anywhere below `endpoints/`, fails the whole discovery. */
  lemma InvalidNameAbortsDiscovery(bundle: Bundle, baseURL: Option<string>)
    requires HasInvalidFile(bundle.generic) || HasInvalidFileName(bundle.endpoints)
    ensures Discover(bundle, baseURL).Failure?
  {
    var generic := DiscoverMocksIn(bundle.generic, [GenericDirectory], true);
    if generic.Success? {
      assert !HasInvalidFile(bundle.generic);
      InvalidNameAbortsDirectory(NormalizedBaseURL(baseURL), generic.value, bundle.endpoints, []);
    }
  }
}
