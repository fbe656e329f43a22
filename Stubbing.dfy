/**
 * The Moya stubber: stubbable endpoints named after the sub-directories of a stubs bundle,
 * each offering the built-in timeout stub, the bundle's generic stubs and its own stubs, and
 * a dictionary from endpoint name to the active stub.
 */
module Stubbing {
  import opened Wrappers
  import opened Foundation
  import opened Seqs
  import opened Text
  import opened Numerals
  import opened Moya

  /** A stub as the stubber declares it: a display name, its file name, and Moya's sample response. */
  datatype Stub = Stub(displayName: string, fileName: Option<string>, response: SampleResponse)

  /** An endpoint name with the stubs offered for it. */
  datatype StubbableEndpoint = StubbableEndpoint(name: string, availableStubs: seq<Stub>)

  /** `MoyaStubberError`; URLs are path components below the bundle root. */
  datatype StubberError =
    | InvalidFileName(url: Url)
    | CouldNotEnumerate(url: Url)
    | CouldNotLoadFile(url: Url)
    | StubNotFound(stubName: string, endpointName: string)

  /** The prefix of the display name of a generic stub. */
  const GenericPrefix: string := "G: "

  /** `Stub.timeoutError`: a built-in generic stub without a file that simulates a timed-out request. */
  const TimeoutError: Stub := Stub("G: network timeout", None, NetworkError(NSError(NSURLErrorDomain, NSURLErrorTimedOut)))

  /** `Stub.data`. */
  function StubData(s: Stub): (r: Option<Bytes>)
    ensures r.None? <==> s.response.NetworkError?
    ensures r.Some? ==> r.value == s.response.data
  {
    match s.response
    case NetworkResponse(_, data) => Some(data)
    case Response(_, data) => Some(data)
    case NetworkError(_) => None
  }

  /** `Stub ==`: display names, file names, and responses of the same case with equal payloads. */
  predicate StubEquals(lhs: Stub, rhs: Stub)
  {
    if lhs.displayName != rhs.displayName then false
    else if lhs.fileName != rhs.fileName then false
    else
      match (lhs.response, rhs.response)
      case (NetworkResponse(lhsStatusCode, lhsData), NetworkResponse(rhsStatusCode, rhsData)) =>
        lhsStatusCode == rhsStatusCode && lhsData == rhsData
      case (Response(lhsResponse, lhsData), Response(rhsResponse, rhsData)) =>
        lhsResponse == rhsResponse && lhsData == rhsData
      case (NetworkError(lhsError), NetworkError(rhsError)) =>
        lhsError == rhsError
      case _ => false
  }

  /** The hand-written `==` compares every field, so it agrees with member-wise equality. */
  lemma StubEqualsIsEquality(lhs: Stub, rhs: Stub)
    ensures StubEquals(lhs, rhs) <==> lhs == rhs
  {
  }

  // ---------------------------------------------------------------------------
  // Stub files

  /** `url.pathExtension`: the text after the last `.`, or nothing when the name has no `.`. */
  function PathExtension(fileName: string): (ext: string)
    ensures '.' !in ext
  {
    var pieces := Split(fileName, '.');
    if |pieces| == 1 then "" else pieces[|pieces| - 1]
  }

  /** The extension of `<base>.<ext>` is `ext`. */
  lemma PathExtensionOfDottedName(base: string, ext: string)
    requires '.' !in ext
    ensures PathExtension(base + "." + ext) == ext
  {
    var pieces := Split(base, '.');
    JoinSplit(base, '.');
    JoinAppend(pieces, [ext], '.');
    assert Join(pieces + [ext], '.') == base + "." + ext;
    assert forall i :: 0 <= i < |pieces + [ext]| ==> '.' !in (pieces + [ext])[i] by {
      forall i | 0 <= i < |pieces + [ext]| ensures '.' !in (pieces + [ext])[i] {
        if i < |pieces| { assert (pieces + [ext])[i] == pieces[i]; }
      }
    }
    SplitJoin(pieces + [ext], '.');
  }

  /** A stub file name: at least two non-empty `.`-separated pieces, the second an `Int`. */
  predicate ValidStubFileName(fileName: string)
  {
    var parts := SplitOmittingEmpty(fileName, '.');
    |parts| >= 2 && ParseInt(parts[1]).Some?
  }

  /** What a stub file name says: the stub's name, its status code, and the file's extension. */
  datatype StubFileName = StubFileName(name: string, statusCode: int, extension: string)

  /** The name pieces of a stub file, or `invalidFileName` with the file's URL. */
  function ParseStubFileName(dirUrl: Url, fileName: string): (r: Result<StubFileName, StubberError>)
    ensures r.Success? <==> ValidStubFileName(fileName)
    ensures r.Failure? ==> r.error == InvalidFileName(dirUrl + [fileName])
    ensures r.Success? ==>
      var parts := SplitOmittingEmpty(fileName, '.');
      && r.value.name == parts[0] && Some(r.value.statusCode) == ParseInt(parts[1])
      && r.value.extension == PathExtension(fileName)
  {
    var parts := SplitOmittingEmpty(fileName, '.');
    if |parts| < 2 || ParseInt(parts[1]).None? then
      Failure(InvalidFileName(dirUrl + [fileName]))
    else
      Success(StubFileName(parts[0], ParseInt(parts[1]).value, PathExtension(fileName)))
  }

  /**
   * The display name of a stub file, `"<name> <statusCode> (<extension>)"`, with `"G: "` in front for a
   * generic one: the prefix, the name, a space, the decimal spelling of the code, then `" (<extension>)"`.
   */
  function StubDisplayName(parts: StubFileName, isGeneric: bool): (shown: string)
    ensures var suffix := " (" + parts.extension + ")";
      |shown| >= |suffix| && shown[|shown| - |suffix|..] == suffix
    ensures isGeneric ==> |shown| > |GenericPrefix| && shown[..|GenericPrefix|] == GenericPrefix
    ensures var offset := if isGeneric then |GenericPrefix| else 0;
      |shown| > offset + |parts.name| && shown[offset..offset + |parts.name|] == parts.name && shown[offset + |parts.name|] == ' '
    ensures var offset := if isGeneric then |GenericPrefix| else 0;
      && |shown| == offset + |parts.name| + 1 + |IntToString(parts.statusCode)| + |parts.extension| + 3
      && shown[offset + |parts.name| + 1..|shown| - |parts.extension| - 3] == IntToString(parts.statusCode)
  {
    var prefix := if isGeneric then GenericPrefix else "";
    DisplayNameLayout(prefix, parts.name, IntToString(parts.statusCode), parts.extension);
    prefix + parts.name + " " + IntToString(parts.statusCode) + " (" + parts.extension + ")"
  }

  /** Where the prefix, the name, the code and the extension of `"<prefix><name> <code> (<ext>)"` sit. */
  lemma DisplayNameLayout(prefix: string, name: string, code: string, ext: string)
    ensures var shown := prefix + name + " " + code + " (" + ext + ")";
      && |shown| == |prefix| + |name| + |code| + |ext| + 4
      && shown[..|prefix|] == prefix
      && shown[|prefix|..|prefix| + |name|] == name && shown[|prefix| + |name|] == ' '
      && shown[|shown| - |ext| - 3..] == " (" + ext + ")"
      && shown[|prefix| + |name| + 1..|shown| - |ext| - 3] == code
  {
    var shown := prefix + name + " " + code + " (" + ext + ")";
    var body := name + " " + code + " (" + ext + ")";
    assert shown == prefix + body;
    assert shown[|prefix|..] == body;
    var head := prefix + name + " ";
    assert shown == head + code + (" (" + ext + ")");
    assert shown[|head|..|head| + |code|] == code;
  }

  /** One file of `discoverStubs(fromDirectory:isGeneric:)`: its name is parsed before its bytes are read. */
  function StubFromFile(dirUrl: Url, fileName: string, contents: Option<Bytes>, isGeneric: bool): (r: Result<Stub, StubberError>)
    ensures !ValidStubFileName(fileName) ==> r == Failure(InvalidFileName(dirUrl + [fileName]))
    ensures ValidStubFileName(fileName) && contents.None? ==> r == Failure(CouldNotLoadFile(dirUrl + [fileName]))
    ensures r.Success? <==> ValidStubFileName(fileName) && contents.Some?
    ensures r.Success? ==>
      var parts := ParseStubFileName(dirUrl, fileName).value;
      && r.value.fileName == Some(fileName)
      && r.value.displayName == StubDisplayName(parts, isGeneric)
      && r.value.response == NetworkResponse(parts.statusCode, contents.value)
  {
    match ParseStubFileName(dirUrl, fileName)
    case Failure(e) => Failure(e)
    case Success(parts) =>
      match contents
      case None => Failure(CouldNotLoadFile(dirUrl + [fileName]))
      case Some(data) => Success(Stub(StubDisplayName(parts, isGeneric), Some(fileName), NetworkResponse(parts.statusCode, data)))
  }

  /** The name `<name>.<code>.<ext>` splits into its three pieces and has extension `ext`. */
  lemma StubFileNameParts(name: string, code: string, ext: string)
    requires name != [] && '.' !in name && code != [] && '.' !in code && ext != [] && '.' !in ext
    ensures SplitOmittingEmpty(name + "." + code + "." + ext, '.') == [name, code, ext]
    ensures PathExtension(name + "." + code + "." + ext) == ext
  {
    var parts := [name, code, ext];
    assert parts[1..] == [code, ext] && parts[1..][1..] == [ext];
    assert Join(parts, '.') == name + "." + code + "." + ext by {
      assert Join(parts[1..], '.') == code + ['.'] + ext;
    }
    SplitOmittingEmptyJoin(parts, '.');
    PathExtensionOfDottedName(name + "." + code, ext);
  }

  /** A file `<name>.<code>.<ext>` parses back into its name, status code and extension. */
  lemma ParseStubFileNameRoundTrip(dirUrl: Url, name: string, statusCode: int, ext: string)
    requires name != [] && '.' !in name && ext != [] && '.' !in ext
    requires IntMin <= statusCode <= IntMax
    ensures ParseStubFileName(dirUrl, name + "." + IntToString(statusCode) + "." + ext) == Success(StubFileName(name, statusCode, ext))
  {
    var code := IntToString(statusCode);
    ParseIntToString(statusCode);
    assert '.' !in code;
    StubFileNameParts(name, code, ext);
  }

  /** A file `<name>.<code>.<ext>` becomes the stub `"<name> <code> (<ext>)"` answering `code` with the file's bytes. */
  lemma StubFileRoundTrip(dirUrl: Url, name: string, statusCode: int, ext: string, data: Bytes, isGeneric: bool)
    requires name != [] && '.' !in name && ext != [] && '.' !in ext
    requires IntMin <= statusCode <= IntMax
    ensures var fileName := name + "." + IntToString(statusCode) + "." + ext;
      StubFromFile(dirUrl, fileName, Some(data), isGeneric) == Success(Stub(
        (if isGeneric then GenericPrefix else "") + name + " " + IntToString(statusCode) + " (" + ext + ")",
        Some(fileName), NetworkResponse(statusCode, data)))
  {
    ParseStubFileNameRoundTrip(dirUrl, name, statusCode, ext);
  }

  /** `stub` is what the file entry `f` becomes. */
  predicate StubOfFile(dirUrl: Url, f: Entry, stub: Stub, isGeneric: bool)
  {
    f.File? && StubFromFile(dirUrl, f.name, f.contents, isGeneric) == Success(stub)
  }

  /** A file entry becomes a stub; a directory entry is skipped. */
  predicate StubLoads(dirUrl: Url, e: Entry, isGeneric: bool)
  {
    e.File? ==> StubFromFile(dirUrl, e.name, e.contents, isGeneric).Success?
  }

  /** Every file among `entries` becomes a stub. */
  predicate AllStubsLoad(dirUrl: Url, entries: seq<Entry>, isGeneric: bool)
  {
    forall i :: 0 <= i < |entries| ==> StubLoads(dirUrl, entries[i], isGeneric)
  }

  /** The files among `entries`, in enumeration order, as stubs; the first failing file aborts. */
  function LoadStubs(dirUrl: Url, entries: seq<Entry>, isGeneric: bool): (r: Result<seq<Stub>, StubberError>)
    ensures r.Success? <==> AllStubsLoad(dirUrl, entries, isGeneric)
  {
    if entries == [] then Success([])
    else
      AllStubsLoadCons(dirUrl, entries, isGeneric);
      match entries[0]
      case Folder(_, _) => LoadStubs(dirUrl, entries[1..], isGeneric)
      case File(name, contents) =>
        match StubFromFile(dirUrl, name, contents, isGeneric)
        case Failure(e) => Failure(e)
        case Success(stub) =>
          match LoadStubs(dirUrl, entries[1..], isGeneric)
          case Failure(e) => Failure(e)
          case Success(stubs) => Success([stub] + stubs)
  }

  /** `discoverStubs(fromDirectory:isGeneric:)`: the directory's files as stubs, unsorted. */
  function DiscoverStubs(dir: Dir, dirUrl: Url, isGeneric: bool): (r: Result<seq<Stub>, StubberError>)
    ensures !dir.listable ==> r == Failure(CouldNotEnumerate(dirUrl))
    ensures r.Success? <==> dir.listable && AllStubsLoad(dirUrl, dir.entries, isGeneric)
  {
    if !dir.listable then Failure(CouldNotEnumerate(dirUrl)) else LoadStubs(dirUrl, dir.entries, isGeneric)
  }

  lemma AllStubsLoadCons(dirUrl: Url, entries: seq<Entry>, isGeneric: bool)
    requires entries != []
    ensures AllStubsLoad(dirUrl, entries, isGeneric) <==> StubLoads(dirUrl, entries[0], isGeneric) && AllStubsLoad(dirUrl, entries[1..], isGeneric)
  {
    assert forall i :: 1 <= i < |entries| ==> entries[i] == entries[1..][i - 1];
  }

  /** A file at the front contributes its stub at the front; a directory at the front contributes nothing. */
  lemma LoadStubsStep(dirUrl: Url, entries: seq<Entry>, isGeneric: bool)
    requires entries != [] && LoadStubs(dirUrl, entries, isGeneric).Success?
    ensures LoadStubs(dirUrl, entries[1..], isGeneric).Success?
    ensures entries[0].File? ==>
      && StubFromFile(dirUrl, entries[0].name, entries[0].contents, isGeneric).Success?
      && LoadStubs(dirUrl, entries, isGeneric).value
         == [StubFromFile(dirUrl, entries[0].name, entries[0].contents, isGeneric).value] + LoadStubs(dirUrl, entries[1..], isGeneric).value
      && Filter(entries, IsFile) == [entries[0]] + Filter(entries[1..], IsFile)
    ensures entries[0].Folder? ==>
      && LoadStubs(dirUrl, entries, isGeneric) == LoadStubs(dirUrl, entries[1..], isGeneric)
      && Filter(entries, IsFile) == Filter(entries[1..], IsFile)
  {
  }

  /** On success there is one stub per file, in enumeration order: the k-th stub is the k-th file's. */
  lemma {:induction false} LoadStubsInOrder(dirUrl: Url, entries: seq<Entry>, isGeneric: bool)
    requires LoadStubs(dirUrl, entries, isGeneric).Success?
    ensures var stubs, files := LoadStubs(dirUrl, entries, isGeneric).value, Filter(entries, IsFile);
      && |stubs| == |files|
      && forall k :: 0 <= k < |stubs| ==> StubOfFile(dirUrl, files[k], stubs[k], isGeneric)
  {
    if entries != [] {
      LoadStubsStep(dirUrl, entries, isGeneric);
      LoadStubsInOrder(dirUrl, entries[1..], isGeneric);
      if entries[0].File? {
        var stubs, tail := LoadStubs(dirUrl, entries, isGeneric).value, LoadStubs(dirUrl, entries[1..], isGeneric).value;
        var files, rest := Filter(entries, IsFile), Filter(entries[1..], IsFile);
        forall k | 0 <= k < |stubs| ensures StubOfFile(dirUrl, files[k], stubs[k], isGeneric) {
          if k > 0 {
            assert stubs[k] == tail[k - 1] && files[k] == rest[k - 1];
          }
        }
      }
    }
  }

  // ---------------------------------------------------------------------------
  // The stubs bundle

  /** A sub-directory entry can be listed and every file in it becomes a stub; a file entry is skipped. */
  predicate FolderLoads(e: Entry)
  {
    e.Folder? ==> e.dir.listable && AllStubsLoad([e.name], e.dir.entries, false)
  }

  /** Every sub-directory among `entries` loads. */
  predicate FoldersLoad(entries: seq<Entry>)
  {
    forall i :: 0 <= i < |entries| ==> FolderLoads(entries[i])
  }

  lemma FoldersLoadCons(entries: seq<Entry>)
    requires entries != []
    ensures FoldersLoad(entries) <==> FolderLoads(entries[0]) && FoldersLoad(entries[1..])
  {
    assert forall i :: 1 <= i < |entries| ==> entries[i] == entries[1..][i - 1];
  }

  /** The endpoints of the sub-directories among `entries`: each offers the timeout stub, the generic stubs, then its own. */
  function EndpointsOf(entries: seq<Entry>, genericStubs: seq<Stub>): (r: Result<seq<StubbableEndpoint>, StubberError>)
    ensures r.Success? <==> FoldersLoad(entries)
  {
    if entries == [] then Success([])
    else
      FoldersLoadCons(entries);
      match entries[0]
      case File(_, _) => EndpointsOf(entries[1..], genericStubs)
      case Folder(name, dir) =>
        match DiscoverStubs(dir, [name], false)
        case Failure(e) => Failure(e)
        case Success(own) =>
          match EndpointsOf(entries[1..], genericStubs)
          case Failure(e) => Failure(e)
          case Success(rest) => Success([StubbableEndpoint(name, [TimeoutError] + genericStubs + own)] + rest)
  }

  /** `loadStubsBundle(_:)`: the root's files are the generic stubs, its sub-directories the endpoints. */
  function LoadStubsBundle(root: Dir): (r: Result<seq<StubbableEndpoint>, StubberError>)
    ensures !root.listable ==> r == Failure(CouldNotEnumerate([]))
    ensures r.Success? <==> root.listable && AllStubsLoad([], root.entries, true) && FoldersLoad(root.entries)
  {
    match DiscoverStubs(root, [], true)
    case Failure(e) => Failure(e)
    case Success(genericStubs) => EndpointsOf(root.entries, genericStubs)
  }

  /** A directory at the front contributes its endpoint at the front; a file at the front contributes nothing. */
  lemma EndpointsOfStep(entries: seq<Entry>, genericStubs: seq<Stub>)
    requires entries != [] && EndpointsOf(entries, genericStubs).Success?
    ensures EndpointsOf(entries[1..], genericStubs).Success?
    ensures entries[0].Folder? ==>
      var own := DiscoverStubs(entries[0].dir, [entries[0].name], false);
      && own.Success?
      && EndpointsOf(entries, genericStubs).value
         == [StubbableEndpoint(entries[0].name, [TimeoutError] + genericStubs + own.value)] + EndpointsOf(entries[1..], genericStubs).value
      && Filter(entries, IsFolder) == [entries[0]] + Filter(entries[1..], IsFolder)
    ensures entries[0].File? ==>
      && EndpointsOf(entries, genericStubs) == EndpointsOf(entries[1..], genericStubs)
      && Filter(entries, IsFolder) == Filter(entries[1..], IsFolder)
  {
  }

  /**
   * On success there is one endpoint per sub-directory, in enumeration order, named after it and
   * offering `[timeoutError] + generic stubs + the directory's own stubs`.
   */
  lemma {:induction false} EndpointsOfShape(entries: seq<Entry>, genericStubs: seq<Stub>)
    requires EndpointsOf(entries, genericStubs).Success?
    ensures var endpoints, folders := EndpointsOf(entries, genericStubs).value, Filter(entries, IsFolder);
      && |endpoints| == |folders|
      && forall k :: 0 <= k < |endpoints| ==>
           && folders[k].Folder?
           && DiscoverStubs(folders[k].dir, [folders[k].name], false).Success?
           && endpoints[k] == StubbableEndpoint(folders[k].name,
                [TimeoutError] + genericStubs + DiscoverStubs(folders[k].dir, [folders[k].name], false).value)
  {
    if entries != [] {
      EndpointsOfStep(entries, genericStubs);
      EndpointsOfShape(entries[1..], genericStubs);
      if entries[0].Folder? {
        var endpoints, tail := EndpointsOf(entries, genericStubs).value, EndpointsOf(entries[1..], genericStubs).value;
        var folders, rest := Filter(entries, IsFolder), Filter(entries[1..], IsFolder);
        forall k | 0 <= k < |endpoints|
          ensures && folders[k].Folder?
                  && DiscoverStubs(folders[k].dir, [folders[k].name], false).Success?
                  && endpoints[k] == StubbableEndpoint(folders[k].name,
                       [TimeoutError] + genericStubs + DiscoverStubs(folders[k].dir, [folders[k].name], false).value)
        {
          if k > 0 {
            assert endpoints[k] == tail[k - 1] && folders[k] == rest[k - 1];
          }
        }
      }
    }
  }

  /** Every loaded endpoint offers the timeout stub first and the generic stubs right after it. */
  lemma LoadedEndpointsStartWithBuiltIns(root: Dir)
    requires LoadStubsBundle(root).Success?
    ensures var genericStubs := DiscoverStubs(root, [], true);
      && genericStubs.Success?
      && forall e :: e in LoadStubsBundle(root).value ==>
           && |e.availableStubs| >= 1 + |genericStubs.value|
           && e.availableStubs[0] == TimeoutError
           && e.availableStubs[1..1 + |genericStubs.value|] == genericStubs.value
  {
    var genericStubs := DiscoverStubs(root, [], true).value;
    var endpoints := LoadStubsBundle(root).value;
    EndpointsOfShape(root.entries, genericStubs);
    forall e | e in endpoints
      ensures |e.availableStubs| >= 1 + |genericStubs| && e.availableStubs[0] == TimeoutError
      ensures e.availableStubs[1..1 + |genericStubs|] == genericStubs
    {
      var k :| 0 <= k < |endpoints| && endpoints[k] == e;
      var folder := Filter(root.entries, IsFolder)[k];
      var own := DiscoverStubs(folder.dir, [folder.name], false).value;
      assert e.availableStubs == [TimeoutError] + genericStubs + own;
      assert e.availableStubs[1..1 + |genericStubs|] == genericStubs;
    }
  }

  /** Every generic stub has the `"G: "` prefix, and the root's stubs are exactly its files, in order. */
  lemma GenericStubsArePrefixed(root: Dir)
    requires DiscoverStubs(root, [], true).Success?
    ensures var genericStubs := DiscoverStubs(root, [], true).value;
      && |genericStubs| == |Filter(root.entries, IsFile)|
      && forall s :: s in genericStubs ==>
           |s.displayName| >= |GenericPrefix| && s.displayName[..|GenericPrefix|] == GenericPrefix && s.fileName.Some?
  {
    var genericStubs := DiscoverStubs(root, [], true).value;
    var files := Filter(root.entries, IsFile);
    LoadStubsInOrder([], root.entries, true);
    forall s | s in genericStubs
      ensures |s.displayName| >= |GenericPrefix| && s.displayName[..|GenericPrefix|] == GenericPrefix && s.fileName.Some?
    {
      var k :| 0 <= k < |genericStubs| && genericStubs[k] == s;
      assert StubOfFile([], files[k], s, true);
    }
  }

  // ---------------------------------------------------------------------------
  // Lookup

  /** `stubbableEndpoints.first(where: { $0.name == endpointName })?.availableStubs.first(where: { $0.fileName == name })`. */
  function FindStub(endpoints: seq<StubbableEndpoint>, stubName: string, endpointName: string): (r: Result<Stub, StubberError>)
    ensures r.Failure? ==> r.error == StubNotFound(stubName, endpointName)
    ensures r.Success? ==> r.value.fileName == Some(stubName) && r.value != TimeoutError
  {
    match FirstIndex(endpoints, (e: StubbableEndpoint) => e.name == endpointName)
    case None => Failure(StubNotFound(stubName, endpointName))
    case Some(i) =>
      match FirstIndex(endpoints[i].availableStubs, (s: Stub) => s.fileName == Some(stubName))
      case None => Failure(StubNotFound(stubName, endpointName))
      case Some(k) => Success(endpoints[i].availableStubs[k])
  }

  /**
   * The stub found is the first with that file name among the stubs of the first endpoint with
   * that name; the lookup fails exactly when there is no such endpoint or no such stub.
   */
  lemma FindStubPicksFirst(endpoints: seq<StubbableEndpoint>, stubName: string, endpointName: string, i: nat)
    requires i < |endpoints| && endpoints[i].name == endpointName
    requires forall j :: 0 <= j < i ==> endpoints[j].name != endpointName
    ensures var stubs := endpoints[i].availableStubs;
      && (FindStub(endpoints, stubName, endpointName).Failure? <==> forall k :: 0 <= k < |stubs| ==> stubs[k].fileName != Some(stubName))
      && (FindStub(endpoints, stubName, endpointName).Success? ==>
            exists k :: 0 <= k < |stubs| && FindStub(endpoints, stubName, endpointName).value == stubs[k]
              && forall j :: 0 <= j < k ==> stubs[j].fileName != Some(stubName))
  {
    var index := FirstIndex(endpoints, (e: StubbableEndpoint) => e.name == endpointName);
    assert index == Some(i);
  }

  /** With no endpoint of that name, the lookup fails. */
  lemma FindStubUnknownEndpoint(endpoints: seq<StubbableEndpoint>, stubName: string, endpointName: string)
    requires forall j :: 0 <= j < |endpoints| ==> endpoints[j].name != endpointName
    ensures FindStub(endpoints, stubName, endpointName) == Failure(StubNotFound(stubName, endpointName))
  {
  }

  // ---------------------------------------------------------------------------
  // The stubber

  /** `MoyaStubber`: the stubbable endpoints, the active stub of each endpoint name, and the delay. */
  class MoyaStubber {
    /** The simulated network delay applied to every activated stub, in seconds. */
    var delay: real

    /** All endpoints available for stubbing. */
    var stubbableEndpoints: seq<StubbableEndpoint>

    /** The active stub of each endpoint name. */
    var activeStubs: map<string, Stub>

    /** The shared stubber before any bundle is set: no endpoints, no delay. */
    constructor ()
      ensures delay == 0.0 && stubbableEndpoints == [] && activeStubs == map[]
    {
      delay := 0.0;
      stubbableEndpoints := [];
      activeStubs := map[];
    }

    /** `init(stubsBundle:)`: a stubber over the endpoints of a bundle, or the loading error. */
    static method Load(root: Dir) returns (r: Result<MoyaStubber, StubberError>)
      ensures LoadStubsBundle(root).Failure? ==> r == Failure(LoadStubsBundle(root).error)
      ensures LoadStubsBundle(root).Success? ==>
        && r.Success? && fresh(r.value)
        && r.value.stubbableEndpoints == LoadStubsBundle(root).value
        && r.value.activeStubs == map[] && r.value.delay == 0.0
    {
      match LoadStubsBundle(root)
      case Failure(e) =>
        return Failure(e);
      case Success(endpoints) =>
        var stubber := new MoyaStubber();
        stubber.stubbableEndpoints := endpoints;
        return Success(stubber);
    }

    /** `setStubsBundle(_:)`: clears every active stub first, so a failed load still deactivates them. */
    method SetStubsBundle(root: Dir) returns (outcome: Outcome<StubberError>)
      modifies this`activeStubs, this`stubbableEndpoints
      ensures activeStubs == map[]
      ensures LoadStubsBundle(root).Success? ==> outcome.Pass? && stubbableEndpoints == LoadStubsBundle(root).value
      ensures LoadStubsBundle(root).Failure? ==>
        outcome == Fail(LoadStubsBundle(root).error) && stubbableEndpoints == old(stubbableEndpoints)
    {
      activeStubs := map[];
      match LoadStubsBundle(root)
      case Failure(e) =>
        return Fail(e);
      case Success(endpoints) =>
        stubbableEndpoints := endpoints;
        return Pass;
    }

    /** `activate(stubNamed:forEndpoint:)`: only the entry of that endpoint name changes. */
    method ActivateNamed(stubName: string, endpointName: string) returns (outcome: Outcome<StubberError>)
      modifies this`activeStubs
      ensures FindStub(stubbableEndpoints, stubName, endpointName).Success? ==>
        outcome.Pass? && activeStubs == old(activeStubs)[endpointName := FindStub(stubbableEndpoints, stubName, endpointName).value]
      ensures FindStub(stubbableEndpoints, stubName, endpointName).Failure? ==>
        outcome == Fail(StubNotFound(stubName, endpointName)) && activeStubs == old(activeStubs)
    {
      var found := FindStub(stubbableEndpoints, stubName, endpointName);
      if found.Failure? {
        return Fail(found.error);
      }
      activeStubs := activeStubs[endpointName := found.value];
      return Pass;
    }

    /** `deactivateStub(forEndpoint:)`: removes the entry, if any. */
    method DeactivateStub(endpointName: string)
      modifies this`activeStubs
      ensures activeStubs == old(activeStubs) - {endpointName}
      ensures ActiveStub(endpointName).None?
    {
      activeStubs := activeStubs - {endpointName};
    }

    /** `activeStub(forEndpointName:)`. */
    function ActiveStub(endpointName: string): (r: Option<Stub>)
      reads this
      ensures r.Some? <==> endpointName in activeStubs
      ensures r.Some? ==> r.value == activeStubs[endpointName]
    {
      if endpointName in activeStubs then Some(activeStubs[endpointName]) else None
    }

    /** `activate(stub:forEndpoint:)`: stores any stub, even one the endpoint does not offer; none deactivates. */
    method Activate(stub: Option<Stub>, endpointName: string)
      modifies this`activeStubs
      ensures ActiveStub(endpointName) == stub
      ensures forall other :: other != endpointName ==> ActiveStub(other) == old(ActiveStub(other))
    {
      if stub.None? {
        activeStubs := activeStubs - {endpointName};
        return;
      }
      activeStubs := activeStubs[endpointName := stub.value];
    }

    /** `reset()`: zero delay and no active stub; the endpoints stay. */
    method Reset()
      modifies this`delay, this`activeStubs
      ensures delay == 0.0 && activeStubs == map[]
      ensures forall name :: ActiveStub(name).None?
    {
      delay := 0.0;
      activeStubs := map[];
    }

    /** `stubClosure(for:)` for the target whose case is named `endpointName`. */
    function StubClosure(endpointName: string): (b: StubBehavior)
      reads this
      ensures b == Never <==> ActiveStub(endpointName).None?
      ensures b != Never ==> (delay > 0.0 <==> b == Delayed(delay)) && (delay <= 0.0 <==> b == Immediate)
    {
      if ActiveStub(endpointName).None? then Never
      else if delay > 0.0 then Delayed(delay)
      else Immediate
    }
  }
}
