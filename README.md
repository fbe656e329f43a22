# swift-network-mocker, modelled in Dafny

The repository ships two libraries that answer an app's network requests from fixture files bundled
with it. The fixtures are called mocks in one library and stubs in the other. This project models
the core of both and proves properties of the model.

**NetworkMocker** reads a mocks bundle with two directories:

- `generic/` holds mocks offered for every path.
- `endpoints/` is a directory tree whose sub-directory paths are the request paths. A segment such
  as `{id}` matches any single path segment.

A mock file is named `<method>.<name>.<statusCode>.<extension>`. Discovery gives one endpoint per
`(path, method)` pair. Each endpoint offers its own mocks, then the generic mocks for its method or
for `ANY`. The endpoints are sorted by path, then by method. The `Mocker` keeps the endpoints and a
delay. It activates a mock by file name, or activates an ad-hoc response or error. It deactivates
one endpoint or resets all of them. For a request it scans the endpoints in order and returns the
active mock of the first endpoint that has one, has an equal method and has a matching path template.
Endpoints without an active mock are skipped even when they match.

**MoyaStubber** reads a stubs bundle:

- the files at its root are the generic stubs;
- each sub-directory of the root is an endpoint named after it;
- each endpoint offers the built-in timeout stub, then the generic stubs, then its own stubs.

A stub file is named `<name>.<statusCode>.<extension>`. The `MoyaStubber` keeps a dictionary from
endpoint name to active stub. Its stub closure tells Moya whether to stub a request and with what
delay. The second `Stub` type, which also records `isGeneric`, has a hand-written `==` that ignores
that flag; it is modelled separately.

Modules:

- `Wrappers`: `Option`, `Result`, `Outcome`.
- `Seqs`: Swift's `filter`, `firstIndex(where:)` and `sorted(by:)`.
- `Text`: `components(separatedBy:)`, `split(separator:)`, `joined(separator:)`, `trimmingCharacters(in:)`
  and the `<` order on strings.
- `Numerals`: `Int(String)` over 64-bit integers, and the decimal description of an `Int`.
- `Foundation`: bytes, `NSError`, `HTTPURLResponse`, and the directory tree of a bundle.
- `Moya`: `EndpointSampleResponse` and `StubBehavior`.
- `NetworkModels`, `MocksBundle`, `NetworkMocker`: the mocker.
- `Stubbing`, `StubModels`: the stubber.

The file system is an ordered tree of `Dir` values. A directory records whether it can be
enumerated. A file records whether its bytes can be read. Hidden entries are absent from the tree.

## Model

| member | source | states |
|---|---|---|
| Seqs.Filter | Sources/NetworkMocker/Models.swift:12-13 | the result is no longer than the input, holds only elements that pass, and keeps every element that passes |
| Seqs.FilterIsSubsequence | Sources/NetworkMocker/Models.swift:12-13 | a filtered array keeps the original order |
| Seqs.FilterPartition | Sources/NetworkMocker/Models.swift:12-13 | filtering by a predicate and by its negation splits the array: the lengths add up and the multisets add up |
| Seqs.FilterKeepsAll | Sources/NetworkMocker/MocksBundle.swift:48 | filtering by a predicate every element passes returns the array unchanged |
| Seqs.FilterConcat | Sources/NetworkMocker/MocksBundle.swift:48 | filtering distributes over concatenation |
| Seqs.FirstIndex | Sources/NetworkMocker/Mocker.swift:142-144 | none exactly when no element passes; otherwise an in-range index that passes, with no earlier index passing |
| Seqs.ConsSorted | Sources/NetworkMocker/MocksBundle.swift:84-86 | an element that no element of a sorted array is less than can go in front and keep it sorted |
| Seqs.Insert | Sources/NetworkMocker/MocksBundle.swift:84-86 | inserting into a sorted array under a strict order keeps it sorted and adds exactly that element |
| Seqs.SortBy | Sources/NetworkMocker/MocksBundle.swift:22-28 | `sorted(by:)` under a strict order: the result is sorted and a permutation of the input |
| Text.Split | Sources/NetworkMocker/Mocker.swift:130-131 | `components(separatedBy:)` gives at least one piece, and no piece contains the separator |
| Text.JoinSplit | Sources/NetworkMocker/Mocker.swift:130-131 | joining the pieces of a split with the separator gives back the string |
| Text.SplitPrefix | Sources/NetworkMocker/Mocker.swift:130-131 | a separator-free head followed by the separator splits into that head, then the pieces of the rest |
| Text.SplitJoin | Sources/NetworkMocker/MocksBundle.swift:93 | splitting a join of separator-free pieces gives back the pieces |
| Text.JoinAppend | Sources/NetworkMocker/MocksBundle.swift:36-39 | joining two non-empty lists of pieces is joining each, with one separator between |
| Text.Join | Sources/NetworkMocker/MocksBundle.swift:36-39 | `joined(separator:)`; characterised by `JoinSplit`, `SplitJoin` and `JoinAppend` |
| Text.SplitOmittingEmpty | Sources/MoyaStubber/MoyaStubber.swift:231 | `split(separator:)` is exactly the non-empty pieces of `components(separatedBy:)`, in order, so every piece is non-empty and free of the separator |
| Text.SplitOmittingEmptyJoin | Sources/MoyaStubber/MoyaStubber.swift:231 | `split(separator:)` of a join of non-empty, separator-free pieces gives back the pieces |
| Text.TrimLeading | Sources/NetworkMocker/MocksBundle.swift:9 | the result is a suffix of the input, everything cut off is the trimmed character, and the result does not start with it |
| Text.TrimTrailing | Sources/NetworkMocker/MocksBundle.swift:9 | the result is a prefix of the input, everything cut off is the trimmed character, and the result does not end with it |
| Text.Trim | Sources/NetworkMocker/MocksBundle.swift:9 | `trimmingCharacters(in:)` for one character: no longer than the input, and neither starts nor ends with the character |
| Text.TrimRemovesOnly | Sources/NetworkMocker/MocksBundle.swift:9 | trimming removes only that character, and only at the two ends |
| Text.PrefixOfSuffix | Sources/NetworkMocker/MocksBundle.swift:9 | a prefix of a suffix of a string is a slice of it, and what the prefix leaves of the suffix is the trimmed character |
| Text.TrimUnchanged | Sources/NetworkMocker/MocksBundle.swift:38 | a string that neither starts nor ends with the character is left as it is |
| Text.TrimIdempotent | Sources/NetworkMocker/MocksBundle.swift:9 | trimming twice is trimming once |
| Text.StrLessIrreflexive | Sources/NetworkMocker/MocksBundle.swift:85 | no string is less than itself |
| Text.StrLessTransitive | Sources/NetworkMocker/MocksBundle.swift:85 | the string order is transitive |
| Text.StrLessTotal | Sources/NetworkMocker/MocksBundle.swift:23-27 | of two different strings, one is less than the other |
| Text.StrLessStrictOrder | Sources/NetworkMocker/MocksBundle.swift:85 | the string order is a strict order, as `sorted(by:)` requires |
| Numerals.ParseInt | Sources/NetworkMocker/MocksBundle.swift:97 | `Int(String)`: a value only for an optional sign followed by at least one digit, and then the signed decimal value of those digits within the 64-bit range; conversely every such string whose value is in range gives that value |
| Numerals.DigitChar | Sources/NetworkMocker/Models.swift:46 | the digit character of a value below ten has that value |
| Numerals.NatToString | Sources/NetworkMocker/Models.swift:46 | the description of a natural number is a non-empty string of digits whose value is that number, with no leading zero unless it is `0` |
| Numerals.IntToString | Sources/NetworkMocker/Models.swift:46 | a non-negative value is its digits; a negative one is `-` followed by the digits of its magnitude; it starts with `-` exactly when negative |
| Numerals.ParseIntToString | Sources/MoyaStubber/MoyaStubber.swift:234-235 | reading back the description of a 64-bit `Int` gives the same `Int` |
| Numerals.ParseIntRejectsNonDigit | Sources/NetworkMocker/MocksBundle.swift:97 | a string with a non-digit anywhere except a leading sign does not parse |
| NetworkModels.EndpointIdDeterminesKey | Sources/NetworkMocker/Models.swift:5 | while methods hold no space, equal ids mean equal path and equal method |
| NetworkModels.FirstSpace | Sources/NetworkMocker/Models.swift:5 | in an id the first space is the one after the method |
| NetworkModels.EndpointId | Sources/NetworkMocker/Models.swift:5 | the method, a space, then the path; `EndpointIdDeterminesKey` shows it identifies the path and method |
| NetworkModels.UniqueKeysPermutation | Sources/NetworkMocker/MocksBundle.swift:22-28 | reordering a list of endpoints with unique `(path, method)` keys keeps the keys unique |
| NetworkModels.SameKeysUnique | Sources/NetworkMocker/Mocker.swift:142-144 | two endpoint lists with the same keys at the same positions are both uniquely keyed or both not |
| NetworkModels.AppendNewKeyUnique | Sources/NetworkMocker/Mocker.swift:65-70 | appending an endpoint whose key is new keeps the keys unique |
| NetworkModels.UniqueKeysConcat | Sources/NetworkMocker/MocksBundle.swift:60 | two uniquely keyed lists that share no key concatenate to a uniquely keyed list |
| NetworkModels.GenericMocks | Sources/NetworkMocker/Models.swift:12 | a mock is among the generic ones exactly when it is available and generic |
| NetworkModels.NonGenericMocks | Sources/NetworkMocker/Models.swift:13 | a mock is among the non-generic ones exactly when it is available and not generic |
| NetworkModels.GenericPartition | Sources/NetworkMocker/Models.swift:12-13 | the generic and non-generic mocks split the available mocks by `isGeneric`, each in the original order |
| NetworkModels.Activated | Sources/NetworkMocker/Models.swift:22-24 | the key and the available mocks are kept, and the given mock becomes active |
| NetworkModels.Deactivated | Sources/NetworkMocker/Models.swift:26-28 | the key and the available mocks are kept, and no mock is active |
| NetworkModels.DeactivatedIdempotent | Sources/NetworkMocker/Models.swift:22-28 | deactivating twice is deactivating once, and deactivation undoes an activation of an inactive endpoint |
| NetworkModels.MockData | Sources/NetworkMocker/Models.swift:53-60 | there is no data exactly for an error mock; otherwise it is the response body |
| NetworkModels.MockStatusCode | Sources/NetworkMocker/Models.swift:63-70 | there is no status code exactly for an error mock; otherwise it is the response's code |
| NetworkModels.DisplayName | Sources/NetworkMocker/Models.swift:44-50 | `displayName`: the bare name for an error mock, otherwise `"<name> (<code>)"`; characterised by `DisplayNameShowsStatusCode` |
| NetworkModels.DisplayNameShowsStatusCode | Sources/NetworkMocker/Models.swift:44-50 | the display name starts with the name and equals it exactly for an error mock; otherwise the name is followed by `" ("`, the last character is `)`, and what lies between is the decimal spelling of the mock's status code, which reads back as that code |
| MocksBundle.NormalizedBaseURL | Sources/NetworkMocker/MocksBundle.swift:7-10 | no base URL gives ""; a given one gives `/` followed by the value trimmed of `/` at both ends, so a single leading `/` and no other `/` at either end |
| MocksBundle.NormalizedBaseURLIdempotent | Sources/NetworkMocker/MocksBundle.swift:9 | normalising a normalised base URL leaves it unchanged |
| MocksBundle.ParseFileName | Sources/NetworkMocker/MocksBundle.swift:89-103 | succeeds exactly for names with at least three `.`-separated components whose third parses as an `Int`, and then gives the whole file name, the first component as method, the second as name and the third's `Int` value; otherwise `invalidFileName` with the file's URL |
| MocksBundle.ParseFileNameRoundTrip | Sources/NetworkMocker/MocksBundle.swift:89-103 | `<method>.<name>.<code>.<extension>` parses back into that method, name and code, with the whole name as file name |
| MocksBundle.TwoComponentNameRejected | Sources/NetworkMocker/MocksBundle.swift:95-100 | a name with only two components is rejected with its own URL |
| MocksBundle.LoadMock | Sources/NetworkMocker/MocksBundle.swift:69-83 | succeeds exactly when the file name is valid and the bytes are readable; the name is checked before the bytes are read; an unreadable file gives `couldNotLoadFile`; a loaded mock has the file name as id, the parsed method and name, the generic flag, and the bytes with the parsed code |
| MocksBundle.AllLoadCons | Sources/NetworkMocker/MocksBundle.swift:66-83 | every file loads exactly when the first entry loads and every later file loads |
| MocksBundle.LoadMocks | Sources/NetworkMocker/MocksBundle.swift:65-83 | loading the files of a directory succeeds exactly when every file among its entries loads |
| MocksBundle.LoadMocksStep | Sources/NetworkMocker/MocksBundle.swift:66-83 | a file at the front contributes its mock at the front, and a directory at the front contributes nothing |
| MocksBundle.LoadMocksInOrder | Sources/NetworkMocker/MocksBundle.swift:66-83 | on success there is one mock per file, and the k-th mock is the k-th file's |
| MocksBundle.LoadMocksFirstFailure | Sources/NetworkMocker/MocksBundle.swift:66-83 | on failure the error is that of the first file that does not load, and every file before it loads |
| MocksBundle.MockLessStrictOrder | Sources/NetworkMocker/MocksBundle.swift:84-86 | ordering mocks by file name is a strict order |
| MocksBundle.DiscoverMocksIn | Sources/NetworkMocker/MocksBundle.swift:65-87 | an unreadable directory gives `couldNotEnumerate`; success exactly when it is readable and every file loads; the result is sorted by file name and a permutation of the loaded mocks |
| MocksBundle.DiscoveredMocksComeFromFiles | Sources/NetworkMocker/MocksBundle.swift:65-87 | there are as many mocks as files, and each mock is a file of the directory loaded with the directory's generic flag |
| MocksBundle.EveryFileIsDiscovered | Sources/NetworkMocker/MocksBundle.swift:65-87 | every file of a discovered directory loads, and its mock is among the discovered ones |
| MocksBundle.DistinctMethods | Sources/NetworkMocker/MocksBundle.swift:42 | the methods of `Dictionary(grouping:by:)`: no method twice, and exactly the methods of the mocks |
| MocksBundle.AvailableMocks | Sources/NetworkMocker/MocksBundle.swift:48 | a mock is offered exactly when it is one of the directory's own of that method, or a generic one of that method or of `ANY` |
| MocksBundle.AvailableMocksOrder | Sources/NetworkMocker/MocksBundle.swift:48 | an endpoint's mocks are first its own mocks of that method, all of them in order, then the generic mocks of that method or `ANY`, all of them in order |
| MocksBundle.EndpointsFor | Sources/NetworkMocker/MocksBundle.swift:44-50 | one inactive endpoint per method, on the directory's path, offering that method's mocks |
| MocksBundle.DirectoryEndpoints | Sources/NetworkMocker/MocksBundle.swift:42-50 | no two endpoints of a directory share a method, and an endpoint is among them exactly when it is inactive, at the directory's path, for a method some own mock has, and offers that method's mocks |
| MocksBundle.DirectoryEndpointsCoverMethods | Sources/NetworkMocker/MocksBundle.swift:42-50 | the methods of a directory's endpoints are exactly the methods of its own mocks |
| MocksBundle.RelativePath | Sources/NetworkMocker/MocksBundle.swift:38 | empty for `endpoints/` itself; below it, for valid names, trimming `/` leaves the names joined with `/` |
| MocksBundle.SlashJoinTrimmed | Sources/NetworkMocker/MocksBundle.swift:38 | a `/` in front of valid names joined with `/` is all that trimming `/` removes |
| MocksBundle.EndpointPath | Sources/NetworkMocker/MocksBundle.swift:36-39 | for valid names the path is the base URL, a `/`, then the names joined with `/`, placeholders kept verbatim |
| MocksBundle.JoinFirst | Sources/NetworkMocker/MocksBundle.swift:36-39 | a join starts with the first character of its first piece |
| MocksBundle.JoinLast | Sources/NetworkMocker/MocksBundle.swift:36-39 | a join ends with the last character of its last piece |
| MocksBundle.DefaultBaseURLDoublesSlash | Sources/NetworkMocker/Mocker.swift:17-18 | with the default base URL `""` the path starts with `//` |
| MocksBundle.DiscoverEndpoints | Sources/NetworkMocker/MocksBundle.swift:31-63 | every endpoint the walk of a directory finds is inactive; `WalkSucceeds` and `WalkFinds` say when it succeeds and what it finds |
| MocksBundle.DiscoverChildren | Sources/NetworkMocker/MocksBundle.swift:53-58 | every endpoint found under the child directories is inactive; `ChildrenSucceed` and `ChildrenFind` say when the fold succeeds and what it finds |
| MocksBundle.EndpointLessStrictOrder | Sources/NetworkMocker/MocksBundle.swift:22-28 | ordering by path, then by method, is a strict order |
| MocksBundle.EndpointLessTotal | Sources/NetworkMocker/MocksBundle.swift:22-28 | of two endpoints with different keys, one comes first |
| MocksBundle.Discover | Sources/NetworkMocker/MocksBundle.swift:12-29 | the discovered endpoints are sorted by path, then by method, and none is active |
| MocksBundle.DiscoverIsSortedWalk | Sources/NetworkMocker/MocksBundle.swift:12-29 | on success the generic mocks load, the walk succeeds, and the result is a permutation of the walk's endpoints |
| MocksBundle.WalkSucceeds | Sources/NetworkMocker/MocksBundle.swift:31-63 | the walk of a directory succeeds exactly when it and every directory below it can be listed and all their files load |
| MocksBundle.ChildrenSucceed | Sources/NetworkMocker/MocksBundle.swift:53-58 | the walk of the children succeeds exactly when every sub-directory tree can be listed and loads |
| MocksBundle.InTreeUnfold | Sources/NetworkMocker/MocksBundle.swift:44-60 | a tree yields the endpoints of its top directory and those of its sub-directories' trees, and no others |
| MocksBundle.WalkFinds | Sources/NetworkMocker/MocksBundle.swift:31-63 | on success the walk finds exactly the endpoints that some directory at or below the start yields for its own mocks at its own path, file-less directories included |
| MocksBundle.ChildrenFind | Sources/NetworkMocker/MocksBundle.swift:53-60 | on success the walk of the children finds exactly the endpoints that some directory in a sub-directory tree yields |
| MocksBundle.DiscoverSucceeds | Sources/NetworkMocker/MocksBundle.swift:12-29 | discovery succeeds exactly when `generic/` can be listed and loads and every directory below `endpoints/` can be listed and loads |
| MocksBundle.DiscoverFinds | Sources/NetworkMocker/MocksBundle.swift:12-29 | on success the discovered endpoints are exactly those that some directory below `endpoints/` yields, one per method of its own mocks |
| MocksBundle.JoinInjective | Sources/NetworkMocker/MocksBundle.swift:36-39 | valid names joined with `/` determine the names |
| MocksBundle.EndpointPathInjective | Sources/NetworkMocker/MocksBundle.swift:36-39 | for valid names, two directories have the same endpoint path exactly when they are reached through the same names |
| MocksBundle.OwnThenBelowUnique | Sources/NetworkMocker/MocksBundle.swift:44-60 | a directory's own endpoints share no key with those found strictly below it |
| MocksBundle.SiblingsUnique | Sources/NetworkMocker/MocksBundle.swift:53-58 | endpoints below a sub-directory share no key with those below its differently named later siblings |
| MocksBundle.WalkKeysUnique | Sources/NetworkMocker/MocksBundle.swift:31-63 | on a well-formed tree the walk finds no two endpoints with the same path and method, all at paths at or below its start |
| MocksBundle.ChildrenKeysUnique | Sources/NetworkMocker/MocksBundle.swift:53-58 | on a well-formed tree the children's endpoints have unique keys, all at paths strictly below the parent |
| MocksBundle.DiscoverKeysUnique | Sources/NetworkMocker/MocksBundle.swift:12-29 | on a well-formed tree no two discovered endpoints share a path and method |
| MocksBundle.SortedOrderDetermined | Sources/NetworkMocker/MocksBundle.swift:22-28 | two uniquely keyed endpoint lists holding the same endpoints and both sorted by path, then method, are the same list |
| MocksBundle.DiscoverOrderDetermined | Sources/NetworkMocker/MocksBundle.swift:22-28 | on a well-formed tree every ordering of the discovered endpoints sorted by path, then method, is the one discovery returns, so how ties would be broken does not matter |
| MocksBundle.InvalidNameAbortsDirectory | Sources/NetworkMocker/MocksBundle.swift:41-58 | an invalid file name anywhere below a directory makes its walk fail |
| MocksBundle.InvalidNameAbortsChildren | Sources/NetworkMocker/MocksBundle.swift:53-58 | an invalid file name below any child directory makes the walk of the children fail |
| MocksBundle.InvalidNameAbortsDiscovery | Sources/NetworkMocker/MocksBundle.swift:12-29 | an invalid file name directly in `generic/`, or anywhere below `endpoints/`, makes discovery fail |
| NetworkMocker.IndexOfEndpoint | Sources/NetworkMocker/Mocker.swift:142-144 | none exactly when no endpoint has the path and method; otherwise the first endpoint that does |
| NetworkMocker.IndexOfMock | Sources/NetworkMocker/Mocker.swift:40-42 | none exactly when no mock has that id; otherwise the first mock that does |
| NetworkMocker.SegmentMatches | Sources/NetworkMocker/Mocker.swift:137-139 | a request segment matches a template segment when equal or when the template segment is a placeholder; used by `PlaceholderMatchesAnySegment` |
| NetworkMocker.IsPlaceholder | Sources/NetworkMocker/Mocker.swift:138 | a segment that starts with `{` and ends with `}`; used by `LiteralTemplateMatchesOnlyItself` |
| NetworkMocker.PathComponentsMatch | Sources/NetworkMocker/Mocker.swift:129-140 | `pathComponentsMatch(input:check:)`; characterised by the four lemmas below |
| NetworkMocker.PathMatchesItself | Sources/NetworkMocker/Mocker.swift:129-140 | every path matches itself as a template |
| NetworkMocker.SegmentCountMustAgree | Sources/NetworkMocker/Mocker.swift:133 | paths with different numbers of components never match |
| NetworkMocker.LiteralTemplateMatchesOnlyItself | Sources/NetworkMocker/Mocker.swift:129-140 | a template without `{…}` segments matches exactly itself |
| NetworkMocker.JoinedSegmentsMatch | Sources/NetworkMocker/Mocker.swift:129-140 | paths built from `/`-free segments match when their segments match pairwise |
| NetworkMocker.AppendSegment | Sources/NetworkMocker/Mocker.swift:130-131 | appending a `/`-free segment to `/`-free segments keeps them `/`-free |
| NetworkMocker.PlaceholderMatchesAnySegment | Sources/NetworkMocker/Mocker.swift:137-139 | a trailing `{…}` segment matches any single segment after the same prefix |
| NetworkMocker.Answers | Sources/NetworkMocker/Mocker.swift:116-118 | an endpoint answers when it has an active mock, the same method and a matching template; used by `FirstAnswering` and `Resolve` |
| NetworkMocker.FirstAnswering | Sources/NetworkMocker/Mocker.swift:114-125 | none exactly when no endpoint is active for the method and path; otherwise the first endpoint that is |
| NetworkMocker.Resolve | Sources/NetworkMocker/Mocker.swift:114-125 | nil exactly when no endpoint answers; otherwise the active mock of the first endpoint that answers |
| NetworkMocker.ActivateNamedIn | Sources/NetworkMocker/Mocker.swift:38-48 | the only error is `mockNotFound` with the given name, path and method; on success every endpoint keeps its path and method, in order |
| NetworkMocker.NamedActivationFails | Sources/NetworkMocker/Mocker.swift:39-45 | activation fails if no endpoint has the key; with one, it fails exactly when the first such endpoint has no mock with that id |
| NetworkMocker.FirstWithKeyUnique | Sources/NetworkMocker/Mocker.swift:142-144 | there is at most one first endpoint with a key |
| NetworkMocker.NamedActivationChangesOnlyTarget | Sources/NetworkMocker/Mocker.swift:38-48 | a successful activation activates the first mock with that id on the first endpoint with the key, and changes nothing else |
| NetworkMocker.AdHocMock | Sources/NetworkMocker/Mocker.swift:57-63 | the ad-hoc mock has id and name `ad-hoc`, is not generic, and carries the method and response |
| NetworkMocker.ActivateAdHocIn | Sources/NetworkMocker/Mocker.swift:65-70 | with an endpoint of that key every endpoint keeps its path and method; without one, exactly the new key is appended |
| NetworkMocker.AdHocActivationShape | Sources/NetworkMocker/Mocker.swift:56-71 | ad-hoc activation activates the first endpoint with the key and changes nothing else; without one it appends exactly one active endpoint with no available mocks |
| NetworkMocker.DeactivateIn | Sources/NetworkMocker/Mocker.swift:98-104 | every endpoint keeps its path and method, in order, and an unknown key changes nothing |
| NetworkMocker.DeactivationChangesOnlyTarget | Sources/NetworkMocker/Mocker.swift:98-104 | only the first endpoint with the key is deactivated, and deactivating twice is deactivating once |
| NetworkMocker.DeactivateAll | Sources/NetworkMocker/Mocker.swift:109 | every endpoint keeps its path, method and available mocks, in order, and none is active |
| NetworkMocker.ResetClearsEveryMock | Sources/NetworkMocker/Mocker.swift:107-110 | reset keeps every endpoint's key and mocks in order, clears every active mock, and no request resolves afterwards |
| NetworkMocker.UniqueKeyIsFirst | Sources/NetworkMocker/Mocker.swift:142-144 | in a uniquely keyed list the endpoint with a key is the first with it, so the index lookup finds it |
| NetworkMocker.NamedActivationKeepsUniqueKeys | Sources/NetworkMocker/Mocker.swift:38-48 | named activation keeps a uniquely keyed list uniquely keyed |
| NetworkMocker.AdHocActivationKeepsUniqueKeys | Sources/NetworkMocker/Mocker.swift:56-93 | ad-hoc activation keeps a uniquely keyed list uniquely keyed, since it appends only a new key |
| NetworkMocker.DeactivationKeepsUniqueKeys | Sources/NetworkMocker/Mocker.swift:98-104 | deactivating one endpoint keeps a uniquely keyed list uniquely keyed |
| NetworkMocker.ResetKeepsUniqueKeys | Sources/NetworkMocker/Mocker.swift:107-110 | deactivating every endpoint keeps a uniquely keyed list uniquely keyed |
| NetworkMocker.NamedActivationThenResolve | Sources/NetworkMocker/Mocker.swift:38-48 | when nothing answered a request before, activating a mock for its exact path and method makes it resolve to that mock |
| NetworkMocker.DeactivationUndoesActivation | Sources/NetworkMocker/Mocker.swift:98-104 | deactivating after a named activation is the same as deactivating directly |
| NetworkMocker.ActivateDeactivateResolve | Sources/NetworkMocker/Mocker.swift:98-104 | on inactive endpoints, activating then deactivating a key leaves its request unresolved |
| NetworkMocker.AdHocActivationThenResolve | Sources/NetworkMocker/Mocker.swift:56-71 | when nothing answered a request before, ad-hoc activation for its exact path and method makes it resolve to the ad-hoc mock |
| NetworkMocker.DiscoveredEndpointsResolveNothing | Sources/NetworkMocker/Mocker.swift:27-29 | right after a bundle is loaded no request resolves to a mock |
| NetworkMocker.Mocker.constructor | Sources/NetworkMocker/Mocker.swift:10-23 | the shared mocker starts with no endpoints and a delay of 0.5 seconds |
| NetworkMocker.Mocker.Load | Sources/NetworkMocker/Mocker.swift:17-19 | the mocker holds the discovered endpoints of the bundle with the default delay, or the discovery error is returned; on a well-formed tree no two endpoints share a path and method |
| NetworkMocker.Mocker.SetMocksBundle | Sources/NetworkMocker/Mocker.swift:27-29 | on success the endpoints are the newly discovered ones, with unique keys on a well-formed tree; on failure the error is returned and the endpoints stay |
| NetworkMocker.Mocker.ActivateNamed | Sources/NetworkMocker/Mocker.swift:38-48 | the endpoints become those of the named activation, or stay unchanged when `mockNotFound` is returned; unique keys stay unique |
| NetworkMocker.Mocker.ActivateResponse | Sources/NetworkMocker/Mocker.swift:56-71 | the endpoints become those of the ad-hoc activation with that body and status code; unique keys stay unique |
| NetworkMocker.Mocker.ActivateError | Sources/NetworkMocker/Mocker.swift:78-93 | the endpoints become those of the ad-hoc activation with that error; unique keys stay unique |
| NetworkMocker.Mocker.ActivateAdHoc | Sources/NetworkMocker/Mocker.swift:65-70 | the endpoints become those of the ad-hoc activation with that response; unique keys stay unique |
| NetworkMocker.Mocker.DeactivateMock | Sources/NetworkMocker/Mocker.swift:98-104 | the endpoints become those of the deactivation; unique keys stay unique |
| NetworkMocker.Mocker.Reset | Sources/NetworkMocker/Mocker.swift:107-110 | the delay becomes 0 and every endpoint is deactivated; unique keys stay unique |
| NetworkMocker.Mocker.ActiveMock | Sources/NetworkMocker/Mocker.swift:114-125 | the scan returns the active mock of the first endpoint that answers, or nil |
| Stubbing.StubData | Sources/MoyaStubber/MoyaStubber.swift:167-176 | there is no data exactly for an error stub; otherwise it is the response body |
| Stubbing.StubEqualsIsEquality | Sources/MoyaStubber/MoyaStubber.swift:185-201 | the hand-written `==` holds exactly when the two stubs are equal in every field |
| Stubbing.PathExtension | Sources/MoyaStubber/MoyaStubber.swift:232 | the extension never contains a `.` |
| Stubbing.PathExtensionOfDottedName | Sources/MoyaStubber/MoyaStubber.swift:232 | the extension of `<base>.<ext>` is `ext` |
| Stubbing.ParseStubFileName | Sources/MoyaStubber/MoyaStubber.swift:231-238 | succeeds exactly for names with at least two non-empty `.`-separated pieces whose second parses as an `Int`, and yields the first piece, that code and the extension; otherwise `invalidFileName` with the file's URL |
| Stubbing.StubDisplayName | Sources/MoyaStubber/MoyaStubber.swift:235-245 | the display name is the prefix (`G: ` for a generic stub, nothing otherwise), the name, a space, the decimal spelling of the status code and ` (<ext>)`, each at its stated position, with the length they add up to |
| Stubbing.StubFromFile | Sources/MoyaStubber/MoyaStubber.swift:230-248 | succeeds exactly when the file name is valid and the bytes are readable; the name is checked before the bytes are read; an unreadable file gives `couldNotLoadFile`; a loaded stub has the file name, the display name of the parsed pieces, and the bytes with the parsed code |
| Stubbing.StubFileNameParts | Sources/MoyaStubber/MoyaStubber.swift:231-232 | `<name>.<code>.<ext>` splits into its three pieces and has extension `ext` |
| Stubbing.ParseStubFileNameRoundTrip | Sources/MoyaStubber/MoyaStubber.swift:231-238 | `<name>.<code>.<ext>` parses back into that name, code and extension |
| Stubbing.StubFileRoundTrip | Sources/MoyaStubber/MoyaStubber.swift:230-248 | the file `<name>.<code>.<ext>` becomes the stub `"<name> <code> (<ext>)"`, prefixed for generic stubs, answering that code with the file's bytes |
| Stubbing.DiscoverStubs | Sources/MoyaStubber/MoyaStubber.swift:227-250 | an unreadable directory gives `couldNotEnumerate` with its URL; success exactly when the directory is readable and every file in it becomes a stub |
| Stubbing.AllStubsLoadCons | Sources/MoyaStubber/MoyaStubber.swift:227-250 | every file loads exactly when the first entry loads and every later file loads |
| Stubbing.LoadStubs | Sources/MoyaStubber/MoyaStubber.swift:228-249 | loading the files among the entries succeeds exactly when every file becomes a stub |
| Stubbing.LoadStubsStep | Sources/MoyaStubber/MoyaStubber.swift:227-250 | a file at the front contributes its stub at the front, and a directory at the front contributes nothing |
| Stubbing.StubOfFile | Sources/MoyaStubber/MoyaStubber.swift:230-248 | the stub a file entry becomes; used by `LoadStubsInOrder` |
| Stubbing.LoadStubsInOrder | Sources/MoyaStubber/MoyaStubber.swift:227-250 | on success there is one stub per file, unsorted: the k-th stub is the k-th file's |
| Stubbing.LoadStubsBundle | Sources/MoyaStubber/MoyaStubber.swift:206-217 | an unreadable root gives `couldNotEnumerate` on the root; success exactly when the root is readable, every root file becomes a stub, and every sub-directory is readable with every file in it becoming a stub |
| Stubbing.EndpointsOf | Sources/MoyaStubber/MoyaStubber.swift:211-216 | building the endpoints succeeds exactly when every sub-directory can be listed and every file in it becomes a stub |
| Stubbing.EndpointsOfStep | Sources/MoyaStubber/MoyaStubber.swift:211-216 | a directory at the front contributes its endpoint at the front, and a file at the front contributes nothing |
| Stubbing.EndpointsOfShape | Sources/MoyaStubber/MoyaStubber.swift:209-225 | one endpoint per sub-directory, in order, named after it and offering the timeout stub, then the generic stubs, then its own |
| Stubbing.LoadedEndpointsStartWithBuiltIns | Sources/MoyaStubber/MoyaStubber.swift:209-215 | every loaded endpoint offers the timeout stub first and the generic stubs right after it |
| Stubbing.GenericStubsArePrefixed | Sources/MoyaStubber/MoyaStubber.swift:210 | there is one generic stub per root file, and each has a file name and a display name starting with `"G: "` |
| Stubbing.FindStub | Sources/MoyaStubber/MoyaStubber.swift:40-46 | the only error is `stubNotFound` with the given names; a stub found has that file name, so it is never the timeout stub |
| Stubbing.FindStubPicksFirst | Sources/MoyaStubber/MoyaStubber.swift:41-43 | on the first endpoint with that name, the lookup fails exactly when no stub has that file name, and otherwise returns the first one that does |
| Stubbing.FindStubUnknownEndpoint | Sources/MoyaStubber/MoyaStubber.swift:41-45 | with no endpoint of that name the lookup fails with `stubNotFound` |
| Stubbing.MoyaStubber.constructor | Sources/MoyaStubber/MoyaStubber.swift:8-26 | the shared stubber starts with no endpoints, no active stub and no delay |
| Stubbing.MoyaStubber.Load | Sources/MoyaStubber/MoyaStubber.swift:20-22 | the stubber holds the loaded endpoints with no active stub and no delay, or the loading error is returned |
| Stubbing.MoyaStubber.SetStubsBundle | Sources/MoyaStubber/MoyaStubber.swift:30-33 | every active stub is cleared even when loading fails; on success the endpoints are the loaded ones, on failure they stay |
| Stubbing.MoyaStubber.ActivateNamed | Sources/MoyaStubber/MoyaStubber.swift:40-49 | the found stub becomes the endpoint name's entry and nothing else changes, or `stubNotFound` is returned and nothing changes |
| Stubbing.MoyaStubber.DeactivateStub | Sources/MoyaStubber/MoyaStubber.swift:53-55 | only that endpoint name's entry is removed |
| Stubbing.MoyaStubber.ActiveStub | Sources/MoyaStubber/MoyaStubber.swift:58-60 | a stub exactly when the endpoint name has an entry, and then that entry |
| Stubbing.MoyaStubber.Activate | Sources/MoyaStubber/MoyaStubber.swift:67-74 | afterwards the endpoint name's active stub is the given one, or none, and every other name's is unchanged |
| Stubbing.MoyaStubber.Reset | Sources/MoyaStubber/MoyaStubber.swift:78-81 | the delay becomes 0 and no endpoint has an active stub |
| Stubbing.MoyaStubber.StubClosure | Sources/MoyaStubber/MoyaStubber.swift:142-145 | never exactly when there is no active stub; otherwise delayed by the delay when it is positive, and immediate when it is not |
| StubModels.StubData | Sources/MoyaStubber/Models.swift:25-34 | there is no data exactly for an error stub; otherwise it is the response body |
| StubModels.StubStatusCode | Sources/MoyaStubber/Models.swift:37-46 | there is no status code exactly for an error stub; a full HTTP response reports its own status code |
| StubModels.TimeoutErrorHasNoPayload | Sources/MoyaStubber/Models.swift:48-53 | the timeout stub is generic, has no file, no data and no status code |
| StubModels.WithoutGenericFlag | Sources/MoyaStubber/Models.swift:56-72 | the copy of a stub with `isGeneric` false, the one field `==` does not compare, and with the name, file name and response kept |
| StubModels.StubEqualsIgnoresOnlyGenericFlag | Sources/MoyaStubber/Models.swift:56-72 | `==` holds exactly when the stubs agree in everything but `isGeneric` |
| StubModels.GenericFlagNotCompared | Sources/MoyaStubber/Models.swift:57-59 | a stub equals its copy with the opposite generic flag, although the two differ |
| StubModels.DifferentCasesDiffer | Sources/MoyaStubber/Models.swift:61-70 | responses of different cases are never equal |
| StubModels.StubEqualsEquivalence | Sources/MoyaStubber/Models.swift:56-72 | `==` is reflexive, symmetric and transitive |
| StubModels.StubsEqualElementwise | Sources/MoyaStubber/Models.swift:12-15 | array `==` holds exactly when the counts agree and the stubs at each index are equal |
| StubModels.EndpointEqualsIgnoresGenericFlags | Sources/MoyaStubber/Models.swift:12-15 | two endpoints are equal exactly when the names agree and their stubs agree index by index in everything but `isGeneric` |

## Where the code and its documentation disagree

The model follows the code in each case below.

- Request methods are not normalised for case. A file `get.success.200.json` gives the method `get`,
  and lookups compare methods exactly. The test at
  `Tests/NetworkMockerTests/NetworkMockerTests.swift:15-39` expects `GET`.
- `Mocker(mocksBundle:)` passes the default base URL `""`, which normalises to `/`. So the path of
  `endpoints/users` is `//users`, not the `/users` that the same test expects
  (`MocksBundle.DefaultBaseURLDoublesSlash`). Passing no base URL to the bundle reader gives `/users`.
- A mock file name needs at least three `.`-separated components, with an `Int` third one. The
  extension is not required.
- The bundle reader builds a mock with a `fileName:` label and throws `NetworkMockerError`. The
  declared type has an `id` field and the error type is `MockerError`. The model reads these as the
  id being the file name, and as one error type.
- `Tests/MoyaStubberTests/MoyaStubberTests.swift` describes an older stubber. The model follows
  `Sources/MoyaStubber/MoyaStubber.swift`.

## Left out

- File-system access is replaced by the `Dir` tree: bundle URLs, attribute queries, hidden files and
  `Data(contentsOf:)`. The tree records which directories can be enumerated and which files can be
  read. The directory-walking helpers of the network mocker are not part of this model; they are
  assumed to behave like `Sources/MoyaStubber/Utilities.swift:18-35`.
- The character set `.pathSeparator` (`Sources/NetworkMocker/MocksBundle.swift:9`, `:38`) is defined
  nowhere in the sources. The model takes it to be exactly `/`.
- Error URLs are the path components below the bundle root, not absolute file URLs. Error
  descriptions (`errorDescription`) are not modelled.
- `Dictionary(grouping:by:)` has no defined order. The model groups by first occurrence. On a
  well-formed tree no two endpoints share a path and method, so the final sort fixes the order
  whatever the grouping order was (`MocksBundle.DiscoverOrderDetermined`).
- Unique `(path, method)` keys are not an invariant of the `Mocker` class. A `Dir` value can hold two
  sibling directories with the same name, or a name containing `/`, which a real file system cannot.
  `MocksBundle.EntriesWellFormed` states the file-system rules; under them discovery gives unique
  keys, and every `Mocker` operation keeps unique keys unique.
- The `URLSession` integration, the Moya endpoint closure and the view controllers and views are
  left out. They are I/O and UI around the registries modelled here.
- `MoyaStubber.activeStub(for:)` uses reflection (`Mirror`) to name a target. The model takes the
  endpoint name directly: `StubClosure` and `ActiveStub` are given that name.
- URL parsing is not modelled. `activeMock(for:method:)` matches on the request's `url.path`
  (`Sources/NetworkMocker/Mocker.swift:117`); `NetworkMocker.Mocker.ActiveMock` and
  `NetworkMocker.Resolve` are given that path directly as a string.
- The `shared` singletons are the constructors. Concurrency around them is not modelled.
- `TimeInterval` is a `real`. An `NSError` is modelled by its domain and code only; the `userInfo`
  of an error passed to `activate(mockForPath:method:networkError:)` is dropped. `HTTPURLResponse`
  is an object compared by identity; the model gives it an identity number.
- `NetworkMocker.Mocker.ActivateResponse` and `NetworkMocker.Mocker.ActivateError` are declared `throws` in the
  source but never throw; the model returns nothing.
- `Stubbing.PathExtension`: `URL.pathExtension` is modelled as the text after the last `.`, so
  corner cases such as a name ending in `.` or a leading `.` may differ from Foundation's rules.
- `MoyaStubberError` is declared twice in the source. It is modelled once, as `Stubbing.StubberError`.
- Strings are sequences of Unicode scalars and are compared scalar by scalar (`Text.StrLess`, `==`,
  and the `{`/`}` test of `NetworkMocker.IsPlaceholder`). Swift's `String` `==`, `<` and `hasPrefix`
  use canonical equivalence, so `"é"` and `"e\u{301}"` are equal in Swift but not in the model.
- Endpoint names taken from a directory URL's `lastPathComponent` are the directory names; the
  root-URL edge case of `components(separatedBy: root.path)` is not modelled, since each directory
  path is built from the names below the root.
