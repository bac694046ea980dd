# repo_manager: a verified model

`repo_manager` serves package repositories over HTTP: a Go server lists directories, signs users in
against an LDAP directory and takes uploads; a TypeScript client decodes the listings and shows them
in a grid. This project models four parts of it and proves what they guarantee.

**The message codec** (`Wire`, `ShortForm`, `BinaryIO`, `FolderTree`, `FolderTheorems`, `FolderNormalForm`,
`Folders`, `FileList`, `FileNormalForm`, `Files`, `RpmFields`, `RpmNormalForm`, `Rpm`, `JsNumber`, `Listing`,
`ByteLayout`). The generated message classes read and
write Protocol Buffers with a shared reader and writer. Those two come from a library that is not part of
the repository, so they are written from the Protocol Buffers Encoding guide ("Base 128 Varints", "Message
Structure", "Length-Delimited Records", "Last One Wins", "Groups"). What bytes mean is defined without a
cursor: `Wire.Scan` turns bytes into records, and a message is read off the records of each field. The
classes, which move one cursor and narrow and restore one limit, are proved to compute that meaning on
every input, and the theorems are about the meaning: it undoes every conforming encoder, it does not see
field order or unknown fields at any depth, it distributes over concatenation, and writing a decoded
folder or file list back never makes it longer. Packages differ, because their size passes through a
`number`: one that is rounded up can take a byte more, and one that is rounded up to 2^64 cannot be
written at all; the model says exactly when. Every way the library can throw is the one result `None`. As in the
generated code, a stray end-group tag ends the message it stands in. `ByteLayout` fixes the bytes
themselves, so that reader and writer cannot be wrong together. Strings are the bytes they are sent as.

**Route templates** (`Braces`, `Template`, `StripPrefix`, `PercentPath`). `_braceIndices` finds the brace
groups of a template, `StripPrefix` compiles them to a pattern of literals and `[^/]+` and removes what the
pattern matches from a request's path and raw path. The pattern is a list of tokens with the engine's
greedy, backtracking choice. Stripping a filled-in template leaves exactly what was appended to it, for
every template, and stripping commutes with percent-decoding exactly when the first segment of the raw
path hides no encoded slash.

**Authorization** (`AuthSettings`, `Config`, `LdapFilter`, `BaseDn`, `Directory`, `Tokens`, `SignIn`, `AuthRuns`).
`GetRepoAuth` rewrites stored settings; its answers are nevertheless a function of the initial
configuration. The LDAP filter is parsed by a grammar of its own (section 3 of RFC 4515, section 2 of RFC
4526) and means what was intended, whatever the strings hold. Together they decide who gets a token, and in
every run a request that passes for a repository was preceded by such a sign-in; conversely every such
sign-in has a run in which its token passes. The handlers' outcomes are steps of these runs. The token's
expiry is twelve hours after the clock was read, which happens after the directory has answered, so it is
not bounded by the moment the sign-in began: it keeps to twelve hours from there exactly when the clock
still shows the same second, and `AuthRuns.SlowDirectory` is a run that does not. The boundary second is
accepted, as the token library does.

**The grid** (`GridModel`, `Grid`). The reducer deletes and sets `selected` on row objects and pushes onto an
array that earlier states share. Over heap objects it is proved to do what a pure function on values does,
and the invariants hold in every run. `GRID_REFRESH_ROWS` stores an imported module object in `row`, so the
pointer has three cases.

Clocks, directories, sessions and network answers are parameters. A nil dereference or a failed type
assertion is a result, not a precondition. Where the repository keeps the ends of a brace group in one flat
slice, the model keeps pairs.

## Model

| member | source | states |
|---|---|---|
| Wire.VarintRoundTrip | www/src/api/files.ts:467-468 | every 64-bit number is read back from its varint, whatever bytes follow; below 2^32 also as a tag or length |
| Wire.ScanConcat | www/src/api/folders.ts:109-124 | scanning distributes over concatenation at a record boundary |
| Wire.ScanPrinted | www/src/api/folders.ts:98-103 | scanning undoes printing for every sequence of well-formed records of every wire type, nested groups included |
| Wire.DecodeConcat | www/src/api/files.ts:492-546 | for every message: decoding a then b is decoding b into what a left |
| Wire.DecodeStep | www/src/api/folders.ts:109-124 | where a decoding loop stands after one more record, and that a failure then is a failure of the whole input |
| ByteLayout.VarintWritten | www/src/api/files.ts:467-468 | a number is written as its base-128 digits, least significant first, with a high bit on all but the last and no superfluous byte |
| ByteLayout.VarintRead | www/src/api/files.ts:514-516 | a varint is read exactly when it ends within ten bytes, as the number of those digits: 64 bits of it for values, 32 for tags and lengths |
| ByteLayout.TagBytes | www/src/api/files.ts:485-486 | tags of fields up to 15 take one byte, of field 16 and beyond two |
| ByteLayout.GroupBytes | www/src/api/folders.ts:122 | a group is its start tag, its records and its end tag |
| ByteLayout.EndTags | www/src/api/folders.ts:110-111 | an end tag ends a message; the wrong one in a group is malformed |
| ByteLayout.FolderBytes | www/src/api/folders.ts:98-103 | the bytes of a folder: tags 10, 16 and 26, lengths, an empty message for an empty folder |
| ByteLayout.RootRead | www/src/api/folders.ts:116-117 | which varints of field 2 mean true |
| ByteLayout.FileBytes | www/src/api/files.ts:45-53 | the bytes of a file list, an unnamed file included |
| ByteLayout.PackageBytes | www/src/api/files.ts:455-470 | which field number each of the strings up to 8 has on the wire |
| ByteLayout.PackageBytesFrom10 | www/src/api/files.ts:473-486 | and those from 10 on, with the two-byte tag of field 16 |
| ByteLayout.PackageListBytes | www/src/api/files.ts:465-472 | the repeated fields, empty elements included, and the size |
| ShortForm.PrintedNotLonger | www/src/api/folders.ts:98-103 | the records of any input, printed, take no more bytes than the input, overlong varints and nested groups included |
| BinaryIO.BinaryReader.NextField | www/src/api/folders.ts:109-112 | a tag read at the cursor, the end of the message, or a failure exactly where the bytes do not scan |
| BinaryIO.BinaryReader.SkipField | www/src/api/folders.ts:122 | steps over exactly the record at the cursor, groups with all their records |
| BinaryIO.BinaryReader.EnterMessage | www/src/api/folders.ts:119-121 | narrows the limit to exactly the payload at the cursor, inside the parent's limit |
| BinaryIO.BinaryWriter.WriteRepeatedString | www/src/api/files.ts:465-466 | writes one record per element, empty strings too, and fails exactly on a length of 2^32 or more |
| FolderTree.InterpretConcat | www/src/api/folders.ts:109-124 | decoding a then b is decoding b into what a left: last one wins for name and root, children concatenate |
| FolderTree.ResumeConcat | www/src/api/folders.ts:109-124 | the same on bytes, when the first part ends at a record boundary |
| FolderTree.InterpretOne | www/src/api/folders.ts:112-123 | the effect of one record: the switch of the decoder, wrong wire types and unknown fields included |
| FolderTheorems.DecodeEncodes | www/src/api/folders.ts:107-126 | decoding yields the encoded tree for every conforming encoder: any field order, repeated singular fields, unknown fields, at every depth |
| FolderTheorems.EncodeConforms | www/src/api/folders.ts:94-106 | what serialize writes is a conforming encoding |
| FolderTheorems.RoundTrip | www/src/api/folders.ts:94-126 | deserialize undoes serialize for every tree, presence of root and order of children included |
| FolderTheorems.SameFieldsDecode | www/src/api/folders.ts:109-124 | inputs that agree on the records of each known field, recursively, decode alike, failures included |
| FolderTheorems.InsertUnknown | www/src/api/folders.ts:122 | whole records of unknown fields may be inserted at any record boundary |
| FolderTheorems.SwapRecords | www/src/api/folders.ts:112-123 | adjacent records of different fields may be swapped |
| FolderTheorems.ReplaceChild | www/src/api/folders.ts:119-121 | a submessage may be replaced by one that agrees with it, which carries the two rows above to any depth |
| FolderTheorems.ObjectRoundTrip | www/src/api/folders.ts:60-93 | toObject then fromObject makes every root explicit and changes nothing else, is the identity exactly when every root was set, and is idempotent |
| FolderNormalForm.Normalises | www/src/api/folders.ts:94-126 | a decoded message can be serialized, in no more bytes than it was read from, and reads back unchanged |
| FolderNormalForm.NotLonger | www/src/api/folders.ts:94-106 | serialize writes a shortest encoding of what was decoded |
| FoldersApi.Folders.Serialize | www/src/api/folders.ts:94-106 | appends exactly the canonical encoding of the tree, and fails exactly when some length does not fit 32 bits |
| FoldersApi.Folders.SerializeDelimited | www/src/api/folders.ts:102-103 | writes a child as one length-delimited record of field 3 |
| FoldersApi.Folders.ReadField | www/src/api/folders.ts:112-123 | changes the message as one record of the meaning does, consumes exactly that record and keeps the limit |
| FoldersApi.Folders.Deserialize | www/src/api/folders.ts:107-126 | terminates on every input, succeeds exactly when the bytes up to the limit have a meaning, builds fresh objects with that meaning, keeps the limit and reaches it |
| FoldersApi.Copy | www/src/api/folders.ts:94-132 | serializing and reading back gives an equal, fresh message whenever serializing succeeds |
| FileList.InterpretConcat | www/src/api/files.ts:56-65 | file lists concatenate when their encodings do |
| FileList.DecodeCarries | www/src/api/files.ts:54-67 | the decoded list is the encoded one, in count and order, empty names and unknown fields included |
| FileList.RoundTrip | www/src/api/files.ts:45-67 | deserialize undoes serialize for every list of names |
| FileList.FileRoundTrip | www/src/api/files.ts:113-135 | a file comes back from its submessage, unnamed ones from an empty one |
| FileNormalForm.Normalises | www/src/api/files.ts:45-67 | a decoded file list can be serialized, in no more bytes than it was read from, and reads back unchanged |
| FilesApi.File.Deserialize | www/src/api/files.ts:122-135 | the name the bytes mean, from a fresh object, with the limit kept |
| FilesApi.Files.Serialize | www/src/api/files.ts:45-53 | one submessage per file, an unnamed file as an empty one |
| FilesApi.Files.Deserialize | www/src/api/files.ts:54-67 | succeeds exactly when the bytes have a meaning, with fresh files of those names |
| JsNumber.NumberExact | www/src/api/files.ts:514-516 | a 64-bit size survives a JavaScript number exactly when it is a multiple of the spacing of doubles there, always below 2^53 |
| JsNumber.NumberNear | www/src/api/files.ts:514-516 | otherwise it lands on a multiple of that spacing, at most half of it away, and on an even one when it was halfway |
| JsNumber.UlpInBinade | www/src/api/files.ts:514-516 | from 2^(52+k) to 2^(53+k) doubles are 2^k apart |
| JsNumber.Idempotent | www/src/api/files.ts:514-516 | a size that has been rounded once does not change again, across binades too |
| JsNumber.StaysBelow64 | www/src/api/files.ts:467-468 | a 64-bit size stays one as a number exactly when it is below 2^64 - 1024 |
| RpmFields.InterpretConcat | www/src/api/files.ts:492-546 | all sixteen fields: singular ones keep the last record, groups and source append |
| RpmFields.InterpretOne | www/src/api/files.ts:495-545 | the effect of one record on the sixteen fields |
| RpmFields.DecodeCarries | www/src/api/files.ts:490-548 | every conforming encoding of a package decodes to it, size as a number: any order and interleaving, repeated singular fields, explicit defaults, unknown fields |
| RpmFields.EncodeCarries | www/src/api/files.ts:451-489 | what serialize writes is such an encoding |
| RpmFields.FieldsInOrder | www/src/api/files.ts:455-486 | in the order of the field numbers |
| RpmFields.RoundTrip | www/src/api/files.ts:451-548 | a package round-trips exactly when its size is representable, in particular for every size below 2^53 |
| RpmFields.SameFieldsDecode | www/src/api/files.ts:492-546 | the decoder sees neither the order between fields nor unknown fields |
| RpmNormalForm.Normalises | www/src/api/files.ts:451-548 | a decoded package can be serialized exactly when the last size sent was below 2^64 - 1024; then it reads back unchanged, in no more bytes save one where rounding lengthens the size |
| RpmNormalForm.GrowthReal | www/src/api/files.ts:467-468 | that allowance is tight: a package of nothing but a size grows by just the difference |
| RpmNormalForm.OneByteMore | www/src/api/files.ts:467-468 | and it is used: 2^56 - 1 takes eight bytes, what it is read as takes nine |
| RpmApi.RPM.Serialize | www/src/api/files.ts:453-489 | appends the fields in number order, defaults left out, and fails exactly when something does not fit |
| RpmApi.RPM.ReadField | www/src/api/files.ts:495-545 | changes the object as one record of the meaning does and consumes exactly that record |
| RpmApi.RPM.SetString | www/src/api/files.ts:496-543 | each string field number reaches its own field, 6 and 9 append |
| RpmApi.RPM.Deserialize | www/src/api/files.ts:490-548 | succeeds exactly when the bytes have a meaning, with that value |
| Listing.GetFolders | internal/repository/folders.go:17-45 | the repository name, root true and a leaf for all and only the directories named noarch, x86_64 or x86_64-i586, each once, in listing order |
| Listing.GetFiles | internal/repository/files.go:19-40 | the names of all and only the entries that are not directories, each once, in listing order |
| Listing.ShownConcat | internal/repository/folders.go:30-37 | what is shown of a listing is what is shown of its parts, in order |
| Listing.FoldersArrive | internal/repository/folders.go:24-39 | what the client decodes is exactly those directories, in order, from any conforming encoding |
| Listing.FilesArrive | internal/repository/files.go:26-34 | the same for files, count and order kept even for empty names |
| Braces.BraceIndices | internal/handler/handler.go:133-154 | all maximal top-level groups of a balanced string, nothing for an unbalanced one |
| Braces.GroupsUnique | internal/handler/handler.go:133-154 | the groups are unique, so the row above determines the result |
| Braces.GroupsEmpty | internal/handler/handler.go:133-154 | a balanced string has no group exactly when it has no brace |
| Template.MatchSound | internal/handler/handler.go:113-116 | the engine's match is a match of the pattern |
| Template.MatchComplete | internal/handler/handler.go:113-116 | if the pattern matches at all, the engine finds a match |
| Template.MatchSlashes | internal/handler/handler.go:100-108 | wildcards cross no slash: a match has exactly the slashes of the literals |
| Template.Exchange | internal/handler/handler.go:100-108 | two matches that start in one segment: the later start can reach the later end |
| Template.MatchAtSegmentEnd | internal/handler/handler.go:113-116 | if the pattern can match up to the end of a segment, the greedy engine stops exactly there |
| StripPrefix.ExpandPattern | internal/handler/handler.go:97-113 | the compiled pattern's expansions are the fillings of the template |
| StripPrefix.ExpandMatches | internal/handler/handler.go:104-113 | a pattern matches every text it expands to |
| StripPrefix.MatchesExpand | internal/handler/handler.go:104-113 | and matches nothing else |
| StripPrefix.FillSelf | internal/handler/handler.go:104-111 | a template whose groups are filled with their own text is the template |
| StripPrefix.Compile | internal/handler/handler.go:97-113 | the loop writes the pattern of the template, group by group |
| StripPrefix.MakeHandler | internal/handler/handler.go:92-113 | the handler of a template: any request as it is when the template is empty, else the pattern of its groups |
| StripPrefix.FillUnique | internal/handler/handler.go:97-126 | when every literal after a group begins with a slash, a path determines the values and the rest |
| StripPrefix.ServedIff | internal/handler/handler.go:115-129 | a request is served exactly when its path, and its raw path if any, begin with a filling of the template, and then with what is left after one |
| StripPrefix.ReplaceExpanded | internal/handler/handler.go:116-117 | strip after expand is the identity on a rest that is empty or begins with a slash, for every template |
| StripPrefix.ServeExpanded | internal/handler/handler.go:115-126 | the same through the handler, with and without a raw path |
| PercentPath.DecodeOctet | internal/handler/handler.go:115-130 | what a percent triplet stands for, digits in either case, and that other octets stand for themselves |
| PercentPath.StripCommutes | internal/handler/handler.go:115-130 | stripping commutes with percent-decoding exactly when the raw path's first segment hides no encoded slash |
| PercentPath.RepoTemplate | internal/handler/handler.go:66-89 | the router's template compiles to a slash and a wildcard |
| PercentPath.RepoServed | internal/handler/handler.go:115-130 | then the handler serves paths that denote the same resource, or finds nothing because the segment is empty |
| AuthSettings.CallKeepsEffective | internal/config/config.go:161-184 | a call answers the effective settings, changes no repository's, and touches neither the default nor another entry |
| AuthSettings.HistoryIndependent | internal/config/config.go:161-184 | after any sequence of calls, every answer is a function of the initial configuration, entries nobody asked for are as they were, and completed settings are answered without duplicate groups |
| AuthSettings.AnswersComplete | internal/config/config.go:161-184 | with a complete default, no answer of any history has an empty server, base or domain |
| Config.Repositories.GetRepoAuth | internal/config/config.go:161-184 | when it panics, which object it answers, that settings with server, base and domain stay as they are and any others get the default's four fields and both group sets; one such call, and only the repository's own entry may change |
| Config.Complete | internal/config/config.go:172-180 | the default's server settings, and a duplicate-free union of groups when there are own groups |
| LdapFilter.BuildFilter | internal/repository/auth_ldap.go:60-72 | the loop and formatting yield the filter text |
| LdapFilter.PlainText | internal/repository/auth_ldap.go:68-72 | the filter for plain strings, letter by letter |
| LdapFilter.EscapeSpecial | internal/repository/auth_ldap.go:69-72 | the escapes of the special characters and of octets beyond ASCII |
| LdapFilter.EscapedValue | internal/repository/auth_ldap.go:69-72 | an escaped value is parsed back as itself in one piece, never as a pattern |
| LdapFilter.FilterParsed | internal/repository/auth_ldap.go:68-72 | for every user name and group list the filter parses to account equality and one of the groups, in order |
| LdapFilter.FilterMeaning | internal/repository/auth_ldap.go:68-72 | it selects exactly the entries of that account in one of those groups |
| BaseDn.Build | internal/repository/auth_ldap.go:62-66 | the search base: one piece per label of the domain, `dc=` and the label, joined by commas |
| BaseDn.DomainReadBack | internal/repository/auth_ldap.go:62-66 | without commas, the domain can be read back from the search base |
| BaseDn.BaseDnReadBack | internal/repository/auth_ldap.go:62-66 | reading it back at its commas gives the labels exactly when no label holds a comma |
| Directory.ConfigAndFilter | internal/config/config.go:161-184 | the answer of a call, fed to the filter, lets in exactly the users with one entry in an effective group |
| Directory.WelcomedIff | internal/repository/auth_ldap.go:74-102 | who is welcome: exactly one entry has the account and a group in effect |
| Directory.IncompleteWithoutGroups | internal/config/config.go:171-180 | incomplete settings without own groups let nobody in |
| Tokens.GeneratedOpens | internal/service/auth.go:31-65 | a generated token opens its own repository from its issue for twelve hours, and nothing else |
| Tokens.OpenInstants | internal/service/auth.go:37-40 | in nanoseconds: good from its issue for twelve hours after the clock was read, and for less than a second more |
| Tokens.GateAnswers | internal/handler/middleware.go:72-90 | 500 exactly for a rejected cookie, a panic exactly for a value that is no string, 401 exactly for no value or a token that is unsigned, forged, foreign, expired or early |
| SignIn.Authenticate | internal/handler/middleware.go:66-93 | when each reply is given, as in the row before; a request goes on exactly when the run records it as passed, so that the row on passed requests holds of it; no other reply leaves a trace |
| SignIn.RequestToken | internal/service/auth.go:31-46 | a token exactly for whom the settings in effect welcome, with nobody's settings changed; either outcome is one of the runs |
| SignIn.SignInTo | internal/handler/auth.go:15-64 | when each reply is given: 400 for a bad body, a panic or 500 or 401 from the stored settings and the directory, 200 exactly for who is let in with a cookie that is kept; what the session then holds, that it is untouched unless a token was made, and that the steps of the runs lead there |
| SignIn.SignInThenRequest | internal/handler/auth.go:34-62 | whatever the session held before: who is let in gets through in the token's lifetime; the new token opens that repository in its lifetime only, and the gate decides as before under other names or when no token was made |
| AuthRuns.NextInv | internal/service/auth.go:31-65 | every step of every interleaving keeps the invariant |
| AuthRuns.PassedWasEarned | internal/handler/middleware.go:66-93 | in every run a passed request comes after a sign-in to that repository by a welcomed user, within the claims of the token |
| AuthRuns.EarnedCanPass | internal/handler/middleware.go:66-93 | the converse: for every configuration, welcomed user and timing there is a run in which the token passes, up to its last instant |
| AuthRuns.PassedInTime | internal/handler/middleware.go:84-88 | and earlier than twelve hours and one second after that token's clock was read |
| AuthRuns.ExpiryInRuns | internal/service/auth.go:31-43 | in every run, an expiry keeps within twelve hours of when its sign-in began exactly when the clock still showed that second once the directory had answered |
| AuthRuns.SlowDirectory | internal/service/auth.go:31-43 | from any start: a directory that takes a second, and a request that passes later than twelve hours after the sign-in began |
| GridModel.MarkedIsLit | www/src/components/redux/actions/gridActions.ts:63-103 | after each complete burst a marked row is highlighted and in the current data, and only a marked row is |
| GridModel.DataIsLoadPlusUploads | www/src/components/redux/reducers/gridReducer.ts:33-56 | the data is the last loaded list followed by the rows inserted since, in order, and the filter is the last text typed, whatever intervenes |
| GridModel.OthersIgnored | www/src/components/redux/reducers/gridReducer.ts:58-59 | actions of other reducers may be dropped from any sequence of actions, or put in |
| GridModel.Interleaved | www/src/components/redux/actions/gridActions.ts:19-143 | wherever the loading flags and toasts of overlapping requests fall, the grid ends up as after the bursts |
| Grid.Store.Unmark | www/src/components/redux/reducers/gridReducer.ts:34 | after the delete no row ever created is highlighted |
| Grid.Store.Reduce | www/src/components/redux/reducers/gridReducer.ts:27-61 | for every action the new row, filter, array and highlight of every row ever created, all of them unchanged by other reducers' actions; the heap step refines the step on values; inserts grow the same array, refreshes make a new one with equal contents |
| Grid.UploadSucceeds | www/src/components/redux/actions/gridActions.ts:63-103 | the new row stands at the end of the old array and of its copy, nothing is highlighted |
| Grid.Bystand | www/src/components/redux/actions/gridActions.ts:113-143 | a download or a failed request leaves pointer, filter, array and every highlight as they were |
| Grid.Perform | www/src/components/redux/actions/gridActions.ts:19-143 | a thunk's dispatches refine its burst on values |
| Grid.RunAll | www/src/components/redux/actions/gridActions.ts:19-143 | in every run, over all rows ever created, a row is highlighted exactly if it is `state.row`, which is then in the data |

## Left out

- The reader and writer library, the regular-expression engine, the token library, `EscapeFilter` and the session store: modelled by their documented behaviour, their code is not part of this model.
- Encodings of text: strings are byte sequences, so the errors that invalid UTF-8 causes in a protobuf encoder, and UTF-16 in the client, are not modelled.
- The messages' array representation inside the library, and wrapper caching in its getters: a message is its fields.
- Extensible matches and attribute options beyond their characters in the filter grammar, and the matching rules of a directory server: equality compares octets, and ordering, approximate and substring items are answered by a parameter.
- PercentPath.StripCommutes: raw paths begin with a slash, as request targets in origin form do.
- AuthRuns.PassedWasEarned: assumes that signatures cannot be forged; sessions and cookies are taken to hold any token a client can present.
- Grid.Store.Reduce: assumes that loaded and inserted rows are new and unmarked and that a clicked row is on show, as the page does.
- Binding to the directory, TLS, sockets, file access, uploads and downloads, reindexing, the HTTP server, CORS and logging: input and output.
- Concurrent access to the configuration: calls are one after another.
- `FileInfo` and the package reader behind it: any conforming encoder of the record is covered.
- Toasts, the loading flag, the folder tree widget, the login form and rendering: nothing but easy members.
- Route matching in the router: not decided by this code.
