# xbps package state registry and files index, in Dafny

A model of four pieces of the xbps package manager, with proofs about them.

- **Package state registry** (`lib/package_state.c`). A table maps the six
  lifecycle states (unpacked, installed, broken, config-files, not-installed,
  half-unpacked) to their tokens; 0 is the "unknown" sentinel. Records are
  package dictionaries whose `state` field is read and written through that
  table. `xbps_set_pkg_state_installed` is a read-modify-write transaction over
  the registry document: load it or start a fresh one, find the record by
  `pkgname` or build and append a new one, write the state, create the
  metadata directory when missing, and rewrite the whole document.
- **Files index writer** (`bin/xbps-rindex/files-add.c`). Each package's
  files are serialised as `sha256;file;target` lines, with `%` for a missing
  field. The old archive's entry names are listed, an indexed package is looked
  up by name, and a skip/register/replace decision is made per candidate. The
  intended new archive is the registered entries followed by the old entries
  that were not replaced; as the code is written the old entries are lost
  (see "## Findings").
- **Substring matcher of `xbps-locate`** (`bin/xbps-locate/main.c`),
  `strcontains`, with optional case folding.
- **Reverse lookup of `xbps-query --ownedby`** (`bin/xbps-query/ownedby.c`):
  `parse_line` reads an index line back into a `struct file`, and each line is
  matched by hash or by case-insensitive substring.

Modules:

- `Common` (`common.dfy`): `Option` (a possibly-NULL pointer), C-locale
  `tolower`, and `strtok_r` with a one-character delimiter (`StrTok`, `Tokens`).
- `PackageState` (`package_state.dfy`).
- `FilesIndex` (`files_index.dfy`).
- `Locate` (`locate.dfy`).
- `OwnedBy` (`owned_by.dfy`).

Modelling choices:

- The registry transaction works on objects. A loaded document is
  internalised into a `Document` whose `packages` array holds `Record`
  references, so a record that is found is updated in place. Its result is
  compared with `ApplyState`, a value-level statement of what the transaction
  does to the document.
- Anything the transaction learns from outside is a parameter (`Environment`):
  the loaded document (or load failure), errno after an unsuccessful lookup,
  the `access` result for the metadata directory, and the outcomes of
  `xbps_mkpath` and of the write.
- `xbps_pkg_name`, `xbps_cmpver` and `xbps_pkg_reverts` are function parameters
  of the files-index model.
- Some details of the transaction are easy to misread; the model follows the
  code in each:
  - an unencodable state makes `set_new_state` return -1, not `EINVAL`;
  - when `access` on the metadata directory fails with an errno other than
    `ENOENT`, the failure is ignored and the document is still written;
  - only an `access` failing with `ENOENT` followed by a failed `xbps_mkpath`
    aborts before the write;
  - a failed name lookup whose errno is set to something other than `ENOENT`
    aborts the transaction with that errno.

## Model

| member | source | states |
|---|---|---|
| PackageState.TableIsInjective | lib/package_state.c:39-47 | the six table numbers are nonzero and pairwise distinct, and so are the six tokens |
| PackageState.TokenFrom | lib/package_state.c:66-71 | the scan of `set_new_state` finds a token exactly when some remaining row carries the state, and that row pairs the token with the state |
| PackageState.NumberFrom | lib/package_state.c:98-102 | the scan of `get_state` yields a nonzero number exactly when some remaining row carries the token, and that row pairs the token with the number; otherwise the sentinel's 0 |
| PackageState.Decode | lib/package_state.c:94-96 | an absent `state` key decodes to 0 |
| PackageState.DecodeEncode | lib/package_state.c:56-103 | decoding the token written for an encodable state gives that state back |
| PackageState.EncodeDecode | lib/package_state.c:56-103 | a token that decodes to a nonzero state is what that state encodes to |
| PackageState.EncodableStates | lib/package_state.c:66-71 | a state can be encoded exactly when it is one of the six table values (1..6); 0 and every other number cannot |
| PackageState.GetState | lib/package_state.c:86-103 | 0 exactly when the record has no `state` key or its value is no table token; otherwise the record's token and the result form a table row |
| PackageState.SetNewState | lib/package_state.c:56-84 | returns 0 exactly for an encodable state, then stores its token under `state` and nothing else changes, and `get_state` reads the state back; otherwise returns -1 and the record is unchanged |
| PackageState.SetPkgStateDictionary | lib/package_state.c:137-143 | 0 exactly for states 1..6, with `state` added to the keys, the state read back and every other key unchanged; -1 and an unchanged record otherwise |
| PackageState.PkgStateDictionary | lib/package_state.c:125-135 | `*state` is the decoded state; `EINVAL` exactly when it is 0, and 0 (with a state in 1..6) otherwise |
| PackageState.PkgStateInstalled | lib/package_state.c:105-123 | `ENOENT` with `*state` untouched when the package is not installed; otherwise `*state` is the decoded state and the result is `EINVAL` when that is 0 and 0 when it is a table state |
| PackageState.FindFrom | lib/package_state.c:230-231 | the lookup by name returns the first record carrying `pkgname`, and None exactly when no record carries it |
| PackageState.Internalize | lib/package_state.c:190 | the loaded document becomes fresh, pairwise distinct record objects whose contents are the loaded value |
| PackageState.FindPkgInDictByName | lib/package_state.c:230-231 | returns, by reference, the record at the first position whose `pkgname` matches, or null exactly when there is none |
| PackageState.PkgObjs | lib/package_state.c:145-164 | the new record has `pkgname`, has `version` and `pkgver` exactly when they are given, with their values, and no other key |
| PackageState.SetPkgObjs | lib/package_state.c:145-164 | fills an empty dictionary with exactly those fields |
| PackageState.ApplyState | lib/package_state.c:190-266 | the in-memory transaction: a failure carries a non-zero code, and a success needs a state with a token and leaves a non-empty `packages` array |
| PackageState.ApplyLookupFails | lib/package_state.c:231-237 | a lookup that finds nothing and leaves an errno other than 0 or `ENOENT` fails the transaction with that errno |
| PackageState.ApplyOnFreshDocument | lib/package_state.c:190-228 | when loading failed and the state is encodable, the result has a `packages` array of exactly one record with the name, the optional fields as given and the state |
| PackageState.ApplyToExistingRecord | lib/package_state.c:229-266 | when the name is present, the record count and every other record are unchanged, the found record only gains or changes `state` (its `version`/`pkgver` stay), and the new state decodes back |
| PackageState.ApplyToAbsentRecord | lib/package_state.c:229-266 | when the name is absent and the lookup errno is 0 or `ENOENT`, the old records are kept as a prefix and exactly one new record, named and holding the state, is appended (a missing array counts as empty) |
| PackageState.ApplyRejectsUnknownState | lib/package_state.c:166-266 | a state outside 1..6 always fails: with the lookup errno when the lookup failed with another errno, otherwise with -1 |
| PackageState.ApplyPreservesInvariants | lib/package_state.c:166-266 | a successful transaction keeps `pkgname` unique across records and every `state` decodable |
| PackageState.UpdateKeepsInvariants | lib/package_state.c:256-260 | rewriting the found record's `state` keeps names unique and states decodable |
| PackageState.AppendKeepsInvariants | lib/package_state.c:238-265 | appending a record for an absent name keeps names unique and states decodable |
| PackageState.ReapplyKeepsFirstFields | lib/package_state.c:190-266 | a first run on a fresh store then a second run for the same name leave one record, with the second state and the first run's `version`/`pkgver` |
| PackageState.BuildFreshDocument | lib/package_state.c:190-228 | the load-failure path returns the transaction's error code or a document equal to its result |
| PackageState.UpdateLoadedDocument | lib/package_state.c:229-266 | the loaded-document path returns the transaction's error code or a document equal to its result |
| PackageState.AppendToLoaded | lib/package_state.c:238-265 | when the name is absent, returns the transaction's error code, or 0 with the document equal to its result |
| PackageState.UpdateFoundRecord | lib/package_state.c:256-260 | when the name is present, returns the transaction's error code, or 0 with the document equal to its result |
| PackageState.AppendNewRecord | lib/package_state.c:238-265 | fails with -1 exactly for an unencodable state; otherwise the document is the old records followed by the new record with its state |
| PackageState.NewPkgRecord | lib/package_state.c:239-244 | a fresh record holding the `set_pkg_objs` fields |
| PackageState.EnsurePackages | lib/package_state.c:246-255 | afterwards a `packages` array exists, holding the same records as before (none when it was missing) |
| PackageState.AttachRecord | lib/package_state.c:261-265 | the record is appended at the end and the others are unchanged |
| PackageState.SetFoundRecordState | lib/package_state.c:256-260 | fails with -1 exactly for an unencodable state; otherwise only the found record's `state` changes |
| PackageState.SetPkgStateInstalled | lib/package_state.c:166-296 | a failed transaction returns its code and writes nothing; otherwise, when `access` fails with `ENOENT` and `xbps_mkpath` fails, returns the errno of `xbps_mkpath` and writes nothing, and in every other case (any other `access` errno included) the document written is the transaction's result and the code is 0 or the write's errno |
| FilesIndex.LineBody | bin/xbps-rindex/files-add.c:62-74 | a line body is never empty, and holds no newline when the entry's fields hold none |
| FilesIndex.FilesText | bin/xbps-rindex/files-add.c:56-77 | the serialisation of an array is empty exactly when the array is, and otherwise ends in a newline |
| FilesIndex.OrPercent | bin/xbps-rindex/files-add.c:62-74 | a missing field is written as `%`, a present one verbatim |
| FilesIndex.AddFilesToFile | bin/xbps-rindex/files-add.c:47-78 | only appends to `dest`; a NULL array appends nothing, otherwise the serialisation of the array |
| FilesIndex.AppendEntries | bin/xbps-rindex/files-add.c:56-77 | appends one line per entry, in array order, after the existing text |
| FilesIndex.AppendNext | bin/xbps-rindex/files-add.c:56-77 | one iteration extends the text by the line of entry `i` |
| FilesIndex.AppendLine | bin/xbps-rindex/files-add.c:57-76 | appends `sha256;file;target` and a newline, `%` standing for a missing field |
| FilesIndex.BuildPackageText | bin/xbps-rindex/files-add.c:274-281 | a package's content is the serialisation of the entries of all its arrays, in key order |
| FilesIndex.FilesTextConcat | bin/xbps-rindex/files-add.c:274-281 | serialising two arrays one after the other equals serialising their concatenation |
| FilesIndex.PackageTextIsFilesText | bin/xbps-rindex/files-add.c:274-281 | appending array after array gives the serialisation of all entries in order |
| FilesIndex.FilesTextLines | bin/xbps-rindex/files-add.c:56-77 | splitting the content at newlines gives back exactly one line per entry, in order, when no field holds a newline |
| FilesIndex.WithoutHashes | bin/xbps-rindex/files-add.c:85-91 | a name is listed exactly when it is an archive entry name other than "HASHES" |
| FilesIndex.WithoutHashesConcat | bin/xbps-rindex/files-add.c:85-91 | the filter keeps archive order |
| FilesIndex.ArchiveReader.constructor | bin/xbps-rindex/files-add.c:157-172 | a reader opened on an archive stands before its first entry |
| FilesIndex.ArchiveReader.NextHeader | bin/xbps-rindex/files-add.c:85 | returns the next entry and advances past it, or nothing at the end, where the reader stays |
| FilesIndex.ListPackages | bin/xbps-rindex/files-add.c:80-92 | reads the archive to its end, appending the names of the entries read, in order, without "HASHES" |
| FilesIndex.MatchFrom | bin/xbps-rindex/files-add.c:106-115 | any result is a later entry whose extracted package name is `str` |
| FilesIndex.MatchByName | bin/xbps-rindex/files-add.c:94-119 | any result is an entry whose extracted package name is `str` |
| FilesIndex.MatchFindsFirst | bin/xbps-rindex/files-add.c:106-115 | the first entry named `str` is returned when every earlier name could be extracted |
| FilesIndex.MatchStopsAtUnnamable | bin/xbps-rindex/files-add.c:109-110 | an entry whose name cannot be extracted ends the search with NULL, even when a later entry would match |
| FilesIndex.MatchPkgnameInArray | bin/xbps-rindex/files-add.c:94-119 | the iterator walk returns what the first-match scan specifies |
| FilesIndex.Decide | bin/xbps-rindex/files-add.c:239-262 | registered outright exactly when forced or not indexed; otherwise skipped exactly when the versions are equal, older and not reverting the indexed pkgver, or newer but reverted by the candidate itself; a replacement names the indexed pkgver |
| FilesIndex.Judge | bin/xbps-rindex/files-add.c:239-267 | a replaced pkgver is one of the indexed names |
| FilesIndex.Kept | bin/xbps-rindex/files-add.c:294-300 | an old entry is copied exactly when its name is not in `ignore_packages` |
| FilesIndex.Names | bin/xbps-rindex/files-add.c:86 | the names of the archive entries, in order |
| FilesIndex.Process | bin/xbps-rindex/files-add.c:217-291 | the candidate loop as a value: every entry written is a readable candidate's, every ignored pkgver was found in the old index, and there are no more ignored pkgvers than entries written |
| FilesIndex.NewArchive | bin/xbps-rindex/files-add.c:217-300 | nothing enters the new archive but readable candidates' entries and old entries |
| FilesIndex.IndexCandidates | bin/xbps-rindex/files-add.c:151-291 | lists the old archive (leaving its reader at the end) when there is one, then writes the candidates' entries and collects the replaced pkgvers as the candidate loop specifies |
| FilesIndex.FilesAdd | bin/xbps-rindex/files-add.c:132-300 | with the old archive read again from its start for the merge: the new archive is the registered candidates' entries followed by the old entries not replaced |
| FilesIndex.FilesAddAsWritten | bin/xbps-rindex/files-add.c:151-300 | as the code stands, the merge reads the reader `list_packages` exhausted, so the new archive is the registered candidates' entries alone |
| FilesIndex.AsWrittenArchive | bin/xbps-rindex/files-add.c:173-175 | the archive written as the code stands is a prefix of the intended one and holds only candidates' entries |
| FilesIndex.OldIndexLost | bin/xbps-rindex/files-add.c:173-175 | with an old archive and no candidate, the code as written leaves an empty archive where the whole old one is intended |
| FilesIndex.RegisterCandidates | bin/xbps-rindex/files-add.c:217-292 | writes the entries of the candidates not skipped and appends every replaced pkgver to `ignore_packages` |
| FilesIndex.RegisterNext | bin/xbps-rindex/files-add.c:218-291 | one candidate: skipped, registered, or registered with its indexed pkgver ignored |
| FilesIndex.CopyKept | bin/xbps-rindex/files-add.c:294-300 | reads the rest of the archive and copies exactly the entries read that are not named in `ignore_packages`, in order |
| FilesIndex.CopyNext | bin/xbps-rindex/files-add.c:294-300 | one pass of the merge loop: the next entry is read and copied unless ignored, or the archive is exhausted |
| FilesIndex.ForceRegistersAll | bin/xbps-rindex/files-add.c:239 | with `force` every readable candidate is written, in order, and nothing is ignored |
| FilesIndex.ForcedArchive | bin/xbps-rindex/files-add.c:239-300 | with `force` the new archive is the candidates followed by the whole old archive |
| FilesIndex.SkippedAddsNothing | bin/xbps-rindex/files-add.c:258-262 | a skipped candidate writes nothing and ignores nothing |
| FilesIndex.ReplaceDropsIndexed | bin/xbps-rindex/files-add.c:264-300 | a replacing candidate's entry is in the new archive and the replaced old entry is not |
| Locate.CharAt | bin/xbps-locate/main.c:74-82 | reading past the end of a NUL-free string yields the terminating NUL, and only then |
| Locate.LowerWhen | bin/xbps-locate/main.c:68 | the identity without `ignorecase`; NUL is kept and nothing else becomes NUL |
| Locate.Contains | bin/xbps-locate/main.c:74-86 | a match needs a non-empty needle no longer than the haystack |
| Locate.CompareAt | bin/xbps-locate/main.c:78-82 | the do-while reports success exactly when the needle agrees with the haystack from that position, character by character after `LOWERWHEN` |
| Locate.StrContains | bin/xbps-locate/main.c:70-86 | true exactly when some position starts with the needle's first character verbatim and agrees with the whole needle after `LOWERWHEN` |
| Locate.CaseSensitiveIsSubstring | bin/xbps-locate/main.c:70-86 | without `ignorecase`: true exactly when a non-empty needle occurs as a contiguous substring |
| Locate.SensitiveImpliesInsensitive | bin/xbps-locate/main.c:68-82 | a case-sensitive match is also a case-insensitive one |
| Locate.AgreesIsFoldedSlice | bin/xbps-locate/main.c:68 | agreement under `LOWERWHEN` is equality of the lower-cased slice and needle |
| Locate.IgnoreCaseCharacterization | bin/xbps-locate/main.c:68-82 | with `ignorecase`: true exactly when some position holds the needle's first character verbatim and the lower-cased slice there equals the lower-cased needle |
| Locate.FirstCharacterKeepsCase | bin/xbps-locate/main.c:75-77 | "ABC" does not contain "abc" with `ignorecase`, although both lower-case to the same string |
| Locate.StrContainsFolded | bin/xbps-locate/main.c:70-86 | with the first comparison also under `LOWERWHEN`, meets the corrected specification |
| Locate.FoldedIsCaseInsensitiveSubstring | bin/xbps-locate/main.c:68-86 | the corrected matcher finds a non-empty needle exactly when it occurs case-insensitively, and agrees with the original without `ignorecase` |
| OwnedBy.FileInfo.constructor | bin/xbps-query/ownedby.c:151 | the struct holds whatever it is given, standing for its uninitialised contents |
| OwnedBy.FieldValue | bin/xbps-query/ownedby.c:64-65 | exactly the field `%` becomes NULL; any other field is kept verbatim |
| OwnedBy.AssignAll | bin/xbps-query/ownedby.c:66-76 | field 1 lands in `hash`, field 2 in `path`, field 3 in `target`; members without a field keep their values and later fields are ignored |
| OwnedBy.Parsed | bin/xbps-query/ownedby.c:57-78 | a line without fields leaves the struct as it was, and a line with three or more fields sets all three members whatever the struct held |
| OwnedBy.ParseLine | bin/xbps-query/ownedby.c:57-78 | the struct afterwards is the old one with the line's `;`-separated fields assigned in order |
| OwnedBy.StoreField | bin/xbps-query/ownedby.c:64-76 | one pass of the `switch` stores field `field_nr` |
| OwnedBy.LineFields | bin/xbps-query/ownedby.c:61-77 | a line written by the serialiser splits into exactly its three fields |
| OwnedBy.LineRoundTrip | bin/xbps-query/ownedby.c:57-78 | parsing a line written by `add_files_to_file` recovers sha256, file and target, with an absent one back as NULL, whatever the struct held |
| OwnedBy.EmptyFieldsCollapse | bin/xbps-query/ownedby.c:61-77 | `;;` parses as `;`: no empty field is produced |
| OwnedBy.ExtraFieldsIgnored | bin/xbps-query/ownedby.c:66-76 | anything after the third field does not change the result |
| OwnedBy.StrCaseStr | bin/xbps-query/ownedby.c:160 | true exactly when the expression occurs in the string after ASCII lower-casing (the empty expression everywhere) |
| OwnedBy.StrCaseEq | bin/xbps-query/ownedby.c:157 | two strings compare equal exactly when they have the same length and agree at every position up to ASCII case; equal strings compare equal, and strings that compare equal agree at every position that is not an ASCII letter |
| OwnedBy.LineMatches | bin/xbps-query/ownedby.c:156-162 | a hash search matches exactly the lines with a hash equal to the expression up to ASCII case; a substring search matches exactly the lines whose path, or whose link target when there is one, contains the expression up to ASCII case |
| OwnedBy.ScanHits | bin/xbps-query/ownedby.c:153-169 | the reported lines, the struct carried from line to line: at most one per line, each one a match |
| OwnedBy.HashMatchIgnoresCase | bin/xbps-query/ownedby.c:156-158 | a hash search ignores the case of the expression, and a line without hash never matches |
| OwnedBy.EmptyExpressionMatchesEveryPath | bin/xbps-query/ownedby.c:159-162 | an empty substring matches every line with a path |
| OwnedBy.ScanLine | bin/xbps-query/ownedby.c:155-168 | parses the line into the struct and reports it exactly when it matches |
| OwnedBy.NextLine | bin/xbps-query/ownedby.c:153 | returns the first remaining line and leaves the rest to split, or NULL when no line remains |
| OwnedBy.SearchEntry | bin/xbps-query/ownedby.c:153-169 | reports exactly the matching lines of the entry, in order, the struct carried from line to line |
| OwnedBy.ScanNext | bin/xbps-query/ownedby.c:154-169 | one line moves from the unscanned rest to the reported hits |
| OwnedBy.ScanBodies | bin/xbps-query/ownedby.c:153-169 | scanning serialised lines by hash reports the entries whose sha256 equals the expression up to case |
| OwnedBy.HashSearchOverSerialisedEntry | bin/xbps-query/ownedby.c:153-169 | a hash search over content written by `add_files_to_file` reports exactly the files whose sha256 equals the expression up to case, in order |
| Common.ToLower | bin/xbps-locate/main.c:68 | only `A`..`Z` change, each to the letter 32 code points above it, and NUL stays NUL |
| Common.StrTok | bin/xbps-query/ownedby.c:61 | no token exactly when only delimiters remain; a token is non-empty and free of the delimiter, and the rest is shorter |
| Common.Tokens | bin/xbps-query/ownedby.c:61-77 | the tokens of repeated `strtok_r` calls are each non-empty and free of the delimiter |
| Common.DelimitersCollapse | bin/xbps-query/ownedby.c:77 | consecutive delimiters yield no empty token |

## Left out

- Allocation failure (`ENOMEM` paths), reference counting and every
  `prop_object_release`/`free`: memory is managed by Dafny.
- The registry file path (`xbps_handle_get`, `xbps_xasprintf`) and the
  DEBUG logging: the path plays no part in the logic.
- Storage of the registry document: loading and writing compressed plists
  are environment inputs and outputs (`Environment`, the written `DocValue`).
- `prop_dictionary_set_cstring_nocopy`, `xbps_add_obj_to_array` and
  `xbps_add_obj_to_dict` are taken to succeed: their failures come only from
  allocation.
- `xbps_find_pkg_dict_installed` is a function parameter returning the
  record's fields or nothing.
- `xbps_find_pkg_in_dict_by_name` is defined outside the modelled files. The
  model takes it as a first-match scan on `pkgname`, and the errno it leaves
  is a parameter.
- The numbering of `pkg_state_t` is taken as 1..6 in table order; it is
  defined outside the modelled files.
- `DocValue` keeps only the `packages` array and string-valued record fields.
  The transaction rewrites the whole loaded dictionary, other keys included;
  those keys play no part in the logic.
- The `access`/`xbps_mkpath` calls are abstract outcomes. No directory is
  created or checked.
- Repository locking, `mkstemp`, `umask`, `fchmod` and `rename`, compression
  filters and libarchive reading and writing: archives are sequences of
  (name, content) entries.
- The architecture check and the missing-`files.plist` branch in `files_add`.
  Both release `props_plist` and carry on using it (use after free).
  Candidates are taken as readable packages or as unreadable ones (None),
  which are skipped.
- FilesIndex.FilesAdd: the merge reads the old archive through a reader
  opened afresh, the evident intent. The code reuses the reader that
  `list_packages` exhausted; `FilesIndex.FilesAddAsWritten` models that, and
  "## Findings" records the difference.
- FilesIndex.ForcedArchive: describes the intended archive, which keeps the
  whole old archive. As the code stands the old entries are lost (see
  "## Findings").
- A failed header or data write while copying an old entry: the model takes
  every write to succeed.
- `xbps_dictionary_all_keys` ordering: the arrays of a files dictionary are
  given in the order the keys are returned.
- `xbps_pkg_name`, `xbps_cmpver` and `xbps_pkg_reverts` are uninterpreted
  function parameters.
- The regular-expression search mode of `repo_search_files` (`regcomp`,
  `regexec`): a foreign library.
- `tolower`, `strcasecmp` and `strcasestr` are ASCII-only, as in the C locale.
- Printing of matches (`print_line`) and of progress messages: a match is
  reported by returning the parsed fields.
- OwnedBy.LineMatches: a NULL `path` in substring mode counts as no match.
  The C code passes it to `strcasestr`, which is undefined behaviour.
- OwnedBy.ParseLine: requires a line with at least one field. The C code
  dereferences the first token without a NULL check.
- OwnedBy.SearchEntry: requires at least one line, each with a field. An
  empty entry content reaches `parse_line` with a NULL line in the C code.
- `archive_get_file` failures (a NULL content) are not modelled.

## Findings

| source | as written | input that shows it | evidently intended | confidence | as-written member | corrected member |
|---|---|---|---|---|---|---|
| bin/xbps-rindex/files-add.c:173-175 | `list_packages` reads the old archive to its end; the `fseek` rewinds only the underlying FILE, not the libarchive reader, so the merge loop at lines 294-323 reads no entry and the old entries are not copied | an existing files archive holding the entry "foo-1.0_1", no readable candidate: the new archive is empty | the old entries not replaced are copied after the registered ones (the reader is reopened, as the comment at line 174 suggests) | high, not executed | FilesIndex.OldIndexLost | FilesIndex.FilesAdd |
| bin/xbps-locate/main.c:75-77 | the attempt starts only when `*haystack != *b` is false, a comparison made without `LOWERWHEN`, so the first character of the needle is matched case-sensitively even with `ignorecase` | haystack "ABC", needle "abc", `ignorecase` true: returns false | a case-insensitive match on every character, first one included | high, not executed | Locate.FirstCharacterKeepsCase | Locate.FoldedIsCaseInsensitiveSubstring |
