# Piece installation: archive cache fill and version rules

This project models two parts of the activepieces piece installer in Dafny and proves properties of them.

1. **`RegistryPieceManager.installDependencies`** installs a list of pieces in two phases.
   - *Cache fill.* It walks the pieces and keeps each `ARCHIVE` piece whose archive file is not yet on the local disk. For each kept piece it fetches the archive from the file service and writes it to the piece's archive path.
   - *Install.* It maps every piece to a dependency and calls `packageManager.add` once, with the project path and the whole list.

   The class `PieceManager.RegistryPieceManager` holds the state the code reaches through module singletons:
   - the disk, as a `map<Path, Bytes>` field that the methods update in place;
   - the file store, as a constant map, where a missing key means `getOneOrThrow` throws;
   - a log of the archive ids passed to `getOneOrThrow`;
   - a log of the calls `packageManager.add` received.

   `InstallDependencies`, `SavePackageArchivesToDiskIfNotCached` (with its `Promise.all` loop `SaveAll`) and `GetUncachedArchivePackages` follow the loops of the code and are proved against pure functions in `CacheSpec`. `GetArchiveAndSaveToDisk`, `GetOneOrThrow` and `PackageManagerAdd` state their effect on the fields directly. The lemmas in `CacheSpec` state what the cache fill promises: completeness, skip-if-present, the frame, idempotence and failure before install.
2. **The version patterns** `EXACT_VERSION_PATTERN` (`^[0-9]+\.[0-9]+\.[0-9]+$`) and `VERSION_PATTERN` (`^([~^])?[0-9]+\.[0-9]+\.[0-9]+$`) of the piece request schemas. One small automaton models both: a string matches when the automaton sits in its accepting state after the last character. JavaScript's `$` without the `m` flag matches only at the end of the input, so a trailing newline is rejected. The lemmas prove:
   - the exact pattern accepts exactly the strings `MAJOR.MINOR.PATCH`, where each component is a non-empty digit run;
   - the general pattern adds at most one optional `~` or `^` in front;
   - each request schema's version field applies one of the two rules.

Files:
- `pieces.dfy` (module `Pieces`): the shared piece types.
- `piece_requests.dfy` (module `PieceRequests`): the version patterns and the request schemas.
- `cache_spec.dfy` (module `CacheSpec`): the specification functions of the cache fill and the lemmas about them.
- `registry_piece_manager.dfy` (module `PieceManager`): the class.

Two helpers are defined in files outside this model: `getPackageArchivePathForPiece`, with its root `PACKAGE_ARCHIVE_PATH`, and `pieceToDependency`. Both enter the model as function-valued parameters (`ArchivePathResolver.pathFor`, `RegistryPieceManager.pieceToDependency`). The model does not assume that the path function is collision-free. Only the lemmas that need it assume it, through the explicit condition `ArchivePathResolver.Injective()`.

## Model

| member | source | states |
|---|---|---|
| `PieceManager.RegistryPieceManager.InstallDependencies` | packages/backend/src/app/flows/common/piece-manager/registry-piece-manager.ts:15-23 | The cache fill runs first. On success, `add` is called exactly once, with the project path and `pieces.map(pieceToDependency)`. On failure the error is returned unchanged and `add` is never called. The call fails exactly when some uncached archive id is missing from the file store. |
| `PieceManager.RegistryPieceManager.SavePackageArchivesToDiskIfNotCached` | packages/backend/src/app/flows/common/piece-manager/registry-piece-manager.ts:25-29 | One fetch-and-save job runs for each uncached piece, in order, and every job runs. The fetch log grows by exactly the uncached archive ids. The disk becomes the filled disk. The result is the first job's failure, or Ok. |
| `PieceManager.RegistryPieceManager.SaveAll` | packages/backend/src/app/flows/common/piece-manager/registry-piece-manager.ts:28 | `Promise.all` over the jobs, as a loop in list order: every job runs, the fetch log grows by the jobs' archive ids, the disk becomes `FillCache` of the jobs, and the result is `JobsOutcome` of the jobs. |
| `PieceManager.RegistryPieceManager.GetUncachedArchivePackages` | packages/backend/src/app/flows/common/piece-manager/registry-piece-manager.ts:31-53 | The loop with `continue` returns exactly the filtered list `UncachedArchives(pieces, disk)` and changes nothing. |
| `PieceManager.RegistryPieceManager.GetArchiveAndSaveToDisk` | packages/backend/src/app/flows/common/piece-manager/registry-piece-manager.ts:55-69 | It fetches once. If the archive exists, it writes the file-store bytes at the resolved path and changes no other disk entry. If it is missing, it fails with NotFound for that id and leaves the disk unchanged. |
| `PieceManager.RegistryPieceManager.GetOneOrThrow` | packages/backend/src/app/flows/common/piece-manager/registry-piece-manager.ts:58-60 | It records the fetch. It returns the stored bytes, or NotFound when the key is absent. |
| `PieceManager.RegistryPieceManager.PackageManagerAdd` | packages/backend/src/app/flows/common/piece-manager/registry-piece-manager.ts:19-22 | `add` receives `{ path, dependencies }` exactly as given, once. |
| `PieceManager.InstallTwice` | packages/backend/src/app/flows/common/piece-manager/registry-piece-manager.ts:15-47 | A caller installs the same pieces twice. If the first install succeeds, the second one fetches nothing, leaves the disk unchanged, succeeds, and submits the same dependency list again. |
| `CacheSpec.UncachedArchives` | packages/backend/src/app/flows/common/piece-manager/registry-piece-manager.ts:31-53 | The filtered list is no longer than the input, and every piece in it is an ARCHIVE piece whose resolved path is absent from the disk. |
| `CacheSpec.KeptPositions` | packages/backend/src/app/flows/common/piece-manager/registry-piece-manager.ts:31-53 | The positions are strictly increasing and within the input. Position `j` is kept exactly when `pieces[j]` is an ARCHIVE piece whose path is absent from the disk. |
| `CacheSpec.UncachedIsOrderedFilter` | packages/backend/src/app/flows/common/piece-manager/registry-piece-manager.ts:31-53 | The k-th uncached piece is the input piece at the k-th kept position. So the uncached list is the ordered subsequence of exactly the uncached ARCHIVE pieces. |
| `CacheSpec.UncachedMembership` | packages/backend/src/app/flows/common/piece-manager/registry-piece-manager.ts:35-47 | A piece is uncached if and only if it is an input piece of type ARCHIVE whose resolved path is not on disk. REGISTRY pieces and already-cached archives never are. |
| `CacheSpec.ArchiveIds` | packages/backend/src/app/flows/common/piece-manager/registry-piece-manager.ts:56-60 | One `getOneOrThrow` id per job, in job order: the list has the jobs' length and its k-th id is the k-th job's archive id. |
| `CacheSpec.FillCache` | packages/backend/src/app/flows/common/piece-manager/registry-piece-manager.ts:62-68 | Running the jobs never removes a path from the disk, and every path it adds is the resolved path of some job whose archive the file store holds. |
| `CacheSpec.JobsOutcome` | packages/backend/src/app/flows/common/piece-manager/registry-piece-manager.ts:28 | A failure is always NotFound for an id the file store lacks, and that id belongs to one of the jobs. |
| `CacheSpec.JobsFailIffArchiveMissing` | packages/backend/src/app/flows/common/piece-manager/registry-piece-manager.ts:28-60 | The jobs fail if and only if some job's archive id is missing from the file store. The error names the first such job. |
| `CacheSpec.FillCacheFrame` | packages/backend/src/app/flows/common/piece-manager/registry-piece-manager.ts:62-68 | The filled disk has exactly the old paths plus the paths of the jobs that got their archive. Every other entry keeps its bytes. This holds on failure too. |
| `CacheSpec.FillCacheContents` | packages/backend/src/app/flows/common/piece-manager/registry-piece-manager.ts:62-68 | With collision-free paths, each job that got its archive leaves a file at its path holding exactly the file-store bytes. |
| `CacheSpec.CacheFillDisk` | packages/backend/src/app/flows/common/piece-manager/registry-piece-manager.ts:25-29 | The disk after the cache fill keeps every file already on disk, with its bytes: an existing file is never overwritten. |
| `CacheSpec.CacheFillComplete` | packages/backend/src/app/flows/common/piece-manager/registry-piece-manager.ts:25-69 | After a successful fill, every ARCHIVE input piece has a file at its resolved path. With collision-free paths, each newly fetched file holds exactly the file-store bytes for its id. |
| `CacheSpec.CachedArchiveUntouched` | packages/backend/src/app/flows/common/piece-manager/registry-piece-manager.ts:40-47 | An ARCHIVE piece whose file already exists is not fetched: no job carries its archive id. Its file keeps its bytes. |
| `CacheSpec.CacheFillFrame` | packages/backend/src/app/flows/common/piece-manager/registry-piece-manager.ts:62-68 | A path that belongs to no uncached piece is neither added, removed nor changed by the fill, whether or not the fill succeeds. |
| `CacheSpec.CacheFillIdempotent` | packages/backend/src/app/flows/common/piece-manager/registry-piece-manager.ts:25-47 | After a successful fill nothing in the same pieces is uncached. A second fill fetches nothing, leaves the disk unchanged and succeeds. |
| `CacheSpec.DuplicateArchiveFetchedTwice` | packages/backend/src/app/flows/common/piece-manager/registry-piece-manager.ts:31-60 | The same archive piece listed twice on an empty disk is fetched twice: the filter does not remove duplicates. |
| `CacheSpec.RegistryThenArchiveUncached` | packages/backend/src/app/flows/common/piece-manager/registry-piece-manager.ts:35-50 | On an empty disk, of a registry piece followed by an archive piece only the archive piece is uncached. |
| `CacheSpec.InstallScenario` | packages/backend/src/app/flows/common/piece-manager/registry-piece-manager.ts:25-69 | A registry piece and an archive piece, on an empty disk, give one fetch of that archive's id and one file at its path, and the fill succeeds. |
| `CacheSpec.MissingArchiveScenario` | packages/backend/src/app/flows/common/piece-manager/registry-piece-manager.ts:25-60 | If that archive is absent from the file store, the fill fails with NotFound for its id and writes nothing. |
| `CacheSpec.Dependencies` | packages/backend/src/app/flows/common/piece-manager/registry-piece-manager.ts:17 | The dependency list has the input's length. Its i-th element is `pieceToDependency(pieces[i])`. |
| `PieceRequests.Step` | packages/shared/src/lib/pieces/dto/piece-requests.ts:5-6 | One transition of the automaton for both patterns: the start state is never re-entered, a character other than a digit, `.`, `~` or `^` kills the match, and only a digit reaches the accepting state. |
| `PieceRequests.Run` | packages/shared/src/lib/pieces/dto/piece-requests.ts:5-6 | Reading a non-empty string always leaves the start state, so the optional prefix can only be the first character. |
| `PieceRequests.MatchesExactVersion` | packages/shared/src/lib/pieces/dto/piece-requests.ts:5 | `EXACT_VERSION_PATTERN.test(s)`: an accepted string is non-empty and starts with a digit. |
| `PieceRequests.MatchesVersion` | packages/shared/src/lib/pieces/dto/piece-requests.ts:6 | `VERSION_PATTERN.test(s)`: an accepted string is non-empty and starts with a digit, `~` or `^`. |
| `PieceRequests.ExactVersionCharacterization` | packages/shared/src/lib/pieces/dto/piece-requests.ts:5 | `EXACT_VERSION_PATTERN` accepts `s` if and only if `s` is `major + "." + minor + "." + patch`, with three non-empty digit runs. |
| `PieceRequests.ExactVersionAccepted` | packages/shared/src/lib/pieces/dto/piece-requests.ts:5 | Every `major.minor.patch` of non-empty digit runs is accepted. |
| `PieceRequests.ExactVersionShape` | packages/shared/src/lib/pieces/dto/piece-requests.ts:5 | An accepted exact version begins and ends with a digit. It contains only digits and dots, so no whitespace and no prefix. Every dot is followed by a digit, so no component is empty. It has exactly two dots, so exactly three components. |
| `PieceRequests.ExactVersionRejectsNonDigitStart` | packages/shared/src/lib/pieces/dto/piece-requests.ts:5 | A string whose first character is not a digit is rejected by the exact pattern, e.g. one starting with `~`, `^`, `v` or a blank. |
| `PieceRequests.VersionCharacterization` | packages/shared/src/lib/pieces/dto/piece-requests.ts:6 | `VERSION_PATTERN` accepts `s` if and only if `s` is exact, or `s` starts with `~` or `^` and the rest is exact. |
| `PieceRequests.VersionIsOptionalPrefixPlusExact` | packages/shared/src/lib/pieces/dto/piece-requests.ts:6 | `VERSION_PATTERN` accepts `s` if and only if `s` is exact, or `s == "~" + e` or `s == "^" + e` for some exact `e`. |
| `PieceRequests.VersionMeaning` | packages/shared/src/lib/pieces/dto/piece-requests.ts:6 | `VERSION_PATTERN` accepts `s` if and only if `s` is an exact version, or `~` or `^` followed by one. |
| `PieceRequests.ExactVersionIsVersion` | packages/shared/src/lib/pieces/dto/piece-requests.ts:5-6 | Every exact version is accepted by `VERSION_PATTERN`. |
| `PieceRequests.RangeVersionIsNotExact` | packages/shared/src/lib/pieces/dto/piece-requests.ts:5-6 | The inclusion is strict: `^1.2.3` and `~1.2.3` are versions but not exact versions. |
| `PieceRequests.VersionRejectsDoublePrefix` | packages/shared/src/lib/pieces/dto/piece-requests.ts:6 | At most one prefix character is allowed. Two leading prefix characters, such as `~^1.2.3` or `^^1.2.3`, are rejected. |
| `PieceRequests.ValidListPiecesRequestQuery` | packages/shared/src/lib/pieces/dto/piece-requests.ts:25-29 | The query is valid if and only if `release` is absent or an exact version. |
| `PieceRequests.ValidGetPieceRequestQuery` | packages/shared/src/lib/pieces/dto/piece-requests.ts:34-36 | The query is valid if and only if `version` is absent, or an exact version with at most one `~` or `^` in front. |
| `PieceRequests.ValidPieceOptionRequest` | packages/shared/src/lib/pieces/dto/piece-requests.ts:40-50 | The request is valid if and only if `pieceVersion` is an exact version with at most one `~` or `^` in front. |
| `PieceRequests.ValidAddPieceRequestBody` | packages/shared/src/lib/pieces/dto/piece-requests.ts:59-77 | Both variants are valid if and only if `pieceVersion` is an exact version. |
| `PieceRequests.RegistrationDemandsExactVersion` | packages/shared/src/lib/pieces/dto/piece-requests.ts:34-77 | Both `AddPieceRequestBody` variants accept a `pieceVersion` if and only if it is an exact version. Any version they accept is also accepted by `PieceOptionRequest.pieceVersion` and `GetPieceRequestQuery.version`. |
| `PieceRequests.OptionRequestsAcceptRanges` | packages/shared/src/lib/pieces/dto/piece-requests.ts:25-77 | A `^1.2.3` range is accepted by `PieceOptionRequest` and `GetPieceRequestQuery`. It is refused by both `AddPieceRequestBody` variants and by `ListPiecesRequestQuery.release`. |

## Left out

- Node's `fs`: directory creation by `mkdir(dirname(path), { recursive: true })` is not modelled, because the disk model holds files only and the call is idempotent. A failing `mkdir`, `writeFile` or `fileExists` (disk full, permissions) is not modelled either: writes always succeed.
- The `Promise.all` fan-out is modelled as a sequential loop in list order, where every job runs to completion. The real promise rejects as soon as the first job, in time order, fails. `installDependencies` then returns while sibling jobs may still be writing. The model reports the first failure in list order, after all jobs have run. In both, `add` is not called.
- Concurrent `installDependencies` calls and cross-process races on the cache directory are not modelled.
- Fetching is not promised to happen exactly once per archive id within one batch. The code does not remove duplicates: two input pieces that share an archive id both pass the existence check before anything is written, so both are fetched (`CacheSpec.DuplicateArchiveFetchedTwice`). They write identical bytes.
- `packageManager.add` is modelled by recording the call it receives. Installer work, lockfiles and installer errors are external to this model.
- `pieceToDependency`, `getPackageArchivePathForPiece` and `PACKAGE_ARCHIVE_PATH` have no definition in this model. They are parameters, and no output format is assumed for them.
- CacheSpec.CacheFillComplete: the contents half is stated only under `ArchivePathResolver.Injective()`, because collision-freedom of the path helper cannot be derived from code that is not part of this model. Existence of the files needs no such condition.
- CacheSpec.FillCacheContents: stated only under `ArchivePathResolver.Injective()`, for the same reason.
- The request schemas keep only their version fields and the scalar fields beside them. Several parts of the schemas are not modelled:
  - TypeBox validation machinery;
  - the `edition` field (`ApEdition`) of `ListPiecesRequestQuery`;
  - the unconstrained payloads `input` (`Type.Any`) and `pieceArchive` (`Type.Unknown`);
  - the meaning of `PieceScope`;
  - `GetPieceRequestParams` and `GetPieceRequestWithScopeParams`, whose fields are all unconstrained strings.
