/**
 * The archive cache of RegistryPieceManager, as functions of the disk, the file store and the
 * piece list. The class in registry_piece_manager.dfy is proved against these; the lemmas here
 * state what the cache fill promises.
 */
module CacheSpec {
  import opened Pieces

  newtype byte = x: int | 0 <= x < 256

  type Path = string
  type Bytes = seq<byte>

  /** The local file system: which paths hold a file, and what bytes it holds. */
  type Disk = map<Path, Bytes>

  /** The file service: the archives it can return; a missing key makes getOneOrThrow fail. */
  type FileStore = map<ArchiveId, Bytes>

  /**
   * getPackageArchivePathForPiece with the fixed archive root PACKAGE_ARCHIVE_PATH. Neither is
   * part of this model, so the path function is a parameter; collision-freedom is assumed
   * explicitly, by `Injective()`, wherever a property needs it.
   */
  datatype ArchivePathResolver = ArchivePathResolver(pathFor: (ArchiveId, Path) -> Path, root: Path)
  {
    function Resolve(archiveId: ArchiveId): Path { pathFor(archiveId, root) }

    ghost predicate Injective() {
      forall a: ArchiveId, b: ArchiveId :: Resolve(a) == Resolve(b) ==> a == b
    }
  }

  datatype Error = NotFound(fileId: ArchiveId)

  /** How a call ends: normally, or with the error it throws. */
  datatype Outcome = Ok | Fail(error: Error)

  // ---------------------------------------------------------------------------
  // Phase 1: which pieces are uncached
  // ---------------------------------------------------------------------------

  /** The loop body's test: an ARCHIVE piece whose archive file is not on disk. */
  predicate IsUncachedArchive(p: PiecePackage, disk: Disk, res: ArchivePathResolver) {
    p.PackageTypeOf() == ARCHIVE && res.Resolve(p.archiveId) !in disk
  }

  /** What getUncachedArchivePackages returns, built up the way its loop pushes. */
  function UncachedArchives(pieces: seq<PiecePackage>, disk: Disk, res: ArchivePathResolver): (jobs: seq<PrivatePiece>)
    ensures |jobs| <= |pieces|
    ensures forall k :: 0 <= k < |jobs| ==> IsUncachedArchive(jobs[k], disk, res)
  {
    if pieces == [] then []
    else
      var p := pieces[|pieces| - 1];
      UncachedArchives(pieces[..|pieces| - 1], disk, res) + (if IsUncachedArchive(p, disk, res) then [p] else [])
  }

  /** The input positions that survive the filter, in increasing order. */
  function KeptPositions(pieces: seq<PiecePackage>, disk: Disk, res: ArchivePathResolver): (ix: seq<nat>)
    ensures forall k :: 0 <= k < |ix| ==> ix[k] < |pieces|
    ensures forall k, l :: 0 <= k < l < |ix| ==> ix[k] < ix[l]
    ensures forall j :: 0 <= j < |pieces| ==> (j in ix <==> IsUncachedArchive(pieces[j], disk, res))
  {
    if pieces == [] then []
    else
      var n := |pieces| - 1;
      var before := KeptPositions(pieces[..n], disk, res);
      assert forall j :: 0 <= j < n ==> pieces[..n][j] == pieces[j];
      before + (if IsUncachedArchive(pieces[n], disk, res) then [n] else [])
  }

  /**
   * The uncached list is the input restricted to the positions that pass the filter, in input
   * order: its k-th element is the input's element at the k-th kept position.
   */
  lemma {:induction false} UncachedIsOrderedFilter(pieces: seq<PiecePackage>, disk: Disk, res: ArchivePathResolver)
    ensures |UncachedArchives(pieces, disk, res)| == |KeptPositions(pieces, disk, res)|
    ensures forall k :: 0 <= k < |UncachedArchives(pieces, disk, res)| ==>
              UncachedArchives(pieces, disk, res)[k] == pieces[KeptPositions(pieces, disk, res)[k]]
  {
    if pieces != [] {
      var n := |pieces| - 1;
      UncachedIsOrderedFilter(pieces[..n], disk, res);
      var tail := if IsUncachedArchive(pieces[n], disk, res) then [pieces[n]] else [];
      assert UncachedArchives(pieces, disk, res) == UncachedArchives(pieces[..n], disk, res) + tail;
      assert KeptPositions(pieces, disk, res) == KeptPositions(pieces[..n], disk, res) + (if tail == [] then [] else [n]);
      assert forall j :: 0 <= j < n ==> pieces[..n][j] == pieces[j];
    }
  }

  /**
   * A piece is in the uncached list exactly when it is an input ARCHIVE piece whose file is
   * absent; in particular REGISTRY pieces and already-cached archives never are.
   */
  lemma {:induction false} UncachedMembership(pieces: seq<PiecePackage>, disk: Disk, res: ArchivePathResolver, p: PiecePackage)
    ensures p in UncachedArchives(pieces, disk, res) <==> p in pieces && IsUncachedArchive(p, disk, res)
  {
    if pieces != [] {
      var n := |pieces| - 1;
      UncachedMembership(pieces[..n], disk, res, p);
      assert pieces == pieces[..n] + [pieces[n]];
    }
  }

  // ---------------------------------------------------------------------------
  // Phase 2: the fetch-and-save jobs
  // ---------------------------------------------------------------------------

  /** The archive ids passed to getOneOrThrow, one per job, in job order. */
  function ArchiveIds(jobs: seq<PrivatePiece>): (ids: seq<ArchiveId>)
    ensures |ids| == |jobs|
    ensures forall k :: 0 <= k < |jobs| ==> ids[k] == jobs[k].archiveId
  {
    if jobs == [] then [] else ArchiveIds(jobs[..|jobs| - 1]) + [jobs[|jobs| - 1].archiveId]
  }

  /** The disk after running the jobs one after another: a job whose archive exists writes it. */
  function FillCache(disk: Disk, jobs: seq<PrivatePiece>, files: FileStore, res: ArchivePathResolver): (filled: Disk)
    ensures disk.Keys <= filled.Keys
    ensures forall path :: path in filled && path !in disk ==>
              exists k :: 0 <= k < |jobs| && jobs[k].archiveId in files && res.Resolve(jobs[k].archiveId) == path
  {
    if jobs == [] then disk
    else
      var before := FillCache(disk, jobs[..|jobs| - 1], files, res);
      var id := jobs[|jobs| - 1].archiveId;
      assert forall k :: 0 <= k < |jobs| - 1 ==> jobs[..|jobs| - 1][k] == jobs[k];
      if id in files then before[res.Resolve(id) := files[id]] else before
  }

  /** What Promise.all over the jobs settles to: the first job's failure, if any job fails. */
  function JobsOutcome(jobs: seq<PrivatePiece>, files: FileStore): (r: Outcome)
    ensures r.Fail? ==> r.error.fileId !in files && exists k :: 0 <= k < |jobs| && jobs[k].archiveId == r.error.fileId
  {
    if jobs == [] then Ok
    else
      var before := JobsOutcome(jobs[..|jobs| - 1], files);
      var id := jobs[|jobs| - 1].archiveId;
      assert forall k :: 0 <= k < |jobs| - 1 ==> jobs[..|jobs| - 1][k] == jobs[k];
      if before.Fail? then before else if id !in files then Fail(NotFound(id)) else Ok
  }

  /** The paths of the jobs that got their archive, i.e. the paths that were written. */
  ghost function WrittenPaths(jobs: seq<PrivatePiece>, files: FileStore, res: ArchivePathResolver): set<Path> {
    set j | j in jobs && j.archiveId in files :: res.Resolve(j.archiveId)
  }

  /** The jobs fail exactly when one of them names an archive the file store lacks, and then with the first such. */
  lemma {:induction false} JobsFailIffArchiveMissing(jobs: seq<PrivatePiece>, files: FileStore)
    ensures JobsOutcome(jobs, files).Fail? <==> exists j :: j in jobs && j.archiveId !in files
    ensures JobsOutcome(jobs, files).Fail? ==>
              exists k :: 0 <= k < |jobs| && jobs[k].archiveId == JobsOutcome(jobs, files).error.fileId
                          && jobs[k].archiveId !in files
                          && forall m :: 0 <= m < k ==> jobs[m].archiveId in files
  {
    if jobs != [] {
      var n := |jobs| - 1;
      JobsFailIffArchiveMissing(jobs[..n], files);
      assert jobs == jobs[..n] + [jobs[n]];
      assert forall m :: 0 <= m < n ==> jobs[..n][m] == jobs[m];
      if JobsOutcome(jobs[..n], files).Fail? {
        var k :| 0 <= k < n && jobs[..n][k].archiveId == JobsOutcome(jobs[..n], files).error.fileId
                 && jobs[..n][k].archiveId !in files
                 && forall m :: 0 <= m < k ==> jobs[..n][m].archiveId in files;
        assert jobs[k] == jobs[..n][k];
      } else if jobs[n].archiveId !in files {
        assert forall m :: 0 <= m < n ==> jobs[m] in jobs[..n];
      }
    }
  }

  /**
   * The fill adds exactly the written paths, overwrites nothing else, and every job that got its
   * archive left a file at its path. These hold whether or not some other job failed.
   */
  lemma {:induction false} FillCacheFrame(disk: Disk, jobs: seq<PrivatePiece>, files: FileStore, res: ArchivePathResolver)
    ensures FillCache(disk, jobs, files, res).Keys == disk.Keys + WrittenPaths(jobs, files, res)
    ensures forall path :: path in disk && path !in WrittenPaths(jobs, files, res) ==>
              FillCache(disk, jobs, files, res)[path] == disk[path]
  {
    if jobs != [] {
      var n := |jobs| - 1;
      FillCacheFrame(disk, jobs[..n], files, res);
      assert jobs == jobs[..n] + [jobs[n]];
      assert WrittenPaths(jobs, files, res) ==
             WrittenPaths(jobs[..n], files, res) + (if jobs[n].archiveId in files then {res.Resolve(jobs[n].archiveId)} else {});
    }
  }

  /** With collision-free paths, each written file holds exactly the file-store bytes of its archive. */
  lemma {:induction false} FillCacheContents(disk: Disk, jobs: seq<PrivatePiece>, files: FileStore, res: ArchivePathResolver)
    requires res.Injective()
    ensures forall j :: j in jobs && j.archiveId in files ==>
              res.Resolve(j.archiveId) in FillCache(disk, jobs, files, res)
              && FillCache(disk, jobs, files, res)[res.Resolve(j.archiveId)] == files[j.archiveId]
  {
    if jobs != [] {
      var n := |jobs| - 1;
      FillCacheContents(disk, jobs[..n], files, res);
      assert jobs == jobs[..n] + [jobs[n]];
    }
  }

  // ---------------------------------------------------------------------------
  // The whole cache fill: savePackageArchivesToDiskIfNotCached
  // ---------------------------------------------------------------------------

  /**
   * Disk after savePackageArchivesToDiskIfNotCached(pieces). Only absent paths are written, so
   * no file already on disk is overwritten.
   */
  function CacheFillDisk(pieces: seq<PiecePackage>, disk: Disk, files: FileStore, res: ArchivePathResolver): (filled: Disk)
    ensures forall path :: path in disk ==> path in filled && filled[path] == disk[path]
  {
    var jobs := UncachedArchives(pieces, disk, res);
    FillCacheFrame(disk, jobs, files, res);
    assert forall path :: path in WrittenPaths(jobs, files, res) ==> path !in disk;
    FillCache(disk, jobs, files, res)
  }

  /**
   * Completeness: after a successful fill every ARCHIVE input piece has a file at its path;
   * with collision-free paths a newly fetched one holds exactly the file-store bytes.
   */
  lemma CacheFillComplete(pieces: seq<PiecePackage>, disk: Disk, files: FileStore, res: ArchivePathResolver)
    requires JobsOutcome(UncachedArchives(pieces, disk, res), files) == Ok
    ensures forall p :: p in pieces && p.PackageTypeOf() == ARCHIVE ==> res.Resolve(p.archiveId) in CacheFillDisk(pieces, disk, files, res)
    ensures res.Injective() ==> forall p :: p in pieces && IsUncachedArchive(p, disk, res) ==>
              p.archiveId in files && CacheFillDisk(pieces, disk, files, res)[res.Resolve(p.archiveId)] == files[p.archiveId]
  {
    var jobs := UncachedArchives(pieces, disk, res);
    JobsFailIffArchiveMissing(jobs, files);
    FillCacheFrame(disk, jobs, files, res);
    forall p | p in pieces && p.PackageTypeOf() == ARCHIVE
      ensures res.Resolve(p.archiveId) in CacheFillDisk(pieces, disk, files, res)
    {
      UncachedMembership(pieces, disk, res, p);
      if IsUncachedArchive(p, disk, res) {
        assert res.Resolve(p.archiveId) in WrittenPaths(jobs, files, res);
      }
    }
    if res.Injective() {
      FillCacheContents(disk, jobs, files, res);
      forall p | p in pieces && IsUncachedArchive(p, disk, res) ensures p.archiveId in files {
        UncachedMembership(pieces, disk, res, p);
      }
    }
  }

  /**
   * Skip-if-present: an ARCHIVE piece whose file already exists is not fetched again (no job
   * carries its archive id) and its file keeps its bytes.
   */
  lemma CachedArchiveUntouched(pieces: seq<PiecePackage>, disk: Disk, files: FileStore, res: ArchivePathResolver, p: PiecePackage)
    requires p in pieces && p.PackageTypeOf() == ARCHIVE && res.Resolve(p.archiveId) in disk
    ensures p.archiveId !in ArchiveIds(UncachedArchives(pieces, disk, res))
    ensures res.Resolve(p.archiveId) in CacheFillDisk(pieces, disk, files, res)
    ensures CacheFillDisk(pieces, disk, files, res)[res.Resolve(p.archiveId)] == disk[res.Resolve(p.archiveId)]
  {
    var jobs := UncachedArchives(pieces, disk, res);
    forall j | j in jobs ensures res.Resolve(j.archiveId) !in disk {
      UncachedMembership(pieces, disk, res, j);
    }
    FillCacheFrame(disk, jobs, files, res);
  }

  /**
   * Frame: the only disk entries added or changed are at the paths of uncached pieces whose
   * archive was fetched. This holds on failure too.
   */
  lemma CacheFillFrame(pieces: seq<PiecePackage>, disk: Disk, files: FileStore, res: ArchivePathResolver, path: Path)
    requires forall p :: p in pieces && IsUncachedArchive(p, disk, res) ==> res.Resolve(p.archiveId) != path
    ensures path in CacheFillDisk(pieces, disk, files, res) <==> path in disk
    ensures path in disk ==> CacheFillDisk(pieces, disk, files, res)[path] == disk[path]
  {
    var jobs := UncachedArchives(pieces, disk, res);
    FillCacheFrame(disk, jobs, files, res);
    if path in WrittenPaths(jobs, files, res) {
      var j :| j in jobs && j.archiveId in files && res.Resolve(j.archiveId) == path;
      UncachedMembership(pieces, disk, res, j);
    }
  }

  /**
   * Idempotence: after a successful fill nothing in the same piece list is uncached, so a
   * second fill fetches nothing, leaves the disk as it is and succeeds.
   */
  lemma CacheFillIdempotent(pieces: seq<PiecePackage>, disk: Disk, files: FileStore, res: ArchivePathResolver)
    requires JobsOutcome(UncachedArchives(pieces, disk, res), files) == Ok
    ensures UncachedArchives(pieces, CacheFillDisk(pieces, disk, files, res), res) == []
    ensures ArchiveIds(UncachedArchives(pieces, CacheFillDisk(pieces, disk, files, res), res)) == []
    ensures CacheFillDisk(pieces, CacheFillDisk(pieces, disk, files, res), files, res) == CacheFillDisk(pieces, disk, files, res)
    ensures JobsOutcome(UncachedArchives(pieces, CacheFillDisk(pieces, disk, files, res), res), files) == Ok
  {
    var filled := CacheFillDisk(pieces, disk, files, res);
    CacheFillComplete(pieces, disk, files, res);
    var again := UncachedArchives(pieces, filled, res);
    if again != [] {
      UncachedMembership(pieces, filled, res, again[0]);
      assert false;
    }
  }

  /** On an empty disk, of a registry piece and an archive piece only the archive piece is uncached. */
  lemma RegistryThenArchiveUncached(registryPiece: PiecePackage, archivePiece: PrivatePiece, res: ArchivePathResolver)
    requires registryPiece.PackageTypeOf() == REGISTRY
    ensures UncachedArchives([registryPiece, archivePiece], map[], res) == [archivePiece]
  {
    var pieces := [registryPiece, archivePiece];
    assert pieces[..1] == [registryPiece] && [registryPiece][..0] == [];
    assert UncachedArchives(pieces[..1], map[], res) == [];
  }

  /**
   * A registry piece followed by an archive piece, on an empty disk: one fetch, of that
   * archive's id; one file written, at its path; success. A second install of the same pieces
   * then fetches nothing (CacheFillIdempotent).
   */
  lemma InstallScenario(registryPiece: PiecePackage, archivePiece: PrivatePiece, files: FileStore, res: ArchivePathResolver, data: Bytes)
    requires registryPiece.PackageTypeOf() == REGISTRY
    requires files == map[archivePiece.archiveId := data]
    ensures ArchiveIds(UncachedArchives([registryPiece, archivePiece], map[], res)) == [archivePiece.archiveId]
    ensures CacheFillDisk([registryPiece, archivePiece], map[], files, res) == map[res.Resolve(archivePiece.archiveId) := data]
    ensures JobsOutcome(UncachedArchives([registryPiece, archivePiece], map[], res), files) == Ok
  {
    RegistryThenArchiveUncached(registryPiece, archivePiece, res);
    assert [archivePiece][..0] == [];
    assert FillCache(map[], [archivePiece], files, res) == map[][res.Resolve(archivePiece.archiveId) := data];
  }

  /** The same with the archive absent from the file store: NotFound for its id, and nothing written. */
  lemma MissingArchiveScenario(registryPiece: PiecePackage, archivePiece: PrivatePiece, res: ArchivePathResolver)
    requires registryPiece.PackageTypeOf() == REGISTRY
    ensures JobsOutcome(UncachedArchives([registryPiece, archivePiece], map[], res), map[]) == Fail(NotFound(archivePiece.archiveId))
    ensures CacheFillDisk([registryPiece, archivePiece], map[], map[], res) == map[]
  {
    RegistryThenArchiveUncached(registryPiece, archivePiece, res);
    assert [archivePiece][..0] == [];
    assert FillCache(map[], [archivePiece], map[], res) == FillCache(map[], [], map[], res);
  }

  /**
   * No de-duplication: the same archive piece listed twice on an empty disk is fetched twice,
   * since both entries are filtered against the disk before any job runs.
   */
  lemma DuplicateArchiveFetchedTwice(p: PrivatePiece, res: ArchivePathResolver)
    ensures ArchiveIds(UncachedArchives([p, p], map[], res)) == [p.archiveId, p.archiveId]
  {
    var pieces := [p, p];
    assert pieces[..1] == [p] && [p][..0] == [];
    assert UncachedArchives(pieces[..1], map[], res) == [p];
    assert UncachedArchives(pieces, map[], res) == [p, p];
  }

  // ---------------------------------------------------------------------------
  // Phase 3: the dependency list handed to packageManager.add
  // ---------------------------------------------------------------------------

  /** pieces.map(pieceToDependency) */
  function Dependencies<Dep>(pieces: seq<PiecePackage>, toDependency: PiecePackage -> Dep): (deps: seq<Dep>)
    ensures |deps| == |pieces|
    ensures forall i :: 0 <= i < |pieces| ==> deps[i] == toDependency(pieces[i])
  {
    if pieces == [] then []
    else
      var n := |pieces| - 1;
      assert forall i :: 0 <= i < n ==> pieces[..n][i] == pieces[i];
      Dependencies(pieces[..n], toDependency) + [toDependency(pieces[n])]
  }
}
