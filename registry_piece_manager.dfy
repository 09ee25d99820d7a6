/**
 * RegistryPieceManager.installDependencies: fill the local archive cache from the file store,
 * then hand every piece, mapped to a dependency, to the package manager in one call.
 *
 * The object holds the world the source reaches through module singletons: the local disk
 * (node:fs), the file service, the archive-path helper, the package manager, and the
 * pieceToDependency mapping inherited from PieceManager. The disk is updated in place; the
 * calls made to getOneOrThrow and to packageManager.add are recorded so that the contracts
 * can speak about them.
 */
module PieceManager {
  import opened Pieces
  import opened CacheSpec

  /** The argument of one packageManager.add call. */
  datatype AddCall<Dep> = AddCall(path: Path, dependencies: seq<Dep>)

  datatype FetchResult = Found(data: Bytes) | Missing(error: Error)

  class RegistryPieceManager<Dep> {
    const fileStore: FileStore
    const resolver: ArchivePathResolver
    const pieceToDependency: PiecePackage -> Dep

    /** The local file system, path by path. */
    var disk: Disk
    /** Every archive id passed to fileService.getOneOrThrow, in call order. */
    var fetched: seq<ArchiveId>
    /** Every call received by packageManager.add, in call order. */
    var addCalls: seq<AddCall<Dep>>

    constructor (fileStore: FileStore, resolver: ArchivePathResolver, pieceToDependency: PiecePackage -> Dep, disk: Disk)
      ensures this.fileStore == fileStore && this.resolver == resolver && this.pieceToDependency == pieceToDependency
      ensures this.disk == disk && fetched == [] && addCalls == []
    {
      this.fileStore := fileStore;
      this.resolver := resolver;
      this.pieceToDependency := pieceToDependency;
      this.disk := disk;
      fetched := [];
      addCalls := [];
    }

    /** installDependencies({ projectPath, pieces }) */
    method InstallDependencies(projectPath: Path, pieces: seq<PiecePackage>) returns (r: Outcome)
      modifies this
      ensures fetched == old(fetched) + ArchiveIds(UncachedArchives(pieces, old(disk), resolver))
      ensures disk == CacheFillDisk(pieces, old(disk), fileStore, resolver)
      ensures r == JobsOutcome(UncachedArchives(pieces, old(disk), resolver), fileStore)
      ensures r.Ok? ==> addCalls == old(addCalls) + [AddCall(projectPath, Dependencies(pieces, pieceToDependency))]
      ensures r.Fail? ==> addCalls == old(addCalls)
      ensures r.Fail? <==> exists p :: p in UncachedArchives(pieces, old(disk), resolver) && p.archiveId !in fileStore
    {
      JobsFailIffArchiveMissing(UncachedArchives(pieces, disk, resolver), fileStore);
      r := SavePackageArchivesToDiskIfNotCached(pieces);
      if r.Fail? {
        return;
      }
      var dependencies := Dependencies(pieces, pieceToDependency);
      PackageManagerAdd(projectPath, dependencies);
    }

    /** savePackageArchivesToDiskIfNotCached(pieces): one fetch-and-save job per uncached archive. */
    method SavePackageArchivesToDiskIfNotCached(pieces: seq<PiecePackage>) returns (r: Outcome)
      modifies this
      ensures fetched == old(fetched) + ArchiveIds(UncachedArchives(pieces, old(disk), resolver))
      ensures disk == CacheFillDisk(pieces, old(disk), fileStore, resolver)
      ensures r == JobsOutcome(UncachedArchives(pieces, old(disk), resolver), fileStore)
      ensures addCalls == old(addCalls)
    {
      var packages := GetUncachedArchivePackages(pieces);
      r := SaveAll(packages);
    }

    /**
     * Promise.all(packages.map(getArchiveAndSaveToDisk)): every job runs to completion, and the
     * call settles to the first failure.
     */
    method SaveAll(packages: seq<PrivatePiece>) returns (r: Outcome)
      modifies this
      ensures disk == FillCache(old(disk), packages, fileStore, resolver)
      ensures fetched == old(fetched) + ArchiveIds(packages)
      ensures r == JobsOutcome(packages, fileStore)
      ensures addCalls == old(addCalls)
    {
      r := Ok;
      var i := 0;
      while i < |packages|
        invariant 0 <= i <= |packages|
        invariant disk == FillCache(old(disk), packages[..i], fileStore, resolver)
        invariant fetched == old(fetched) + ArchiveIds(packages[..i])
        invariant r == JobsOutcome(packages[..i], fileStore)
        invariant addCalls == old(addCalls)
      {
        assert packages[..i + 1][..i] == packages[..i];
        var job := GetArchiveAndSaveToDisk(packages[i]);
        if r.Ok? {
          r := job;
        }
        i := i + 1;
      }
      assert packages[..|packages|] == packages;
    }

    /** getUncachedArchivePackages(pieces) */
    method GetUncachedArchivePackages(pieces: seq<PiecePackage>) returns (packages: seq<PrivatePiece>)
      ensures packages == UncachedArchives(pieces, disk, resolver)
    {
      packages := [];
      for i := 0 to |pieces|
        invariant packages == UncachedArchives(pieces[..i], disk, resolver)
      {
        var piece := pieces[i];
        assert pieces[..i + 1][..i] == pieces[..i];
        if piece.PackageTypeOf() != ARCHIVE {
          continue;
        }
        var archivePath := resolver.Resolve(piece.archiveId);
        if archivePath in disk {  // fileExists(archivePath)
          continue;
        }
        packages := packages + [piece];
      }
      assert pieces[..|pieces|] == pieces;
    }

    /** getArchiveAndSaveToDisk(piece) */
    method GetArchiveAndSaveToDisk(piece: PrivatePiece) returns (r: Outcome)
      modifies this
      ensures fetched == old(fetched) + [piece.archiveId]
      ensures piece.archiveId in fileStore ==>
                r == Ok && disk == old(disk)[resolver.Resolve(piece.archiveId) := fileStore[piece.archiveId]]
      ensures piece.archiveId !in fileStore ==> r == Fail(NotFound(piece.archiveId)) && disk == old(disk)
      ensures addCalls == old(addCalls)
    {
      var archiveId := piece.archiveId;
      var archiveFile := GetOneOrThrow(archiveId);
      if archiveFile.Missing? {
        return Fail(archiveFile.error);
      }
      var archivePath := resolver.Resolve(archiveId);
      // mkdir(dirname(archivePath), { recursive: true }) only creates directories, which the
      // disk model does not hold; writeFile creates or overwrites the file.
      disk := disk[archivePath := archiveFile.data];
      r := Ok;
    }

    /** fileService.getOneOrThrow({ fileId }) */
    method GetOneOrThrow(fileId: ArchiveId) returns (file: FetchResult)
      modifies this`fetched
      ensures fetched == old(fetched) + [fileId]
      ensures fileId in fileStore ==> file == Found(fileStore[fileId])
      ensures fileId !in fileStore ==> file == Missing(NotFound(fileId))
    {
      fetched := fetched + [fileId];
      if fileId in fileStore {
        file := Found(fileStore[fileId]);
      } else {
        file := Missing(NotFound(fileId));
      }
    }

    /** packageManager.add({ path, dependencies }), recorded rather than performed. */
    method PackageManagerAdd(path: Path, dependencies: seq<Dep>)
      modifies this`addCalls
      ensures addCalls == old(addCalls) + [AddCall(path, dependencies)]
    {
      addCalls := addCalls + [AddCall(path, dependencies)];
    }
  }

  /**
   * A caller's view of two installs of the same pieces: the first fetches what is missing; if it
   * succeeds, the second performs no fetch, leaves the disk as it is, and still hands the same
   * dependency list to the package manager.
   */
  method InstallTwice<Dep>(m: RegistryPieceManager<Dep>, projectPath: Path, pieces: seq<PiecePackage>)
    returns (first: Outcome, second: Outcome)
    modifies m
    ensures first == JobsOutcome(UncachedArchives(pieces, old(m.disk), m.resolver), m.fileStore)
    ensures first.Ok? ==> second.Ok? && m.fetched == old(m.fetched) + ArchiveIds(UncachedArchives(pieces, old(m.disk), m.resolver))
    ensures first.Ok? ==> m.disk == CacheFillDisk(pieces, old(m.disk), m.fileStore, m.resolver)
    ensures first.Ok? ==> m.addCalls == old(m.addCalls) + [AddCall(projectPath, Dependencies(pieces, m.pieceToDependency))] + [AddCall(projectPath, Dependencies(pieces, m.pieceToDependency))]
  {
    first := m.InstallDependencies(projectPath, pieces);
    second := m.InstallDependencies(projectPath, pieces);
    if first.Ok? {
      CacheFillIdempotent(pieces, old(m.disk), m.fileStore, m.resolver);
    }
  }
}
