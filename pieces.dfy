/** Shared piece types used by both the request schemas and the piece manager. */
module Pieces {

  datatype Option<+T> = None | Some(value: T)

  /** Where a piece's code comes from: a public npm-style registry or a privately uploaded archive. */
  datatype PackageType = ARCHIVE | REGISTRY

  datatype PieceType = CUSTOM | OFFICIAL

  /** The file-store key of an uploaded archive. */
  type ArchiveId = string

  /** A piece requested for installation. Only private pieces carry an archive id. */
  datatype PiecePackage =
    | PublicPiecePackage(pieceName: string, pieceVersion: string)
    | PrivatePiecePackage(pieceName: string, pieceVersion: string, archiveId: ArchiveId)
  {
    function PackageTypeOf(): PackageType {
      if PrivatePiecePackage? then ARCHIVE else REGISTRY
    }
  }

  /** The static type the cache-fill code works with once it has filtered out registry pieces. */
  type PrivatePiece = p: PiecePackage | p.PrivatePiecePackage? witness PrivatePiecePackage("", "", "")
}
