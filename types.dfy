/** The record shapes exchanged with the storage API (src/lib/types.ts). */
module Types {
  import opened Wrappers

  /** One stored file as listed by `GET /files`. */
  datatype FileRow = FileRow(
    ID: string,
    Filename: string,
    TotalSize: int,
    CreatedAt: string,
    UpdatedAt: string)

  /** The metadata of one file (`GET /files/metadata/{id}`): a FileRow plus its chunk count. */
  datatype FileMeta = FileMeta(
    ID: string,
    Filename: string,
    TotalSize: int,
    ChunksCount: int,
    CreatedAt: string,
    UpdatedAt: string)
  {
    /** The same object seen through the FileRow type. */
    function Row(): FileRow
    {
      FileRow(ID, Filename, TotalSize, CreatedAt, UpdatedAt)
    }
  }

  /** The `data` member of an upload envelope. */
  datatype UploadData = UploadData(
    FileID: string,
    TotalSize: int,
    ChunksCount: int,
    UniqueChunksWritten: int,
    DedupeSavedBytes: int)

  /** The envelope returned by `POST /files/upload`; every member is optional. */
  datatype UploadResponse = UploadResponse(
    code: Option<int>,
    status: Option<string>,
    data: Option<UploadData>)
}
