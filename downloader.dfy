/** The file streamer (download_file.php): the same guards, counter and
    event row as the `download` action, then the response headers and the
    stored file as the body. */
module Downloader {
  import opened Common
  import opened Php
  import opened Schema
  import opened Catalog

  datatype Header = Header(name: string, value: string)

  /** What the streamer sends: its headers, then the bytes of the file
      stored at `path`. */
  datatype Served = Served(headers: seq<Header>, path: string)

  /** `$app['file_name'] ?: basename($file_path)`: a truthy stored name is
      used as is, and otherwise the name is the last segment of the stored
      path, which holds no slash (it is empty for a path of slashes only). */
  function AttachmentName(a: App): (r: string)
    requires Truthy(a.filePath)
    ensures Truthy(a.fileName) ==> r == a.fileName.value
    ensures !Truthy(a.fileName) ==> r == AfterLastSlash(TrimTrailingSlashes(a.filePath.value))
    ensures !Truthy(a.fileName) ==> '/' !in r
  {
    if Truthy(a.fileName) then a.fileName.value else Basename(a.filePath.value)
  }

  /** The eight headers, in the order the streamer sends them; no header
      name is sent twice. */
  function Headers(fileName: string, size: nat): (h: seq<Header>)
    ensures |h| == 8
    ensures forall i, j :: 0 <= i < j < |h| ==> h[i].name != h[j].name
  {
    [ Header("Content-Description", "File Transfer"),
      Header("Content-Type", "application/octet-stream"),
      Header("Content-Disposition", "attachment; filename=\"" + fileName + "\""),
      Header("Content-Transfer-Encoding", "binary"),
      Header("Expires", "0"),
      Header("Cache-Control", "must-revalidate, post-check=0, pre-check=0"),
      Header("Pragma", "public"),
      Header("Content-Length", IntToString(size)) ]
  }

  /** download_file.php. */
  method Serve(db: Database, id: int, ctx: Context) returns (r: Response<Served>)
    requires db.Valid()
    modifies db`apps, db`downloads
    ensures db.Valid()
    ensures id <= 0 ==> r == Failure(InvalidId)
    ensures id > 0 && FindApp(old(db.apps), id, true).None? ==> r == Failure(NotFound)
    ensures (id > 0 && FindApp(old(db.apps), id, true).Some?
             && !OnDisk(db.files, old(db.apps)[FindApp(old(db.apps), id, true).value].filePath)) ==> r == Failure(FileUnavailable)
    ensures old(DownloadGuard(db, id)).Some? ==>
      && r == Failure(old(DownloadGuard(db, id)).value)
      && db.apps == old(db.apps) && db.downloads == old(db.downloads)
    ensures old(DownloadGuard(db, id)).None? ==>
      var a := old(db.apps)[FindApp(old(db.apps), id, true).value];
      && Truthy(a.filePath) && a.filePath.value in db.files
      && r == Success(Served(Headers(AttachmentName(a), db.files[a.filePath.value]), a.filePath.value))
      && db.apps == BumpDownloads(old(db.apps), id)
      && db.downloads == old(db.downloads) + [EventRow(id, ctx)]
  {
    var counted := CountDownload(db, id, ctx);
    if counted.Failure? {
      return Failure(counted.reason);
    }
    var a := counted.data;
    var path := a.filePath.value;
    r := Success(Served(Headers(AttachmentName(a), db.files[path]), path));
  }

  /** The declared length is the size of the file sent, written in decimal,
      and the attachment's file name is quoted in the disposition. */
  lemma HeadersDescribeFile(fileName: string, size: nat)
    ensures var h := Headers(fileName, size);
            && h[|h| - 1].name == "Content-Length"
            && ParseDigits(h[|h| - 1].value) == size
            && h[2].value == "attachment; filename=\"" + fileName + "\""
            && forall k :: 0 <= k < |h| - 1 ==> h[k].name != "Content-Length"
  {
    NatToStringRoundTrip(size);
  }
}
