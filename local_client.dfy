/**
 * The local-disk storage client: objects are files under a root directory, and their URLs
 * are built from a base URL. The directory is modelled as a map from key to file contents,
 * with the key standing for the path `storage_path / key` (one file per key).
 */
module LocalStorage {
  import opened Text
  import opened Bytes

  datatype StorageError = FileNotFound(key: string)

  datatype Result<T> = Ok(value: T) | Err(error: StorageError)

  /** `base_url.rstrip("/")`: the given URL without its trailing slashes. */
  function NormalizeBaseUrl(baseUrl: string): (r: string)
    ensures r == [] || r[|r| - 1] != '/'
    ensures |r| <= |baseUrl| && r == baseUrl[..|r|]
    ensures forall k :: |r| <= k < |baseUrl| ==> baseUrl[k] == '/'
  {
    StripEndChar(baseUrl, '/')
  }

  /**
   * `_get_file_url`: the base URL, a slash, then the key with every backslash turned into a
   * slash, so no backslash of the key reaches the URL.
   */
  function FileUrl(baseUrl: string, key: string): (url: string)
    ensures |url| == |baseUrl| + 1 + |key|
    ensures url[..|baseUrl|] == baseUrl && url[|baseUrl|] == '/'
    ensures forall k :: 0 <= k < |key| ==>
      url[|baseUrl| + 1 + k] == (if key[k] == '\\' then '/' else key[k])
    ensures '\\' !in url[|baseUrl| + 1..]
  {
    var urlKey := ReplaceChar(key, '\\', '/');
    var url := baseUrl + "/" + urlKey;
    assert url[|baseUrl| + 1..] == urlKey;
    url
  }

  class LocalStorageClient {
    const storagePath: string
    const baseUrl: string
    /** The files under `storagePath`, by key. */
    var files: map<string, seq<byte>>

    /** `__init__`; `existing` is what the storage directory already holds. */
    constructor (storagePath: string, baseUrl: string, existing: map<string, seq<byte>>)
      ensures this.storagePath == storagePath
      ensures this.baseUrl == NormalizeBaseUrl(baseUrl)
      ensures this.baseUrl == [] || this.baseUrl[|this.baseUrl| - 1] != '/'
      ensures files == existing
    {
      this.storagePath := storagePath;
      this.baseUrl := NormalizeBaseUrl(baseUrl);
      files := existing;
    }

    /** `_get_file_url`: the base URL, a slash, and the key with its backslashes turned into slashes. */
    function GetFileUrl(key: string): (url: string)
      ensures |url| == |baseUrl| + 1 + |key|
      ensures url[..|baseUrl|] == baseUrl && url[|baseUrl|] == '/'
      ensures forall k :: 0 <= k < |key| ==>
        url[|baseUrl| + 1 + k] == (if key[k] == '\\' then '/' else key[k])
      ensures '\\' !in url[|baseUrl| + 1..]
    {
      FileUrl(baseUrl, key)
    }

    /** `upload`: writes (or overwrites) the file for `key` and returns its URL. */
    method Upload(key: string, data: seq<byte>, contentType: string) returns (url: string)
      modifies this
      ensures files == old(files)[key := data]
      ensures forall k :: k != key ==> (k in files <==> k in old(files))
      ensures forall k :: k != key && k in files ==> files[k] == old(files)[k]
      ensures url == GetFileUrl(key)
    {
      files := files[key := data];
      url := GetFileUrl(key);
    }

    /** `download`: the contents stored for `key`, or `FileNotFoundError` when there are none. */
    method Download(key: string) returns (r: Result<seq<byte>>)
      ensures key in files ==> r == Ok(files[key])
      ensures key !in files ==> r == Err(FileNotFound(key))
    {
      if key !in files {
        return Err(FileNotFound(key));
      }
      r := Ok(files[key]);
    }

    /** `delete`: removes the file for `key`; nothing happens when there is none. */
    method Delete(key: string)
      modifies this
      ensures files == old(files) - {key}
      ensures key !in files
      ensures key !in old(files) ==> files == old(files)
      ensures forall k :: k != key ==> (k in files <==> k in old(files))
      ensures forall k :: k != key && k in files ==> files[k] == old(files)[k]
    {
      if key in files {
        files := files - {key};
      }
    }

    /** `object_exists` */
    method ObjectExists(key: string) returns (exists_: bool)
      ensures exists_ <==> key in files
    {
      exists_ := key in files;
    }

    /** `generate_presigned_upload_url`: the plain file URL; `contentType` and `expiresIn` are unused. */
    method GeneratePresignedUploadUrl(key: string, contentType: string, expiresIn: int) returns (url: string)
      ensures url == FileUrl(baseUrl, key)
    {
      url := GetFileUrl(key);
    }

    /** `generate_presigned_download_url`: the plain file URL; `expiresIn` is unused. */
    method GeneratePresignedDownloadUrl(key: string, expiresIn: int) returns (url: string)
      ensures url == FileUrl(baseUrl, key)
    {
      url := GetFileUrl(key);
    }
  }

  /** After an upload, a download of the same key returns the uploaded bytes. */
  method UploadThenDownload(client: LocalStorageClient, key: string, data: seq<byte>)
    returns (url: string, r: Result<seq<byte>>)
    modifies client
    ensures r == Ok(data)
    ensures url == FileUrl(client.baseUrl, key)
  {
    url := client.Upload(key, data, "application/octet-stream");
    r := client.Download(key);
  }

  /** A second upload to the same key replaces the first one's bytes. */
  method UploadTwiceThenDownload(client: LocalStorageClient, key: string, first: seq<byte>, second: seq<byte>)
    returns (r: Result<seq<byte>>)
    modifies client
    ensures r == Ok(second)
  {
    var _ := client.Upload(key, first, "application/octet-stream");
    var _ := client.Upload(key, second, "application/octet-stream");
    r := client.Download(key);
  }

  /** After a delete, the key no longer exists and downloading it fails. */
  method DeleteThenLookUp(client: LocalStorageClient, key: string)
    returns (exists_: bool, r: Result<seq<byte>>)
    modifies client
    ensures !exists_
    ensures r == Err(FileNotFound(key))
  {
    client.Delete(key);
    exists_ := client.ObjectExists(key);
    r := client.Download(key);
  }
}
