/** The file-input `change` handler of the browser script: the first chosen file is
    rejected when larger than 10 MiB, otherwise when its MIME type is not one of
    seven allowed types; a rejected choice is cleared from the input. */
module FileUpload {
  import opened Options

  /** What the handler reads of a chosen file: its name, its size in bytes and its
      MIME type as the browser reports it. */
  datatype FileInfo = FileInfo(name: string, size: nat, mimeType: string)

  /** The handler's three outcomes. */
  datatype FileVerdict = Accepted | TooLarge | UnsupportedType

  /** 10 MiB, the largest size accepted. */
  const MaxFileSize: nat := 10 * 1024 * 1024

  const AllowedTypes: seq<string> := [
    "application/pdf",
    "application/msword",
    "application/vnd.openxmlformats-officedocument.wordprocessingml.document",
    "text/plain",
    "image/jpeg",
    "image/png",
    "image/gif"
  ]

  /** The size check comes first, then the exact-match allow-list check. */
  function CheckFile(file: FileInfo): (v: FileVerdict)
  {
    if file.size > MaxFileSize then TooLarge
    else if file.mimeType in AllowedTypes then Accepted
    else UnsupportedType
  }

  /** The limit is exactly 10485760 bytes, and a file of that size passes the size check. */
  lemma SizeLimitIsInclusive(file: FileInfo)
    ensures MaxFileSize == 10485760
    ensures file.size == 10485760 ==> CheckFile(file) != TooLarge
    ensures file.size == 10485761 ==> CheckFile(file) == TooLarge
  {
  }

  /** An oversized file is refused for its size, whatever its type. */
  lemma OversizeRejectedFirst(file: FileInfo)
    requires file.size > MaxFileSize
    ensures CheckFile(file) == TooLarge
    ensures CheckFile(file.(mimeType := "application/pdf")) == TooLarge
  {
  }

  /** A file is accepted exactly when it is within the limit and its MIME type is,
      character for character, one of the seven listed types. */
  lemma AcceptedIff(file: FileInfo)
    ensures CheckFile(file) == Accepted <==>
      file.size <= 10485760 &&
      (file.mimeType == "application/pdf" ||
       file.mimeType == "application/msword" ||
       file.mimeType == "application/vnd.openxmlformats-officedocument.wordprocessingml.document" ||
       file.mimeType == "text/plain" ||
       file.mimeType == "image/jpeg" ||
       file.mimeType == "image/png" ||
       file.mimeType == "image/gif")
    ensures CheckFile(file) == UnsupportedType <==> file.size <= 10485760 && file.mimeType !in AllowedTypes
  {
  }

  /** The comparison is case-sensitive and whole-string: neither an upper-case
      spelling nor a type with parameters appended is accepted. */
  lemma AllowListIsExact(file: FileInfo)
    requires file.size <= MaxFileSize
    requires file.mimeType == "IMAGE/PNG" || file.mimeType == "image/png; charset=binary"
    ensures CheckFile(file) == UnsupportedType
  {
  }

  /** A file `input` element: the files currently chosen and its `value`, the
      text the browser shows for that choice. */
  class FileInput {
    var files: seq<FileInfo>
    var value: string

    constructor (files: seq<FileInfo>, value: string)
      ensures this.files == files && this.value == value
    {
      this.files := files;
      this.value := value;
    }

    /** The `change` handler. With no file chosen it does nothing and returns
        None; otherwise it checks the first file, and on rejection sets the
        input's value to "", which also empties its file list. */
    method Change() returns (verdict: Option<FileVerdict>)
      modifies this
      ensures old(files) == [] ==> verdict == None
      ensures old(files) != [] ==> verdict == Some(CheckFile(old(files)[0]))
      ensures verdict.Some? && verdict.value != Accepted ==> files == [] && value == []
      ensures verdict == None || verdict == Some(Accepted) ==> files == old(files) && value == old(value)
    {
      if files == [] {
        return None;
      }
      var file := files[0];
      if file.size > MaxFileSize {
        value := [];
        files := [];
        return Some(TooLarge);
      }
      if file.mimeType !in AllowedTypes {
        value := [];
        files := [];
        return Some(UnsupportedType);
      }
      return Some(Accepted);
    }
  }

  /** A rejected choice leaves the input empty, so the form can no longer send it;
      an accepted one keeps it. */
  method ChooseAndCheck(chosen: FileInfo) returns (kept: seq<FileInfo>)
    ensures CheckFile(chosen) == Accepted ==> kept == [chosen]
    ensures CheckFile(chosen) != Accepted ==> kept == []
  {
    var input := new FileInput([chosen], chosen.name);
    var verdict := input.Change();
    kept := input.files;
  }
}
