/**
 * The image server: the metadata store `database.json` and the two endpoints
 * over it. The file system, multer and the clocks are inputs: the store is the
 * content of the database file, the upload folder is the set of names stored
 * in it, and the upload time, the ISO time text and whether the write back
 * succeeds are parameters of the upload handler.
 */
module ImageServer {
  import opened Wrappers
  import opened UploadRules

  /** The content of `database.json`: no file, a JSON array of records, or text that is not one. */
  datatype DbFile = Missing | Records(images: seq<ImageRecord>) | Corrupt

  /** What an endpoint answers: the listed records, the saved record, or an error status and message. */
  datatype Response = Images(images: seq<ImageRecord>) | Uploaded(image: ImageRecord) | Failure(status: nat, error: string)

  /** The `image` part of a multipart upload, as multer hands it over. */
  datatype UploadedFile = UploadedFile(originalName: string)

  const ReadError: string := "Failed to read database"
  const SaveError: string := "Failed to save to database"
  const NoFileError: string := "No image file provided"

  /** Start-up: a missing database file is created holding an empty array; any other is kept. */
  function InitialDb(db: DbFile): (r: DbFile)
    ensures r != Missing
    ensures db == Missing ==> r == Records([])
    ensures db != Missing ==> r == db
  {
    if db == Missing then Records([]) else db
  }

  class Server {
    var db: DbFile
    /** The names of the files in the upload folder. */
    var uploads: set<string>

    ghost predicate Valid()
      reads this`db
    {
      db != Missing
    }

    /** The server as started over the database file `initial` and the upload folder `files`. */
    constructor (initial: DbFile, files: set<string>)
      ensures Valid()
      ensures db == InitialDb(initial) && uploads == files
    {
      db := InitialDb(initial);
      uploads := files;
    }

    /** `GET /api/images`: the stored records verbatim and in order, or 500 when the file does not parse. */
    method ListImages() returns (resp: Response)
      ensures resp.Images? <==> db.Records?
      ensures db.Records? ==> resp.images == db.images
      ensures !db.Records? ==> resp == Failure(500, ReadError)
    {
      if db.Records? {
        resp := Images(db.images);
      } else {
        resp := Failure(500, ReadError);
      }
    }

    /**
     * `POST /api/upload` at `nowMs` milliseconds. multer stores the file, if
     * one came, before the handler runs; the handler then reads the array,
     * pushes the new record and writes the array back, `writeOk` telling
     * whether that write succeeds.
     */
    method Upload(file: Option<UploadedFile>, tags: Option<string>, element: Option<string>,
                  nowMs: nat, isoNow: string, writeOk: bool)
      returns (resp: Response)
      requires Valid()
      modifies this`db, this`uploads
      ensures Valid()
      ensures file.None? ==> resp == Failure(400, NoFileError) && uploads == old(uploads)
      ensures file.Some? ==> uploads == old(uploads) + {Filename(nowMs, file.value.originalName)}
      ensures resp.Uploaded? <==> file.Some? && old(db).Records? && writeOk
      ensures resp.Uploaded? ==> resp.image == MakeRecord(Filename(nowMs, file.value.originalName), tags, element, isoNow)
      ensures resp.Uploaded? ==> db == Records(old(db).images + [resp.image])
      ensures resp.Uploaded? ==> resp.image.url[|UploadFolder|..] in uploads
      ensures file.Some? && !resp.Uploaded? ==> resp == Failure(500, SaveError)
      ensures !resp.Uploaded? ==> db == old(db)
    {
      if file.None? {
        return Failure(400, NoFileError);
      }
      var filename := Filename(nowMs, file.value.originalName);
      uploads := uploads + {filename};

      var newImage := MakeRecord(filename, tags, element, isoNow);
      UrlNamesFile(filename, tags, element, isoNow);
      if !db.Records? {
        return Failure(500, SaveError);
      }
      var images := db.images;
      images := images + [newImage];
      if !writeOk {
        return Failure(500, SaveError);
      }
      db := Records(images);
      resp := Uploaded(newImage);
    }
  }
}
