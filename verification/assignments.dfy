/** The assignments page: which folder of the `assignments` bucket is listed, the key
    a student's upload is written to, the key a view or delete addresses, and the
    local list after a delete.

    The bucket is flat. Every object the page writes is `<owner>/<file name>`, where
    the owner is the uploading student's id; an `Upload` names one such object.
    Listing a prefix returns one level: the objects directly under it and the
    sub-folders, by name. */
module Assignments {
  import opened Wrappers
  import opened Strings
  import opened Seqs
  import opened Profiles

  /** The listing prefix: a student lists their own folder, everyone else the bucket root. */
  function ListPrefix(u: User): (r: string)
    ensures u.role == Student ==> r == u.id
    ensures u.role != Student ==> r == ""
  {
    if u.role == Student then u.id else ""
  }

  /** The key an upload is written to, `${user.id}/${file.name}`, whatever the role. */
  function UploadKey(u: User, fileName: string): (r: string)
    ensures StartsWith(r, u.id + "/") && r[|u.id| + 1..] == fileName
  {
    var r := u.id + "/" + fileName;
    assert r[..|u.id| + 1] == u.id + "/";
    r
  }

  /** The key `handleDeleteFile` and `getFileUrl` address for a listed name: inside the
      user's folder for a student, the bare name for anyone else. */
  function ObjectKey(u: User, fileName: string): (r: string)
    ensures u.role == Student ==> r == UploadKey(u, fileName)
    ensures u.role != Student ==> r == fileName
  {
    if u.role == Student then u.id + "/" + fileName else fileName
  }

  /** The page's three key rules agree for a student: the object a student views or
      deletes is the one they uploaded under that name, and it lies in the folder
      they list. */
  lemma StudentKeysAgree(u: User, fileName: string)
    requires u.role == Student
    ensures ObjectKey(u, fileName) == UploadKey(u, fileName)
    ensures UploadKey(u, fileName) == ListPrefix(u) + "/" + fileName
    ensures StartsWith(UploadKey(u, fileName), ListPrefix(u) + "/")
  {
    assert UploadKey(u, fileName)[..|u.id + "/"|] == u.id + "/";
  }

  // ---------------------------------------------------------------- the bucket

  /** An uploaded assignment: the uploading student's id and the file's name, neither
      containing a separator. */
  datatype Upload = Upload(owner: string, name: string)

  predicate WellFormedUpload(up: Upload) {
    up.owner != "" && '/' !in up.owner && '/' !in up.name
  }

  function KeyOf(up: Upload): string {
    up.owner + "/" + up.name
  }

  function Keys(ups: set<Upload>): set<string> {
    set up | up in ups :: KeyOf(up)
  }

  /** The first segment of a key. */
  function TopName(k: string): (n: string)
    ensures '/' !in n
  {
    Split(k, '/')[0]
  }

  /** `list(prefix)` over a flat bucket, one level deep: the first segment below the
      prefix of every key under it. */
  function ListLevel(keys: set<string>, prefix: string): set<string> {
    set k | k in keys && (prefix == "" || StartsWith(k, prefix + "/")) ::
      TopName(if prefix == "" then k else k[|prefix| + 1..])
  }

  /** The owner of a well-formed upload is its key's first segment, and its name what
      follows that segment. */
  lemma KeyOfSplits(up: Upload)
    requires WellFormedUpload(up)
    ensures TopName(KeyOf(up)) == up.owner
    ensures StartsWith(KeyOf(up), up.owner + "/") && KeyOf(up)[|up.owner| + 1..] == up.name
  {
    SplitNoSep(up.owner, '/');
    SplitNoSep(up.name, '/');
    SplitAppend(up.owner, up.name, '/');
    assert KeyOf(up) == up.owner + ['/'] + up.name;
    assert KeyOf(up)[..|up.owner + "/"|] == up.owner + "/";
  }

  /** A key under `id/` belongs to the owner `id`. */
  lemma OwnerFromPrefix(up: Upload, id: string)
    requires WellFormedUpload(up) && '/' !in id
    requires StartsWith(KeyOf(up), id + "/")
    ensures up.owner == id
  {
    var k := KeyOf(up);
    var rest := k[|id| + 1..];
    assert k == id + ['/'] + rest;
    SplitAppend(id, rest, '/');
    SplitNoSep(id, '/');
    KeyOfSplits(up);
  }

  /** A student's listing shows exactly the names of their own uploads. */
  lemma StudentListing(u: User, ups: set<Upload>, name: string)
    requires u.role == Student && u.id != "" && '/' !in u.id
    requires forall up :: up in ups ==> WellFormedUpload(up)
    ensures name in ListLevel(Keys(ups), ListPrefix(u)) <==> Upload(u.id, name) in ups
  {
    var ks := Keys(ups);
    var p := ListPrefix(u);
    if Upload(u.id, name) in ups {
      var up := Upload(u.id, name);
      KeyOfSplits(up);
      SplitNoSep(name, '/');
      assert KeyOf(up) in ks;
      assert TopName(KeyOf(up)[|p| + 1..]) == name;
    }
    if name in ListLevel(ks, p) {
      var k :| k in ks && (p == "" || StartsWith(k, p + "/")) && name == TopName(if p == "" then k else k[|p| + 1..]);
      var up :| up in ups && k == KeyOf(up);
      OwnerFromPrefix(up, u.id);
      KeyOfSplits(up);
      SplitNoSep(up.name, '/');
    }
  }

  /** A teacher or administrator lists the bucket root and sees the owners' folders,
      not the files. */
  lemma RootListingShowsOwners(ups: set<Upload>, name: string)
    requires forall up :: up in ups ==> WellFormedUpload(up)
    ensures name in ListLevel(Keys(ups), "") <==> exists up :: up in ups && up.owner == name
  {
    if exists up :: up in ups && up.owner == name {
      var up :| up in ups && up.owner == name;
      KeyOfSplits(up);
      assert KeyOf(up) in Keys(ups);
    }
    if name in ListLevel(Keys(ups), "") {
      var k :| k in Keys(ups) && name == TopName(k);
      var up :| up in ups && k == KeyOf(up);
      KeyOfSplits(up);
    }
  }

  /** As written, a teacher's or administrator's view and delete miss every upload: the
      names they list are folder names, and used as keys they name no object. */
  lemma NonStudentKeysMissUploads(u: User, ups: set<Upload>, name: string)
    requires u.role != Student
    requires forall up :: up in ups ==> WellFormedUpload(up)
    requires name in ListLevel(Keys(ups), ListPrefix(u))
    ensures ObjectKey(u, name) !in Keys(ups)
  {
  }

  /** The discrepancy on a single upload: a teacher or administrator sees its owner's
      folder, and the key the page derives from that name is not the upload's key. */
  lemma NonStudentSeesFolderNotFile(u: User, up: Upload)
    requires u.role != Student && WellFormedUpload(up)
    ensures up.owner in ListLevel(Keys({up}), ListPrefix(u))
    ensures ObjectKey(u, up.owner) !in Keys({up})
  {
    RootListingShowsOwners({up}, up.owner);
    NonStudentKeysMissUploads(u, {up}, up.owner);
  }

  /** The smallest instance: student `s1` uploads `hw.pdf`; a teacher sees `s1` and
      would open the key `s1`, while the object is `s1/hw.pdf`. */
  lemma TeacherViewExample()
    ensures "s1" in ListLevel(Keys({Upload("s1", "hw.pdf")}), ListPrefix(User("t1", "T", Teacher)))
    ensures ObjectKey(User("t1", "T", Teacher), "s1") !in Keys({Upload("s1", "hw.pdf")})
  {
    NonStudentSeesFolderNotFile(User("t1", "T", Teacher), Upload("s1", "hw.pdf"));
  }

  /** What the page evidently means to show: a student their own uploads, a teacher or
      administrator every upload, each addressed by its full key. */
  function IntendedListing(u: User, ups: set<Upload>): (r: set<Upload>)
    ensures r <= ups
    ensures u.role == Student ==> forall up :: up in r <==> up in ups && up.owner == u.id
    ensures u.role != Student ==> r == ups
  {
    if u.role == Student then set up | up in ups && up.owner == u.id else ups
  }

  /** The key the corrected view and delete use for a listed upload. */
  function IntendedObjectKey(up: Upload): string {
    KeyOf(up)
  }

  /** With the corrected listing every user's view and delete address an uploaded
      object, and for a student the corrected key is the key the page already uses. */
  lemma IntendedKeysHitUploads(u: User, ups: set<Upload>, up: Upload)
    requires up in IntendedListing(u, ups)
    ensures IntendedObjectKey(up) in Keys(ups)
    ensures u.role == Student ==> IntendedObjectKey(up) == ObjectKey(u, up.name)
  {
  }

  // ---------------------------------------------------------------- handlers

  /** A listed object; folders come back without an id. */
  datatype StoredFile = StoredFile(name: string, id: Option<string>)

  /** `handleFileUpload`: without a file nothing happens. Otherwise the upload goes to
      the user's folder; after a success the list is replaced by the re-listing of the
      user's prefix (`None` reads as empty), after a failure it is kept. */
  datatype UploadStep = NoUpload | Uploaded(key: string, listed: Option<string>)

  function HandleUpload(u: User, fileName: Option<string>, uploadOk: bool): (r: UploadStep)
    ensures fileName.None? <==> r == NoUpload
    ensures fileName.Some? ==> r.Uploaded? && r.key == UploadKey(u, fileName.value)
    ensures fileName.Some? && uploadOk ==> r.listed == Some(ListPrefix(u))
    ensures fileName.Some? && !uploadOk ==> r.listed.None?
  {
    match fileName
    case None => NoUpload
    case Some(n) => Uploaded(UploadKey(u, n), if uploadOk then Some(ListPrefix(u)) else None)
  }

  /** The list after an upload: the re-listing when one was made, else the old list. */
  function AfterUpload(files: seq<StoredFile>, step: UploadStep, relisted: Option<seq<StoredFile>>): (r: seq<StoredFile>)
    ensures step.NoUpload? || step.listed.None? ==> r == files
    ensures step.Uploaded? && step.listed.Some? && relisted.Some? ==> r == relisted.value
    ensures step.Uploaded? && step.listed.Some? && relisted.None? ==> r == []
  {
    if step.NoUpload? || step.listed.None? then files
    else if relisted.Some? then relisted.value else []
  }

  /** `prev.filter((file) => file.name !== fileName)`. */
  function LocalDelete(files: seq<StoredFile>, fileName: string): (r: seq<StoredFile>)
    ensures forall i :: 0 <= i < |r| ==> r[i].name != fileName && r[i] in files
    ensures forall i :: 0 <= i < |files| && files[i].name != fileName ==> files[i] in r
  {
    Filter(files, (f: StoredFile) => f.name != fileName)
  }

  /** The local delete keeps order: it works piecewise over any split of the list. */
  lemma LocalDeleteKeepsOrder(a: seq<StoredFile>, b: seq<StoredFile>, fileName: string)
    ensures LocalDelete(a + b, fileName) == LocalDelete(a, fileName) + LocalDelete(b, fileName)
  {
    FilterAppend(a, b, (f: StoredFile) => f.name != fileName);
  }

  /** `handleDeleteFile`: the remove goes to the object key; the list loses the entries
      with that name only when the remove succeeds. */
  function HandleDeleteFile(u: User, files: seq<StoredFile>, fileName: string, removeOk: bool): (r: (string, seq<StoredFile>))
    ensures r.0 == ObjectKey(u, fileName)
    ensures !removeOk ==> r.1 == files
    ensures removeOk ==> forall i :: 0 <= i < |r.1| ==> r.1[i].name != fileName && r.1[i] in files
    ensures removeOk ==> forall i :: 0 <= i < |files| && files[i].name != fileName ==> files[i] in r.1
  {
    (ObjectKey(u, fileName), if removeOk then LocalDelete(files, fileName) else files)
  }
}
