/** The resources browser's write side: upload admission, folder creation with a
    sentinel object, and rename and delete as sequences of storage calls.

    Storage calls are not made here. A handler returns a `Run`: the calls it issues,
    in order, and how it ends. What the store answers is an input (`StoreReplies`).
    A failing call is always the last one issued, because every handler gives up at
    the first error. `ApplyRun` gives the effect of a run on the set of keys in the
    bucket. */
module ResourceOps {
  import opened Wrappers
  import opened Strings
  import opened Seqs
  import opened Profiles
  import opened ResourceAccess
  import opened ResourceBrowser

  // ---------------------------------------------------------------- upload

  const AllowedFileTypes: seq<string> := [
    "application/pdf",
    "application/msword",
    "application/vnd.openxmlformats-officedocument.wordprocessingml.document",
    "image/jpeg",
    "image/png",
    "text/plain"
  ]

  const AllowedExtensions: seq<string> := [".pdf", ".doc", ".docx", ".jpg", ".jpeg", ".png", ".txt"]

  /** 10 MiB; a file of exactly this size is accepted. */
  const MaxFileSize: nat := 10 * 1024 * 1024

  /** The picked file: its name, its declared MIME type and its size in bytes. */
  datatype PickedFile = PickedFile(name: string, mimeType: string, size: nat)

  datatype UploadOutcome =
    | NoFile
    | InvalidType
    | TooLarge
    | UploadForbidden
    | Upload(key: string, upsert: bool)

  /** The name ends, case-sensitively, with one of the allowed extensions. */
  predicate HasAllowedExtension(name: string) {
    exists k :: 0 <= k < |AllowedExtensions| && EndsWith(name, AllowedExtensions[k])
  }

  predicate TypeAllowed(f: PickedFile) {
    f.mimeType in AllowedFileTypes && HasAllowedExtension(f.name)
  }

  /** `handleFileUpload`: the type check, then the size check, then the permission
      check, and only then a write (overwriting) to the role-based key. */
  function HandleFileUpload(user: Option<User>, currentPath: string, file: Option<PickedFile>): (r: UploadOutcome)
    ensures r == NoFile <==> file.None?
    ensures r == InvalidType <==> file.Some? && !TypeAllowed(file.value)
    ensures r == TooLarge <==> file.Some? && TypeAllowed(file.value) && file.value.size > MaxFileSize
    ensures r == UploadForbidden <==>
      file.Some? && TypeAllowed(file.value) && file.value.size <= MaxFileSize && !CanManageInPath(user, currentPath)
    ensures r.Upload? <==>
      file.Some? && TypeAllowed(file.value) && file.value.size <= MaxFileSize && CanManageInPath(user, currentPath)
    ensures r.Upload? ==> r.upsert && EndsWith(r.key, "/" + file.value.name)
    ensures r.Upload? ==> r.key == RoleBasedPath(user, currentPath, file.value.name)
  {
    match file
    case None => NoFile
    case Some(f) =>
      if !TypeAllowed(f) then InvalidType
      else if f.size > MaxFileSize then TooLarge
      else if !CanManageInPath(user, currentPath) then UploadForbidden
      else
        assert user.Some? && (user.value.role == Admin || user.value.role == Teacher);
        assert f.name != "" by {
          var k :| 0 <= k < |AllowedExtensions| && EndsWith(f.name, AllowedExtensions[k]);
        }
        Upload(RoleBasedPath(user, currentPath, f.name), true)
  }

  /** A teacher's admitted upload lands in that teacher's zone, wherever they browse. */
  lemma TeacherUploadStaysInZone(u: User, currentPath: string, f: PickedFile)
    requires u.role == Teacher
    requires HandleFileUpload(Some(u), currentPath, Some(f)).Upload?
    ensures InZone(HandleFileUpload(Some(u), currentPath, Some(f)).key, TeacherZone(u))
  {
    TeacherWriteStaysInZone(u, currentPath, f.name);
  }

  /** The size ceiling is inclusive: an allowed file of exactly 10485760 bytes is
      admitted by an administrator, one more byte is refused. */
  lemma SizeCeilingIsInclusive(u: User, currentPath: string, name: string, mimeType: string)
    requires u.role == Admin
    requires TypeAllowed(PickedFile(name, mimeType, 0))
    ensures HandleFileUpload(Some(u), currentPath, Some(PickedFile(name, mimeType, 10485760))).Upload?
    ensures HandleFileUpload(Some(u), currentPath, Some(PickedFile(name, mimeType, 10485761))) == TooLarge
  {
  }

  /** A name ending in `.` followed by a lower-case `ext` without `.` has `ext` as the
      text after its last `.` once lower-cased. */
  lemma {:induction false} LowerKeepsExtension(name: string, ext: string)
    requires '.' !in ext
    requires forall i :: 0 <= i < |ext| ==> LowerChar(ext[i]) == ext[i]
    requires EndsWith(name, "." + ext)
    ensures LastPart(Lower(name), '.') == ext
  {
    var low := Lower(name);
    var dotted := "." + ext;
    assert low[|low| - |dotted|..] == dotted by {
      forall i | 0 <= i < |dotted|
        ensures low[|low| - |dotted|..][i] == dotted[i]
      {
        assert name[|name| - |dotted| + i] == dotted[i];
      }
    }
    LastPartOfSuffix(low, ext, '.');
  }

  /** Every allowed extension other than the Word ones opens in the inline viewer;
      the Word ones do not. */
  lemma UploadedTypesAndPreview(name: string, k: nat)
    requires k < |AllowedExtensions| && EndsWith(name, AllowedExtensions[k])
    ensures CanViewInline(name) <==> AllowedExtensions[k] != ".doc" && AllowedExtensions[k] != ".docx"
  {
    var ext := if k == 0 then "pdf" else if k == 1 then "doc" else if k == 2 then "docx"
               else if k == 3 then "jpg" else if k == 4 then "jpeg" else if k == 5 then "png" else "txt";
    assert AllowedExtensions[k] == "." + ext;
    LowerKeepsExtension(name, ext);
  }

  // ---------------------------------------------------------------- folders

  datatype FolderOutcome =
    | FolderForbidden
    | InvalidName
    | CreateSentinel(key: string, upsert: bool, contentType: string)

  /** `handleCreateFolder`: the permission check comes first, then the name given at
      the prompt (`None` when cancelled) must be non-empty and free of `/`; the folder
      is made by writing `<folder key>/.keep` without overwriting. */
  function HandleCreateFolder(user: Option<User>, currentPath: string, folderName: Option<string>): (r: FolderOutcome)
    ensures !CanManageInPath(user, currentPath) ==> r == FolderForbidden
    ensures CanManageInPath(user, currentPath) ==>
      (r == InvalidName <==> folderName.None? || folderName.value == "" || '/' in folderName.value)
    ensures r.CreateSentinel? ==> !r.upsert && r.contentType == "text/plain"
    ensures r.CreateSentinel? ==> EndsWith(r.key, "/" + folderName.value + "/" + Sentinel)
                                  || r.key == folderName.value + "/" + Sentinel
    ensures CanManageInPath(user, currentPath) && folderName.Some? && folderName.value != "" && '/' !in folderName.value ==>
      r == CreateSentinel(if currentPath == Root then folderName.value + "/" + Sentinel
                          else Clean(currentPath) + "/" + folderName.value + "/" + Sentinel, false, "text/plain")
  {
    if !CanManageInPath(user, currentPath) then FolderForbidden
    else
      match folderName
      case None => InvalidName
      case Some(name) =>
        if name == "" || '/' in name then InvalidName
        else
          var key := if currentPath == Root then name + "/" + Sentinel
                     else Clean(currentPath) + "/" + name + "/" + Sentinel;
          assert currentPath != Root ==>
            key[|key| - |"/" + name + "/" + Sentinel|..] == "/" + name + "/" + Sentinel;
          CreateSentinel(key, false, "text/plain")
  }

  /** The new folder, as the next listing of the current position shows it, is a
      folder whose path is the sentinel's key without `/.keep`; the sentinel itself is
      never shown (see `FormatItems`). */
  lemma CreatedFolderIsListed(user: Option<User>, currentPath: string, name: string)
    requires StartsWith(currentPath, "./")
    requires HandleCreateFolder(user, currentPath, Some(name)).CreateSentinel?
    ensures var e := FormatItem(ListPath(currentPath), RawItem(name, None));
            e.kind == Folder && e.name == name &&
            HandleCreateFolder(user, currentPath, Some(name)).key == e.path + "/" + Sentinel
  {
    RemoveFirstOfPrefix(currentPath, "./");
  }

  // ---------------------------------------------------------------- rename and delete

  /** The storage calls the handlers issue. */
  datatype StoreOp = ListOp(prefix: string) | CopyOp(from: string, to: string) | RemoveOp(keys: seq<string>)

  datatype Status = Skipped | Failed | Done

  /** The calls issued, in order, and how the handler ends. */
  datatype Run = Run(ops: seq<StoreOp>, status: Status)

  /** The store's answers: the names a folder listing returns (`None` when the list
      call fails), the index of the first copy call that fails (`None` when every copy
      succeeds) and whether the remove call succeeds. */
  datatype StoreReplies = StoreReplies(listing: Option<seq<string>>, firstCopyFailure: Option<nat>, removeOk: bool)

  /** `pathParts[pathParts.length - 1] = newName; pathParts.join('/')`: everything up
      to and including the last `/` of the key is kept and the last segment replaced. */
  function RenamedKey(path: string, newName: string): (r: string)
    ensures |LastPart(path, '/')| <= |path|
    ensures r == path[..|path| - |LastPart(path, '/')|] + newName
  {
    var parts := Split(path, '/');
    var init := parts[..|parts| - 1];
    if |parts| == 1 then
      newName
    else
      JoinSnoc(init, parts[|parts| - 1], '/');
      JoinSnoc(init, newName, '/');
      assert init + [parts[|parts| - 1]] == parts;
      Join(init + [newName], '/')
  }

  /** `${path}/${name}` for each listed name. */
  function ChildKeys(path: string, names: seq<string>): (r: seq<string>)
    ensures |r| == |names|
    ensures forall i :: 0 <= i < |r| ==> r[i] == path + "/" + names[i]
    decreases |names|
  {
    if |names| == 0 then [] else [path + "/" + names[0]] + ChildKeys(path, names[1..])
  }

  /** The keys of a sequence, as a set. */
  function KeySet(ks: seq<string>): set<string> {
    set k | k in ks
  }

  /** The copies of a folder rename, one per listed name, in listing order. */
  function Copies(from: string, to: string, names: seq<string>): (r: seq<StoreOp>)
    ensures |r| == |names|
    ensures forall i :: 0 <= i < |r| ==> r[i] == CopyOp(from + "/" + names[i], to + "/" + names[i])
    decreases |names|
  {
    if |names| == 0 then []
    else [CopyOp(from + "/" + names[0], to + "/" + names[0])] + Copies(from, to, names[1..])
  }

  /** Whether a run issues a remove call. */
  predicate Removes(run: Run) {
    exists i :: 0 <= i < |run.ops| && run.ops[i].RemoveOp?
  }

  /** The file branch of `handleRename`: copy to the new key, then remove the old key. */
  function RenameFile(path: string, newPath: string, replies: StoreReplies): (run: Run)
    ensures |run.ops| >= 1 && run.ops[0] == CopyOp(path, newPath)
    ensures replies.firstCopyFailure == Some(0) ==> run == Run([CopyOp(path, newPath)], Failed)
    ensures replies.firstCopyFailure != Some(0) ==> run.ops == [CopyOp(path, newPath), RemoveOp([path])]
    ensures run.status == Done <==> replies.firstCopyFailure != Some(0) && replies.removeOk
  {
    if replies.firstCopyFailure == Some(0) then Run([CopyOp(path, newPath)], Failed)
    else Run([CopyOp(path, newPath), RemoveOp([path])], if replies.removeOk then Done else Failed)
  }

  /** The folder branch of `handleRename`: list the folder, copy every listed child to
      the new folder, stopping at the first failed copy, then remove the old children
      in one call, which is skipped when the folder listed nothing. */
  function RenameFolder(path: string, newPath: string, replies: StoreReplies): (run: Run)
    ensures |run.ops| >= 1 && run.ops[0] == ListOp(path)
    ensures replies.listing.None? ==> run == Run([ListOp(path)], Failed)
    ensures replies.listing.Some? ==>
      var names := replies.listing.value;
      var copies := Copies(path, newPath, names);
      (replies.firstCopyFailure.Some? && replies.firstCopyFailure.value < |names| ==>
         run == Run([ListOp(path)] + copies[..replies.firstCopyFailure.value + 1], Failed) && !Removes(run)) &&
      (names == [] ==> run == Run([ListOp(path)], Done)) &&
      (run.status == Done && names != [] ==>
         run.ops == [ListOp(path)] + copies + [RemoveOp(ChildKeys(path, names))])
    ensures replies.listing.Some? && replies.listing.value != [] &&
            (replies.firstCopyFailure.None? || replies.firstCopyFailure.value >= |replies.listing.value|) ==>
      run.ops == [ListOp(path)] + Copies(path, newPath, replies.listing.value) + [RemoveOp(ChildKeys(path, replies.listing.value))] &&
      (run.status == Done <==> replies.removeOk)
  {
    match replies.listing
    case None => Run([ListOp(path)], Failed)
    case Some(names) =>
      var copies := Copies(path, newPath, names);
      if replies.firstCopyFailure.Some? && replies.firstCopyFailure.value < |names| then
        var ops := [ListOp(path)] + copies[..replies.firstCopyFailure.value + 1];
        assert forall i :: 0 <= i < |ops| ==> !ops[i].RemoveOp?;
        Run(ops, Failed)
      else if |names| == 0 then Run([ListOp(path)], Done)
      else Run([ListOp(path)] + copies + [RemoveOp(ChildKeys(path, names))], if replies.removeOk then Done else Failed)
  }

  /** `handleRename` on the entry the context menu was opened on, with the name given at
      the prompt (`None` when cancelled): an empty or unchanged name issues nothing. */
  function HandleRename(entry: Entry, newName: Option<string>, replies: StoreReplies): (run: Run)
    ensures newName.None? || newName.value == "" || newName.value == entry.name ==> run == Run([], Skipped)
    ensures newName.Some? && newName.value != "" && newName.value != entry.name ==>
      run.status != Skipped && |run.ops| >= 1 &&
      (entry.kind == File ==> run.ops[0] == CopyOp(entry.path, RenamedKey(entry.path, newName.value))) &&
      (entry.kind == Folder ==> run.ops[0] == ListOp(entry.path))
    ensures newName.Some? && newName.value != "" && newName.value != entry.name && entry.kind == File ==>
      run == RenameFile(entry.path, RenamedKey(entry.path, newName.value), replies)
    ensures newName.Some? && newName.value != "" && newName.value != entry.name && entry.kind == Folder ==>
      run == RenameFolder(entry.path, RenamedKey(entry.path, newName.value), replies)
  {
    if newName.None? || newName.value == "" || newName.value == entry.name then Run([], Skipped)
    else
      var newPath := RenamedKey(entry.path, newName.value);
      if entry.kind == File then RenameFile(entry.path, newPath, replies)
      else RenameFolder(entry.path, newPath, replies)
  }

  /** `handleDelete`: nothing without confirmation; a file is removed by its key; a
      folder is listed and all its listed children removed in one call, which is not
      issued at all when the folder listed nothing. */
  function HandleDelete(entry: Entry, confirmed: bool, replies: StoreReplies): (run: Run)
    ensures !confirmed ==> run == Run([], Skipped)
    ensures confirmed && entry.kind == File ==>
      run == Run([RemoveOp([entry.path])], if replies.removeOk then Done else Failed)
    ensures confirmed && entry.kind == Folder ==>
      |run.ops| >= 1 && run.ops[0] == ListOp(entry.path) &&
      (replies.listing.None? ==> run.status == Failed && !Removes(run)) &&
      (replies.listing == Some([]) ==> run.status == Done && !Removes(run)) &&
      (replies.listing.Some? && replies.listing.value != [] ==>
         run.ops == [ListOp(entry.path), RemoveOp(ChildKeys(entry.path, replies.listing.value))] &&
         (run.status == Done <==> replies.removeOk))
  {
    if !confirmed then Run([], Skipped)
    else if entry.kind == File then
      Run([RemoveOp([entry.path])], if replies.removeOk then Done else Failed)
    else
      match replies.listing
      case None => Run([ListOp(entry.path)], Failed)
      case Some(names) =>
        if |names| == 0 then Run([ListOp(entry.path)], Done)
        else Run([ListOp(entry.path), RemoveOp(ChildKeys(entry.path, names))], if replies.removeOk then Done else Failed)
  }

  /** `handleContextMenu`: the menu (and with it rename and delete) opens only where
      the user may manage. */
  function ContextMenuTarget(user: Option<User>, currentPath: string, entry: Entry): (r: Option<Entry>)
    ensures r.Some? <==> CanManageInPath(user, currentPath)
    ensures r.Some? ==> r.value == entry
  {
    if CanManageInPath(user, currentPath) then Some(entry) else None
  }

  /** Rename reached through the context menu: without permission no call is issued. */
  function RenameFromMenu(user: Option<User>, currentPath: string, entry: Entry, newName: Option<string>,
                          replies: StoreReplies): (run: Run)
    ensures !CanManageInPath(user, currentPath) ==> run.ops == []
    ensures CanManageInPath(user, currentPath) ==> run == HandleRename(entry, newName, replies)
  {
    match ContextMenuTarget(user, currentPath, entry)
    case None => Run([], Skipped)
    case Some(e) => HandleRename(e, newName, replies)
  }

  /** Delete reached through the context menu: without permission no call is issued. */
  function DeleteFromMenu(user: Option<User>, currentPath: string, entry: Entry, confirmed: bool,
                          replies: StoreReplies): (run: Run)
    ensures !CanManageInPath(user, currentPath) ==> run.ops == []
    ensures CanManageInPath(user, currentPath) ==> run == HandleDelete(entry, confirmed, replies)
  {
    match ContextMenuTarget(user, currentPath, entry)
    case None => Run([], Skipped)
    case Some(e) => HandleDelete(e, confirmed, replies)
  }

  // ---------------------------------------------------------------- effect on the bucket

  /** The effect of one successful call on the set of keys in the bucket. */
  function Apply(keys: set<string>, op: StoreOp): set<string> {
    match op
    case ListOp(_) => keys
    case CopyOp(from, to) => if from in keys then keys + {to} else keys
    case RemoveOp(ks) => keys - KeySet(ks)
  }

  function ApplyAll(keys: set<string>, ops: seq<StoreOp>): set<string>
    decreases |ops|
  {
    if |ops| == 0 then keys else ApplyAll(Apply(keys, ops[0]), ops[1..])
  }

  /** The calls of a run that took effect: all of them, except the failing last one. */
  function Effective(run: Run): seq<StoreOp> {
    if run.status == Failed && |run.ops| > 0 then run.ops[..|run.ops| - 1] else run.ops
  }

  function ApplyRun(keys: set<string>, run: Run): set<string> {
    ApplyAll(keys, Effective(run))
  }

  lemma {:induction false} ApplyAllAppend(keys: set<string>, a: seq<StoreOp>, b: seq<StoreOp>)
    ensures ApplyAll(keys, a + b) == ApplyAll(ApplyAll(keys, a), b)
    decreases |a|
  {
    if |a| == 0 {
      assert a + b == b;
    } else {
      assert (a + b)[0] == a[0];
      assert (a + b)[1..] == a[1..] + b;
      ApplyAllAppend(Apply(keys, a[0]), a[1..], b);
    }
  }

  /** Copying children whose old keys are all present adds every new key. */
  lemma {:induction false} ApplyCopies(keys: set<string>, from: string, to: string, names: seq<string>)
    requires forall i :: 0 <= i < |names| ==> from + "/" + names[i] in keys
    ensures ApplyAll(keys, Copies(from, to, names)) == keys + KeySet(ChildKeys(to, names))
    decreases |names|
  {
    if |names| > 0 {
      var keys' := keys + {to + "/" + names[0]};
      var rest := names[1..];
      assert Copies(from, to, names)[0] == CopyOp(from + "/" + names[0], to + "/" + names[0]);
      assert Copies(from, to, names)[1..] == Copies(from, to, rest);
      assert forall i :: 0 <= i < |rest| ==> from + "/" + rest[i] in keys' by {
        forall i | 0 <= i < |rest| ensures from + "/" + rest[i] in keys' {
          assert rest[i] == names[i + 1];
        }
      }
      ApplyCopies(keys', from, to, rest);
      assert ChildKeys(to, names) == [to + "/" + names[0]] + ChildKeys(to, rest);
      assert KeySet(ChildKeys(to, names)) == {to + "/" + names[0]} + KeySet(ChildKeys(to, rest));
    }
  }

  /** Renaming a listed entry (a key `dir/name`, or `name` at the root) gives its
      sibling `dir/newName`: the new key differs from the old one only in its last
      segment. */
  lemma RenameListedEntry(dir: string, name: string, newName: string)
    requires name != "" && '/' !in name && newName != ""
    ensures RenamedKey(Under(dir, name), newName) == Under(dir, newName)
  {
    if dir == "" {
      SplitNoSep(name, '/');
    } else {
      var p := dir + "/" + name;
      assert EndsWith(p, ['/'] + name);
      LastPartOfSuffix(p, name, '/');
      assert p[..|p| - |name|] == dir + "/";
    }
  }

  /** The effect of a file rename on the bucket: success moves the key; a failed copy
      changes nothing; a copy whose remove then fails leaves both keys (the rename is
      not atomic and nothing is rolled back). */
  lemma FileRenameEffect(keys: set<string>, entry: Entry, newName: string, replies: StoreReplies)
    requires entry.kind == File && entry.path in keys
    requires newName != "" && newName != entry.name
    requires RenamedKey(entry.path, newName) != entry.path
    ensures var run := HandleRename(entry, Some(newName), replies);
            var newPath := RenamedKey(entry.path, newName);
            (run.status == Done ==> ApplyRun(keys, run) == keys - {entry.path} + {newPath}) &&
            (replies.firstCopyFailure == Some(0) ==> ApplyRun(keys, run) == keys) &&
            (replies.firstCopyFailure != Some(0) && !replies.removeOk ==>
               ApplyRun(keys, run) == keys + {newPath} && entry.path in ApplyRun(keys, run))
  {
    var newPath := RenamedKey(entry.path, newName);
    var run := HandleRename(entry, Some(newName), replies);
    assert run == RenameFile(entry.path, newPath, replies);
    var copy := CopyOp(entry.path, newPath);
    var remove := RemoveOp([entry.path]);
    assert KeySet([entry.path]) == {entry.path};
    assert ApplyAll(keys, [copy]) == keys + {newPath} by {
      assert [copy][1..] == [];
    }
    if replies.firstCopyFailure != Some(0) {
      assert run.ops == [copy, remove];
      if replies.removeOk {
        assert Effective(run) == [copy, remove];
        assert [copy, remove][1..] == [remove];
        assert [remove][1..] == [];
        assert Apply(keys, copy) == keys + {newPath};
        assert ApplyAll(keys, [copy, remove]) == ApplyAll(keys + {newPath}, [remove]);
        var after := keys + {newPath} - {entry.path};
        assert Apply(keys + {newPath}, remove) == after;
        assert ApplyAll(keys + {newPath}, [remove]) == ApplyAll(after, []);
        assert after == keys - {entry.path} + {newPath};
      } else {
        assert Effective(run) == [copy];
      }
    } else {
      assert Effective(run) == [];
    }
  }

  /** The effect of a completed folder rename: every listed child (all present) now
      also exists under the new folder key, and every old child key is gone. */
  lemma FolderRenameEffect(keys: set<string>, entry: Entry, newName: string, replies: StoreReplies)
    requires entry.kind == Folder
    requires newName != "" && newName != entry.name
    requires replies.listing.Some?
    requires forall i :: 0 <= i < |replies.listing.value| ==> entry.path + "/" + replies.listing.value[i] in keys
    requires HandleRename(entry, Some(newName), replies).status == Done
    ensures var names := replies.listing.value;
            ApplyRun(keys, HandleRename(entry, Some(newName), replies)) ==
              (keys + KeySet(ChildKeys(RenamedKey(entry.path, newName), names))) - KeySet(ChildKeys(entry.path, names))
  {
    var names := replies.listing.value;
    var newPath := RenamedKey(entry.path, newName);
    var run := HandleRename(entry, Some(newName), replies);
    assert run == RenameFolder(entry.path, newPath, replies);
    var copies := Copies(entry.path, newPath, names);
    var list := ListOp(entry.path);
    if |names| == 0 {
      assert run == Run([list], Done);
      assert [list][1..] == [];
      assert ApplyAll(keys, [list]) == keys;
    } else {
      var ck := ChildKeys(entry.path, names);
      assert run.ops == [list] + copies + [RemoveOp(ck)];
      assert Effective(run) == [list] + (copies + [RemoveOp(ck)]);
      ApplyAllAppend(keys, [list], copies + [RemoveOp(ck)]);
      assert [list][1..] == [];
      assert ApplyAll(keys, [list]) == keys;
      ApplyAllAppend(keys, copies, [RemoveOp(ck)]);
      ApplyCopies(keys, entry.path, newPath, names);
      var mid := keys + KeySet(ChildKeys(newPath, names));
      assert [RemoveOp(ck)][1..] == [];
      assert ApplyAll(mid, [RemoveOp(ck)]) == mid - KeySet(ck);
    }
  }

  /** The effect of a completed folder delete: exactly the listed children's keys are gone. */
  lemma FolderDeleteEffect(keys: set<string>, entry: Entry, replies: StoreReplies)
    requires entry.kind == Folder && replies.listing.Some?
    requires HandleDelete(entry, true, replies).status == Done
    ensures ApplyRun(keys, HandleDelete(entry, true, replies)) == keys - KeySet(ChildKeys(entry.path, replies.listing.value))
  {
    var names := replies.listing.value;
    var run := HandleDelete(entry, true, replies);
    var list := ListOp(entry.path);
    assert [list][1..] == [];
    assert ApplyAll(keys, [list]) == keys;
    if |names| == 0 {
      assert run == Run([list], Done);
      assert KeySet(ChildKeys(entry.path, names)) == {};
    } else {
      var ck := ChildKeys(entry.path, names);
      var rm := RemoveOp(ck);
      assert run == Run([list, rm], Done);
      assert Effective(run) == [list, rm];
      assert [list, rm][1..] == [rm];
      assert [rm][1..] == [];
      assert ApplyAll(keys, [list, rm]) == ApplyAll(keys, [rm]);
      assert ApplyAll(keys, [rm]) == keys - KeySet(ck);
    }
  }
}
