/** Write permission and write placement in the resources bucket.

    The bucket is flat; folders are key prefixes. The first key segment names an
    ownership zone: `Admin` for administrators and `Teachers/<name>` for each
    teacher. Two functions must agree on these zones: `CanManageInPath` gates every
    mutating action on the folder being browsed, and `RoleBasedPath` chooses the key
    a write lands on. `TeacherWriteStaysInZone` proves they agree. */
module ResourceAccess {
  import opened Wrappers
  import opened Strings
  import opened Profiles

  /** The browsing position at the bucket root. Every other position is `"./" + key`. */
  const Root: string := "./"

  /** `currentPath.replace('./', '')`: the storage key of a browsing position. */
  function Clean(currentPath: string): string {
    RemoveFirst(currentPath, "./")
  }

  /** The root position has the empty key. */
  lemma CleanRoot()
    ensures Clean(Root) == ""
  {
    RemoveFirstOfPrefix(Root, "./");
  }

  /** `Teachers/${user.name || 'unknown'}`: the zone a teacher owns. */
  function TeacherZone(u: User): string {
    "Teachers/" + NameOrUnknown(u)
  }

  /** Key `k` is the zone root `z` itself or lies below it. */
  predicate InZone(k: string, z: string) {
    k == z || StartsWith(k, z + "/")
  }

  /** `dir/name`, or `dir` itself when the name is empty (the `fileName ? … : …` test). */
  function Under(dir: string, name: string): string {
    if name == "" then dir else dir + "/" + name
  }

  /** A key built under a zone member stays in the zone. */
  lemma UnderInZone(dir: string, name: string, z: string)
    requires InZone(dir, z)
    ensures InZone(Under(dir, name), z)
  {
    if name != "" {
      var k := dir + "/" + name;
      if dir == z {
        assert k[..|z + "/"|] == z + "/";
      } else {
        assert k[..|z + "/"|] == dir[..|z + "/"|];
      }
    }
  }

  /** A path whose first two segments are `Teachers` and `n` lies in the zone `Teachers/<n>`. */
  lemma {:induction false} SegmentsGiveZone(s: string, n: string)
    requires Split(s, '/')[0] == "Teachers" && |Split(s, '/')| >= 2 && Split(s, '/')[1] == n
    ensures '/' !in n && InZone(s, "Teachers/" + n)
  {
    var parts := Split(s, '/');
    var tail := parts[1..];
    assert s == "Teachers" + "/" + Join(tail, '/');
    if |parts| == 2 {
      assert Join(tail, '/') == n;
    } else {
      var more := Join(tail[1..], '/');
      assert Join(tail, '/') == n + "/" + more;
      assert s == ("Teachers/" + n + "/") + more;
    }
  }

  /** Two separator-free segments joined by a separator split back into those two. */
  lemma {:induction false} TwoSegments(a: string, n: string)
    requires '/' !in a && '/' !in n
    ensures Split(a + ['/'] + n, '/') == [a, n]
  {
    SplitNoSep(a, '/');
    SplitNoSep(n, '/');
    SplitAppend(a, n, '/');
  }

  /** ... and any further separator only adds segments after them. */
  lemma {:induction false} TwoSegmentsThenMore(a: string, n: string, more: string)
    requires '/' !in a && '/' !in n
    ensures Split(a + ['/'] + (n + ['/'] + more), '/') == [a, n] + Split(more, '/')
  {
    SplitNoSep(a, '/');
    SplitNoSep(n, '/');
    SplitAppend(a, n + ['/'] + more, '/');
    SplitAppend(n, more, '/');
  }

  /** Conversely, a key in the zone `Teachers/<n>`, for a single-segment `n`, has
      `Teachers` and `n` as its first two segments. */
  lemma ZoneGivesSegments(s: string, n: string)
    requires '/' !in n && InZone(s, "Teachers/" + n)
    ensures Split(s, '/')[0] == "Teachers" && |Split(s, '/')| >= 2 && Split(s, '/')[1] == n
  {
    var t := "Teachers";
    assert '/' !in t;
    if s == "Teachers/" + n {
      assert s == t + ['/'] + n;
      TwoSegments(t, n);
    } else {
      var more := s[|"Teachers/" + n + "/"|..];
      assert s == t + ['/'] + (n + ['/'] + more);
      TwoSegmentsThenMore(t, n, more);
    }
  }

  /** The path test a teacher's permission rests on (first segment `Teachers`,
      second segment the teacher's name) is exactly "the key is inside the zone
      `Teachers/<n>`" for a single-segment `n`. */
  lemma TeacherSegments(s: string, n: string)
    ensures (var parts := Split(s, '/'); parts[0] == "Teachers" && |parts| >= 2 && parts[1] == n)
            <==> ('/' !in n && InZone(s, "Teachers/" + n))
  {
    var parts := Split(s, '/');
    if parts[0] == "Teachers" && |parts| >= 2 && parts[1] == n {
      SegmentsGiveZone(s, n);
    }
    if '/' !in n && InZone(s, "Teachers/" + n) {
      ZoneGivesSegments(s, n);
    }
  }

  /** `canManageInPath`: may `user` create, rename, delete or upload in the folder
      shown at `currentPath`? Absent users, students and pending users never may;
      administrators always may; a teacher may exactly inside their own zone. */
  function CanManageInPath(user: Option<User>, currentPath: string): (r: bool)
    ensures user.None? ==> !r
    ensures user.Some? && user.value.role == Admin ==> r
    ensures user.Some? && (user.value.role == Student || user.value.role == Pending) ==> !r
    ensures user.Some? && user.value.role == Teacher ==>
      (r <==> '/' !in NameOrUnknown(user.value) && InZone(Clean(currentPath), TeacherZone(user.value)))
  {
    match user
    case None => false
    case Some(u) =>
      if u.role == Admin then true
      else if u.role == Teacher then
        var parts := Split(Clean(currentPath), '/');
        TeacherSegments(Clean(currentPath), NameOrUnknown(u));
        if parts[0] == "Teachers" && |parts| >= 2 && parts[1] == NameOrUnknown(u) then true
        else if parts[0] == "Admin" then false
        else false
      else false
  }

  /** `getRoleBasedPath`: the key a write from `currentPath` goes to, with `fileName`
      ("" for none) as its last segment. At the root an administrator writes into the
      `Admin` zone and a teacher into their own zone; below the root both write into
      the folder being browsed; for anyone else the browsing position comes back
      unchanged and the file name is ignored. */
  function RoleBasedPath(user: Option<User>, currentPath: string, fileName: string): (r: string)
    ensures user.None? || user.value.role == Student || user.value.role == Pending ==> r == currentPath
    ensures user.Some? && user.value.role == Admin && currentPath == Root ==> InZone(r, "Admin")
    ensures user.Some? && user.value.role == Teacher && currentPath == Root ==> InZone(r, TeacherZone(user.value))
    ensures user.Some? && (user.value.role == Admin || user.value.role == Teacher) && currentPath != Root ==>
      InZone(r, Clean(currentPath))
    ensures user.Some? && (user.value.role == Admin || user.value.role == Teacher) && fileName != "" ==>
      EndsWith(r, "/" + fileName)
    ensures user.Some? && user.value.role == Admin && currentPath == Root ==> r == Under("Admin", fileName)
    ensures user.Some? && user.value.role == Teacher && currentPath == Root ==> r == Under(TeacherZone(user.value), fileName)
    ensures user.Some? && (user.value.role == Admin || user.value.role == Teacher) && currentPath != Root ==>
      r == Under(Clean(currentPath), fileName)
  {
    match user
    case None => currentPath
    case Some(u) =>
      if u.role == Admin || u.role == Teacher then
        var dir := if currentPath != Root then Clean(currentPath)
                   else if u.role == Admin then "Admin"
                   else TeacherZone(u);
        UnderInZone(dir, fileName, dir);
        UnderEndsWith(dir, fileName);
        Under(dir, fileName)
      else currentPath
  }

  /** A non-empty name is the last segment of the key built under any directory. */
  lemma UnderEndsWith(dir: string, name: string)
    ensures name != "" ==> EndsWith(Under(dir, name), "/" + name)
  {
    if name != "" {
      var k := dir + "/" + name;
      assert k[|k| - |"/" + name|..] == "/" + name;
    }
  }

  /** The coupling of the two: whenever a teacher passes the permission check, the
      key chosen for the write lies in that teacher's zone. */
  lemma TeacherWriteStaysInZone(u: User, currentPath: string, fileName: string)
    requires u.role == Teacher
    requires CanManageInPath(Some(u), currentPath)
    ensures InZone(RoleBasedPath(Some(u), currentPath, fileName), TeacherZone(u))
  {
    CleanRoot();
    SplitNoSep("", '/');
    assert currentPath != Root;
    UnderInZone(Clean(currentPath), fileName, TeacherZone(u));
  }

  /** The "My Folder" button moves a teacher to `./Teachers/<name>`, where they may
      manage, as long as the name is a single path segment. */
  lemma MyFolderIsManageable(u: User)
    requires u.role == Teacher
    requires '/' !in NameOrUnknown(u)
    ensures CanManageInPath(Some(u), "./" + TeacherZone(u))
  {
    RemoveFirstOfPrefix("./" + TeacherZone(u), "./");
    assert ("./" + TeacherZone(u))[2..] == TeacherZone(u);
  }

  /** A teacher may manage neither at the root nor anywhere in the `Admin` zone. */
  lemma TeacherLocksOutRootAndAdmin(u: User, rest: string)
    requires u.role == Teacher
    ensures !CanManageInPath(Some(u), Root)
    ensures !CanManageInPath(Some(u), "./Admin" + rest)
  {
    CleanRoot();
    RemoveFirstOfPrefix("./Admin" + rest, "./");
    assert Clean("./Admin" + rest)[0] == 'A';
  }

  /** `getInitialPath`: every user starts at the root, where only an administrator
      may manage. The page itself never calls it; its `currentPath` state starts at
      the same `"./"`. */
  function InitialPath(user: Option<User>): (r: string)
    ensures StartsWith(r, "./") && Clean(r) == ""
    ensures CanManageInPath(user, r) <==> user.Some? && user.value.role == Admin
  {
    CleanRoot();
    Root
  }
}
