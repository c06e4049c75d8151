/** The resources browser's read side: turning a storage listing into entries,
    moving between folders, the names shown for root folders, and which files open
    in the inline viewer.

    A browsing position is `"./"` (the root) or `"./" + key` where `key` is a
    folder's storage key; `IsPosition` states that invariant and the navigation
    functions preserve it. */
module ResourceBrowser {
  import opened Wrappers
  import opened Strings
  import opened Seqs
  import opened Profiles
  import opened ResourceAccess

  /** One item of a storage listing; folders (key prefixes) come back without an `id`. */
  datatype RawItem = RawItem(name: string, id: Option<string>)

  datatype Kind = File | Folder

  /** A browser entry `{ id, name, type, path }`; `path` is the item's full storage key. */
  datatype Entry = Entry(id: string, name: string, kind: Kind, path: string)

  /** The placeholder object that keeps an otherwise empty folder listed. */
  const Sentinel: string := ".keep"

  /** The segments of a key: no segment is empty. */
  predicate WellFormedKey(key: string) {
    var parts := Split(key, '/');
    forall i :: 0 <= i < |parts| ==> parts[i] != ""
  }

  /** A browsing position: the root, or `./` followed by a well-formed non-empty key. */
  predicate IsPosition(p: string) {
    p == Root || (StartsWith(p, "./") && |p| > 2 && WellFormedKey(p[2..]))
  }

  /** The listing prefix `path === './' ? '' : path.replace('./', '')`: for a
      position it is the key after `./`. */
  function ListPath(path: string): (r: string)
    ensures StartsWith(path, "./") ==> r == path[2..]
  {
    if path == Root then ""
    else
      RemoveFirstOfPrefix(path, "./");
      Clean(path)
  }

  /** The mapping of one listed item: its id falls back to its name, it is a file
      exactly when it has an id, and its path is the listing prefix joined with
      its name. */
  function FormatItem(listPath: string, item: RawItem): (e: Entry)
    ensures e.name == item.name
    ensures e.kind == File <==> Truthy(item.id)
    ensures e.id == OrElse(item.id, item.name)
    ensures listPath == "" ==> e.path == item.name
    ensures listPath != "" ==> e.path == listPath + "/" + item.name
  {
    Entry(if Truthy(item.id) then item.id.value else item.name,
          item.name,
          if Truthy(item.id) then File else Folder,
          if listPath != "" then listPath + "/" + item.name else item.name)
  }

  /** `.filter(item => item.name !== '.keep').map(...)`: every non-sentinel item, in order. */
  function FormatItems(listPath: string, items: seq<RawItem>): (r: seq<Entry>)
    ensures |r| <= |items|
    ensures forall i :: 0 <= i < |r| ==> r[i].name != Sentinel
    ensures forall i :: 0 <= i < |r| ==>
      exists j :: 0 <= j < |items| && r[i] == FormatItem(listPath, items[j])
    ensures forall j :: 0 <= j < |items| && items[j].name != Sentinel ==>
      FormatItem(listPath, items[j]) in r
    decreases |items|
  {
    if |items| == 0 then []
    else
      var rest := FormatItems(listPath, items[1..]);
      assert forall j :: 1 <= j < |items| ==> items[j] == items[1..][j - 1];
      if items[0].name == Sentinel then rest
      else [FormatItem(listPath, items[0])] + rest
  }

  /** The root folders a teacher is allowed to discover. */
  predicate TeacherRootFolder(name: string) {
    name == "Admin" || name == "Teachers" || name == "teachers"
  }

  /** Whether an entry survives the teacher-at-root filter. */
  predicate Shown(user: Option<User>, currentPath: string, name: string) {
    !(user.Some? && user.value.role == Teacher && currentPath == Root) || TeacherRootFolder(name)
  }

  /** The post-processing of a successful listing of `path` in `fetchResources`. The
      signed-in user and the browsing position are explicit parameters. */
  function FormatListing(path: string, user: Option<User>, currentPath: string, items: seq<RawItem>): (r: seq<Entry>)
    ensures |r| <= |items|
    ensures forall i :: 0 <= i < |r| ==> r[i].name != Sentinel && Shown(user, currentPath, r[i].name)
    ensures forall i :: 0 <= i < |r| ==>
      exists j :: 0 <= j < |items| && r[i] == FormatItem(ListPath(path), items[j])
    ensures forall j :: 0 <= j < |items| && items[j].name != Sentinel && Shown(user, currentPath, items[j].name) ==>
      FormatItem(ListPath(path), items[j]) in r
  {
    var formatted := FormatItems(ListPath(path), items);
    if user.Some? && user.value.role == Teacher && currentPath == Root then
      Filter(formatted, (e: Entry) => TeacherRootFolder(e.name))
    else formatted
  }

  datatype NavResult = ChangeDir(path: string) | OpenPreview(entry: Entry) | PreviewUnsupported

  /** `handleNavigate` on a double-clicked entry: a folder becomes the new position
      `./<path>`; a file opens the viewer when its type is previewable. */
  function Navigate(e: Entry): (r: NavResult)
    ensures e.kind == Folder ==> r == ChangeDir("./" + e.path) && ListPath(r.path) == e.path
    ensures e.kind == File ==> (r.OpenPreview? <==> CanViewInline(e.name)) && !r.ChangeDir?
  {
    match e.kind
    case Folder =>
      assert StartsWith("./" + e.path, "./");
      assert ("./" + e.path)[2..] == e.path;
      ChangeDir("./" + e.path)
    case File => if CanViewInline(e.name) then OpenPreview(e) else PreviewUnsupported
  }

  predicate NonEmpty(part: string) {
    part != ""
  }

  /** The non-empty segments of a position: `replace('./','').split('/').filter(Boolean)`. */
  function Segments(currentPath: string): (r: seq<string>)
    ensures forall i :: 0 <= i < |r| ==> r[i] != "" && '/' !in r[i]
  {
    Filter(Split(Clean(currentPath), '/'), NonEmpty)
  }

  /** `handleGoBack`: drop the last non-empty segment; no segment left means the root.
      The result is always a position, whatever the input. */
  function GoBack(currentPath: string): (r: string)
    ensures IsPosition(r)
    ensures |Segments(currentPath)| <= 1 ==> r == Root
    ensures |Segments(currentPath)| > 1 ==>
      Segments(r) == Segments(currentPath)[..|Segments(currentPath)| - 1]
  {
    var parts := Segments(currentPath);
    var kept := if |parts| == 0 then [] else parts[..|parts| - 1];
    if |kept| == 0 then Root
    else
      var key := Join(kept, '/');
      SplitJoin(kept, '/');
      FilterAll(kept, NonEmpty);
      RemoveFirstOfPrefix("./" + key, "./");
      assert ("./" + key)[2..] == key;
      "./" + key
  }

  /** Going back from a position whose segments end in `last` lands on the position
      made of the segments before it. */
  lemma GoBackDropsLast(q: string, segs: seq<string>, last: string)
    requires Segments(q) == segs + [last]
    requires |segs| >= 1
    ensures GoBack(q) == "./" + Join(segs, '/')
  {
    assert (segs + [last])[..|segs|] == segs;
  }

  /** The two halves of the round trip below, at the root and inside a folder. */
  lemma {:induction false} EnterFromRoot(name: string)
    requires name != "" && '/' !in name
    ensures IsPosition("./" + name)
    ensures GoBack("./" + name) == Root
  {
    var q := "./" + name;
    SplitNoSep(name, '/');
    RemoveFirstOfPrefix(q, "./");
    assert q[2..] == name;
    FilterAll([name], NonEmpty);
    assert Segments(q) == [name];
  }

  lemma {:induction false} EnterFromFolder(lp: string, name: string)
    requires |lp| > 0 && WellFormedKey(lp)
    requires name != "" && '/' !in name
    ensures IsPosition("./" + (lp + "/" + name))
    ensures GoBack("./" + (lp + "/" + name)) == "./" + lp
  {
    var q := "./" + (lp + "/" + name);
    SplitNoSep(name, '/');
    RemoveFirstOfPrefix(q, "./");
    assert q[2..] == lp + ['/'] + name;
    SplitAppend(lp, name, '/');
    var sp := Split(lp, '/');
    assert Split(q[2..], '/') == sp + [name];
    FilterAll(sp + [name], NonEmpty);
    assert Segments(q) == sp + [name];
    GoBackDropsLast(q, sp, name);
  }

  /** Entering a listed folder and going back returns to the starting position, and
      the folder entered is itself a position. */
  lemma NavigateThenGoBack(currentPath: string, item: RawItem)
    requires IsPosition(currentPath)
    requires item.name != "" && '/' !in item.name && !Truthy(item.id)
    ensures Navigate(FormatItem(ListPath(currentPath), item)).ChangeDir?
    ensures IsPosition(Navigate(FormatItem(ListPath(currentPath), item)).path)
    ensures GoBack(Navigate(FormatItem(ListPath(currentPath), item)).path) == currentPath
  {
    var lp := ListPath(currentPath);
    if currentPath == Root {
      EnterFromRoot(item.name);
    } else {
      assert currentPath == "./" + lp;
      EnterFromFolder(lp, item.name);
    }
  }

  /** `getResourceDisplayName`: only at the root, `teachers` in any letter case shows
      as `Teachers` to every signed-in non-pending user, and an administrator sees
      `Admin` as `My Folder`; every other name is shown as it is. */
  function DisplayName(name: string, user: Option<User>, currentPath: string): (r: string)
    ensures currentPath != Root ==> r == name
    ensures user.None? || user.value.role == Pending ==> r == name
    ensures r != name ==>
      (currentPath == Root &&
       ((r == "Teachers" && Lower(name) == "teachers") ||
        (r == "My Folder" && name == "Admin" && user.value.role == Admin)))
    ensures currentPath == Root && user.Some? && user.value.role != Pending && Lower(name) == "teachers" ==>
      r == "Teachers"
    ensures currentPath == Root && user.Some? && user.value.role == Admin && name == "Admin" ==>
      r == "My Folder"
  {
    if currentPath == Root then
      if user.Some? && (user.value.role == Teacher || user.value.role == Student || user.value.role == Admin) && Lower(name) == "teachers" then "Teachers"
      else if user.Some? && user.value.role == Admin && name == "Admin" then
        assert Lower(name)[0] == 'a';
        "My Folder"
      else
        assert user.None? || user.value.role == Pending || Lower(name) != "teachers";
        name
    else name
  }

  /** The extensions the inline viewer handles. */
  const PreviewExtensions: seq<string> := ["pdf", "jpg", "jpeg", "png", "txt"]

  /** `canViewInline`: a name whose last `.` is followed by a previewable extension, in
      any case, opens in the viewer; a name without a `.` does so only when the whole
      name, lower-cased, is such an extension. */
  function CanViewInline(fileName: string): (r: bool)
    ensures forall k :: 0 <= k < |fileName| && fileName[k] == '.' && '.' !in fileName[k + 1..] ==>
      (r <==> Lower(fileName[k + 1..]) in PreviewExtensions)
    ensures '.' !in fileName ==> (r <==> Lower(fileName) in PreviewExtensions)
  {
    var low := Lower(fileName);
    LastPartAfterLastSep(low, '.');
    LowerKeepsDots(fileName);
    LastPart(low, '.') in PreviewExtensions
  }

  /** Lower-casing keeps every `.` where it is and makes no new one. */
  lemma LowerKeepsDots(s: string)
    ensures forall k :: 0 <= k < |s| ==> (Lower(s)[k] == '.' <==> s[k] == '.')
    ensures forall k :: 0 <= k <= |s| ==> Lower(s)[k..] == Lower(s[k..])
    ensures '.' !in s ==> LastPart(Lower(s), '.') == Lower(s)
  {
    if '.' !in s {
      assert '.' !in Lower(s);
      SplitNoSep(Lower(s), '.');
    }
  }
}
