/** What each route handler of server.js does to the storage once the
    framework has handed it the session user and the request fields: a
    function from the storage before the request to the response kind and
    the storage after it. An absent request field is the empty string. */
module Handlers {
  import opened Paths
  import opened FileTree
  import opened Resolve

  /** The response kinds: success (a redirect or a JSON listing), 404, and
      the different reasons for a 400. */
  datatype Status =
    | Ok
    | NotFound      // "Folder not found", "File not found"
    | Exists        // "Target folder already exists", "Target filename already exists"
    | Invalid       // a path test threw
    | MissingName   // "Missing folder name", "Missing names", "Missing filename", "No file uploaded"
    | StorageError  // an `fs` call threw

  /** The response kind, the storage afterwards and, for the handlers that
      produce one, the path acted on. */
  datatype Reply = Reply(status: Status, tree: Tree, target: Option<seq<string>>)

  /** The common prologue of every handler: `ensureUserDir(user)` followed
      by `resolveUserPath(user, rel)`, whose result `dir` ends in a
      separator when `trailing` holds. */
  datatype Prepared =
    | Prepared(tree: Tree, dir: seq<string>, trailing: bool)
    | PrepareFailed(status: Status, tree: Tree)

  /** `ensureUserDir(user)` (server.js:43-46): create the user's root,
      with its parents, when it does not exist. */
  function EnsureUserDir(t: Tree, dirname: seq<string>, user: string): Option<Tree> {
    var base := UserBase(dirname, user);
    if base in t then Some(t) else MkdirAll(t, base)
  }

  function Prepare(t: Tree, dirname: seq<string>, user: string, rel: string): (r: Prepared)
    ensures Canonical(dirname) && r.Prepared? ==> Canonical(r.dir)
  {
    match EnsureUserDir(t, dirname, user)
    case None => PrepareFailed(StorageError, t)
    case Some(t1) =>
      match ResolveUserPath(dirname, user, rel, t1)
      case Failure(_) => PrepareFailed(Invalid, t1)
      case Success(dir) => Prepared(t1, dir, KeepsSlash(rel))
  }

  /** GET /list (server.js:74-93), up to reading the directory. */
  function List(t: Tree, dirname: seq<string>, user: string, rel: string): Reply {
    match Prepare(t, dirname, user, rel)
    case PrepareFailed(st, t1) => Reply(st, t1, None)
    case Prepared(t1, dir, trailing) => ListIn(t1, dir, trailing)
  }

  /** A directory `existsSync` does not see is an empty listing; anything
      but a folder makes `readdirSync` throw; otherwise the directory to
      read is the target. */
  function ListIn(t1: Tree, dir: seq<string>, trailing: bool): Reply {
    if !Present(t1, dir, trailing) then Reply(Ok, t1, None)
    else if t1[dir] != Folder then Reply(StorageError, t1, None)
    else Reply(Ok, t1, Some(dir))
  }

  /** The entries `readdirSync(dir)` may return: each child of `dir` once,
      with its kind, in some order. */
  ghost predicate IsListing(t: Tree, dir: seq<string>, es: seq<Entry>) {
    PartialListing(t, dir, es) && NameSet(es) == ChildNames(t, dir)
  }

  /** Entries of children of `dir`, each with its kind, none twice. */
  ghost predicate PartialListing(t: Tree, dir: seq<string>, es: seq<Entry>) {
    && (forall i :: 0 <= i < |es| ==> dir + [es[i].name] in t && t[dir + [es[i].name]] == es[i].kind)
    && (forall i, j :: 0 <= i < j < |es| ==> es[i].name != es[j].name)
  }

  function NameSet(es: seq<Entry>): set<string> {
    set i | 0 <= i < |es| :: es[i].name
  }

  /** The names the list loop pushes onto `folders`, in entry order. */
  function FolderNames(es: seq<Entry>): seq<string>
    decreases |es|
  {
    if es == [] then []
    else FolderNames(es[..|es| - 1]) + (if es[|es| - 1].kind == Folder then [es[|es| - 1].name] else [])
  }

  /** The names the list loop pushes onto `files`, in entry order. */
  function FileNames(es: seq<Entry>): seq<string>
    decreases |es|
  {
    if es == [] then []
    else FileNames(es[..|es| - 1]) + (if es[|es| - 1].kind == File then [es[|es| - 1].name] else [])
  }

  /** POST /create-folder (server.js:97-111). */
  function CreateFolder(t: Tree, dirname: seq<string>, user: string, rel: string, name: string): Reply {
    if name == "" then Reply(MissingName, t, None)
    else
      match Prepare(t, dirname, user, rel)
      case PrepareFailed(st, t1) => Reply(st, t1, None)
      case Prepared(t1, parent, _) => CreateFolderIn(t1, parent, name)
  }

  /** The `..` test on the joined path, then mkdir -p unless it exists. */
  function CreateFolderIn(t1: Tree, parent: seq<string>, name: string): Reply {
    var newDir := JoinPath(parent, name);
    if HasDotDot(AbsString(newDir)) then Reply(Invalid, t1, None)
    else if Present(t1, newDir, EndsInSlash(name)) then Reply(Ok, t1, Some(newDir))
    else
      match MkdirAll(t1, newDir)
      case None => Reply(StorageError, t1, None)
      case Some(t2) => Reply(Ok, t2, Some(newDir))
  }

  /** POST /delete-folder (server.js:115-133). */
  function DeleteFolder(t: Tree, dirname: seq<string>, user: string, rel: string, name: string): Reply {
    if name == "" then Reply(MissingName, t, None)
    else
      match Prepare(t, dirname, user, rel)
      case PrepareFailed(st, t1) => Reply(st, t1, None)
      case Prepared(t1, parent, _) => DeleteFolderIn(t1, UserBase(dirname, user), parent, name)
  }

  /** The prefix test against the root, then rm -rf when the target exists. */
  function DeleteFolderIn(t1: Tree, base: seq<string>, parent: seq<string>, name: string): Reply {
    var target := JoinPath(parent, name);
    if !PrefixCheck(base, target) then Reply(Invalid, t1, None)
    else if Present(t1, target, EndsInSlash(name)) then Reply(Ok, Remove(t1, target), Some(target))
    else Reply(Ok, t1, Some(target))
  }

  /** POST /rename-folder (server.js:137-153). */
  function RenameFolder(t: Tree, dirname: seq<string>, user: string, rel: string, oldName: string, newName: string): Reply {
    if oldName == "" || newName == "" then Reply(MissingName, t, None)
    else
      match Prepare(t, dirname, user, rel)
      case PrepareFailed(st, t1) => Reply(st, t1, None)
      case Prepared(t1, parent, _) =>
        RenameIn(t1, JoinPath(parent, oldName), EndsInSlash(oldName), JoinPath(parent, newName), EndsInSlash(newName))
  }

  /** 404 for a source `existsSync` does not see, 400 for a target it
      sees, otherwise `renameSync`; `os` and `ns` say whether the two path
      strings end in a separator. Rename-folder reaches this with no test
      on the names. */
  function RenameIn(t1: Tree, o: seq<string>, os: bool, n: seq<string>, ns: bool): Reply {
    if !Present(t1, o, os) then Reply(NotFound, t1, None)
    else if Present(t1, n, ns) then Reply(Exists, t1, None)
    else
      match Rename(t1, o, n, os || ns)
      case None => Reply(StorageError, t1, None)
      case Some(t2) => Reply(Ok, t2, Some(n))
  }

  /** POST /upload (server.js:157-174) up to the move of the uploaded file. */
  function Upload(t: Tree, dirname: seq<string>, user: string, rel: string, hasFile: bool, fileName: string): Reply {
    if !hasFile then Reply(MissingName, t, None)
    else
      match Prepare(t, dirname, user, rel)
      case PrepareFailed(st, t1) => Reply(st, t1, None)
      case Prepared(t1, dir, trailing) => UploadIn(t1, dir, trailing, fileName)
  }

  /** The directory is created when `existsSync` does not see it; the
      destination of the move is the target. */
  function UploadIn(t1: Tree, dir: seq<string>, trailing: bool, fileName: string): Reply {
    if Present(t1, dir, trailing) then Reply(Ok, t1, Some(JoinPath(dir, fileName)))
    else
      match MkdirAll(t1, dir)
      case None => Reply(StorageError, t1, None)
      case Some(t2) => Reply(Ok, t2, Some(JoinPath(dir, fileName)))
  }

  /** GET /download (server.js:178-195) up to the streaming of the file. */
  function Download(t: Tree, dirname: seq<string>, user: string, rel: string, filename: string): Reply {
    if filename == "" then Reply(MissingName, t, None)
    else
      match Prepare(t, dirname, user, rel)
      case PrepareFailed(st, t1) => Reply(st, t1, None)
      case Prepared(t1, dir, _) => DownloadIn(t1, UserBase(dirname, user), dir, filename)
  }

  /** The prefix test, then 404 for a missing file; the file to stream is
      the target. */
  function DownloadIn(t1: Tree, base: seq<string>, dir: seq<string>, filename: string): Reply {
    var f := JoinPath(dir, filename);
    if !PrefixCheck(base, f) then Reply(Invalid, t1, None)
    else if !Present(t1, f, EndsInSlash(filename)) then Reply(NotFound, t1, None)
    else Reply(Ok, t1, Some(f))
  }

  /** POST /delete-file (server.js:199-215). */
  function DeleteFile(t: Tree, dirname: seq<string>, user: string, rel: string, filename: string): Reply {
    if filename == "" then Reply(MissingName, t, None)
    else
      match Prepare(t, dirname, user, rel)
      case PrepareFailed(st, t1) => Reply(st, t1, None)
      case Prepared(t1, dir, _) => DeleteFileIn(t1, UserBase(dirname, user), dir, filename)
  }

  /** The prefix test, then `unlinkSync` when the file exists. */
  function DeleteFileIn(t1: Tree, base: seq<string>, dir: seq<string>, filename: string): Reply {
    var f := JoinPath(dir, filename);
    if !PrefixCheck(base, f) then Reply(Invalid, t1, None)
    else if !Present(t1, f, EndsInSlash(filename)) then Reply(Ok, t1, Some(f))
    else
      match Unlink(t1, f)
      case None => Reply(StorageError, t1, None)
      case Some(t2) => Reply(Ok, t2, Some(f))
  }

  /** POST /rename-file (server.js:219-239): the prefix test on both
      paths, then the same steps as rename-folder. */
  function RenameFile(t: Tree, dirname: seq<string>, user: string, rel: string, oldName: string, newName: string): Reply {
    if oldName == "" || newName == "" then Reply(MissingName, t, None)
    else
      match Prepare(t, dirname, user, rel)
      case PrepareFailed(st, t1) => Reply(st, t1, None)
      case Prepared(t1, dir, _) =>
        var o, n := JoinPath(dir, oldName), JoinPath(dir, newName);
        var base := UserBase(dirname, user);
        if !PrefixCheck(base, o) || !PrefixCheck(base, n) then Reply(Invalid, t1, None)
        else RenameIn(t1, o, EndsInSlash(oldName), n, EndsInSlash(newName))
  }

  // ---------------------------------------------------------------------
  // ensureUserDir and the prologue

  /** `ensureUserDir` fails only when the root is missing and cannot be
      created; otherwise the root exists afterwards, a folder when it had
      to be created, the tree stays valid, every stored entry is kept and
      only ancestors of the root are added. */
  lemma EnsureUserDirEffect(t: Tree, dirname: seq<string>, user: string)
    requires Valid(t) && Canonical(dirname)
    ensures var base := UserBase(dirname, user);
      EnsureUserDir(t, dirname, user).None? <==> base !in t && !CanCreate(t, base)
    ensures var base := UserBase(dirname, user);
      EnsureUserDir(t, dirname, user).Some? ==>
        var t1 := EnsureUserDir(t, dirname, user).value;
        && Valid(t1) && base in t1
        && (base !in t ==> IsDirectory(t1, base))
        && (forall q :: q in t ==> q in t1 && t1[q] == t[q])
        && (forall q :: q in t1 ==> q in t || q <= base)
  {
    var base := UserBase(dirname, user);
    if base !in t && CanCreate(t, base) {
      MkdirAllEffect(t, base);
    }
  }

  lemma EnsureUserDirValid(t: Tree, dirname: seq<string>, user: string)
    requires Valid(t) && Canonical(dirname) && EnsureUserDir(t, dirname, user).Some?
    ensures Valid(EnsureUserDir(t, dirname, user).value)
    ensures UserBase(dirname, user) in EnsureUserDir(t, dirname, user).value
  {
    EnsureUserDirEffect(t, dirname, user);
  }

  /** `ensureUserDir` adds nothing but the root and its ancestors. */
  lemma EnsureUserDirAddsOnlyRoot(t: Tree, dirname: seq<string>, user: string, q: seq<string>)
    requires EnsureUserDir(t, dirname, user).Some?
    requires q !in t && !(q <= UserBase(dirname, user))
    ensures q !in EnsureUserDir(t, dirname, user).value
  {
    var base := UserBase(dirname, user);
    if base !in t {
      forall i | 0 <= i <= |base| ensures q != base[..i] {
        assert base[..i] <= base;
      }
    }
  }

  /** A second `ensureUserDir` changes nothing. */
  lemma EnsureUserDirIdempotent(t: Tree, dirname: seq<string>, user: string)
    requires EnsureUserDir(t, dirname, user).Some?
    ensures EnsureUserDir(EnsureUserDir(t, dirname, user).value, dirname, user) == EnsureUserDir(t, dirname, user)
  {
    var base := UserBase(dirname, user);
    if base !in t {
      assert base[..|base|] == base;
    }
  }

  /** After the prologue, the storage is valid and holds the root (a
      folder unless something else was stored there before), and the
      directory acted on is canonical and lies in the root. */
  lemma PreparedFacts(t: Tree, dirname: seq<string>, user: string, rel: string)
    requires Valid(t) && Canonical(dirname) && IsName(user)
    requires Prepare(t, dirname, user, rel).Prepared?
    ensures var pr := Prepare(t, dirname, user, rel);
      var base := dirname + ["uploads", user];
      && Valid(pr.tree) && base in pr.tree
      && (base !in t ==> IsDirectory(pr.tree, base))
      && pr.dir == base + RootedSegments(rel)
      && pr.trailing == KeepsSlash(rel)
      && Canonical(pr.dir)
      && pr.tree == EnsureUserDir(t, dirname, user).value
  {
    EnsureUserDirEffect(t, dirname, user);
    UserBaseOfName(dirname, user);
    var t1 := EnsureUserDir(t, dirname, user).value;
    ResolveUserPathSpec(dirname, user, rel, t1);
    CanonicalAppend(dirname + ["uploads", user], RootedSegments(rel));
  }

  /** Once the root exists, the prologue changes nothing and its outcome
      depends on `rel` alone. */
  lemma PrepareWithRoot(t: Tree, dirname: seq<string>, user: string, rel: string)
    requires Canonical(dirname) && IsName(user) && UserBase(dirname, user) in t
    ensures Prepare(t, dirname, user, rel) ==
      if SomeSegmentHasDotDot(RootedSegments(rel)) then PrepareFailed(Invalid, t)
      else Prepared(t, dirname + ["uploads", user] + RootedSegments(rel), KeepsSlash(rel))
  {
    UserBaseOfName(dirname, user);
    ResolveUserPathSpec(dirname, user, rel, t);
  }

  /** With the default path, the prologue yields the root itself. */
  lemma PrepareAtRoot(t: Tree, dirname: seq<string>, user: string)
    requires Canonical(dirname) && IsName(user) && EnsureUserDir(t, dirname, user).Some?
    ensures Prepare(t, dirname, user, "") == Prepared(EnsureUserDir(t, dirname, user).value, dirname + ["uploads", user], false)
  {
    var t1 := EnsureUserDir(t, dirname, user).value;
    UserBaseOfName(dirname, user);
    ResolveEmpty(dirname, user, t1);
    KeepsSlashExact("");
  }

  /** An absent directory has nothing stored inside it. */
  lemma MissingDirIsEmpty(t: Tree, dir: seq<string>)
    requires Valid(t) && dir !in t
    ensures ChildNames(t, dir) == {}
  {
    forall q | q in t && |q| == |dir| + 1 ensures q[..|dir|] != dir {
      assert q[..|q| - 1] in t;
    }
  }

  // ---------------------------------------------------------------------
  // GET /list

  /** Listing answers an empty listing for a directory `existsSync` does
      not see and fails on anything else but a folder, without changing
      the storage. The early answer for a missing directory agrees with
      what reading it would have listed: nothing. */
  lemma ListOutcome(t1: Tree, dir: seq<string>, trailing: bool)
    requires Valid(t1)
    ensures var r := ListIn(t1, dir, trailing);
      && r.tree == t1
      && (r.status == Ok <==> !Present(t1, dir, trailing) || IsDirectory(t1, dir))
      && (r.status != Ok ==> r.status == StorageError)
      && (r.target.Some? <==> IsDirectory(t1, dir))
      && (r.target.Some? ==> r.target.value == dir)
      && (dir !in t1 ==> ChildNames(t1, dir) == {})
  {
    if dir !in t1 {
      MissingDirIsEmpty(t1, dir);
    }
  }

  /** The folders are the names of the folder entries, in order. */
  lemma {:induction false} FolderNamesExact(es: seq<Entry>, x: string)
    ensures x in FolderNames(es) <==> exists i :: 0 <= i < |es| && es[i].name == x && es[i].kind == Folder
    decreases |es|
  {
    if es != [] {
      var init := es[..|es| - 1];
      FolderNamesExact(init, x);
      if x in FolderNames(init) {
        var i :| 0 <= i < |init| && init[i].name == x && init[i].kind == Folder;
        assert es[i] == init[i];
      }
      if exists i :: 0 <= i < |es| && es[i].name == x && es[i].kind == Folder {
        var i :| 0 <= i < |es| && es[i].name == x && es[i].kind == Folder;
        if i < |init| {
          assert init[i] == es[i];
        }
      }
    }
  }

  /** The files are the names of the regular-file entries, in order. */
  lemma {:induction false} FileNamesExact(es: seq<Entry>, x: string)
    ensures x in FileNames(es) <==> exists i :: 0 <= i < |es| && es[i].name == x && es[i].kind == File
    decreases |es|
  {
    if es != [] {
      var init := es[..|es| - 1];
      FileNamesExact(init, x);
      if x in FileNames(init) {
        var i :| 0 <= i < |init| && init[i].name == x && init[i].kind == File;
        assert es[i] == init[i];
      }
      if exists i :: 0 <= i < |es| && es[i].name == x && es[i].kind == File {
        var i :| 0 <= i < |es| && es[i].name == x && es[i].kind == File;
        if i < |init| {
          assert init[i] == es[i];
        }
      }
    }
  }

  /** Splitting a listing of `dir`: a name is among the folders exactly
      when a folder of that name is stored in `dir`, among the files
      exactly when a regular file is, and entries of any other kind are in
      neither. */
  lemma ListPartition(t: Tree, dir: seq<string>, es: seq<Entry>, x: string)
    requires IsListing(t, dir, es)
    ensures x in FolderNames(es) <==> dir + [x] in t && t[dir + [x]] == Folder
    ensures x in FileNames(es) <==> dir + [x] in t && t[dir + [x]] == File
  {
    FolderNamesExact(es, x);
    FileNamesExact(es, x);
    ChildNamesExact(t, dir, x);
    if dir + [x] in t {
      assert x in NameSet(es);
      var i :| 0 <= i < |es| && es[i].name == x;
    }
  }

  /** No name occurs twice in `s`. */
  predicate Distinct(s: seq<string>) {
    forall i, j :: 0 <= i < j < |s| ==> s[i] != s[j]
  }

  lemma DistinctPush(s: seq<string>, x: string)
    requires Distinct(s) && x !in s
    ensures Distinct(s + [x])
  {
    var s' := s + [x];
    forall i, j | 0 <= i < j < |s'| ensures s'[i] != s'[j] {
      if j == |s| {
        assert s'[i] == s[i] && s'[j] == x;
      } else {
        assert s'[i] == s[i] && s'[j] == s[j];
      }
    }
  }

  /** When the entries name every child once, so do the folders and the
      files split off them. */
  lemma {:induction false} PartitionDistinct(es: seq<Entry>)
    requires forall i, j :: 0 <= i < j < |es| ==> es[i].name != es[j].name
    ensures Distinct(FolderNames(es)) && Distinct(FileNames(es))
    decreases |es|
  {
    if es != [] {
      var init := es[..|es| - 1];
      var e := es[|es| - 1];
      assert forall i :: 0 <= i < |init| ==> init[i] == es[i];
      PartitionDistinct(init);
      FolderNamesExact(init, e.name);
      FileNamesExact(init, e.name);
      if e.kind == Folder {
        DistinctPush(FolderNames(init), e.name);
      } else {
        assert FolderNames(es) == FolderNames(init) + [] == FolderNames(init);
      }
      if e.kind == File {
        DistinctPush(FileNames(init), e.name);
      } else {
        assert FileNames(es) == FileNames(init) + [] == FileNames(init);
      }
    }
  }

  lemma NoNamesNoEntries(es: seq<Entry>)
    ensures NameSet(es) == {} ==> es == []
  {
    if es != [] {
      assert es[0].name in NameSet(es);
    }
  }

  /** One more entry, of a child not yet listed, keeps a partial listing
      faithful and free of repeats. */
  lemma ListingGrows(t: Tree, dir: seq<string>, es: seq<Entry>, e: Entry)
    requires PartialListing(t, dir, es)
    requires e.name !in NameSet(es) && dir + [e.name] in t && t[dir + [e.name]] == e.kind
    ensures PartialListing(t, dir, es + [e])
    ensures NameSet(es + [e]) == NameSet(es) + {e.name}
  {
    var es' := es + [e];
    assert forall i :: 0 <= i < |es| ==> es'[i] == es[i];
    assert es'[|es|] == e;
    forall i, j | 0 <= i < j < |es'| ensures es'[i].name != es'[j].name {
      if j == |es| {
        assert es[i].name in NameSet(es);
      }
    }
  }

  /** Part way through reading `dir`: the entries so far form a partial
      listing, and `remaining` holds exactly the children not yet read. */
  ghost predicate ListingProgress(t: Tree, dir: seq<string>, es: seq<Entry>, remaining: set<string>) {
    PartialListing(t, dir, es) && NameSet(es) !! remaining && NameSet(es) + remaining == ChildNames(t, dir)
  }

  /** Reading any remaining child, with its kind, makes progress; with
      nothing remaining the entries are a listing. */
  lemma ListingStep(t: Tree, dir: seq<string>, es: seq<Entry>, remaining: set<string>, x: string)
    requires ListingProgress(t, dir, es, remaining) && x in remaining
    ensures dir + [x] in t
    ensures ListingProgress(t, dir, es + [Entry(x, t[dir + [x]])], remaining - {x})
  {
    ChildNamesExact(t, dir, x);
    var e := Entry(x, t[dir + [x]]);
    ListingGrows(t, dir, es, e);
  }

  /** Before reading, every child remains; after, the entries list them all. */
  lemma ListingStartDone(t: Tree, dir: seq<string>, es: seq<Entry>)
    ensures ListingProgress(t, dir, [], ChildNames(t, dir))
    ensures ListingProgress(t, dir, es, {}) ==> IsListing(t, dir, es)
  {
    assert NameSet([]) == {};
    assert NameSet(es) + {} == NameSet(es);
  }

  /** A listing of a missing directory is empty. */
  lemma ListingOfMissingDir(t: Tree, dir: seq<string>, es: seq<Entry>)
    requires Valid(t) && dir !in t && IsListing(t, dir, es)
    ensures es == [] && FolderNames(es) == [] && FileNames(es) == []
  {
    MissingDirIsEmpty(t, dir);
    NoNamesNoEntries(es);
  }


  /** The user's root is stored after a successful `ensureUserDir`. */
  lemma EnsureUserDirStoresRoot(t: Tree, dirname: seq<string>, user: string)
    requires EnsureUserDir(t, dirname, user).Some?
    ensures var t1 := EnsureUserDir(t, dirname, user).value;
      UserBase(dirname, user) in t1 && t.Keys <= t1.Keys
  {
    var base := UserBase(dirname, user);
    assert base[..|base|] == base;
  }

  // ---------------------------------------------------------------------
  // POST /create-folder

  /** Creating a folder fails exactly when a segment of the joined path
      contains `..`, or when `existsSync` does not see the path and mkdir -p
      throws; otherwise the path is stored afterwards, as a folder when it
      was missing or the name ends in a separator. The tree stays valid,
      every stored entry is kept and only prefixes of the new path are
      added. */
  lemma CreateFolderOutcome(t1: Tree, parent: seq<string>, name: string)
    requires Valid(t1) && Canonical(parent)
    ensures var newDir := JoinPath(parent, name);
      var r := CreateFolderIn(t1, parent, name);
      && (r.status == Invalid <==> SomeSegmentHasDotDot(newDir))
      && (r.status == StorageError <==>
            !SomeSegmentHasDotDot(newDir) && !Present(t1, newDir, EndsInSlash(name)) && !CanCreate(t1, newDir))
      && (r.status == Ok ==> r.target == Some(newDir) && newDir in r.tree)
      && (r.status == Ok && (newDir !in t1 || EndsInSlash(name)) ==> IsDirectory(r.tree, newDir))
      && (r.status != Ok ==> r.tree == t1 && r.target == None)
      && r.status in {Ok, Invalid, StorageError}
      && Valid(r.tree)
      && (forall q :: q in t1 ==> q in r.tree && r.tree[q] == t1[q])
      && (forall q :: q in r.tree ==> q in t1 || q <= newDir)
  {
    var newDir := JoinPath(parent, name);
    AbsStringHasDotDot(newDir);
    if !SomeSegmentHasDotDot(newDir) && !Present(t1, newDir, EndsInSlash(name)) && CanCreate(t1, newDir) {
      MkdirAllEffect(t1, newDir);
    }
  }

  /** The step after the prologue, repeated, changes nothing more. */
  lemma CreateFolderInIdempotent(t1: Tree, parent: seq<string>, name: string)
    ensures var r := CreateFolderIn(t1, parent, name);
      CreateFolderIn(r.tree, parent, name) == r && t1.Keys <= r.tree.Keys
  {
    var newDir := JoinPath(parent, name);
    assert newDir[..|newDir|] == newDir;
  }

  /** Creating the same folder twice is the same as creating it once. */
  lemma CreateFolderIdempotent(t: Tree, dirname: seq<string>, user: string, rel: string, name: string)
    requires Canonical(dirname) && IsName(user)
    ensures var r := CreateFolder(t, dirname, user, rel, name);
      CreateFolder(r.tree, dirname, user, rel, name) == r
  {
    if name != "" && EnsureUserDir(t, dirname, user).Some? {
      var t1 := EnsureUserDir(t, dirname, user).value;
      EnsureUserDirStoresRoot(t, dirname, user);
      EnsureUserDirIdempotent(t, dirname, user);
      assert Prepare(t, dirname, user, rel) == Prepare(t1, dirname, user, rel);
      var pr := Prepare(t1, dirname, user, rel);
      if pr.Prepared? {
        PrepareWithRoot(t1, dirname, user, rel);
        var r := CreateFolderIn(t1, pr.dir, name);
        assert CreateFolder(t, dirname, user, rel, name) == r;
        CreateFolderInIdempotent(t1, pr.dir, name);
        PrepareWithRoot(r.tree, dirname, user, rel);
        assert Prepare(r.tree, dirname, user, rel) == Prepared(r.tree, pr.dir, pr.trailing);
      }
    }
  }

  /** The `..` test of create-folder runs after the join has already
      resolved `..` away: the name `../x` creates the sibling `x` of the
      user's root, outside the root. */
  lemma CreateFolderEscapes(t: Tree, dirname: seq<string>, user: string, x: string)
    requires Valid(t) && Canonical(dirname) && IsName(user) && IsName(x) && x != user
    requires !SomeSegmentHasDotDot(dirname) && !HasDotDot(x)
    requires EnsureUserDir(t, dirname, user).Some?
    ensures var r := CreateFolder(t, dirname, user, "", "../" + x);
      var sibling := dirname + ["uploads", x];
      && r.status == Ok && r.target == Some(sibling) && sibling in r.tree
      && !(dirname + ["uploads", user] <= sibling)
  {
    CreateFolderAtRoot(t, dirname, user, "../" + x);
    EnsureUserDirValid(t, dirname, user);
    UserBaseOfName(dirname, user);
    SiblingCreatable(EnsureUserDir(t, dirname, user).value, dirname, user, x);
  }

  /** With the default path, create-folder acts on the root. */
  lemma CreateFolderAtRoot(t: Tree, dirname: seq<string>, user: string, name: string)
    requires Canonical(dirname) && IsName(user) && name != ""
    requires EnsureUserDir(t, dirname, user).Some?
    ensures var t1 := EnsureUserDir(t, dirname, user).value;
      CreateFolder(t, dirname, user, "", name) == CreateFolderIn(t1, dirname + ["uploads", user], name)
  {
    PrepareAtRoot(t, dirname, user);
  }

  /** The sibling `x` of a stored root can be made by mkdir -p, and its
      path has no segment containing `..`. */
  lemma SiblingCreatable(t1: Tree, dirname: seq<string>, user: string, x: string)
    requires Valid(t1) && Canonical(dirname) && IsName(user) && IsName(x) && x != user
    requires !SomeSegmentHasDotDot(dirname) && !HasDotDot(x)
    requires dirname + ["uploads", user] in t1
    ensures var r := CreateFolderIn(t1, dirname + ["uploads", user], "../" + x);
      var sibling := dirname + ["uploads", x];
      && r.status == Ok && r.target == Some(sibling) && sibling in r.tree
      && !(dirname + ["uploads", user] <= sibling)
  {
    var base := dirname + ["uploads", user];
    var sibling := dirname + ["uploads", x];
    UsersAreSiblings(dirname, user, x);
    SiblingHasNoDotDot(dirname, x);
    SiblingOfStoredMayBeMade(t1, base, sibling);
    NameEndsPlain("../", x);
    CreateFolderReaches(t1, base, "../" + x, sibling);
  }

  /** `../x` joined onto a user's root is the root of `x`, which lies
      outside the first unless the names agree. */
  lemma UsersAreSiblings(dirname: seq<string>, user: string, x: string)
    requires IsName(x)
    ensures var base := dirname + ["uploads", user];
      var sibling := dirname + ["uploads", x];
      && JoinPath(base, "../" + x) == sibling
      && |sibling| == |base| && sibling[..|base| - 1] == base[..|base| - 1]
      && (base <= sibling <==> x == user)
      && (sibling <= base <==> x == user)
  {
    var base := dirname + ["uploads", user];
    var sibling := dirname + ["uploads", x];
    JoinUpName(base, x);
    assert base[..|base| - 1] + [x] == sibling;
    assert base[|base| - 1] == user && sibling[|base| - 1] == x;
  }

  /** A path of the same length as a stored path and with the same parent
      is stored, or mkdir -p can make it. */
  lemma SiblingOfStoredMayBeMade(t1: Tree, base: seq<string>, sibling: seq<string>)
    requires Valid(t1) && base in t1 && |base| == |sibling| && |base| > 0
    requires sibling[..|base| - 1] == base[..|base| - 1]
    ensures CanCreate(t1, sibling) || sibling in t1
  {
    if sibling !in t1 {
      assert sibling[..|sibling|] == sibling;
      forall i | 0 <= i <= |sibling| && sibling[..i] in t1 ensures t1[sibling[..i]] == Folder {
        var k := |base| - 1;
        assert sibling[..i] == sibling[..k][..i] == base[..k][..i] == base[..i];
        AncestorIsFolder(t1, base, sibling[..i]);
      }
    }
  }

  /** Create-folder succeeds on a joined path free of `..` that is stored
      or that mkdir -p can make. */
  lemma CreateFolderReaches(t1: Tree, parent: seq<string>, name: string, newDir: seq<string>)
    requires Valid(t1) && Canonical(parent) && JoinPath(parent, name) == newDir
    requires !SomeSegmentHasDotDot(newDir) && (CanCreate(t1, newDir) || Present(t1, newDir, EndsInSlash(name)))
    ensures var r := CreateFolderIn(t1, parent, name);
      r.status == Ok && r.target == Some(newDir) && newDir in r.tree
  {
    CreateFolderOutcome(t1, parent, name);
  }

  lemma SiblingHasNoDotDot(dirname: seq<string>, x: string)
    requires !SomeSegmentHasDotDot(dirname) && !HasDotDot(x)
    ensures !SomeSegmentHasDotDot(dirname + ["uploads", x])
  {
    var sibling := dirname + ["uploads", x];
    assert !HasDotDot("uploads");
    forall k | 0 <= k < |sibling| ensures !HasDotDot(sibling[k]) {
      if k < |dirname| { assert sibling[k] == dirname[k]; }
    }
  }

  // ---------------------------------------------------------------------
  // POST /delete-folder

  /** Deleting a folder fails exactly when the joined path does not pass
      the prefix test; otherwise, when `existsSync` sees the target, it and
      everything below it are gone and every other entry is kept, and when
      it does not, nothing changes. The tree stays valid. */
  lemma DeleteFolderOutcome(t1: Tree, base: seq<string>, parent: seq<string>, name: string)
    requires Valid(t1)
    ensures var target := JoinPath(parent, name);
      var r := DeleteFolderIn(t1, base, parent, name);
      && (r.status == Invalid <==> !PrefixCheck(base, target))
      && (r.status != Invalid ==> r.status == Ok && r.target == Some(target))
      && (r.status == Invalid ==> r.tree == t1)
      && (r.status == Ok ==> r.tree == if Present(t1, target, EndsInSlash(name)) then Remove(t1, target) else t1)
      && Valid(r.tree)
      && (r.status == Ok && Present(t1, target, EndsInSlash(name)) ==>
            forall q :: q in r.tree <==> q in t1 && !(target <= q))
      && (forall q :: q in r.tree ==> r.tree[q] == t1[q])
  {
    var target := JoinPath(parent, name);
    RemoveEffect(t1, target);
  }

  /** The prefix test is not segment-aware: the name `../other` deletes
      the root of any other user whose name starts with this user's name
      (`e-evil` for `e`), with everything in it. */
  lemma DeleteFolderRemovesSibling(t: Tree, dirname: seq<string>, user: string, other: string)
    requires Valid(t) && Canonical(dirname) && IsName(user) && IsName(other) && user <= other
    requires EnsureUserDir(t, dirname, user).Some?
    ensures var r := DeleteFolder(t, dirname, user, "", "../" + other);
      var sibling := dirname + ["uploads", other];
      && r.status == Ok && r.target == Some(sibling)
      && forall q :: sibling <= q ==> q !in r.tree
  {
    DeleteFolderAtRoot(t, dirname, user, "../" + other);
    EnsureUserDirValid(t, dirname, user);
    SiblingDeletedAtRoot(EnsureUserDir(t, dirname, user).value, dirname, user, other);
  }

  /** With the default path, delete-folder acts on the root. */
  lemma DeleteFolderAtRoot(t: Tree, dirname: seq<string>, user: string, name: string)
    requires Canonical(dirname) && IsName(user) && name != ""
    requires EnsureUserDir(t, dirname, user).Some?
    ensures var t1 := EnsureUserDir(t, dirname, user).value;
      var base := dirname + ["uploads", user];
      DeleteFolder(t, dirname, user, "", name) == DeleteFolderIn(t1, base, base, name)
  {
    PrepareAtRoot(t, dirname, user);
    UserBaseOfName(dirname, user);
  }

  lemma SiblingDeletedAtRoot(t1: Tree, dirname: seq<string>, user: string, other: string)
    requires Valid(t1) && IsName(user) && IsName(other) && user <= other
    ensures var base := dirname + ["uploads", user];
      var r := DeleteFolderIn(t1, base, base, "../" + other);
      var sibling := dirname + ["uploads", other];
      && r.status == Ok && r.target == Some(sibling)
      && forall q :: sibling <= q ==> q !in r.tree
  {
    var u := dirname + ["uploads"];
    assert u + [user] == dirname + ["uploads", user];
    assert u + [other] == dirname + ["uploads", other];
    SiblingDeleted(t1, u, user, other);
  }

  lemma SiblingDeleted(t1: Tree, u: seq<string>, a: string, b: string)
    requires Valid(t1) && |u| > 0 && IsName(a) && IsName(b) && a <= b
    ensures var r := DeleteFolderIn(t1, u + [a], u + [a], "../" + b);
      && r.status == Ok && r.target == Some(u + [b])
      && forall q :: u + [b] <= q ==> q !in r.tree
  {
    var base := u + [a];
    JoinUpName(base, b);
    assert base[..|base| - 1] == u;
    PrefixCheckSibling(u, a, b, []);
    assert u + ([b] + []) == u + [b];
    NameEndsPlain("../", b);
    DeleteFolderOutcome(t1, base, base, "../" + b);
    forall q | u + [b] <= q && q in t1 ensures u + [b] in t1 {
      AncestorIsFolder(t1, q, u + [b]);
    }
  }

  /** The name `.` passes every test and deletes the user's own root. */
  lemma DeleteFolderDotRemovesRoot(t: Tree, dirname: seq<string>, user: string)
    requires Valid(t) && Canonical(dirname) && IsName(user)
    requires EnsureUserDir(t, dirname, user).Some?
    ensures var r := DeleteFolder(t, dirname, user, "", ".");
      var base := dirname + ["uploads", user];
      && r.status == Ok && r.target == Some(base)
      && forall q :: base <= q ==> q !in r.tree
  {
    var base := dirname + ["uploads", user];
    DeleteFolderAtRoot(t, dirname, user, ".");
    EnsureUserDirValid(t, dirname, user);
    UserBaseOfName(dirname, user);
    RootDeleted(EnsureUserDir(t, dirname, user).value, base);
  }

  lemma RootDeleted(t1: Tree, base: seq<string>)
    requires Valid(t1) && base in t1
    ensures var r := DeleteFolderIn(t1, base, base, ".");
      && r.status == Ok && r.target == Some(base)
      && forall q :: base <= q ==> q !in r.tree
  {
    JoinDot(base);
    assert !EndsInSlash(".");
    DeleteFolderOutcome(t1, base, base, ".");
  }

  // ---------------------------------------------------------------------
  // POST /rename-folder and POST /rename-file

  /** A rename answers 404 when `existsSync` does not see the source and
      400 when it sees the target, leaving the storage alone; `renameSync`
      throws when something `existsSync` missed is stored at the target,
      when the target has no folder to live in or lies inside the source,
      or when the target string ends in a separator and the source is not
      a folder. Otherwise the subtree at the source now sits at the
      target, nothing is left at the source, every other path is as it
      was, and the tree stays valid. */
  lemma RenameOutcome(t1: Tree, o: seq<string>, os: bool, n: seq<string>, ns: bool)
    requires Valid(t1) && Canonical(n)
    ensures var r := RenameIn(t1, o, os, n, ns);
      && r.status in {Ok, NotFound, Exists, StorageError}
      && (r.status == NotFound <==> !Present(t1, o, os))
      && (r.status == Exists <==> Present(t1, o, os) && Present(t1, n, ns))
      && (r.status == StorageError <==>
            && Present(t1, o, os) && !Present(t1, n, ns)
            && (n in t1 || n == [] || !IsDirectory(t1, n[..|n| - 1]) || o <= n || (ns && t1[o] != Folder)))
      && (r.status != Ok ==> r.tree == t1)
      && (r.status == Ok ==>
            && r.target == Some(n)
            && Valid(r.tree)
            && (forall s :: n + s in r.tree <==> o + s in t1)
            && (forall s :: o + s in t1 ==> r.tree[n + s] == t1[o + s])
            && (forall s :: o + s !in r.tree)
            && (forall q :: !(o <= q) && !(n <= q) ==> (q in r.tree <==> q in t1))
            && (forall q :: !(o <= q) && !(n <= q) && q in t1 ==> r.tree[q] == t1[q]))
  {
    if Rename(t1, o, n, os || ns).Some? {
      RenameValid(t1, o, n, os || ns);
      MoveEffect(t1, o, n);
    }
  }

  /** With the default path, rename-folder acts in the root. */
  lemma RenameFolderAtRoot(t: Tree, dirname: seq<string>, user: string, oldName: string, newName: string)
    requires Canonical(dirname) && IsName(user) && oldName != "" && newName != ""
    requires EnsureUserDir(t, dirname, user).Some?
    ensures var t1 := EnsureUserDir(t, dirname, user).value;
      var base := dirname + ["uploads", user];
      RenameFolder(t, dirname, user, "", oldName, newName) ==
        RenameIn(t1, JoinPath(base, oldName), EndsInSlash(oldName), JoinPath(base, newName), EndsInSlash(newName))
  {
    PrepareAtRoot(t, dirname, user);
  }

  /** Rename-folder tests neither name: `../x` and `../y` move the root
      of user `x` to the still-missing root of user `y`. Neither lies in
      the caller's root or contains it, except that `x` may be the caller. */
  lemma RenameFolderMovesSibling(t: Tree, dirname: seq<string>, user: string, x: string, y: string)
    requires Valid(t) && Canonical(dirname) && IsName(user) && IsName(x) && IsName(y)
    requires x != y && y != user
    requires dirname + ["uploads", x] in t && dirname + ["uploads", y] !in t
    requires EnsureUserDir(t, dirname, user).Some?
    ensures var r := RenameFolder(t, dirname, user, "", "../" + x, "../" + y);
      && r.status == Ok && r.target == Some(dirname + ["uploads", y])
      && dirname + ["uploads", y] in r.tree && dirname + ["uploads", x] !in r.tree
    ensures var base := dirname + ["uploads", user];
      && !(base <= dirname + ["uploads", y]) && !(dirname + ["uploads", y] <= base)
      && (x != user ==> !(base <= dirname + ["uploads", x]) && !(dirname + ["uploads", x] <= base))
  {
    RenameFolderAtRoot(t, dirname, user, "../" + x, "../" + y);
    EnsureUserDirValid(t, dirname, user);
    EnsureUserDirStoresRoot(t, dirname, user);
    UsersAreSiblings(dirname, user, x);
    UsersAreSiblings(dirname, user, y);
    UserBaseOfName(dirname, user);
    EnsureUserDirAddsOnlyRoot(t, dirname, user, dirname + ["uploads", y]);
    NameEndsPlain("../", x);
    NameEndsPlain("../", y);
    SiblingRenamed(EnsureUserDir(t, dirname, user).value, dirname, user, x, y);
  }

  lemma SiblingRenamed(t1: Tree, dirname: seq<string>, user: string, x: string, y: string)
    requires Valid(t1) && Canonical(dirname) && IsName(x) && IsName(y) && x != y
    requires dirname + ["uploads", user] in t1
    requires dirname + ["uploads", x] in t1 && dirname + ["uploads", y] !in t1
    ensures var r := RenameIn(t1, dirname + ["uploads", x], false, dirname + ["uploads", y], false);
      && r.status == Ok && r.target == Some(dirname + ["uploads", y])
      && dirname + ["uploads", y] in r.tree && dirname + ["uploads", x] !in r.tree
  {
    var u := dirname + ["uploads"];
    var o, n := u + [x], u + [y];
    assert o == dirname + ["uploads", x] && n == dirname + ["uploads", y];
    assert (dirname + ["uploads", user])[..|u|] == u;
    AncestorIsFolder(t1, dirname + ["uploads", user], u);
    assert n[..|n| - 1] == u;
    assert o[|u|] != n[|u|];
    assert !(o <= n);
    RenameIntoFolder(t1, o, n);
  }

  /** A path moved to a missing name whose parent is a folder, with no
      trailing separators, is found at the new name only. */
  lemma RenameIntoFolder(t1: Tree, o: seq<string>, n: seq<string>)
    requires Valid(t1) && o in t1 && n !in t1 && n != [] && IsDirectory(t1, n[..|n| - 1]) && !(o <= n)
    ensures var r := RenameIn(t1, o, false, n, false);
      r.status == Ok && r.target == Some(n) && n in r.tree && o !in r.tree
  {
    var m := Moved(t1, o, n);
    assert o + [] == o && n + [] == n;
    BelowExact(t1, o, []);
    assert n in m;
    if o in m {
      var s :| s in Below(t1, o) && n + s == o;
      assert n <= o;
      AncestorIsFolder(t1, o, n);
    }
    assert Rename(t1, o, n, false) == Some(Kept(t1, o) + m);
  }

  /** Rename-file applies the prefix test to both paths and then renames
      as rename-folder does. */
  lemma RenameFileOutcome(t: Tree, dirname: seq<string>, user: string, rel: string, oldName: string, newName: string)
    requires Canonical(dirname) && IsName(user) && oldName != "" && newName != ""
    requires Prepare(t, dirname, user, rel).Prepared?
    ensures var pr := Prepare(t, dirname, user, rel);
      var base := dirname + ["uploads", user];
      var o, n := JoinPath(pr.dir, oldName), JoinPath(pr.dir, newName);
      var r := RenameFile(t, dirname, user, rel, oldName, newName);
      && (!PrefixCheck(base, o) || !PrefixCheck(base, n) ==> r == Reply(Invalid, pr.tree, None))
      && (PrefixCheck(base, o) && PrefixCheck(base, n) ==>
            r == RenameIn(pr.tree, o, EndsInSlash(oldName), n, EndsInSlash(newName)))
  {
    UserBaseOfName(dirname, user);
  }

  // ---------------------------------------------------------------------
  // POST /upload

  /** Upload creates the directory when `existsSync` does not see it and
      fails only when mkdir -p then throws; the destination is the file
      name joined onto the directory, and a plain file name lands directly
      inside it. The tree stays valid, every stored entry is kept and only
      prefixes of the directory are added. */
  lemma UploadOutcome(t1: Tree, dir: seq<string>, trailing: bool, fileName: string)
    requires Valid(t1) && Canonical(dir)
    ensures var r := UploadIn(t1, dir, trailing, fileName);
      && r.status in {Ok, StorageError}
      && (r.status == Ok <==> Present(t1, dir, trailing) || CanCreate(t1, dir))
      && (r.status == Ok ==> dir in r.tree && r.target == Some(JoinPath(dir, fileName)))
      && (r.status == Ok && (dir !in t1 || trailing) ==> IsDirectory(r.tree, dir))
      && (r.status == Ok && IsName(fileName) ==> r.target == Some(dir + [fileName]))
      && Valid(r.tree)
      && (forall q :: q in t1 ==> q in r.tree && r.tree[q] == t1[q])
      && (forall q :: q in r.tree ==> q in t1 || q <= dir)
  {
    if !Present(t1, dir, trailing) && CanCreate(t1, dir) {
      MkdirAllEffect(t1, dir);
    }
    if IsName(fileName) {
      JoinName(dir, fileName);
    }
  }

  /** A plain file name is uploaded strictly inside the user's root. */
  lemma UploadStaysInRoot(t: Tree, dirname: seq<string>, user: string, rel: string, fileName: string)
    requires Canonical(dirname) && IsName(user) && IsName(fileName)
    ensures var r := Upload(t, dirname, user, rel, true, fileName);
      var base := dirname + ["uploads", user];
      r.status == Ok ==> r.target.Some? && base <= r.target.value && |r.target.value| > |base|
  {
    if Prepare(t, dirname, user, rel).Prepared? {
      var pr := Prepare(t, dirname, user, rel);
      assert Upload(t, dirname, user, rel, true, fileName) == UploadIn(pr.tree, pr.dir, pr.trailing, fileName);
      PreparedDir(t, dirname, user, rel);
      UploadTarget(pr.tree, pr.dir, pr.trailing, fileName);
      var base := dirname + ["uploads", user];
      assert pr.dir + [fileName] == base + (RootedSegments(rel) + [fileName]);
    }
  }

  lemma PreparedDir(t: Tree, dirname: seq<string>, user: string, rel: string)
    requires Canonical(dirname) && IsName(user)
    requires Prepare(t, dirname, user, rel).Prepared?
    ensures Prepare(t, dirname, user, rel).dir == dirname + ["uploads", user] + RootedSegments(rel)
  {
    UserBaseOfName(dirname, user);
    ResolveUserPathSpec(dirname, user, rel, EnsureUserDir(t, dirname, user).value);
  }

  lemma UploadTarget(t1: Tree, dir: seq<string>, trailing: bool, fileName: string)
    requires IsName(fileName)
    ensures var r := UploadIn(t1, dir, trailing, fileName);
      r.status == Ok ==> r.target == Some(dir + [fileName])
  {
    JoinName(dir, fileName);
  }

  // ---------------------------------------------------------------------
  // GET /download

  /** Download never changes the storage; it answers 400 exactly when the
      joined path fails the prefix test, 404 exactly when it passes and
      `existsSync` does not see the path, and otherwise streams that path. */
  lemma DownloadOutcome(t1: Tree, base: seq<string>, dir: seq<string>, filename: string)
    ensures var f := JoinPath(dir, filename);
      var r := DownloadIn(t1, base, dir, filename);
      && r.tree == t1
      && r.status in {Ok, Invalid, NotFound}
      && (r.status == Invalid <==> !PrefixCheck(base, f))
      && (r.status == NotFound <==> PrefixCheck(base, f) && !Present(t1, f, EndsInSlash(filename)))
      && (r.status == Ok ==> r.target == Some(f) && Present(t1, f, EndsInSlash(filename)))
  {
  }

  /** With the default path, download reads in the root. */
  lemma DownloadAtRoot(t: Tree, dirname: seq<string>, user: string, filename: string)
    requires Canonical(dirname) && IsName(user) && filename != ""
    requires EnsureUserDir(t, dirname, user).Some?
    ensures var t1 := EnsureUserDir(t, dirname, user).value;
      var base := dirname + ["uploads", user];
      Download(t, dirname, user, "", filename) == DownloadIn(t1, base, base, filename)
  {
    PrepareAtRoot(t, dirname, user);
    UserBaseOfName(dirname, user);
  }

  /** The prefix test is not segment-aware: the file name `../other/f`
      streams the file `f` of any other user whose name starts with this
      user's name. */
  lemma DownloadReadsSibling(t: Tree, dirname: seq<string>, user: string, other: string, f: string)
    requires Canonical(dirname) && IsName(user) && IsName(other) && IsName(f) && user <= other
    requires dirname + ["uploads", other, f] in t
    requires EnsureUserDir(t, dirname, user).Some?
    ensures var r := Download(t, dirname, user, "", ".." + "/" + (other + "/" + f));
      r.status == Ok && r.target == Some(dirname + ["uploads", other, f])
  {
    var name := ".." + "/" + (other + "/" + f);
    var t1 := EnsureUserDir(t, dirname, user).value;
    var base := dirname + ["uploads", user];
    var p := dirname + ["uploads", other, f];
    DownloadAtRoot(t, dirname, user, name);
    EnsureUserDirStoresRoot(t, dirname, user);
    assert p in t1;
    SiblingFileReached(dirname, user, other, f);
    assert JoinPath(base, name) == p && PrefixCheck(base, p);
    var pre := ".." + "/" + (other + "/");
    assert name == pre + f;
    NameEndsPlain(pre, f);
    assert Present(t1, p, EndsInSlash(name));
    DownloadOutcome(t1, base, base, name);
  }

  /** `../other/f` joined onto a user's root reaches the file `f` of user
      `other`, and passes the prefix test when `user` is a prefix of
      `other`. */
  lemma SiblingFileReached(dirname: seq<string>, user: string, other: string, f: string)
    requires IsName(user) && IsName(other) && IsName(f) && user <= other
    ensures var base := dirname + ["uploads", user];
      var p := JoinPath(base, ".." + "/" + (other + "/" + f));
      p == dirname + ["uploads", other, f] && PrefixCheck(base, p)
  {
    var u := dirname + ["uploads"];
    var base := u + [user];
    assert base == dirname + ["uploads", user];
    JoinUpTwoNames(base, other, f);
    assert base[..|base| - 1] == u;
    assert u + [other, f] == dirname + ["uploads", other, f];
    PrefixCheckSibling(u, user, other, [f]);
    assert u + ([other] + [f]) == u + [other, f];
  }

  // ---------------------------------------------------------------------
  // POST /delete-file

  /** Deleting a file answers 400 exactly when the joined path fails the
      prefix test and fails when a folder is stored there; otherwise that
      one path is gone when `existsSync` sees it, every other entry keeps
      its kind and the tree stays valid. */
  lemma DeleteFileOutcome(t1: Tree, base: seq<string>, dir: seq<string>, filename: string)
    requires Valid(t1)
    ensures var f := JoinPath(dir, filename);
      var r := DeleteFileIn(t1, base, dir, filename);
      && r.status in {Ok, Invalid, StorageError}
      && (r.status == Invalid <==> !PrefixCheck(base, f))
      && (r.status == StorageError <==> PrefixCheck(base, f) && IsDirectory(t1, f))
      && (r.status != Ok ==> r.tree == t1)
      && (r.status == Ok ==> r.target == Some(f))
      && (r.status == Ok ==> r.tree.Keys == if Present(t1, f, EndsInSlash(filename)) then t1.Keys - {f} else t1.Keys)
      && Valid(r.tree)
      && (forall q :: q in r.tree ==> r.tree[q] == t1[q])
  {
    var f := JoinPath(dir, filename);
    if PrefixCheck(base, f) && Present(t1, f, EndsInSlash(filename)) && t1[f] != Folder {
      UnlinkEffect(t1, f);
    }
  }

  // ---------------------------------------------------------------------
  // Trailing separators

  /** A path string that ends in a separator reaches a folder only: when
      a regular file (or anything but a folder) is stored there, every
      handler treats it as absent. Listing it answers an empty listing;
      both deletes pass the prefix test and answer 200 leaving it in place,
      or answer 400; download answers 404 after the prefix test, or 400;
      a rename from it answers 404; a rename onto it makes `renameSync`
      throw when the source exists, and answers 404 otherwise; create-folder
      fails the `..` test when a segment contains `..` and otherwise makes
      mkdir -p throw; upload makes mkdir -p throw. */
  lemma TrailingSeparatorHidesFile(t1: Tree, base: seq<string>, dir: seq<string>, name: string,
                                   o: seq<string>, os: bool, n: seq<string>, ns: bool, fileName: string)
    requires EndsInSlash(name)
    requires var f := JoinPath(dir, name); f in t1 && t1[f] != Folder
    ensures var f := JoinPath(dir, name);
      && ListIn(t1, f, true) == Reply(Ok, t1, None)
      && DeleteFolderIn(t1, base, dir, name) ==
           (if PrefixCheck(base, f) then Reply(Ok, t1, Some(f)) else Reply(Invalid, t1, None))
      && DeleteFileIn(t1, base, dir, name) ==
           (if PrefixCheck(base, f) then Reply(Ok, t1, Some(f)) else Reply(Invalid, t1, None))
      && DownloadIn(t1, base, dir, name) ==
           (if PrefixCheck(base, f) then Reply(NotFound, t1, None) else Reply(Invalid, t1, None))
      && RenameIn(t1, f, true, n, ns) == Reply(NotFound, t1, None)
      && RenameIn(t1, o, os, f, true) ==
           (if Present(t1, o, os) then Reply(StorageError, t1, None) else Reply(NotFound, t1, None))
      && CreateFolderIn(t1, dir, name) ==
           (if SomeSegmentHasDotDot(f) then Reply(Invalid, t1, None) else Reply(StorageError, t1, None))
      && UploadIn(t1, f, true, fileName) == Reply(StorageError, t1, None)
  {
    var f := JoinPath(dir, name);
    assert f[..|f|] == f;
    assert !CanCreate(t1, f);
    AbsStringHasDotDot(f);
  }
}
