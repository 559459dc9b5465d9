/** The server process as it runs the handlers one request at a time: the
    filesystem is state that each route updates step by step, in the order
    server.js makes its `fs` calls. Each route is proved to end in the
    response and the storage its handler function in `Handlers` describes,
    and to keep the storage well formed. */
module Server {
  import opened Paths
  import opened FileTree
  import opened Resolve
  import opened Handlers

  /** The loop of the list handler, specified by `Handlers.FolderNames`
      and `Handlers.FileNames`: each directory entry goes to `folders`
      when it is a folder, to `files` when it is a regular file, and
      nowhere otherwise, keeping the order of the entries. */
  method Partition(entries: seq<Entry>) returns (folders: seq<string>, files: seq<string>)
    ensures folders == FolderNames(entries) && files == FileNames(entries)
  {
    folders, files := [], [];
    for i := 0 to |entries|
      invariant folders == FolderNames(entries[..i])
      invariant files == FileNames(entries[..i])
    {
      assert entries[..i + 1][..i] == entries[..i];
      var e := entries[i];
      if e.kind == Folder {
        folders := folders + [e.name];
      } else if e.kind == File {
        files := files + [e.name];
      }
    }
    assert entries[..|entries|] == entries;
  }

  class Storage {
    /** Every path of the filesystem and what is stored there. */
    var nodes: Tree
    /** `__dirname`, the directory of the server. */
    const dirname: seq<string>

    ghost predicate Valid()
      reads this
    {
      FileTree.Valid(nodes) && Canonical(dirname)
    }

    constructor(dirname: seq<string>, nodes: Tree)
      requires Canonical(dirname) && FileTree.Valid(nodes)
      ensures Valid() && this.dirname == dirname && this.nodes == nodes
    {
      this.dirname := dirname;
      this.nodes := nodes;
    }

    /** `ensureUserDir(user)`. Specified by `Handlers.EnsureUserDir`. */
    method EnsureUserDir(user: string) returns (ok: bool)
      requires Valid()
      modifies this
      ensures Valid()
      ensures var e := Handlers.EnsureUserDir(old(nodes), dirname, user);
        ok == e.Some? && nodes == (if ok then e.value else old(nodes))
    {
      EnsureUserDirEffect(nodes, dirname, user);
      var base := UserBase(dirname, user);
      if base !in nodes {
        var made := MkdirAll(nodes, base);
        if made.None? {
          return false;
        }
        nodes := made.value;
      }
      return true;
    }

    /** The `readdirSync(dir, { withFileTypes: true })` call: the entries
        of `dir` in whatever order the filesystem yields them. Specified
        by `Handlers.IsListing`. */
    method ReadDir(dir: seq<string>) returns (es: seq<Entry>)
      ensures IsListing(nodes, dir, es)
    {
      var t := nodes;
      var remaining := ChildNames(t, dir);
      es := [];
      ListingStartDone(t, dir, []);
      while remaining != {}
        invariant ListingProgress(t, dir, es, remaining)
        decreases |remaining|
      {
        var x :| x in remaining;
        ListingStep(t, dir, es, remaining, x);
        es := es + [Entry(x, t[dir + [x]])];
        remaining := remaining - {x};
      }
      ListingStartDone(t, dir, es);
    }

    /** GET /list: the folder and file names of the directory, in the
        order `readdirSync` yields the entries `es`, each name once; both
        lists are empty when `existsSync` does not see the directory.
        Specified by `Handlers.List`. */
    method List(user: string, rel: string) returns (st: Status, folders: seq<string>, files: seq<string>, ghost es: seq<Entry>)
      requires Valid()
      modifies this
      ensures Valid()
      ensures var r := Handlers.List(old(nodes), dirname, user, rel);
        && st == r.status && nodes == r.tree
        && (r.target.None? ==> folders == [] && files == [])
        && (r.target.Some? ==> IsListing(nodes, r.target.value, es) && folders == FolderNames(es) && files == FileNames(es))
        && Distinct(folders) && Distinct(files)
        && (r.target.Some? ==> forall x ::
              && (x in folders <==> r.target.value + [x] in nodes && nodes[r.target.value + [x]] == Folder)
              && (x in files <==> r.target.value + [x] in nodes && nodes[r.target.value + [x]] == File))
    {
      folders, files, es := [], [], [];
      var ok := EnsureUserDir(user);
      if !ok {
        return StorageError, folders, files, es;
      }
      var res := ResolveUserPath(dirname, user, rel, nodes);
      if res.Failure? {
        return Invalid, folders, files, es;
      }
      var dir := res.value;
      if !Present(nodes, dir, KeepsSlash(rel)) {
        return Ok, folders, files, es;
      }
      if nodes[dir] != Folder {
        return StorageError, folders, files, es;
      }
      var entries := ReadDir(dir);
      folders, files := Partition(entries);
      es := entries;
      PartitionDistinct(es);
      forall x ensures (x in folders <==> dir + [x] in nodes && nodes[dir + [x]] == Folder)
                    && (x in files <==> dir + [x] in nodes && nodes[dir + [x]] == File) {
        ListPartition(nodes, dir, es, x);
      }
      return Ok, folders, files, es;
    }

    /** POST /create-folder. Specified by `Handlers.CreateFolder`. */
    method CreateFolder(user: string, rel: string, name: string) returns (st: Status)
      requires Valid()
      modifies this
      ensures Valid()
      ensures var r := Handlers.CreateFolder(old(nodes), dirname, user, rel, name);
        st == r.status && nodes == r.tree
    {
      if name == "" {
        return MissingName;
      }
      var ok := EnsureUserDir(user);
      if !ok {
        return StorageError;
      }
      var res := ResolveUserPath(dirname, user, rel, nodes);
      if res.Failure? {
        return Invalid;
      }
      var newDir := JoinPath(res.value, name);
      if HasDotDot(AbsString(newDir)) {
        return Invalid;
      }
      if !Present(nodes, newDir, EndsInSlash(name)) {
        var made := MkdirAll(nodes, newDir);
        if made.None? {
          return StorageError;
        }
        MkdirAllEffect(nodes, newDir);
        nodes := made.value;
      }
      return Ok;
    }

    /** POST /delete-folder. Specified by `Handlers.DeleteFolder`. */
    method DeleteFolder(user: string, rel: string, name: string) returns (st: Status)
      requires Valid()
      modifies this
      ensures Valid()
      ensures var r := Handlers.DeleteFolder(old(nodes), dirname, user, rel, name);
        st == r.status && nodes == r.tree
    {
      if name == "" {
        return MissingName;
      }
      var ok := EnsureUserDir(user);
      if !ok {
        return StorageError;
      }
      var res := ResolveUserPath(dirname, user, rel, nodes);
      if res.Failure? {
        return Invalid;
      }
      var target := JoinPath(res.value, name);
      if !PrefixCheck(UserBase(dirname, user), target) {
        return Invalid;
      }
      if Present(nodes, target, EndsInSlash(name)) {
        RemoveEffect(nodes, target);
        nodes := Remove(nodes, target);
      }
      return Ok;
    }

    /** The tail shared by both rename routes: the existence tests and
        `renameSync`; `os` and `ns` say whether the path strings end in a
        separator. Specified by `Handlers.RenameIn`. */
    method RenamePaths(o: seq<string>, os: bool, n: seq<string>, ns: bool) returns (st: Status)
      requires Valid() && Canonical(n)
      modifies this
      ensures Valid()
      ensures var r := RenameIn(old(nodes), o, os, n, ns); st == r.status && nodes == r.tree
    {
      if !Present(nodes, o, os) {
        return NotFound;
      }
      if Present(nodes, n, ns) {
        return Exists;
      }
      var moved := Rename(nodes, o, n, os || ns);
      if moved.None? {
        return StorageError;
      }
      RenameValid(nodes, o, n, os || ns);
      nodes := moved.value;
      return Ok;
    }

    /** POST /rename-folder. Specified by `Handlers.RenameFolder`. */
    method RenameFolder(user: string, rel: string, oldName: string, newName: string) returns (st: Status)
      requires Valid()
      modifies this
      ensures Valid()
      ensures var r := Handlers.RenameFolder(old(nodes), dirname, user, rel, oldName, newName);
        st == r.status && nodes == r.tree
    {
      if oldName == "" || newName == "" {
        return MissingName;
      }
      var ok := EnsureUserDir(user);
      if !ok {
        return StorageError;
      }
      var res := ResolveUserPath(dirname, user, rel, nodes);
      if res.Failure? {
        return Invalid;
      }
      var parent := res.value;
      st := RenamePaths(JoinPath(parent, oldName), EndsInSlash(oldName), JoinPath(parent, newName), EndsInSlash(newName));
    }

    /** POST /upload, up to the move of the uploaded file: the destination
        `dst` is returned, and the move itself is not modelled. Specified
        by `Handlers.Upload`. */
    method Upload(user: string, rel: string, hasFile: bool, fileName: string) returns (st: Status, dst: Option<seq<string>>)
      requires Valid()
      modifies this
      ensures Valid()
      ensures var r := Handlers.Upload(old(nodes), dirname, user, rel, hasFile, fileName);
        st == r.status && nodes == r.tree && dst == r.target
    {
      if !hasFile {
        return MissingName, None;
      }
      var ok := EnsureUserDir(user);
      if !ok {
        return StorageError, None;
      }
      var res := ResolveUserPath(dirname, user, rel, nodes);
      if res.Failure? {
        return Invalid, None;
      }
      var dir := res.value;
      if !Present(nodes, dir, KeepsSlash(rel)) {
        var made := MkdirAll(nodes, dir);
        if made.None? {
          return StorageError, None;
        }
        MkdirAllEffect(nodes, dir);
        nodes := made.value;
      }
      return Ok, Some(JoinPath(dir, fileName));
    }

    /** GET /download, up to streaming the file whose path is returned.
        Specified by `Handlers.Download`. */
    method Download(user: string, rel: string, filename: string) returns (st: Status, file: Option<seq<string>>)
      requires Valid()
      modifies this
      ensures Valid()
      ensures var r := Handlers.Download(old(nodes), dirname, user, rel, filename);
        st == r.status && nodes == r.tree && file == r.target
    {
      if filename == "" {
        return MissingName, None;
      }
      var ok := EnsureUserDir(user);
      if !ok {
        return StorageError, None;
      }
      var res := ResolveUserPath(dirname, user, rel, nodes);
      if res.Failure? {
        return Invalid, None;
      }
      var f := JoinPath(res.value, filename);
      if !PrefixCheck(UserBase(dirname, user), f) {
        return Invalid, None;
      }
      if !Present(nodes, f, EndsInSlash(filename)) {
        return NotFound, None;
      }
      return Ok, Some(f);
    }

    /** POST /delete-file. Specified by `Handlers.DeleteFile`. */
    method DeleteFile(user: string, rel: string, filename: string) returns (st: Status)
      requires Valid()
      modifies this
      ensures Valid()
      ensures var r := Handlers.DeleteFile(old(nodes), dirname, user, rel, filename);
        st == r.status && nodes == r.tree
    {
      if filename == "" {
        return MissingName;
      }
      var ok := EnsureUserDir(user);
      if !ok {
        return StorageError;
      }
      var res := ResolveUserPath(dirname, user, rel, nodes);
      if res.Failure? {
        return Invalid;
      }
      var f := JoinPath(res.value, filename);
      if !PrefixCheck(UserBase(dirname, user), f) {
        return Invalid;
      }
      if Present(nodes, f, EndsInSlash(filename)) {
        var left := Unlink(nodes, f);
        if left.None? {
          return StorageError;
        }
        UnlinkEffect(nodes, f);
        nodes := left.value;
      }
      return Ok;
    }

    /** POST /rename-file. Specified by `Handlers.RenameFile`. */
    method RenameFile(user: string, rel: string, oldName: string, newName: string) returns (st: Status)
      requires Valid()
      modifies this
      ensures Valid()
      ensures var r := Handlers.RenameFile(old(nodes), dirname, user, rel, oldName, newName);
        st == r.status && nodes == r.tree
    {
      if oldName == "" || newName == "" {
        return MissingName;
      }
      var ok := EnsureUserDir(user);
      if !ok {
        return StorageError;
      }
      var res := ResolveUserPath(dirname, user, rel, nodes);
      if res.Failure? {
        return Invalid;
      }
      var dir := res.value;
      var o, n := JoinPath(dir, oldName), JoinPath(dir, newName);
      var base := UserBase(dirname, user);
      if !PrefixCheck(base, o) || !PrefixCheck(base, n) {
        return Invalid;
      }
      st := RenamePaths(o, EndsInSlash(oldName), n, EndsInSlash(newName));
    }
  }
}
