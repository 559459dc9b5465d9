# Per-user file storage: path confinement and the file routes

This project models the core of a small Express file server (`server.js`).
The server gives each logged-in user a private folder, `<__dirname>/uploads/<user>`,
called the user's root. It offers list, create-folder, delete-folder,
rename-folder, upload, download, delete-file and rename-file routes. All of
them go through two helpers:

- `ensureUserDir` creates the root when it is missing.
- `resolveUserPath` normalises the caller's relative path, rejects
  `..` and checks that the result stays inside the root.

Most routes then join a request field onto that path and make one or two
synchronous `fs` calls.

The model has five modules:

- `Paths` (`paths.dfy`). POSIX paths as sequences of segments, with `split('/')`,
  `join('/')`, `path.posix.normalize` of a rooted path, `path.join`,
  `path.resolve` and the `includes('..')` substring test.
- `FileTree` (`filetree.dfy`). The whole filesystem as a map from canonical
  absolute paths to a kind: folder, regular file, or anything else. The `fs`
  calls the routes make are functions on that map, returning `None` where the
  call throws:
  - `existsSync`, which sees a path string ending in `/` only as a folder
  - `mkdirSync` with `recursive`
  - `rmSync` with `recursive` and `force`
  - `renameSync`
  - `unlinkSync`
  - the names `readdirSync` returns
- `Resolve` (`resolve.dfy`). `resolveUserPath`, the root it confines paths to,
  and the weaker `path.resolve(p).startsWith(base)` test that four routes repeat.
- `Handlers` (`handlers.dfy`). One function per route from the storage before
  the request to the response kind and the storage after it. The common
  prologue (`ensureUserDir`, then `resolveUserPath`) is a function of its own,
  and the rest of each route is a step function after it. Lemmas state what
  each route does and what it fails to prevent.
- `Server` (`storage.dfy`). A `Storage` class whose field `nodes` is the
  filesystem. Each route is a method that updates `nodes` step by step, in the
  order `server.js` makes its calls. Each method is proved to keep the tree
  well formed and to end in the response and storage its `Handlers` function
  describes. The module also holds the list route's partition loop.

What the proofs establish:

- `resolveUserPath` is sound. For a plain user name, every path it accepts is
  the user's root followed by plain names. It rejects the input exactly when
  a normal segment contains `..`. The escape test of lines 34-36 never fires.
- That containment test compares whole segments. A sibling such as
  `uploads/e-evil` fails it for user `e`.
- The routes' own name-level tests are weaker than `resolveUserPath`, as these
  lemmas exhibit for the code as written:
  - create-folder: `../x` creates the folder of another user `x`, because the
    `includes('..')` test runs after `path.join` has already removed the `..`
    (`Handlers.CreateFolderEscapes`).
  - rename-folder has no test on its names at all, so `../x` and `../y` move
    the root of user `x` to the still-missing root of user `y`
    (`Handlers.RenameFolderMovesSibling`).
  - delete-folder, download, delete-file and rename-file use `startsWith`
    without a separator. For user `e`, `../e-evil/...` therefore reaches user
    `e-evil` (`Resolve.PrefixCheckSibling` and `Resolve.PrefixCheckAdmitsSibling`
    for the test itself, `Handlers.DeleteFolderRemovesSibling` and
    `Handlers.DownloadReadsSibling` for two of the routes).
- The routes also behave as the code says in the ordinary cases:
  - A missing directory lists as empty.
  - Renames answer 404 or 400 without touching anything, and fail with the
    storage unchanged when `renameSync` throws; otherwise they move exactly
    one subtree.
  - Deletes remove exactly the target.
  - A name or path ending in `/` reaches only a folder. A regular file there
    is treated as absent, because `existsSync` answers false for it.
    Deleting it leaves it in place. Download and a rename from it answer 404
    once the prefix test passes. A rename of an existing source onto it makes
    `renameSync` throw.
    Create-folder and upload make mkdir -p throw, unless create-folder's `..`
    test rejects the name first.
  - `ensureUserDir` and create-folder are idempotent.

Some properties a careful confinement scheme would have are absent from the
code, and the model keeps the code's behaviour:

- A segment-aware check would reject `..` before normalising; the code does
  not. `../../etc/passwd` is accepted and lands at `etc/passwd` inside the
  root (`Resolve.ResolveEtcPasswd`).
- Containment in `resolveUserPath` is lexical. Symbolic links are not
  resolved (see "Left out").
- The handlers' containment tests are raw string prefixes, with no
  separator after the root. The counterexamples above follow from them.

## Model

| member | source | states |
|---|---|---|
| Paths.Split | server.js:29 | splitting on `/` gives at least one piece, and no piece holds a separator |
| Paths.Fold | server.js:29 | normalising separator-free segments onto a canonical path gives a canonical path, no longer than the two together |
| Paths.RootedSegments | server.js:29 | the normal form of `'/' + rel` consists of plain names only |
| Paths.JoinPath | server.js:32 | `path.join` onto a canonical directory gives a canonical path |
| Paths.NormalizeRooted | server.js:29 | `path.posix.normalize('/' + rel)`: the normal segments, with the trailing `/` of the input kept unless the result is the root; `Paths.NormalizedRelHasDotDot`, `Paths.FoldNormalizedRel` and `Resolve.KeepsSlashExact` state what it yields |
| Paths.NormalizedRel | server.js:29 | the same string without its leading `/` (`.replace(/^\//, '')`); `Resolve.ResolveUserPathSpec` states the path `resolveUserPath` builds from it |
| Paths.HasDotDot | server.js:30 | `includes('..')`, also the test at line 105; `Paths.HasDotDotAround`, `Paths.JoinHasDotDot` and `Paths.AbsStringHasDotDot` state where it finds `..` |
| Paths.AbsString | server.js:34-36 | `path.resolve` of a canonical path, a leading `/` and the segments joined by `/`, also at lines 123-124, 187-188, 207-208 and 228-229; `Paths.AbsStringAppend` and `Paths.TerminatedPrefix` state how descendants extend it |
| Paths.EndsInSlash | server.js:104 | whether a name ends in `/`, which `path.join` keeps on the joined path (also at lines 122, 144-145, 186, 206 and 226-227); `Paths.NameEndsPlain` and `Paths.JoinEndsInName` state when it is false |
| Paths.NormalizedRelHasDotDot | server.js:29-30 | the `..` substring test on the normalised string fires exactly when some normal segment contains `..` |
| Paths.FoldNormalizedRel | server.js:29-32 | joining the normalised relative path onto any path appends exactly the normal segments of `rel` |
| Paths.DotSegmentIgnored | server.js:29 | a `.` segment does not change the normalised path |
| Paths.DoubleSlashIgnored | server.js:29 | a repeated separator does not change the normalised path |
| Paths.LeadingDotIgnored | server.js:29 | a leading `./` does not change the normalised string |
| Paths.LeadingSlashIgnored | server.js:29 | a leading `/` does not change the normalised string |
| Paths.TrailingDotIgnored | server.js:29 | a trailing `/.` does not change the normal segments |
| Paths.LeadingParentCollapses | server.js:29 | a leading `..` is absorbed by the synthetic root |
| Paths.JoinName | server.js:166 | joining a plain name adds exactly that segment |
| Paths.JoinDot | server.js:122 | joining `.` gives the directory itself |
| Paths.JoinUpName | server.js:104 | joining `../x` gives the sibling `x` of the directory |
| Resolve.KeepsSlashExact | server.js:29-32 | the path `resolveUserPath` returns ends in `/` exactly when `rel` does and does not normalise to the root |
| Paths.JoinEndsInName | server.js:32 | names joined by `/` never end in a separator |
| Paths.AbsStringHasDotDot | server.js:105 | `includes('..')` on a resolved path fires exactly when one of its segments contains `..` |
| Paths.HasDotDotAround | server.js:30 | a substring `..` of two strings joined by `/` lies in one of them |
| Paths.JoinHasDotDot | server.js:30 | a joined path contains `..` exactly when one of its segments does |
| Paths.TerminatedPrefix | server.js:36 | a prefix of separator-terminated segment strings comes from a prefix of the segments |
| Resolve.UserBase | server.js:31 | the user's root is canonical when `__dirname` is |
| Resolve.UserBaseOfName | server.js:31 | for a plain user name the root is `__dirname` + `uploads` + user |
| Resolve.ResolveUserPath | server.js:27-40 | every accepted path is canonical |
| Resolve.WithinBase | server.js:34-36 | the containment test with a separator after the root, or equality with the root; `Resolve.WithinBaseIsSegmentAware`, `Resolve.DescendantWithinBase` and `Resolve.SiblingFailsWithinBase` state that it holds exactly for the root and its descendants |
| Resolve.PrefixCheck | server.js:123-125 | `path.resolve(p).startsWith(path.resolve(base))` with no separator, also at lines 187-189, 207-209 and 228-229; `Resolve.DescendantPassesPrefixCheck` and `Resolve.PrefixCheckSibling` state that it admits every descendant and every sibling whose name extends the user's |
| Resolve.KeepsSlash | server.js:29-32 | whether the path `resolveUserPath` returns ends in `/`; `Resolve.KeepsSlashExact` states exactly when |
| Resolve.ResolveUserPathSpec | server.js:27-40 | the result is `Invalid path` exactly when a normal segment of `rel` contains `..`, and otherwise the root followed by the normal segments; the escape branch is never taken, whatever the storage holds |
| Resolve.ResolveContained | server.js:27-40 | every accepted path starts with the root and continues with plain names only |
| Resolve.ResolveEmpty | server.js:27-36 | the empty (default) path resolves to the root itself, for any user |
| Resolve.ResolveIgnoresDotSegments | server.js:29 | `a/./b` resolves like `a/b`, with the same trailing separator |
| Resolve.ResolveIgnoresLeadingDot | server.js:29 | `./r` resolves like `r`, with the same trailing separator |
| Resolve.ResolveIgnoresTrailingDot | server.js:29 | `r/.` resolves like `r`, and the path it gives has no trailing separator |
| Resolve.ResolveIgnoresLeadingSlash | server.js:29 | `/r` resolves like `r`, with the same trailing separator: `rel` is always taken from the user's root |
| Resolve.ResolveIgnoresRepeatedSlash | server.js:29 | `a//b` resolves like `a/b`, with the same trailing separator |
| Resolve.ResolveCollapsesLeadingParent | server.js:29 | `../r` resolves like `r`, with the same trailing separator |
| Resolve.ResolveTwoNames | server.js:29-39 | two names free of `..` joined by a separator resolve to those two segments below the user's root |
| Resolve.ResolveEtcPasswd | server.js:29-32 | `../../etc/passwd` is accepted and lands at `etc/passwd` inside the root |
| Resolve.ResolveRejectsDottedName | server.js:30 | a single name merely containing `..` (such as `a..b`) is rejected |
| Resolve.DescendantWithinBase | server.js:34-36 | every strict descendant of the root passes the containment test |
| Resolve.WithinBaseIsSegmentAware | server.js:34-36 | whatever passes the containment test is the root or lies below it, segment by segment |
| Resolve.SiblingFailsWithinBase | server.js:34-36 | for user `e`, `uploads/e-evil` fails the containment test |
| Resolve.DescendantPassesPrefixCheck | server.js:123-125 | the root and every descendant pass the weaker `startsWith` test |
| Resolve.PrefixCheckSibling | server.js:125 | the `startsWith` test accepts any sibling whose name starts with the root's name |
| Resolve.PrefixCheckAdmitsSibling | server.js:123-125 | for user `e`, `../e-evil/x` reaches `uploads/e-evil/x`, outside the root, and still passes the `startsWith` test |
| FileTree.IsDirectory | server.js:35 | `existsSync(p) && lstatSync(p).isDirectory()` |
| FileTree.Present | server.js:80 | `fs.existsSync`, where a trailing `/` sees folders only, also at lines 45, 106, 126, 146-147, 164, 190, 210 and 232-233; `Handlers.TrailingSeparatorHidesFile` states the trailing case route by route |
| FileTree.CanCreate | server.js:45 | recursive mkdir succeeds exactly when nothing but folders is stored at the path and its ancestors |
| FileTree.MkdirAll | server.js:45 | `mkdirSync(p, { recursive: true })`, also at lines 106 and 164; `FileTree.MkdirAllEffect` and `FileTree.MkdirAllIdempotent` state its effect |
| FileTree.Remove | server.js:127 | `rmSync(p, { recursive: true, force: true })`; `FileTree.RemoveEffect` and `FileTree.RemoveAbsent` state its effect |
| FileTree.Move | server.js:148 | the subtree at the old path placed at the new one; `FileTree.MovedExact` and `FileTree.MoveEffect` state its effect |
| FileTree.Rename | server.js:148 | `renameSync` onto a missing path and when it throws, also at line 234; `FileTree.RenameValid` and `Handlers.RenameOutcome` state its outcome |
| FileTree.Unlink | server.js:210 | `unlinkSync`, which throws on a folder; `FileTree.UnlinkEffect` states its effect |
| FileTree.ChildNames | server.js:82 | the names `readdirSync` finds directly inside a directory; `FileTree.ChildNamesExact` states which |
| FileTree.AncestorIsFolder | server.js:45 | in a well-formed tree every ancestor of a stored path is a stored folder |
| FileTree.ChildNamesExact | server.js:82 | a name is listed in a directory exactly when that child is stored |
| FileTree.MkdirAllEffect | server.js:45 | recursive mkdir keeps the tree well formed, makes the path a folder, keeps every stored entry and adds only prefixes of the path |
| FileTree.MkdirAllIdempotent | server.js:45 | a second recursive mkdir of the same path changes nothing |
| FileTree.RemoveEffect | server.js:127 | recursive forced removal keeps the tree well formed and removes exactly the subtree at the path |
| FileTree.RemoveAbsent | server.js:126-128 | removing an absent path changes nothing |
| FileTree.UnlinkEffect | server.js:210 | unlinking keeps the tree well formed, drops exactly that path, and every other entry keeps its kind |
| FileTree.MovedExact | server.js:148 | the moved subtree holds at `n + s` exactly what was at `o + s` |
| FileTree.MoveEffect | server.js:148 | after a rename the subtree of the source sits at the target, nothing is left under the source and every other path is unchanged |
| FileTree.RenameValid | server.js:148 | a successful rename keeps the tree well formed, whether or not a path ends in `/` |
| Handlers.Prepare | server.js:77-78 | the directory the prologue yields is canonical |
| Handlers.EnsureUserDir | server.js:43-46 | `ensureUserDir` on the storage; `Handlers.EnsureUserDirEffect`, `Handlers.EnsureUserDirIdempotent` and `Handlers.EnsureUserDirAddsOnlyRoot` state its effect |
| Handlers.List | server.js:74-93 | the list route's reply and storage; `Handlers.ListOutcome` with `Handlers.PreparedFacts` states them, and `Server.Storage.List` the names returned |
| Handlers.ListIn | server.js:80-82 | the `existsSync` test and the directory read; `Handlers.ListOutcome` states its reply |
| Handlers.IsListing | server.js:82 | what `readdirSync(dir, { withFileTypes: true })` may return; `Handlers.ListPartition` and `Server.Storage.ReadDir` state it |
| Handlers.FolderNames | server.js:85-88 | the folder names the loop pushes, in entry order; `Handlers.FolderNamesExact` and `Handlers.PartitionDistinct` state which and that none repeats |
| Handlers.FileNames | server.js:85-88 | the regular-file names the loop pushes, in entry order; `Handlers.FileNamesExact` and `Handlers.PartitionDistinct` state which and that none repeats |
| Handlers.CreateFolder | server.js:97-111 | the create-folder route; `Handlers.CreateFolderOutcome`, `Handlers.CreateFolderIdempotent` and `Handlers.CreateFolderEscapes` state its reply and storage |
| Handlers.CreateFolderIn | server.js:104-106 | the join, the `..` test and the mkdir; `Handlers.CreateFolderOutcome` states its reply and storage |
| Handlers.DeleteFolder | server.js:115-133 | the delete-folder route; `Handlers.DeleteFolderOutcome`, `Handlers.DeleteFolderRemovesSibling` and `Handlers.DeleteFolderDotRemovesRoot` state its reply and storage |
| Handlers.DeleteFolderIn | server.js:122-128 | the join, the prefix test and the recursive remove; `Handlers.DeleteFolderOutcome` states its reply and storage |
| Handlers.RenameFolder | server.js:137-153 | the rename-folder route; `Handlers.RenameOutcome` and `Handlers.RenameFolderMovesSibling` state its reply and storage |
| Handlers.RenameIn | server.js:146-148 | the existence tests and `renameSync` shared with rename-file (lines 232-234); `Handlers.RenameOutcome` states its reply and storage |
| Handlers.Upload | server.js:157-174 | the upload route up to the move of the file; `Handlers.UploadOutcome` and `Handlers.UploadStaysInRoot` state its reply, storage and destination |
| Handlers.UploadIn | server.js:164-166 | the mkdir of the directory and the destination join; `Handlers.UploadOutcome` states its reply and storage |
| Handlers.Download | server.js:178-195 | the download route up to streaming; `Handlers.DownloadOutcome` and `Handlers.DownloadReadsSibling` state its reply |
| Handlers.DownloadIn | server.js:186-191 | the join, the prefix test and the `existsSync` test; `Handlers.DownloadOutcome` states its reply |
| Handlers.DeleteFile | server.js:199-215 | the delete-file route; `Handlers.DeleteFileOutcome` states its reply and storage |
| Handlers.DeleteFileIn | server.js:206-210 | the join, the prefix test and the unlink; `Handlers.DeleteFileOutcome` states its reply and storage |
| Handlers.RenameFile | server.js:219-239 | the rename-file route; `Handlers.RenameFileOutcome` states that both prefix tests come before the rename shared with rename-folder |
| Handlers.EnsureUserDirEffect | server.js:43-46 | `ensureUserDir` fails only when the root is missing and cannot be created; otherwise the root is stored, and is a folder when it had to be created, the tree stays well formed, stored entries are kept and only ancestors of the root are added |
| Handlers.EnsureUserDirIdempotent | server.js:43-46 | a second `ensureUserDir` changes nothing |
| Handlers.EnsureUserDirAddsOnlyRoot | server.js:45 | `ensureUserDir` adds no path other than the root and its ancestors |
| Handlers.PreparedFacts | server.js:77-78 | after the prologue the storage is well formed and holds the root, a folder when it was missing before, the directory is the root followed by the normal segments of `rel`, and it ends in `/` exactly when the normalised `rel` does |
| Handlers.PrepareWithRoot | server.js:27-46 | once the root is stored, the prologue changes nothing and its outcome depends on `rel` alone |
| Handlers.PrepareAtRoot | server.js:76-78 | with the default path the prologue yields the root itself, with no trailing `/` |
| Handlers.MissingDirIsEmpty | server.js:80 | an absent directory has no stored children |
| Handlers.ListOutcome | server.js:80-82 | listing answers empty for a directory `existsSync` does not see (missing, or a file named with a trailing `/`), fails on anything else that is not a folder and reads the directory otherwise, never changing the storage |
| Handlers.FolderNamesExact | server.js:85-88 | a name is among the folders exactly when some entry of that name is a folder |
| Handlers.FileNamesExact | server.js:85-88 | a name is among the files exactly when some entry of that name is a regular file |
| Handlers.ListPartition | server.js:82-88 | for any listing of a directory, the folders are exactly its stored folder children and the files exactly its regular-file children |
| Handlers.PartitionDistinct | server.js:85-88 | when the entries name each child once, the folders and the files each hold every name at most once |
| Handlers.TrailingSeparatorHidesFile | server.js:80-234 | a name ending in `/` at which a file is stored is treated as absent by every route: the listing is empty (line 80), both deletes pass or fail the prefix test and leave it in place (125-126, 209-210), download answers 404 once the prefix test passes and 400 otherwise (189-190), a rename from it answers 404 (146, 232), a rename onto it answers 404 when the source is missing and otherwise makes `renameSync` throw, with nothing changed (146-148, 232-234), create-folder answers 400 from its `..` test when a segment holds `..` and otherwise makes mkdir -p throw (105-106), and upload makes mkdir -p throw (164) |
| Handlers.ListingOfMissingDir | server.js:80 | the early empty answer agrees with the listing of a missing directory, which is empty |
| Handlers.ListingGrows | server.js:82 | adding an entry for a child not yet listed keeps a partial listing faithful and free of repeats |
| Handlers.ListingStep | server.js:82 | reading any child still to be read, with its kind, keeps the entries read so far a partial listing and removes exactly that child from the ones remaining |
| Handlers.ListingStartDone | server.js:82 | before reading every child remains; once none remains, the entries read are a listing of the directory |
| Handlers.CreateFolderOutcome | server.js:104-106 | create-folder answers 400 exactly when a segment of the joined path contains `..`, and fails exactly when `existsSync` does not see the path and recursive mkdir throws; both failures leave the storage unchanged; on success the path is stored (as a folder if it was missing or the name ends in `/`), nothing stored is lost and only prefixes of the path are added |
| Handlers.CreateFolderInIdempotent | server.js:104-106 | repeating the step after the prologue changes nothing more |
| Handlers.CreateFolderIdempotent | server.js:97-111 | creating the same folder twice gives the same response and storage as creating it once |
| Handlers.CreateFolderEscapes | server.js:104-106 | the name `../x` creates the folder of user `x`, outside the caller's root |
| Handlers.UsersAreSiblings | server.js:104 | `../x` joined onto a user's root is the root of user `x`, which lies outside the first unless the names agree |
| Handlers.DeleteFolderOutcome | server.js:122-128 | delete-folder answers 400 exactly when the `startsWith` test fails; otherwise, when `existsSync` sees the target, it and everything below it are gone and every other entry is kept, and when it does not, nothing changes |
| Handlers.DeleteFolderRemovesSibling | server.js:122-128 | the name `../other` deletes the root of any user whose name starts with the caller's name, with everything in it |
| Handlers.DeleteFolderDotRemovesRoot | server.js:115-128 | the name `.` passes every test and deletes the caller's own root |
| Handlers.RenameOutcome | server.js:146-148 | 404 exactly when `existsSync` does not see the source and 400 exactly when it sees the target, both leaving the storage alone; a failure, also leaving it alone, exactly when the target has no folder to live in, lies inside the source, is a file `existsSync` missed, or ends in `/` while the source is not a folder; otherwise the subtree moves and nothing else changes |
| Handlers.RenameFolderMovesSibling | server.js:141-148 | rename-folder with `../x` and `../y` moves user `x`'s root to user `y`'s still-missing root; `y`'s root neither lies in the caller's root nor contains it, and neither does `x`'s unless `x` is the caller |
| Handlers.RenameIntoFolder | server.js:146-148 | a stored path renamed, without trailing separators, to a missing name whose parent is a stored folder and which does not lie inside the source, succeeds; afterwards the new name is stored and the old one is not |
| Handlers.RenameFileOutcome | server.js:226-234 | rename-file answers 400 unless both joined paths pass the `startsWith` test, and then renames as rename-folder does |
| Handlers.UploadOutcome | server.js:164-166 | upload creates the directory when `existsSync` does not see it and fails only when recursive mkdir then throws; the destination is the file name joined onto the directory, and a plain name lands directly inside it |
| Handlers.UploadStaysInRoot | server.js:160-166 | a plain file name is uploaded strictly inside the caller's root |
| Handlers.DownloadOutcome | server.js:186-191 | download never changes the storage; it answers 400 exactly when the `startsWith` test fails, 404 exactly when `existsSync` does not see the path, and streams that path otherwise |
| Handlers.DownloadReadsSibling | server.js:186-191 | the file name `../other/f` streams the file `f` of any user whose name starts with the caller's name |
| Handlers.DeleteFileOutcome | server.js:206-210 | delete-file answers 400 exactly when the `startsWith` test fails and fails on a folder; otherwise the path is gone when `existsSync` sees it and the storage is unchanged when it does not, every other entry keeping its kind |
| Server.Partition | server.js:83-88 | the loop pushes the folder entries' names onto `folders` and the regular-file entries' names onto `files`, in entry order |
| Server.Storage.EnsureUserDir | server.js:43-46 | the method ends in the state `ensureUserDir` describes and keeps the storage well formed |
| Server.Storage.ReadDir | server.js:82 | the entries returned name each child of the directory once, with its kind |
| Server.Storage.List | server.js:74-93 | the response kind and storage are those of the list route; the folders and files are the folder and regular-file entries of the `readdirSync` listing, in its order, each name once; they are exactly the stored folder and regular-file children, and both are empty when `existsSync` does not see the directory |
| Server.Storage.CreateFolder | server.js:97-111 | the create-folder route's response and storage, keeping the storage well formed |
| Server.Storage.DeleteFolder | server.js:115-133 | the delete-folder route's response and storage, keeping the storage well formed |
| Server.Storage.RenamePaths | server.js:146-148 | the existence tests and `renameSync` shared by both rename routes, with the trailing `/` of each name |
| Server.Storage.RenameFolder | server.js:137-153 | the rename-folder route's response and storage, keeping the storage well formed |
| Server.Storage.Upload | server.js:157-174 | the upload route's response, storage and destination path, keeping the storage well formed |
| Server.Storage.Download | server.js:178-195 | the download route's response, storage and file to stream, keeping the storage well formed |
| Server.Storage.DeleteFile | server.js:199-215 | the delete-file route's response and storage, keeping the storage well formed |
| Server.Storage.RenameFile | server.js:219-239 | the rename-file route's response and storage, keeping the storage well formed |

## Left out

- Login, logout, sessions and the `auth` middleware (lines 48-70) are left out. Each route takes the session's user name as a parameter. Lemmas that need a plain name (no separator, not `.` or `..`) require it; the keys of `USERS` are such names.
- Express itself is left out: static files, body parsing, JSON and redirect responses, and message texts. A response is one of the kinds in `Handlers.Status`.
- Multipart parsing, `file.mv` with its 500 answer, and the streaming of `res.download` are third-party I/O. Upload and download stop at the destination or source path.
- `__dirname` is a parameter: a canonical absolute path.
- Symbolic links are not modelled. A stored entry that is neither a folder nor a regular file has no children. Reading it as a directory is a failure. `existsSync` following links is not distinguished from `lstat`.
- Permission errors, full disks, cross-device renames and other I/O failures are left out. An `fs` call fails only for the structural reasons in `FileTree`.
- The time between an existence test and the call that follows it (TOCTOU) and concurrent requests are left out. Each route runs as one step on one storage.
- `renameSync` replacing an existing target is not modelled. Both rename routes answer 400 before reaching it, except when the new name ends in `/` and a file is stored there; `renameSync` then throws, as the model has it.
- Trailing separators are kept only as a flag beside the segments: whether the path string ends in `/`. The `fs` calls read that flag as described in `FileTree`. A path with a trailing `/` naming an entry that is neither a folder nor a regular file counts as absent, which for a symbolic link to a directory is not what `existsSync` answers.
- Strings are sequences of characters, with no Unicode normalisation and no case folding. Separators are POSIX only.
- The order of `readdirSync` is whatever the filesystem yields. `Server.Storage.ReadDir` picks the entries in an unspecified order.
