/** The storage the request handlers act on: the whole filesystem as a map
    from canonical absolute paths to what is stored there, and the
    synchronous `fs` calls the handlers make, each as a function from the
    tree before the call to the tree after it (`None` where the call
    throws). */
module FileTree {
  import opened Paths

  /** What `lstat` reports: a directory, a regular file, or anything else
      (a symbolic link, a socket, ...). */
  datatype Kind = Folder | File | Other

  type Tree = map<seq<string>, Kind>

  datatype Option<T> = None | Some(value: T)

  /** A directory entry as `readdirSync(dir, { withFileTypes: true })`
      returns it. */
  datatype Entry = Entry(name: string, kind: Kind)

  /** Every stored path is canonical and lies in a stored folder. */
  ghost predicate Valid(t: Tree) {
    forall p :: p in t ==> Canonical(p) && (p != [] ==> p[..|p| - 1] in t && t[p[..|p| - 1]] == Folder)
  }

  /** `fs.existsSync(p) && fs.lstatSync(p).isDirectory()` */
  predicate IsDirectory(t: Tree, p: seq<string>) {
    p in t && t[p] == Folder
  }

  /** `fs.existsSync(p)`, where `trailing` says whether the path string
      ends in a separator: such a path names a directory only, and a file
      stored there answers ENOTDIR, so it counts as absent. */
  predicate Present(t: Tree, p: seq<string>, trailing: bool) {
    p in t && (trailing ==> t[p] == Folder)
  }

  /** No stored prefix of `p`, `p` included, is anything but a folder. */
  predicate CanCreate(t: Tree, p: seq<string>) {
    forall i :: 0 <= i <= |p| && p[..i] in t ==> t[p[..i]] == Folder
  }

  /** `fs.mkdirSync(p, { recursive: true })`: every missing prefix of `p`
      becomes a folder; it throws when a prefix is something else. */
  function MkdirAll(t: Tree, p: seq<string>): Option<Tree> {
    if CanCreate(t, p) then Some(t + map i | 0 <= i <= |p| :: p[..i] := Folder) else None
  }

  /** `fs.rmSync(p, { recursive: true, force: true })`: `p` and everything
      below it are gone. */
  function Remove(t: Tree, p: seq<string>): Tree {
    map q | q in t && !(p <= q) :: t[q]
  }

  /** The paths below `o`, relative to `o`. */
  function Below(t: Tree, o: seq<string>): set<seq<string>> {
    set q | q in t && o <= q :: q[|o|..]
  }

  lemma BelowExact(t: Tree, o: seq<string>, s: seq<string>)
    ensures s in Below(t, o) <==> o + s in t
  {
    if o + s in t {
      assert o <= o + s && (o + s)[|o|..] == s;
    }
    if s in Below(t, o) {
      var q :| q in t && o <= q && q[|o|..] == s;
      assert q == o + s;
    }
  }

  lemma PrependInjective(n: seq<string>)
    ensures forall s1, s2 :: n + s1 == n + s2 ==> s1 == s2
  {
    forall s1, s2 | n + s1 == n + s2 ensures s1 == s2 {
      assert s1 == (n + s1)[|n|..];
      assert s2 == (n + s2)[|n|..];
    }
  }

  /** The entries of `t` outside the subtree at `o`. */
  function Kept(t: Tree, o: seq<string>): Tree {
    map q | q in t && !(o <= q) :: t[q]
  }

  /** The subtree at `o`, placed at `n`. */
  function Moved(t: Tree, o: seq<string>, n: seq<string>): Tree {
    PrependInjective(n);
    map s | s in Below(t, o) :: n + s := (BelowExact(t, o, s); t[o + s])
  }

  /** The tree after the subtree at `o` has been moved to `n`. */
  function Move(t: Tree, o: seq<string>, n: seq<string>): Tree {
    Kept(t, o) + Moved(t, o, n)
  }

  /** `fs.renameSync(o, n)` onto an absent `n`: it throws when `o` is
      missing, when `n` has no folder to live in, when `n` lies inside `o`,
      or when either path string ends in a separator (`trailing`) and `o`
      is not a directory. Replacing an existing `n` is not modelled: both
      handlers reject an existing target before the call, and with a
      trailing separator on `n` the call throws on whatever is stored
      there. */
  function Rename(t: Tree, o: seq<string>, n: seq<string>, trailing: bool): Option<Tree> {
    if o !in t || n in t || n == [] || !IsDirectory(t, n[..|n| - 1]) || o <= n then None
    else if trailing && t[o] != Folder then None
    else Some(Move(t, o, n))
  }

  /** `fs.unlinkSync(p)`: it throws on a missing path and on a folder. */
  function Unlink(t: Tree, p: seq<string>): Option<Tree> {
    if p !in t || t[p] == Folder then None else Some(t - {p})
  }

  /** The names stored directly inside `dir`. */
  function ChildNames(t: Tree, dir: seq<string>): set<string> {
    set q | q in t && |q| == |dir| + 1 && q[..|dir|] == dir :: q[|dir|]
  }

  // ---------------------------------------------------------------------

  /** Every ancestor of a stored path is a stored folder. */
  lemma {:induction false} AncestorIsFolder(t: Tree, q: seq<string>, a: seq<string>)
    requires Valid(t) && q in t && a <= q
    ensures a in t && (a != q ==> t[a] == Folder)
    decreases |q| - |a|
  {
    if a != q {
      var pq := q[..|q| - 1];
      assert a <= pq;
      AncestorIsFolder(t, pq, a);
    }
  }

  /** A stored path is the only source of its children's names. */
  lemma ChildNamesExact(t: Tree, dir: seq<string>, x: string)
    ensures x in ChildNames(t, dir) <==> dir + [x] in t
  {
    var c := dir + [x];
    if c in t {
      assert c[..|dir|] == dir && c[|dir|] == x;
    }
    if x in ChildNames(t, dir) {
      var q :| q in t && |q| == |dir| + 1 && q[..|dir|] == dir && q[|dir|] == x;
      assert q == c;
    }
  }

  /** mkdir -p keeps the tree valid, makes `p` a folder, keeps every stored
      entry as it was and adds only prefixes of `p`. */
  lemma MkdirAllEffect(t: Tree, p: seq<string>)
    requires Valid(t) && Canonical(p) && MkdirAll(t, p).Some?
    ensures var t' := MkdirAll(t, p).value;
      && Valid(t')
      && IsDirectory(t', p)
      && (forall q :: q in t ==> q in t' && t'[q] == t[q])
      && (forall q :: q in t' ==> q in t || q <= p)
  {
    var m := map i | 0 <= i <= |p| :: p[..i] := Folder;
    var t' := t + m;
    assert p[..|p|] == p;
    forall q | q in m ensures q <= p && Canonical(q) && m[q] == Folder {
      var i :| 0 <= i <= |p| && q == p[..i];
      assert forall j :: 0 <= j < |q| ==> q[j] == p[j];
    }
    forall q | q in t' ensures Canonical(q) && (q != [] ==> q[..|q| - 1] in t' && t'[q[..|q| - 1]] == Folder) {
      if q in m {
        if q != [] {
          var i :| 0 <= i <= |p| && q == p[..i];
          assert q[..|q| - 1] == p[..i - 1];
        }
      } else {
        if q != [] {
          var pq := q[..|q| - 1];
          if pq in m {
            assert m[pq] == Folder;
          }
        }
      }
    }
    forall q | q in t ensures q in t' && t'[q] == t[q] {
      if q in m {
        var i :| 0 <= i <= |p| && q == p[..i];
      }
    }
  }

  /** A second mkdir -p of the same path changes nothing. */
  lemma MkdirAllIdempotent(t: Tree, p: seq<string>)
    requires MkdirAll(t, p).Some?
    ensures MkdirAll(MkdirAll(t, p).value, p) == MkdirAll(t, p)
  {
    var m := map i | 0 <= i <= |p| :: p[..i] := Folder;
    var t' := t + m;
    assert CanCreate(t', p) by {
      forall i | 0 <= i <= |p| && p[..i] in t' ensures t'[p[..i]] == Folder {
        assert p[..i] in m;
      }
    }
    assert t' + m == t';
  }

  /** rm -rf keeps the tree valid and removes exactly the subtree at `p`. */
  lemma RemoveEffect(t: Tree, p: seq<string>)
    requires Valid(t)
    ensures Valid(Remove(t, p))
    ensures forall q :: q in Remove(t, p) <==> q in t && !(p <= q)
    ensures forall q :: q in Remove(t, p) ==> Remove(t, p)[q] == t[q]
  {
    var r := Remove(t, p);
    forall q | q in r && q != [] ensures q[..|q| - 1] in r {
      var pq := q[..|q| - 1];
      assert p <= pq ==> p <= q;
    }
  }

  /** Removing an absent path is a no-op. */
  lemma RemoveAbsent(t: Tree, p: seq<string>)
    requires Valid(t) && p !in t
    ensures Remove(t, p) == t
  {
    forall q | q in t ensures !(p <= q) {
      if p <= q {
        AncestorIsFolder(t, q, p);
      }
    }
    assert Remove(t, p).Keys == t.Keys;
  }

  /** Unlinking keeps the tree valid and drops just `p`; every other
      entry keeps its kind. */
  lemma UnlinkEffect(t: Tree, p: seq<string>)
    requires Valid(t) && Unlink(t, p).Some?
    ensures Valid(Unlink(t, p).value)
    ensures Unlink(t, p).value.Keys == t.Keys - {p}
    ensures forall q :: q in Unlink(t, p).value ==> Unlink(t, p).value[q] == t[q]
  {
    var t' := t - {p};
    forall q | q in t' && q != [] ensures q[..|q| - 1] in t' {
      assert q[..|q| - 1] != p;
    }
  }

  /** Two prefixes of the same path are comparable. */
  lemma PrefixesComparable(a: seq<string>, b: seq<string>, q: seq<string>)
    requires a <= q && b <= q
    ensures a <= b || b <= a
  {
    if |a| <= |b| {
      assert b[..|a|] == q[..|a|] == a;
    } else {
      assert a[..|b|] == q[..|b|] == b;
    }
  }

  lemma MovedExact(t: Tree, o: seq<string>, n: seq<string>, k: seq<string>)
    ensures k in Moved(t, o, n) <==> n <= k && o + k[|n|..] in t
    ensures k in Moved(t, o, n) ==> Moved(t, o, n)[k] == t[o + k[|n|..]]
  {
    if k in Moved(t, o, n) {
      var s :| s in Below(t, o) && k == n + s;
      assert k[|n|..] == s;
      BelowExact(t, o, s);
    }
    if n <= k && o + k[|n|..] in t {
      var s := k[|n|..];
      BelowExact(t, o, s);
      assert k == n + s;
    }
  }

  /** After a move, the paths under `n` hold what was under `o`, nothing
      is left under `o`, and every other path is as it was. */
  lemma MoveEffect(t: Tree, o: seq<string>, n: seq<string>)
    requires Valid(t) && n !in t && !(o <= n)
    ensures var t' := Move(t, o, n);
      && (forall s :: n + s in t' <==> o + s in t)
      && (forall s :: o + s in t ==> t'[n + s] == t[o + s])
      && (forall s :: o + s !in t')
      && (forall q :: !(o <= q) && !(n <= q) ==> (q in t' <==> q in t))
      && (forall q :: !(o <= q) && !(n <= q) && q in t ==> t'[q] == t[q])
  {
    var a, b := Kept(t, o), Moved(t, o, n);
    var t' := a + b;
    forall q | q in t ensures !(n <= q) {
      if n <= q { AncestorIsFolder(t, q, n); }
    }
    forall s ensures n + s in t' <==> o + s in t {
      assert n <= n + s && (n + s)[|n|..] == s;
      MovedExact(t, o, n, n + s);
    }
    forall s | o + s in t ensures t'[n + s] == t[o + s] {
      assert n <= n + s && (n + s)[|n|..] == s;
      MovedExact(t, o, n, n + s);
    }
    forall s ensures o + s !in t' {
      assert o <= o + s;
      MovedExact(t, o, n, o + s);
      if n <= o + s {
        PrefixesComparable(o, n, o + s);
      }
    }
    forall q | !(o <= q) && !(n <= q) ensures (q in t' <==> q in t) && (q in t ==> t'[q] == t[q]) {
      MovedExact(t, o, n, q);
    }
  }

  /** A moved entry of a successful rename is canonical and sits in a folder. */
  lemma RenameValidMoved(t: Tree, o: seq<string>, n: seq<string>, trailing: bool, q: seq<string>)
    requires Valid(t) && Canonical(n) && Rename(t, o, n, trailing).Some?
    requires q in Moved(t, o, n)
    ensures var t' := Move(t, o, n);
      Canonical(q) && (q != [] ==> q[..|q| - 1] in t' && t'[q[..|q| - 1]] == Folder)
  {
    MovedExact(t, o, n, q);
    var s := q[|n|..];
    var q0 := o + s;
    assert q == n + s && q0 in t;
    CanonicalDrop(q0, |o|);
    assert q0[|o|..] == s;
    CanonicalAppend(n, s);
    if s == [] {
      assert q == n;
      ParentOfNewTarget(t, o, n, trailing);
    } else {
      ParentOfMoved(t, o, n, s);
    }
  }

  /** The parent of a moved entry is the moved image of a folder. */
  lemma ParentOfMoved(t: Tree, o: seq<string>, n: seq<string>, s: seq<string>)
    requires Valid(t) && s != [] && o + s in t
    ensures var k := (n + s)[..|n + s| - 1]; k in Moved(t, o, n) && Moved(t, o, n)[k] == Folder
  {
    var ps := s[..|s| - 1];
    assert (n + s)[..|n + s| - 1] == n + ps;
    assert (o + s)[..|o + s| - 1] == o + ps;
    assert o + ps in t && t[o + ps] == Folder;
    assert n <= n + ps && (n + ps)[|n|..] == ps;
    MovedExact(t, o, n, n + ps);
  }

  /** The folder that receives a renamed entry is kept as it was. */
  lemma ParentOfNewTarget(t: Tree, o: seq<string>, n: seq<string>, trailing: bool)
    requires Valid(t) && Rename(t, o, n, trailing).Some?
    ensures var t' := Move(t, o, n); n[..|n| - 1] in t' && t'[n[..|n| - 1]] == Folder
  {
    var pn := n[..|n| - 1];
    assert o <= pn ==> o <= n;
    assert pn in Kept(t, o);
    MovedExact(t, o, n, pn);
  }

  /** A kept entry of a successful rename still sits in a folder. */
  lemma RenameValidKept(t: Tree, o: seq<string>, n: seq<string>, trailing: bool, q: seq<string>)
    requires Valid(t) && Rename(t, o, n, trailing).Some?
    requires q in Kept(t, o) && q !in Moved(t, o, n)
    ensures var t' := Move(t, o, n);
      Canonical(q) && (q != [] ==> q[..|q| - 1] in t' && t'[q[..|q| - 1]] == Folder)
  {
    MoveEffect(t, o, n);
    if q != [] {
      var pq := q[..|q| - 1];
      assert o <= pq ==> o <= q;
      assert pq in t && t[pq] == Folder;
      assert !(n <= pq) by {
        if n <= pq { AncestorIsFolder(t, pq, n); }
      }
    }
  }

  /** A successful rename keeps the tree valid. */
  lemma RenameValid(t: Tree, o: seq<string>, n: seq<string>, trailing: bool)
    requires Valid(t) && Canonical(n) && Rename(t, o, n, trailing).Some?
    ensures Valid(Rename(t, o, n, trailing).value)
  {
    var t' := Move(t, o, n);
    forall q | q in t' ensures Canonical(q) && (q != [] ==> q[..|q| - 1] in t' && t'[q[..|q| - 1]] == Folder) {
      if q in Moved(t, o, n) {
        RenameValidMoved(t, o, n, trailing, q);
      } else {
        RenameValidKept(t, o, n, trailing, q);
      }
    }
  }
}
