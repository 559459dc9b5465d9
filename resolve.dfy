/** `resolveUserPath` (server.js:27-40), the per-user root it confines
    paths to, and the weaker prefix test several handlers repeat. */
module Resolve {
  import opened Paths
  import opened FileTree

  datatype PathError =
    | InvalidPath     // "Invalid path": the normalised path contains `..`
    | EscapeAttempt   // "Invalid path (escape attempt)": the containment test failed

  datatype Result<T> = Success(value: T) | Failure(error: PathError)

  /** `path.join(__dirname, 'uploads', user)`, with `dirname` the (normal,
      absolute) directory of the server. */
  function UserBase(dirname: seq<string>, user: string): (r: seq<string>)
    ensures Canonical(dirname) ==> Canonical(r)
  {
    var segs := ["uploads"] + Split(user);
    assert NoSlash(segs) by {
      forall i | 0 <= i < |segs| ensures '/' !in segs[i] {
        if i > 0 { assert segs[i] == Split(user)[i - 1]; }
      }
    }
    Fold(dirname, segs)
  }

  /** The containment test of server.js:34-36: `full`, with a separator
      appended when it is a directory, starts with `base` plus a separator,
      or `full` and `base` resolve to the same string. */
  predicate WithinBase(base: seq<string>, full: seq<string>, isDir: bool) {
    var resolvedBase := AbsString(base) + "/";
    var resolvedFull := AbsString(full) + (if isDir then "/" else "");
    resolvedBase <= resolvedFull || AbsString(full) == AbsString(base)
  }

  /** `resolveUserPath(user, rel)` against the storage `t`, which answers
      the `existsSync`/`lstatSync` query of line 35. */
  function ResolveUserPath(dirname: seq<string>, user: string, rel: string, t: Tree): (r: Result<seq<string>>)
    ensures Canonical(dirname) && r.Success? ==> Canonical(r.value)
  {
    var normalized := NormalizedRel(rel);
    if HasDotDot(normalized) then Failure(InvalidPath)
    else
      var base := UserBase(dirname, user);
      var full := JoinPath(base, normalized);
      if !WithinBase(base, full, IsDirectory(t, full)) then Failure(EscapeAttempt)
      else Success(full)
  }

  /** `path.resolve(p).startsWith(path.resolve(base))`: the test of the
      delete-folder, download, delete-file and rename-file handlers, a raw
      string prefix without a trailing separator. */
  predicate PrefixCheck(base: seq<string>, p: seq<string>) {
    AbsString(base) <= AbsString(p)
  }

  /** The path `resolveUserPath` returns ends in a separator:
      `path.join(base, normalized)` keeps the one `normalized` ends in. */
  predicate KeepsSlash(rel: string) {
    EndsInSlash(NormalizedRel(rel))
  }

  // ---------------------------------------------------------------------

  /** For a plain user name the root is `<dirname>/uploads/<user>`. */
  lemma UserBaseOfName(dirname: seq<string>, user: string)
    requires Canonical(dirname) && IsName(user)
    ensures UserBase(dirname, user) == dirname + ["uploads", user]
    ensures Canonical(UserBase(dirname, user))
  {
    SplitNoSlash(user);
    assert ["uploads"] + Split(user) == ["uploads", user];
    assert Canonical(["uploads", user]);
    FoldCanonical(dirname, ["uploads", user]);
  }

  /** A strict descendant of `base` passes the containment test. */
  lemma DescendantWithinBase(base: seq<string>, q: seq<string>, isDir: bool)
    requires |base| > 0 && |q| > 0
    ensures WithinBase(base, base + q, isDir)
  {
    AbsStringAppend(base, q);
    var s := if isDir then "/" else "";
    assert AbsString(base + q) + s == AbsString(base) + "/" + (Join(q) + s);
  }

  /** The result of `resolveUserPath`: `InvalidPath` exactly when a normal
      segment of `rel` contains `..`, otherwise the user's root followed by
      the normal segments; the escape test never fires. */
  lemma ResolveUserPathSpec(dirname: seq<string>, user: string, rel: string, t: Tree)
    requires Canonical(dirname) && IsName(user)
    ensures ResolveUserPath(dirname, user, rel, t) ==
      if SomeSegmentHasDotDot(RootedSegments(rel)) then Failure(InvalidPath)
      else Success(UserBase(dirname, user) + RootedSegments(rel))
  {
    NormalizedRelHasDotDot(rel);
    UserBaseOfName(dirname, user);
    var base := UserBase(dirname, user);
    var segs := RootedSegments(rel);
    FoldNormalizedRel(base, rel);
    var full := JoinPath(base, NormalizedRel(rel));
    assert full == base + segs;
    var isDir := IsDirectory(t, full);
    if segs != [] {
      DescendantWithinBase(base, segs, isDir);
    } else {
      assert full == base;
    }
  }

  /** Containment: every accepted path is the user's root followed by
      segments none of which is empty, `.` or `..`. */
  lemma ResolveContained(dirname: seq<string>, user: string, rel: string, t: Tree)
    requires Canonical(dirname) && IsName(user)
    requires ResolveUserPath(dirname, user, rel, t).Success?
    ensures var p := ResolveUserPath(dirname, user, rel, t).value;
      var base := dirname + ["uploads", user];
      |base| <= |p| && p[..|base|] == base && Canonical(p[|base|..]) && Canonical(p)
  {
    ResolveUserPathSpec(dirname, user, rel, t);
    UserBaseOfName(dirname, user);
    var base := dirname + ["uploads", user];
    var p := base + RootedSegments(rel);
    assert p[..|base|] == base && p[|base|..] == RootedSegments(rel);
    CanonicalAppend(base, RootedSegments(rel));
  }

  /** An empty (or defaulted) path resolves to the root itself, through the
      equality branch of the containment test, for any user. */
  lemma ResolveEmpty(dirname: seq<string>, user: string, t: Tree)
    ensures ResolveUserPath(dirname, user, "", t) == Success(UserBase(dirname, user))
  {
    assert "/" + "" == "/";
    assert "/"[0] == '/' && "/"[1..] == "";
    assert Split("") == [""];
    assert Split("/") == [""] + Split("");
    assert Fold([], [""]) == [];
    assert Fold([], ["", ""]) == Fold([], ["", ""][1..]);
    assert RootedSegments("") == [];
    assert NormalizedRel("") == "";
    assert JoinPath(UserBase(dirname, user), "") == UserBase(dirname, user);
  }

  /** The resolved path ends in a separator exactly when `rel` does and
      does not normalise to the root itself. */
  lemma KeepsSlashExact(rel: string)
    ensures KeepsSlash(rel) <==> RootedSegments(rel) != [] && EndsInSlash(rel)
  {
    var segs := RootedSegments(rel);
    var p := "/" + rel;
    var tail := if segs != [] && p[|p| - 1] == '/' then "/" else "";
    var j := Join(segs);
    assert NormalizeRooted(rel) == "/" + j + tail;
    assert ("/" + j + tail)[0] == '/' && ("/" + j + tail)[1..] == j + tail;
    assert NormalizedRel(rel) == j + tail;
    if rel == "" {
      assert "/"[0] == '/' && "/"[1..] == "";
      assert Split("/") == [""] + Split("");
      assert Fold([], ["", ""]) == Fold([], ["", ""][1..]);
      assert segs == [];
    } else {
      assert p[|p| - 1] == rel[|rel| - 1];
    }
    if segs != [] {
      JoinEndsInName(segs);
      if tail == "" {
        assert j + tail == j;
      }
    }
  }

  /** `.` segments do not change the resolved path or its trailing
      separator. */
  lemma ResolveIgnoresDotSegments(dirname: seq<string>, user: string, a: string, b: string, t: Tree)
    ensures ResolveUserPath(dirname, user, a + "/./" + b, t) == ResolveUserPath(dirname, user, a + "/" + b, t)
    ensures KeepsSlash(a + "/./" + b) == KeepsSlash(a + "/" + b)
  {
    DotSegmentIgnored(a, b);
  }

  /** A leading `./` does not change the resolved path or its trailing
      separator. */
  lemma ResolveIgnoresLeadingDot(dirname: seq<string>, user: string, r: string, t: Tree)
    ensures ResolveUserPath(dirname, user, "./" + r, t) == ResolveUserPath(dirname, user, r, t)
    ensures KeepsSlash("./" + r) == KeepsSlash(r)
  {
    LeadingDotIgnored(r);
  }

  /** A trailing `/.` does not change the resolved path, and the path it
      gives has no trailing separator. */
  lemma ResolveIgnoresTrailingDot(dirname: seq<string>, user: string, r: string, t: Tree)
    requires Canonical(dirname) && IsName(user)
    ensures ResolveUserPath(dirname, user, r + "/.", t) == ResolveUserPath(dirname, user, r, t)
    ensures !KeepsSlash(r + "/.")
  {
    TrailingDotIgnored(r);
    ResolveUserPathSpec(dirname, user, r + "/.", t);
    ResolveUserPathSpec(dirname, user, r, t);
    KeepsSlashExact(r + "/.");
    assert (r + "/.")[|r + "/."| - 1] == '.';
  }

  /** A leading separator does not change the resolved path or its
      trailing separator: `rel` is taken from the user's root either way. */
  lemma ResolveIgnoresLeadingSlash(dirname: seq<string>, user: string, r: string, t: Tree)
    ensures ResolveUserPath(dirname, user, "/" + r, t) == ResolveUserPath(dirname, user, r, t)
    ensures KeepsSlash("/" + r) == KeepsSlash(r)
  {
    LeadingSlashIgnored(r);
  }

  /** Repeated separators do not change the resolved path or its trailing
      separator. */
  lemma ResolveIgnoresRepeatedSlash(dirname: seq<string>, user: string, a: string, b: string, t: Tree)
    ensures ResolveUserPath(dirname, user, a + "//" + b, t) == ResolveUserPath(dirname, user, a + "/" + b, t)
    ensures KeepsSlash(a + "//" + b) == KeepsSlash(a + "/" + b)
  {
    DoubleSlashIgnored(a, b);
  }

  /** A leading `..` is collapsed at the synthetic root, not rejected. */
  lemma ResolveCollapsesLeadingParent(dirname: seq<string>, user: string, r: string, t: Tree)
    ensures ResolveUserPath(dirname, user, "../" + r, t) == ResolveUserPath(dirname, user, r, t)
    ensures KeepsSlash("../" + r) == KeepsSlash(r)
  {
    LeadingParentCollapses(r);
  }

  /** Two names separated by a separator normalise to those two segments. */
  lemma RootedTwoNames(x: string, y: string)
    requires IsName(x) && IsName(y)
    ensures RootedSegments(x + "/" + y) == [x, y]
  {
    var r := x + "/" + y;
    assert "/" + r == "" + "/" + r;
    SplitAround("", r);
    SplitAround(x, y);
    SplitNoSlash(x);
    SplitNoSlash(y);
    assert Split("") == [""];
    assert Split("/" + r) == [""] + [x, y];
    FoldAppend([], [""], [x, y]);
    assert Fold([], [""]) == [];
    FoldCanonical([], [x, y]);
  }

  /** Two names without `..`, separated by a separator, resolve to
      those two segments below the root. */
  lemma ResolveTwoNames(dirname: seq<string>, user: string, x: string, y: string, t: Tree)
    requires Canonical(dirname) && IsName(user) && IsName(x) && IsName(y)
    requires !HasDotDot(x) && !HasDotDot(y)
    ensures ResolveUserPath(dirname, user, x + "/" + y, t) == Success(dirname + ["uploads", user, x, y])
  {
    RootedTwoNames(x, y);
    assert !SomeSegmentHasDotDot([x, y]);
    ResolveUserPathSpec(dirname, user, x + "/" + y, t);
    UserBaseOfName(dirname, user);
    assert dirname + ["uploads", user] + [x, y] == dirname + ["uploads", user, x, y];
  }

  lemma EtcPasswdSegments(dirname: seq<string>, user: string, t: Tree)
    requires Canonical(dirname) && IsName(user)
    ensures ResolveUserPath(dirname, user, "etc" + "/" + "passwd", t)
         == Success(dirname + ["uploads", user, "etc", "passwd"])
  {
    assert IsName("etc") && IsName("passwd");
    assert !HasDotDot("etc") && !HasDotDot("passwd");
    ResolveTwoNames(dirname, user, "etc", "passwd", t);
  }

  /** `"../../etc/passwd"` lands inside the root, at `etc/passwd`. */
  lemma ResolveEtcPasswd(dirname: seq<string>, user: string, t: Tree)
    requires Canonical(dirname) && IsName(user)
    ensures ResolveUserPath(dirname, user, "../../etc/passwd", t)
         == Success(dirname + ["uploads", user, "etc", "passwd"])
  {
    var r := "etc" + "/" + "passwd";
    var r1 := "../" + r;
    var r2 := "../" + r1;
    assert r2 == "../../etc/passwd";
    var target := Success(dirname + ["uploads", user, "etc", "passwd"]);
    EtcPasswdSegments(dirname, user, t);
    assert ResolveUserPath(dirname, user, r, t) == target;
    ResolveCollapsesLeadingParent(dirname, user, r, t);
    assert ResolveUserPath(dirname, user, r1, t) == target;
    ResolveCollapsesLeadingParent(dirname, user, r1, t);
    assert ResolveUserPath(dirname, user, r2, t) == target;
  }

  /** A single segment that merely contains `..`, such as `a..b` or `...`,
      is rejected by the substring test. */
  lemma ResolveRejectsDottedName(dirname: seq<string>, user: string, x: string, t: Tree)
    requires IsName(x) && HasDotDot(x)
    ensures ResolveUserPath(dirname, user, x, t) == Failure(InvalidPath)
  {
    var sx := "/" + x;
    assert sx[0] == '/' && sx[1..] == x;
    SplitNoSlash(x);
    assert Split(sx) == [""] + Split(x);
    assert Split("/" + x) == ["", x];
    assert Fold([x], []) == [x];
    assert Fold([], [x]) == Fold([x], []);
    assert Fold([], ["", x]) == Fold([], ["", x][1..]);
    assert RootedSegments(x) == [x];
    NormalizedRelHasDotDot(x);
    assert SomeSegmentHasDotDot([x]) by { assert HasDotDot([x][0]); }
  }

  /** The containment test compares whole segments: whatever passes it is
      the root or lies below it. */
  lemma WithinBaseIsSegmentAware(base: seq<string>, p: seq<string>, isDir: bool)
    requires Canonical(base) && Canonical(p) && |base| > 0
    ensures WithinBase(base, p, isDir) ==> base <= p
  {
    if WithinBase(base, p, isDir) {
      JoinNonEmpty(base);
      TerminatedIsJoinSlash(base);
      var sfx := if isDir then "/" else "";
      var tb := Terminated(base);
      if AbsString(base) + "/" <= AbsString(p) + sfx {
        var l, r := "/" + tb, "/" + (Join(p) + sfx);
        assert AbsString(base) + "/" == l;
        assert AbsString(p) + sfx == r;
        assert l <= r;
        assert tb == l[1..] && Join(p) + sfx == r[1..];
        assert tb <= Join(p) + sfx;
        assert |tb| >= 2;
        assert p != [];
        TerminatedIsJoinSlash(p);
        assert Join(p) + sfx <= Terminated(p);
        assert tb <= Terminated(p);
        TerminatedPrefix(base, p);
      } else {
        assert AbsString(p) == AbsString(base);
        assert Join(p) == AbsString(p)[1..] == AbsString(base)[1..] == Join(base);
        assert p != [];
        SplitJoin(p);
        SplitJoin(base);
      }
    }
  }

  /** Concretely: for user `e`, the sibling directory `uploads/e-evil` does
      not pass the containment test. */
  lemma SiblingFailsWithinBase(dirname: seq<string>, isDir: bool)
    requires Canonical(dirname)
    ensures !WithinBase(dirname + ["uploads", "e"], dirname + ["uploads", "e-evil"], isDir)
  {
    var base, p := dirname + ["uploads", "e"], dirname + ["uploads", "e-evil"];
    assert Canonical(["uploads", "e"]) && Canonical(["uploads", "e-evil"]);
    CanonicalAppend(dirname, ["uploads", "e"]);
    CanonicalAppend(dirname, ["uploads", "e-evil"]);
    WithinBaseIsSegmentAware(base, p, isDir);
    assert base[|base| - 1] != p[|base| - 1];
  }

  /** Every descendant of the root passes the weaker prefix test. */
  lemma DescendantPassesPrefixCheck(base: seq<string>, p: seq<string>)
    requires |base| > 0 && base <= p
    ensures PrefixCheck(base, p)
  {
    if |p| > |base| {
      assert p == base + p[|base|..];
      AbsStringAppend(base, p[|base|..]);
    } else {
      assert p == base;
    }
  }

  /** The weaker prefix test accepts any sibling whose name starts with
      the root's last segment. */
  lemma PrefixCheckSibling(u: seq<string>, a: string, b: string, rest: seq<string>)
    requires |u| > 0 && a <= b
    ensures PrefixCheck(u + [a], u + ([b] + rest))
  {
    AbsStringAppend(u, [a]);
    AbsStringAppend(u, [b] + rest);
    var jb := Join([b] + rest);
    if rest != [] {
      assert ([b] + rest)[1..] == rest;
      assert jb == b + ("/" + Join(rest));
    }
    assert b <= jb;
    assert AbsString(u + [a]) == (AbsString(u) + "/") + a;
    assert AbsString(u + ([b] + rest)) == (AbsString(u) + "/") + jb;
  }

  /** `..` followed by two names, joined onto a path. */
  lemma JoinUpTwoNames(base: seq<string>, x: string, y: string)
    requires |base| > 0 && IsName(x) && IsName(y)
    ensures JoinPath(base, ".." + "/" + (x + "/" + y)) == base[..|base| - 1] + [x, y]
  {
    SplitAround("..", x + "/" + y);
    SplitAround(x, y);
    SplitNoSlash("..");
    SplitNoSlash(x);
    SplitNoSlash(y);
    assert Split(".." + "/" + (x + "/" + y)) == [".."] + [x, y];
    FoldAppend(base, [".."], [x, y]);
    assert Fold(base, [".."]) == base[..|base| - 1];
    FoldCanonical(base[..|base| - 1], [x, y]);
  }

  /** The weaker prefix test is not segment-aware: for user `e`, the name
      `../e-evil/x` joined onto the root reaches the sibling directory
      `uploads/e-evil` and still passes it. */
  lemma PrefixCheckAdmitsSibling(dirname: seq<string>)
    requires Canonical(dirname)
    ensures var base := UserBase(dirname, "e");
      var p := JoinPath(base, "../e-evil/x");
      && p == dirname + ["uploads", "e-evil", "x"]
      && PrefixCheck(base, p)
      && !(base <= p)
  {
    UserBaseOfName(dirname, "e");
    var u := dirname + ["uploads"];
    var base := u + ["e"];
    assert base == dirname + ["uploads", "e"];
    assert "../e-evil/x" == ".." + "/" + ("e-evil" + "/" + "x");
    JoinUpTwoNames(base, "e-evil", "x");
    assert base[..|base| - 1] == u;
    var p := u + ["e-evil", "x"];
    assert p == dirname + ["uploads", "e-evil", "x"];
    assert "e" <= "e-evil";
    PrefixCheckSibling(u, "e", "e-evil", ["x"]);
    assert ["e-evil"] + ["x"] == ["e-evil", "x"];
    assert base[|base| - 1] != p[|base| - 1];
  }
}
