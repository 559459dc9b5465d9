/** POSIX path strings as Node's `path.posix` treats them, modelled as
    sequences of segments: splitting on '/', joining with '/', and the
    lexical normalisation that `path.posix.normalize` performs on an
    absolute path. */
module Paths {

  /** A segment that names a directory entry: not empty, not a dot
      segment, no separator. */
  predicate IsName(s: string) {
    s != "" && s != "." && s != ".." && '/' !in s
  }

  /** A canonical absolute path: every segment is a name. */
  predicate Canonical(p: seq<string>) {
    forall i :: 0 <= i < |p| ==> IsName(p[i])
  }

  predicate NoSlash(p: seq<string>) {
    forall i :: 0 <= i < |p| ==> '/' !in p[i]
  }

  /** `s.split('/')`: always at least one piece, none holding a separator. */
  function Split(s: string): (r: seq<string>)
    ensures |r| >= 1 && NoSlash(r)
    decreases |s|
  {
    if s == [] then [""]
    else
      var rest := Split(s[1..]);
      if s[0] == '/' then [""] + rest
      else [[s[0]] + rest[0]] + rest[1..]
  }

  /** `segs.join('/')` */
  function Join(p: seq<string>): string
    decreases |p|
  {
    if |p| == 0 then "" else if |p| == 1 then p[0] else p[0] + "/" + Join(p[1..])
  }

  /** The string `path.resolve` yields for the absolute path `p`: a leading
      separator, no trailing one. */
  function AbsString(p: seq<string>): string {
    "/" + Join(p)
  }

  /** One step of the normaliser: empty and `.` segments vanish, `..` pops
      the last segment and vanishes at the root, names are pushed. */
  function Step(st: seq<string>, seg: string): seq<string> {
    if seg == "" || seg == "." then st
    else if seg == ".." then (if st == [] then [] else st[..|st| - 1])
    else st + [seg]
  }

  /** Normalises the segments `segs` onto the already normal path `st`. */
  function Fold(st: seq<string>, segs: seq<string>): (r: seq<string>)
    ensures Canonical(st) && NoSlash(segs) ==> Canonical(r)
    ensures |r| <= |st| + |segs|
    decreases |segs|
  {
    if segs == [] then st else Fold(Step(st, segs[0]), segs[1..])
  }

  /** The segments of `path.posix.normalize('/' + rel)`. */
  function RootedSegments(rel: string): (r: seq<string>)
    ensures Canonical(r)
  {
    Fold([], Split("/" + rel))
  }

  /** `path.posix.normalize('/' + rel)`: a trailing separator of the input
      is kept unless the result is the root itself. */
  function NormalizeRooted(rel: string): string {
    var segs := RootedSegments(rel);
    var p := "/" + rel;
    "/" + Join(segs) + (if segs != [] && p[|p| - 1] == '/' then "/" else "")
  }

  /** `s.replace(/^\//, '')` */
  function StripLeadingSlash(s: string): string {
    if |s| > 0 && s[0] == '/' then s[1..] else s
  }

  /** The string `normalized` that `resolveUserPath` tests. */
  function NormalizedRel(rel: string): string {
    StripLeadingSlash(NormalizeRooted(rel))
  }

  /** `s.includes('..')` */
  predicate HasDotDot(s: string)
    decreases |s|
  {
    |s| >= 2 && ((s[0] == '.' && s[1] == '.') || HasDotDot(s[1..]))
  }

  /** Some segment of `p` contains the substring `..`. */
  predicate SomeSegmentHasDotDot(p: seq<string>) {
    exists k :: 0 <= k < |p| && HasDotDot(p[k])
  }

  /** `path.join(dir, s)` followed by `path.resolve`, for a normal absolute
      `dir`: the segments of `s` are normalised onto `dir`. The separator
      `path.join` keeps when `s` ends in one is `EndsInSlash(s)`. */
  function JoinPath(dir: seq<string>, s: string): (r: seq<string>)
    ensures Canonical(dir) ==> Canonical(r)
  {
    Fold(dir, Split(s))
  }

  /** The path string ends in a separator. `path.join` and
      `path.posix.normalize` keep such a separator on their result, and
      the `fs` calls then accept the path only as a directory. */
  predicate EndsInSlash(s: string) {
    |s| > 0 && s[|s| - 1] == '/'
  }

  /** Each segment followed by a separator: `Join(p) + "/"` for non-empty `p`. */
  function Terminated(p: seq<string>): string
    decreases |p|
  {
    if p == [] then "" else p[0] + "/" + Terminated(p[1..])
  }

  // ---------------------------------------------------------------------
  // Splitting and joining

  lemma {:induction false} SplitNoSlash(s: string)
    requires '/' !in s
    ensures Split(s) == [s]
    decreases |s|
  {
    if s != [] {
      SplitNoSlash(s[1..]);
      assert [s[0]] + s[1..] == s;
    }
  }

  /** Splitting distributes over a separator. */
  lemma {:induction false} SplitAround(a: string, b: string)
    ensures Split(a + "/" + b) == Split(a) + Split(b)
    decreases |a|
  {
    if a == [] {
      assert a + "/" + b == "/" + b;
      assert ("/" + b)[1..] == b;
    } else {
      var s := a + "/" + b;
      assert s[0] == a[0];
      assert s[1..] == a[1..] + "/" + b;
      SplitAround(a[1..], b);
    }
  }

  /** Prefixing the first segment with a character prefixes the join. */
  lemma {:induction false} JoinConsHead(c: char, r: seq<string>)
    requires |r| >= 1
    ensures Join([[c] + r[0]] + r[1..]) == [c] + Join(r)
  {
    var h := [c] + r[0];
    var sp := [h] + r[1..];
    if |r| > 1 {
      assert sp[0] == h && sp[1..] == r[1..];
      assert Join(sp) == h + "/" + Join(r[1..]);
      assert h + "/" + Join(r[1..]) == [c] + (r[0] + "/" + Join(r[1..]));
    }
  }

  /** Joining undoes splitting. */
  lemma {:induction false} JoinSplit(s: string)
    ensures Join(Split(s)) == s
    decreases |s|
  {
    if s != [] {
      var c, tail := s[0], s[1..];
      assert s == [c] + tail;
      var r := Split(tail);
      JoinSplit(tail);
      if c == '/' {
        var sp := [""] + r;
        assert Split(s) == sp;
        assert sp[1..] == r;
        assert Join(sp) == "" + "/" + Join(r);
      } else {
        assert Split(s) == [[c] + r[0]] + r[1..];
        JoinConsHead(c, r);
      }
    }
  }

  /** Splitting undoes joining, for segments without separators. */
  lemma {:induction false} SplitJoin(p: seq<string>)
    requires |p| >= 1 && NoSlash(p)
    ensures Split(Join(p)) == p
    decreases |p|
  {
    if |p| == 1 {
      SplitNoSlash(p[0]);
    } else {
      SplitJoin(p[1..]);
      SplitAround(p[0], Join(p[1..]));
      SplitNoSlash(p[0]);
      assert [p[0]] + p[1..] == p;
    }
  }

  lemma {:induction false} JoinAppend(a: seq<string>, b: seq<string>)
    requires |a| > 0 && |b| > 0
    ensures Join(a + b) == Join(a) + "/" + Join(b)
    decreases |a|
  {
    if |a| == 1 {
      assert (a + b)[1..] == b;
    } else {
      assert (a + b)[1..] == a[1..] + b;
      JoinAppend(a[1..], b);
    }
  }

  /** The resolved string of a descendant extends the ancestor's by a separator. */
  lemma {:induction false} AbsStringAppend(a: seq<string>, b: seq<string>)
    requires |a| > 0 && |b| > 0
    ensures AbsString(a + b) == AbsString(a) + "/" + Join(b)
  {
    JoinAppend(a, b);
    assert "/" + (Join(a) + "/" + Join(b)) == ("/" + Join(a)) + "/" + Join(b);
  }

  lemma JoinNonEmpty(p: seq<string>)
    requires Canonical(p) && |p| > 0
    ensures |Join(p)| > 0
  {
    assert IsName(p[0]);
  }

  lemma {:induction false} TerminatedIsJoinSlash(p: seq<string>)
    requires |p| > 0
    ensures Terminated(p) == Join(p) + "/"
    decreases |p|
  {
    if |p| > 1 {
      TerminatedIsJoinSlash(p[1..]);
    }
  }

  /** In `x + "/" + xs` with a separator-free `x`, the first separator is
      at index `|x|`. */
  lemma FirstSlashAt(x: string, xs: string)
    requires '/' !in x
    ensures (x + ("/" + xs))[|x|] == '/'
    ensures forall i :: 0 <= i < |x| ==> (x + ("/" + xs))[i] != '/'
  {
    forall i | 0 <= i < |x| ensures (x + ("/" + xs))[i] != '/' {
      assert (x + ("/" + xs))[i] == x[i] && x[i] in x;
    }
  }

  /** Two separator-free heads followed by a separator agree when one
      string is a prefix of the other. */
  lemma HeadSegmentsAgree(x: string, xs: string, y: string, ys: string)
    requires '/' !in x && '/' !in y
    requires x + ("/" + xs) <= y + ("/" + ys)
    ensures x == y
  {
    var s, t := x + ("/" + xs), y + ("/" + ys);
    FirstSlashAt(x, xs);
    FirstSlashAt(y, ys);
    assert s[|x|] == t[|x|];
    assert |y| <= |x|;
    assert s[|y|] == t[|y|];
    assert |x| <= |y|;
    assert x == s[..|x|] == t[..|y|] == y;
  }

  /** Prefix comparison of separator-terminated strings is segment-wise. */
  lemma {:induction false} TerminatedPrefix(b: seq<string>, p: seq<string>)
    requires NoSlash(b) && NoSlash(p)
    requires Terminated(b) <= Terminated(p)
    ensures b <= p
    decreases |b|
  {
    if b != [] {
      var tb, tp := Terminated(b), Terminated(p);
      assert tb == b[0] + ("/" + Terminated(b[1..]));
      assert p != [] by { assert |tb| > 0; }
      assert tp == p[0] + ("/" + Terminated(p[1..]));
      var n := |b[0]|;
      HeadSegmentsAgree(b[0], Terminated(b[1..]), p[0], Terminated(p[1..]));
      assert tb[n + 1..] == Terminated(b[1..]);
      assert tp[n + 1..] == Terminated(p[1..]);
      assert NoSlash(b[1..]) && NoSlash(p[1..]) by {
        forall i | 0 <= i < |b| - 1 ensures '/' !in b[1..][i] { assert b[1..][i] == b[i + 1]; }
        forall i | 0 <= i < |p| - 1 ensures '/' !in p[1..][i] { assert p[1..][i] == p[i + 1]; }
      }
      TerminatedPrefix(b[1..], p[1..]);
      assert b == [b[0]] + b[1..] && p == [p[0]] + p[1..];
    }
  }

  lemma CanonicalAppend(a: seq<string>, b: seq<string>)
    requires Canonical(a) && Canonical(b)
    ensures Canonical(a + b)
  {
    forall i | 0 <= i < |a + b| ensures IsName((a + b)[i]) {
      if i < |a| { assert (a + b)[i] == a[i]; } else { assert (a + b)[i] == b[i - |a|]; }
    }
  }

  lemma CanonicalDrop(p: seq<string>, k: nat)
    requires Canonical(p) && k <= |p|
    ensures Canonical(p[k..])
  {
    forall i | 0 <= i < |p| - k ensures IsName(p[k..][i]) { assert p[k..][i] == p[k + i]; }
  }

  // ---------------------------------------------------------------------
  // The substring `..`

  /** A separator never takes part in a `..`. */
  lemma {:induction false} HasDotDotAround(a: string, b: string)
    ensures HasDotDot(a + "/" + b) <==> HasDotDot(a) || HasDotDot(b)
    decreases |a|
  {
    var s := a + "/" + b;
    if a == [] {
      assert s == "/" + b;
      assert s[1..] == b;
    } else {
      assert s[0] == a[0];
      assert s[1..] == a[1..] + "/" + b;
      HasDotDotAround(a[1..], b);
      if |a| == 1 {
        assert s[1] == '/';
      } else {
        assert s[1] == a[1];
      }
    }
  }

  /** A trailing separator adds no `..`. */
  lemma HasDotDotTrailingSlash(a: string)
    ensures HasDotDot(a + "/") <==> HasDotDot(a)
  {
    HasDotDotAround(a, "");
    assert a + "/" + "" == a + "/";
  }

  /** The joined path contains `..` exactly when one of its segments does. */
  lemma {:induction false} JoinHasDotDot(p: seq<string>)
    ensures HasDotDot(Join(p)) <==> SomeSegmentHasDotDot(p)
    decreases |p|
  {
    if |p| == 1 {
    } else if |p| > 1 {
      JoinHasDotDot(p[1..]);
      HasDotDotAround(p[0], Join(p[1..]));
      if SomeSegmentHasDotDot(p) {
        var k :| 0 <= k < |p| && HasDotDot(p[k]);
        if k > 0 { assert p[1..][k - 1] == p[k]; }
      }
      if SomeSegmentHasDotDot(p[1..]) {
        var k :| 0 <= k < |p| - 1 && HasDotDot(p[1..][k]);
        assert p[k + 1] == p[1..][k];
      }
    }
  }

  // ---------------------------------------------------------------------
  // Normalisation

  lemma {:induction false} FoldAppend(st: seq<string>, a: seq<string>, b: seq<string>)
    ensures Fold(st, a + b) == Fold(Fold(st, a), b)
    decreases |a|
  {
    if a != [] {
      assert (a + b)[0] == a[0];
      assert (a + b)[1..] == a[1..] + b;
      FoldAppend(Step(st, a[0]), a[1..], b);
    } else {
      assert a + b == b;
    }
  }

  /** Already canonical segments are appended unchanged. */
  lemma {:induction false} FoldCanonical(st: seq<string>, segs: seq<string>)
    requires Canonical(segs)
    ensures Fold(st, segs) == st + segs
    decreases |segs|
  {
    if segs != [] {
      assert IsName(segs[0]);
      assert Canonical(segs[1..]) by {
        forall i | 0 <= i < |segs| - 1 ensures IsName(segs[1..][i]) { assert segs[1..][i] == segs[i + 1]; }
      }
      FoldCanonical(st + [segs[0]], segs[1..]);
      assert st + [segs[0]] + segs[1..] == st + segs;
    }
  }

  /** The normalised string is the normal segments joined, with at most a
      trailing separator added. */
  lemma NormalizedRelShape(rel: string)
    ensures NormalizedRel(rel) == Join(RootedSegments(rel))
         || (RootedSegments(rel) != [] && NormalizedRel(rel) == Join(RootedSegments(rel)) + "/")
  {
    var segs := RootedSegments(rel);
    var n := NormalizeRooted(rel);
    var p := "/" + rel;
    if segs != [] && p[|p| - 1] == '/' {
      assert n == "/" + (Join(segs) + "/");
    } else {
      assert n == "/" + Join(segs);
    }
  }

  /** The line-29 string contains `..` exactly when some normal segment does. */
  lemma NormalizedRelHasDotDot(rel: string)
    ensures HasDotDot(NormalizedRel(rel)) <==> SomeSegmentHasDotDot(RootedSegments(rel))
  {
    NormalizedRelShape(rel);
    JoinHasDotDot(RootedSegments(rel));
    HasDotDotTrailingSlash(Join(RootedSegments(rel)));
  }

  /** Joining the normalised string onto a normal path appends exactly the
      normal segments. */
  lemma FoldNormalizedRel(st: seq<string>, rel: string)
    ensures Fold(st, Split(NormalizedRel(rel))) == st + RootedSegments(rel)
  {
    var segs := RootedSegments(rel);
    NormalizedRelShape(rel);
    if segs == [] {
      assert Split(NormalizedRel(rel)) == [""];
      assert st + segs == st;
    } else {
      SplitJoin(segs);
      FoldCanonical(st, segs);
      if NormalizedRel(rel) != Join(segs) {
        SplitAround(Join(segs), "");
        assert Join(segs) + "/" + "" == Join(segs) + "/";
        assert Split("") == [""];
        FoldAppend(st, segs, [""]);
      }
    }
  }

  /** The last character of `"/" + rel` decides the trailing separator. */
  lemma SameNormal(r1: string, r2: string)
    requires Split("/" + r1) == Split("/" + r2) || Fold([], Split("/" + r1)) == Fold([], Split("/" + r2))
    requires ("/" + r1)[|"/" + r1| - 1] == ("/" + r2)[|"/" + r2| - 1]
    ensures NormalizedRel(r1) == NormalizedRel(r2)
  {
  }

  /** `"/" + rel` ends in a separator of `rel`'s, or in the leading one. */
  lemma LastOfRooted(a: string, mid: string, b: string)
    requires |mid| > 0 && mid[|mid| - 1] == '/'
    ensures var p := "/" + a + mid + b; p[|p| - 1] == if b == [] then '/' else b[|b| - 1]
  {
  }

  /** A `.` segment does not change the normal form. */
  lemma DotSegmentIgnored(a: string, b: string)
    ensures NormalizedRel(a + "/./" + b) == NormalizedRel(a + "/" + b)
  {
    var r1, r2 := a + "/./" + b, a + "/" + b;
    assert "/" + r1 == ("/" + a) + "/" + ("." + "/" + b);
    assert "/" + r2 == ("/" + a) + "/" + b;
    SplitAround("/" + a, "." + "/" + b);
    SplitAround(".", b);
    SplitNoSlash(".");
    SplitAround("/" + a, b);
    var A, B := Split("/" + a), Split(b);
    assert Split("/" + r1) == A + (["."] + B);
    FoldAppend([], A, ["."] + B);
    FoldAppend(Fold([], A), ["."], B);
    FoldAppend([], A, B);
    LastOfRooted(a, "/./", b);
    LastOfRooted(a, "/", b);
    SameNormal(r1, r2);
  }

  /** A repeated separator does not change the normal form. */
  lemma DoubleSlashIgnored(a: string, b: string)
    ensures NormalizedRel(a + "//" + b) == NormalizedRel(a + "/" + b)
  {
    var r1, r2 := a + "//" + b, a + "/" + b;
    assert "/" + r1 == ("/" + a) + "/" + ("" + "/" + b);
    assert "/" + r2 == ("/" + a) + "/" + b;
    SplitAround("/" + a, "" + "/" + b);
    SplitAround("", b);
    SplitAround("/" + a, b);
    var A, B := Split("/" + a), Split(b);
    assert Split("/" + r1) == A + ([""] + B);
    FoldAppend([], A, [""] + B);
    FoldAppend(Fold([], A), [""], B);
    FoldAppend([], A, B);
    LastOfRooted(a, "//", b);
    LastOfRooted(a, "/", b);
    SameNormal(r1, r2);
  }

  /** A leading `..` is absorbed by the synthetic root, not kept. */
  lemma LeadingParentCollapses(r: string)
    ensures NormalizedRel("../" + r) == NormalizedRel(r)
  {
    var r1 := "../" + r;
    assert "/" + r1 == "" + "/" + (".." + "/" + r);
    SplitAround("", ".." + "/" + r);
    SplitAround("..", r);
    SplitNoSlash("..");
    assert "/" + r == "" + "/" + r;
    SplitAround("", r);
    assert Split("") == [""];
    var B := Split(r);
    assert Split("/" + r1) == [""] + ([".."] + B);
    assert Split("/" + r) == [""] + B;
    FoldAppend([], [""], [".."] + B);
    FoldAppend([], [".."], B);
    FoldAppend([], [""], B);
    if r == [] {
      assert ("/" + r1)[|"/" + r1| - 1] == '/';
      assert ("/" + r)[|"/" + r| - 1] == '/';
    } else {
      assert ("/" + r1)[|"/" + r1| - 1] == r[|r| - 1];
      assert ("/" + r)[|"/" + r| - 1] == r[|r| - 1];
    }
    SameNormal(r1, r);
  }

  /** A leading `./` does not change the normal form: it is a `.`
      segment after the separator the normaliser puts in front. */
  lemma LeadingDotIgnored(r: string)
    ensures NormalizedRel("./" + r) == NormalizedRel(r)
  {
    assert "/" + ("./" + r) == "" + "/./" + r;
    assert "/" + r == "" + "/" + r;
    LeadingSlashIgnored("./" + r);
    DotSegmentIgnored("", r);
    LeadingSlashIgnored(r);
  }

  /** A leading separator does not change the normal form. */
  lemma LeadingSlashIgnored(r: string)
    ensures NormalizedRel("/" + r) == NormalizedRel(r)
  {
    var r1 := "/" + r;
    assert "/" + r1 == "" + "/" + r1;
    assert r1 == "" + "/" + r;
    SplitAround("", r1);
    SplitAround("", r);
    assert Split("") == [""];
    var B := Split(r);
    assert Split(r1) == [""] + B;
    assert Split("/" + r1) == [""] + ([""] + B);
    FoldAppend([], [""], [""] + B);
    FoldAppend([], [""], B);
    if r == [] {
      assert ("/" + r1)[|"/" + r1| - 1] == '/';
      assert ("/" + r)[|"/" + r| - 1] == '/';
    } else {
      assert ("/" + r1)[|"/" + r1| - 1] == r[|r| - 1];
      assert ("/" + r)[|"/" + r| - 1] == r[|r| - 1];
    }
    SameNormal(r1, r);
  }

  /** A trailing `/.` does not change the normal segments. */
  lemma TrailingDotIgnored(r: string)
    ensures RootedSegments(r + "/.") == RootedSegments(r)
  {
    assert "/" + (r + "/.") == ("/" + r) + "/" + ".";
    SplitAround("/" + r, ".");
    SplitNoSlash(".");
    FoldAppend([], Split("/" + r), ["."]);
  }

  // ---------------------------------------------------------------------
  // Joining a request field onto a directory

  /** A plain name becomes one more segment. */
  lemma JoinName(dir: seq<string>, x: string)
    requires IsName(x)
    ensures JoinPath(dir, x) == dir + [x]
  {
    SplitNoSlash(x);
    assert Fold(dir, [x]) == Fold(dir + [x], []);
  }

  /** `.` names the directory itself. */
  lemma JoinDot(dir: seq<string>)
    ensures JoinPath(dir, ".") == dir
  {
    SplitNoSlash(".");
    assert Fold(dir, ["."]) == Fold(dir, []);
  }

  /** `../x` names the sibling `x` of the directory. */
  lemma JoinUpName(dir: seq<string>, x: string)
    requires |dir| > 0 && IsName(x)
    ensures JoinPath(dir, "../" + x) == dir[..|dir| - 1] + [x]
  {
    assert "../" + x == ".." + "/" + x;
    SplitAround("..", x);
    SplitNoSlash("..");
    SplitNoSlash(x);
    FoldAppend(dir, [".."], [x]);
    assert Fold(dir, [".."]) == dir[..|dir| - 1];
    assert Fold(dir[..|dir| - 1], [x]) == Fold(dir[..|dir| - 1] + [x], []);
  }

  /** The resolved string of a path contains `..` exactly when one of its
      segments does. */
  lemma AbsStringHasDotDot(p: seq<string>)
    ensures HasDotDot(AbsString(p)) <==> SomeSegmentHasDotDot(p)
  {
    assert AbsString(p) == "" + "/" + Join(p);
    HasDotDotAround("", Join(p));
    JoinHasDotDot(p);
  }

  // ---------------------------------------------------------------------
  // Trailing separators

  /** A name never ends in a separator, whatever precedes it. */
  lemma NameEndsPlain(pre: string, x: string)
    requires IsName(x)
    ensures !EndsInSlash(pre + x)
  {
    assert (pre + x)[|pre + x| - 1] == x[|x| - 1];
    assert x[|x| - 1] in x;
  }

  /** Names joined by separators never end in one. */
  lemma {:induction false} JoinEndsInName(p: seq<string>)
    requires Canonical(p) && p != []
    ensures Join(p) != "" && !EndsInSlash(Join(p))
    decreases |p|
  {
    assert IsName(p[0]);
    if |p| == 1 {
      NameEndsPlain("", p[0]);
      assert "" + p[0] == p[0];
    } else {
      var rest := p[1..];
      assert forall i :: 0 <= i < |rest| ==> rest[i] == p[i + 1];
      JoinEndsInName(rest);
      var j := Join(rest);
      assert Join(p) == p[0] + "/" + j;
      assert Join(p)[|Join(p)| - 1] == j[|j| - 1];
    }
  }
}
