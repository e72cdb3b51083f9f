/*
 * The parts of Rust's `std::path` (Unix flavour) that the staging library
 * relies on: splitting a path into components, `Path::starts_with`,
 * `Path::file_name` and `Path::join` / `PathBuf::push`.
 *
 * Paths are strings; Rust's `OsStr` is not modelled separately.
 */
module Paths {

  datatype Option<T> = None | Some(value: T)

  /** One component of a path, as `Path::components` yields it on Unix. */
  datatype Component = RootDir | CurDir | ParentDir | Normal(name: string)

  /** A name that can appear as a `Normal` component. */
  predicate ValidName(n: string) {
    n != "" && n != "." && n != ".." && '/' !in n
  }

  /** The index of the first `/` in `s`, or `|s|` if there is none. */
  function SlashIndex(s: string): (i: nat)
    ensures i <= |s|
    ensures i < |s| ==> s[i] == '/'
    ensures forall j :: 0 <= j < i ==> s[j] != '/'
  {
    if s == [] then 0
    else if s[0] == '/' then 0
    else 1 + SlashIndex(s[1..])
  }

  /** The pieces of `s` between separators, empty pieces included (like `s.split('/')`). */
  function Segments(s: string): (segs: seq<string>)
    ensures |segs| >= 1
    ensures forall k :: 0 <= k < |segs| ==> '/' !in segs[k]
    decreases |s|
  {
    var i := SlashIndex(s);
    if i == |s| then [s] else [s[..i]] + Segments(s[i + 1..])
  }

  /** The inverse of `Segments`: the pieces glued back with separators. */
  function Unsplit(segs: seq<string>): string
    requires |segs| >= 1
  {
    if |segs| == 1 then segs[0] else segs[0] + "/" + Unsplit(segs[1..])
  }

  /** The components one segment contributes after the first: empty pieces and `.` vanish. */
  function SegmentComponents(seg: string): seq<Component> {
    if seg == "" || seg == "." then []
    else if seg == ".." then [ParentDir]
    else [Normal(seg)]
  }

  /** The components of a run of segments. */
  function BodyComponents(segs: seq<string>): (cs: seq<Component>)
    requires forall k :: 0 <= k < |segs| ==> '/' !in segs[k]
    ensures forall i :: 0 <= i < |cs| ==> cs[i] == ParentDir || (cs[i].Normal? && ValidName(cs[i].name))
  {
    if segs == [] then [] else SegmentComponents(segs[0]) + BodyComponents(segs[1..])
  }

  /** Whether a relative path begins with a `.` component, which Rust keeps only there. */
  predicate LeadingCurDir(p: string) {
    p == "." || (|p| >= 2 && p[0] == '.' && p[1] == '/')
  }

  /**
   * `Path::components`: a root for an absolute path, a `.` kept only at the
   * start of a relative path, then every non-empty segment other than `.`.
   */
  function Components(p: string): (cs: seq<Component>)
    ensures (|cs| > 0 && cs[0] == RootDir) <==> (|p| > 0 && p[0] == '/')
    ensures (|cs| > 0 && cs[0] == CurDir) <==> LeadingCurDir(p)
    ensures forall i :: 0 <= i < |cs| && cs[i].Normal? ==> ValidName(cs[i].name)
    ensures forall i :: 0 < i < |cs| ==> cs[i] != RootDir && cs[i] != CurDir
  {
    if |p| > 0 && p[0] == '/' then [RootDir] + BodyComponents(Segments(p[1..]))
    else if LeadingCurDir(p) then [CurDir] + BodyComponents(Segments(p[1..]))
    else BodyComponents(Segments(p))
  }

  /** `path.starts_with(base)`: the components of `base` are a prefix of those of `path`. */
  predicate StartsWith(path: string, base: string) {
    var cp := Components(path);
    var cb := Components(base);
    |cb| <= |cp| && cp[..|cb|] == cb
  }

  /** `Path::file_name`: the last component when it is a normal name. */
  function FileName(p: string): (r: Option<string>)
    ensures r.Some? ==> ValidName(r.value)
  {
    var cs := Components(p);
    if cs != [] && cs[|cs| - 1].Normal? then Some(cs[|cs| - 1].name) else None
  }

  /**
   * `base.join(rel)` (`PathBuf::push` on Unix): an absolute `rel` replaces
   * `base`; otherwise a separator is added unless `base` is empty or already
   * ends with one.
   */
  function Join(base: string, rel: string): string {
    if |rel| > 0 && rel[0] == '/' then rel
    else if base != [] && base[|base| - 1] != '/' then base + "/" + rel
    else base + rel
  }

  // ---------------------------------------------------------------------------
  // Splitting

  /** Splitting and gluing back gives the original text. */
  lemma {:induction false} UnsplitSegments(s: string)
    ensures Unsplit(Segments(s)) == s
    decreases |s|
  {
    var i := SlashIndex(s);
    if i < |s| {
      var rest := s[i + 1..];
      UnsplitSegments(rest);
      UnsplitCons(s[..i], Segments(rest));
      assert s == s[..i] + "/" + rest;
    } else {
      assert Segments(s) == [s];
    }
  }

  /** Gluing a first piece onto the rest. */
  lemma UnsplitCons(h: string, tail: seq<string>)
    requires |tail| >= 1
    ensures Unsplit([h] + tail) == h + "/" + Unsplit(tail)
  {
    assert ([h] + tail)[1..] == tail;
  }

  /** Gluing separator-free pieces and splitting again gives the pieces back. */
  lemma {:induction false} SegmentsUnsplit(segs: seq<string>)
    requires |segs| >= 1 && forall k :: 0 <= k < |segs| ==> '/' !in segs[k]
    ensures Segments(Unsplit(segs)) == segs
    decreases |segs|
  {
    if |segs| == 1 {
      NoSlashOneSegment(segs[0]);
    } else {
      var tail := segs[1..];
      assert forall k :: 0 <= k < |tail| ==> '/' !in tail[k] by {
        forall k | 0 <= k < |tail| ensures '/' !in tail[k] {
          assert tail[k] == segs[k + 1];
        }
      }
      SegmentsUnsplit(tail);
      assert segs == [segs[0]] + tail;
      SplitFirstPiece(segs[0], tail);
    }
  }

  /** The inductive step: a separator-free first piece comes back as the first segment. */
  lemma SplitFirstPiece(h: string, tail: seq<string>)
    requires '/' !in h && |tail| >= 1 && Segments(Unsplit(tail)) == tail
    ensures Segments(Unsplit([h] + tail)) == [h] + tail
  {
    UnsplitCons(h, tail);
    SegmentsAppend(h, Unsplit(tail));
    NoSlashOneSegment(h);
  }

  /** Text without a separator is one segment. */
  lemma NoSlashOneSegment(s: string)
    requires '/' !in s
    ensures SlashIndex(s) == |s| && Segments(s) == [s]
  {
  }

  /** A separator splits the segments of the two sides apart. */
  lemma {:induction false} SegmentsAppend(a: string, b: string)
    ensures Segments(a + "/" + b) == Segments(a) + Segments(b)
    decreases |a|
  {
    var i := SlashIndex(a);
    if i == |a| {
      assert '/' !in a;
      FirstSegment(a, b);
      NoSlashOneSegment(a);
    } else {
      var h, r := a[..i], a[i + 1..];
      assert a == h + "/" + r;
      assert '/' !in h;
      FirstSegment(h, r);
      Regroup(h, r, b);
      FirstSegment(h, r + "/" + b);
      SegmentsAppend(r, b);
      Assoc([h], Segments(r), Segments(b));
    }
  }

  /** Separator-free text before a separator is the first segment. */
  lemma FirstSegment(h: string, rest: string)
    requires '/' !in h
    ensures Segments(h + "/" + rest) == [h] + Segments(rest)
  {
    var t := h + "/" + rest;
    assert t[..|h|] == h && t[|h|] == '/';
    SlashIndexAt(t, |h|);
    assert t[|h| + 1..] == rest;
  }

  lemma Regroup(h: string, r: string, b: string)
    ensures h + "/" + r + "/" + b == h + "/" + (r + "/" + b)
  {
  }

  lemma Assoc<T>(x: seq<T>, y: seq<T>, z: seq<T>)
    ensures x + (y + z) == x + y + z
  {
  }

  /** The first separator is where the text says it is. */
  lemma SlashIndexAt(s: string, i: nat)
    requires i < |s| && s[i] == '/' && forall j :: 0 <= j < i ==> s[j] != '/'
    ensures SlashIndex(s) == i
  {
  }

  /** The body components of a concatenation of segment runs. */
  lemma {:induction false} BodyAppend(xs: seq<string>, ys: seq<string>)
    requires forall k :: 0 <= k < |xs| ==> '/' !in xs[k]
    requires forall k :: 0 <= k < |ys| ==> '/' !in ys[k]
    ensures BodyComponents(xs + ys) == BodyComponents(xs) + BodyComponents(ys)
    decreases |xs|
  {
    if xs != [] {
      assert (xs + ys)[1..] == xs[1..] + ys;
      BodyAppend(xs[1..], ys);
    } else {
      assert xs + ys == ys;
    }
  }

  // ---------------------------------------------------------------------------
  // Components

  /** Appending `/` and more text to a non-empty path appends that text's components. */
  lemma ComponentsExtend(a: string, s: string)
    requires a != []
    ensures Components(a + "/" + s) == Components(a) + BodyComponents(Segments(s))
  {
    if a[0] == '/' || LeadingCurDir(a) {
      ExtendMarked(a, s);
    } else {
      ExtendUnmarked(a, s);
    }
  }

  /** The case of a path that starts with a root or a leading `.`, which the extension keeps. */
  lemma ExtendMarked(a: string, s: string)
    requires a != [] && (a[0] == '/' || LeadingCurDir(a))
    ensures Components(a + "/" + s) == Components(a) + BodyComponents(Segments(s))
  {
    var t := a + "/" + s;
    assert t[0] == a[0];
    assert t[1..] == a[1..] + "/" + s;
    if a[0] != '/' {
      assert LeadingCurDir(t);
    }
    ExtendBody(a[1..], s);
  }

  /** The case of a plain relative path, which stays one. */
  lemma ExtendUnmarked(a: string, s: string)
    requires a != [] && a[0] != '/' && !LeadingCurDir(a)
    ensures Components(a + "/" + s) == Components(a) + BodyComponents(Segments(s))
  {
    var t := a + "/" + s;
    assert t[0] == a[0];
    if |a| >= 2 {
      assert t[1] == a[1];
    }
    assert !LeadingCurDir(t);
    ExtendBody(a, s);
  }

  /** The body components of `a + "/" + s`. */
  lemma ExtendBody(a: string, s: string)
    ensures BodyComponents(Segments(a + "/" + s)) == BodyComponents(Segments(a)) + BodyComponents(Segments(s))
  {
    SegmentsAppend(a, s);
    BodyAppend(Segments(a), Segments(s));
  }

  /** A valid name on its own is one normal component. */
  lemma NameComponents(n: string)
    requires ValidName(n)
    ensures BodyComponents(Segments(n)) == [Normal(n)]
    ensures Components(n) == [Normal(n)]
  {
    NoSlashOneSegment(n);
    if |n| >= 2 {
      assert n[1] != '/';
    }
  }

  /** Joining a valid name onto a path adds exactly one normal component. */
  lemma JoinName(base: string, n: string)
    requires ValidName(n)
    ensures Components(Join(base, n)) == Components(base) + [Normal(n)]
  {
    NameComponents(n);
    NoSlashOneSegment("");
    if base == [] {
      assert Join(base, n) == n;
    } else if base[|base| - 1] != '/' {
      ComponentsExtend(base, n);
    } else {
      var a := base[..|base| - 1];
      assert base == a + "/";
      assert Join(base, n) == a + "/" + n;
      if a == [] {
        assert Join(base, n)[1..] == n;
        assert base == "/" && base[1..] == "";
      } else {
        ComponentsExtend(a, n);
        ComponentsExtend(a, "");
        assert a + "/" + "" == base;
      }
    }
  }

  /** The result of a join names the joined file. */
  lemma FileNameOfJoin(base: string, n: string)
    requires ValidName(n)
    ensures FileName(Join(base, n)) == Some(n)
  {
    JoinName(base, n);
  }

  /** A trailing separator does not change the components, and so not the file name. */
  lemma TrailingSlash(p: string)
    requires p != []
    ensures Components(p + "/") == Components(p)
    ensures FileName(p + "/") == FileName(p)
  {
    ComponentsExtend(p, "");
    assert p + "/" + "" == p + "/";
  }

  /** A path ending in `..` has no file name: `..` itself, `/..`, and `p/..` for any `p`. */
  lemma NoFileNameAfterParent(p: string, parent: string)
    requires parent == ".."
    ensures FileName(parent) == None
    ensures FileName("/" + parent) == None
    ensures FileName(p + "/" + parent) == None
  {
    NoSlashOneSegment(parent);
    assert BodyComponents(Segments(parent)) == [ParentDir];
    assert ("/" + parent)[1..] == parent;
    if p == [] {
      assert p + "/" + parent == "/" + parent;
    } else {
      ComponentsExtend(p, parent);
    }
  }

  /** The root and the empty path have no file name. */
  lemma NoFileNameAtRoot()
    ensures FileName("/") == None && FileName("") == None
  {
    assert ("/")[1..] == "";
    NoSlashOneSegment("");
  }

  // ---------------------------------------------------------------------------
  // The teardown guard `path.starts_with("/tmp")`

  const Tmp: string := "/tmp"

  lemma TmpComponents()
    ensures Components(Tmp) == [RootDir, Normal("tmp")]
  {
    assert Tmp[1..] == "tmp";
    NameComponents("tmp");
  }

  /**
   * Anything below `/tmp/` passes the guard.  The check is lexical: `..`
   * components are not resolved, so `/tmp/../etc` passes too.
   */
  lemma GuardAcceptsUnderTmp(rest: string)
    ensures StartsWith("/tmp/" + rest, Tmp)
    ensures Components("/tmp/" + rest) == [RootDir, Normal("tmp")] + BodyComponents(Segments(rest))
  {
    TmpComponents();
    ComponentsExtend(Tmp, rest);
    assert Tmp + "/" + rest == "/tmp/" + rest;
  }

  /** A relative path never passes the guard. */
  lemma GuardRejectsRelative(p: string)
    requires p == [] || p[0] != '/'
    ensures !StartsWith(p, Tmp)
  {
    TmpComponents();
  }

  /**
   * An absolute path whose first name is not `tmp` fails the guard; this
   * covers `/tmpx/...` (a character comparison would accept it) and `/home/...`.
   */
  lemma GuardRejectsOtherTop(top: string, rest: string)
    requires ValidName(top) && top != "tmp" && (rest == [] || rest[0] == '/')
    ensures !StartsWith("/" + top + rest, Tmp)
  {
    TmpComponents();
    var p := "/" + top + rest;
    var head := "/" + top;
    assert head[1..] == top;
    NameComponents(top);
    assert Components(head) == [RootDir, Normal(top)];
    if rest == [] {
      assert p == head;
    } else {
      assert p == head + "/" + rest[1..];
      ComponentsExtend(head, rest[1..]);
    }
    assert Components(p)[1] == Normal(top);
  }
}
