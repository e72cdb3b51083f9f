/**
 * Substring search and replacement over strings.
 *
 * `ReplaceAll` is Rust's `str::replace` for a non-empty pattern: the text is
 * scanned left to right, and each leftmost occurrence of the pattern that does
 * not overlap an earlier one is replaced. `InsertAfterEach` is the reference
 * scan against which a chain of such replacements is proved: one pass that
 * copies the text and inserts a fixed string right after every occurrence of
 * any pattern of a list.
 */
module Text {

  /** `p` occurs in `s` starting at index `i`. */
  predicate MatchAt(s: string, p: string, i: nat) {
    i + |p| <= |s| && s[i..i + |p|] == p
  }

  /** `p` occurs somewhere in `s`. */
  predicate Occurs(s: string, p: string) {
    exists i: nat :: i <= |s| && MatchAt(s, p, i)
  }

  predicate IsPrefix(a: string, b: string) {
    |a| <= |b| && b[..|a|] == a
  }

  /** Neither string is a prefix of the other: they differ within their common length. */
  predicate Disagree(a: string, b: string) {
    !IsPrefix(a, b) && !IsPrefix(b, a)
  }

  /** No occurrence of `p` can begin strictly inside an occurrence of `q`, whatever follows `q`. */
  predicate NoStartWithin(q: string, p: string) {
    forall j :: 0 < j < |q| ==> Disagree(q[j..], p)
  }

  /** No occurrence of `q` can begin anywhere inside an occurrence of `p` (at its first index included). */
  predicate Separated(p: string, q: string) {
    Disagree(p, q) && NoStartWithin(p, q)
  }

  /** Every pattern of the list is non-empty. */
  predicate NonEmpty(ps: seq<string>) {
    forall k :: 0 <= k < |ps| ==> ps[k] != []
  }

  /** No pattern of the list can begin inside an occurrence of any of them, nor at the start of a different one. */
  predicate Delimited(ps: seq<string>) {
    forall k, m :: 0 <= k < |ps| && 0 <= m < |ps| ==>
      NoStartWithin(ps[k], ps[m]) && (k != m ==> Disagree(ps[k], ps[m]))
  }

  /** `ins` is non-empty and neither contains a pattern nor ends with a character of one. */
  predicate Inert(ins: string, ps: seq<string>) {
    ins != [] && forall k :: 0 <= k < |ps| ==> !Occurs(ins, ps[k]) && ins[|ins| - 1] !in ps[k]
  }

  /** Rust's `s.replace(p, r)` for a non-empty pattern `p`. */
  function ReplaceAll(s: string, p: string, r: string): string
    requires p != []
    decreases |s|
  {
    if s == [] then []
    else if MatchAt(s, p, 0) then r + ReplaceAll(s[|p|..], p, r)
    else [s[0]] + ReplaceAll(s[1..], p, r)
  }

  /** The number of occurrences that `ReplaceAll` replaces. */
  function MatchCount(s: string, p: string): nat
    requires p != []
    decreases |s|
  {
    if s == [] then 0
    else if MatchAt(s, p, 0) then 1 + MatchCount(s[|p|..], p)
    else MatchCount(s[1..], p)
  }

  /** The index of the first pattern of `ps` that occurs at the start of `s`, or `|ps|` if none does. */
  function FirstMatch(s: string, ps: seq<string>): (k: nat)
    ensures k <= |ps|
    ensures k < |ps| ==> MatchAt(s, ps[k], 0)
    ensures forall j :: 0 <= j < k ==> !MatchAt(s, ps[j], 0)
    decreases |ps|
  {
    if ps == [] then 0
    else if MatchAt(s, ps[0], 0) then 0
    else 1 + FirstMatch(s, ps[1..])
  }

  /** One left-to-right scan that copies `s` and puts `ins` right after every pattern occurrence it meets. */
  function InsertAfterEach(s: string, ps: seq<string>, ins: string): string
    requires NonEmpty(ps)
    decreases |s|
  {
    if s == [] then []
    else
      var k := FirstMatch(s, ps);
      if k < |ps| then ps[k] + ins + InsertAfterEach(s[|ps[k]|..], ps, ins)
      else [s[0]] + InsertAfterEach(s[1..], ps, ins)
  }

  /** The number of occurrences at which `InsertAfterEach` inserts. */
  function CountEach(s: string, ps: seq<string>): nat
    requires NonEmpty(ps)
    decreases |s|
  {
    if s == [] then 0
    else
      var k := FirstMatch(s, ps);
      if k < |ps| then 1 + CountEach(s[|ps[k]|..], ps)
      else CountEach(s[1..], ps)
  }

  /** The number of positions of `s` at which some pattern of `ps` begins, overlapping occurrences included. */
  function Starts(s: string, ps: seq<string>): nat
    decreases |s|
  {
    if s == [] then 0
    else (if FirstMatch(s, ps) < |ps| then 1 else 0) + Starts(s[1..], ps)
  }

  // ---------------------------------------------------------------------------
  // Facts about single matches

  lemma MatchInSuffix(s: string, p: string, d: nat, i: nat)
    requires d <= |s|
    ensures MatchAt(s, p, d + i) <==> MatchAt(s[d..], p, i)
  {
    if d + i + |p| <= |s| {
      assert s[d..][i..i + |p|] == s[d + i..d + i + |p|];
    }
  }

  lemma DisagreeAt(a: string, b: string, i: nat)
    requires i < |a| && i < |b| && a[i] != b[i]
    ensures Disagree(a, b)
  {
  }

  lemma PrefixOfConcat(q: string, a: string, x: string)
    requires IsPrefix(q, a + x)
    ensures IsPrefix(q, a) || IsPrefix(a, q)
  {
    if |q| <= |a| {
      assert (a + x)[..|q|] == a[..|q|];
    } else {
      assert (a + x)[..|q|][..|a|] == a;
    }
  }

  /** An occurrence of `q` that starts inside `a` shows that `a`'s tail and `q` agree. */
  lemma MatchStraddles(a: string, x: string, q: string, j: nat)
    requires j < |a|
    ensures MatchAt(a + x, q, j) ==> !Disagree(a[j..], q)
  {
    if MatchAt(a + x, q, j) {
      assert (a + x)[j..] == a[j..] + x;
      assert (a[j..] + x)[..|q|] == (a + x)[j..j + |q|];
      PrefixOfConcat(q, a[j..], x);
    }
  }

  /** An occurrence of `q` starting inside `a` lies within `a` or covers `a`'s last character. */
  lemma MatchNearEnd(a: string, y: string, q: string, j: nat)
    requires j < |a|
    ensures MatchAt(a + y, q, j) ==> MatchAt(a, q, j) || a[|a| - 1] in q
  {
    if MatchAt(a + y, q, j) {
      if j + |q| <= |a| {
        assert (a + y)[j..j + |q|] == a[j..j + |q|];
      } else {
        assert q[|a| - 1 - j] == (a + y)[|a| - 1];
      }
    }
  }

  /** Appending a character that `q` does not contain cannot create an occurrence of `q`. */
  lemma AppendKeepsAbsent(s: string, c: char, q: string)
    requires q != [] && !Occurs(s, q) && c !in q
    ensures !Occurs(s + [c], q)
  {
    forall i: nat ensures !MatchAt(s + [c], q, i) {
      if i + |q| <= |s| {
        assert (s + [c])[i..i + |q|] == s[i..i + |q|];
        assert !MatchAt(s, q, i);
      } else if i + |q| == |s| + 1 {
        assert (s + [c])[i..i + |q|][|q| - 1] == c;
      }
    }
  }

  // ---------------------------------------------------------------------------
  // ReplaceAll

  lemma {:induction false} ReplaceAllWithoutMatch(s: string, p: string, r: string)
    requires p != [] && !Occurs(s, p)
    ensures ReplaceAll(s, p, r) == s
    decreases |s|
  {
    if s != [] {
      assert !MatchAt(s, p, 0);
      forall i: nat ensures !MatchAt(s[1..], p, i) {
        MatchInSuffix(s, p, 1, i);
      }
      ReplaceAllWithoutMatch(s[1..], p, r);
    }
  }

  lemma {:induction false} OccurrenceCounted(s: string, p: string, i: nat)
    requires p != [] && MatchAt(s, p, i)
    ensures MatchCount(s, p) > 0
    decreases i
  {
    if !MatchAt(s, p, 0) {
      MatchInSuffix(s, p, 1, i - 1);
      OccurrenceCounted(s[1..], p, i - 1);
    }
  }

  lemma {:induction false} AbsenceUncounted(s: string, p: string)
    requires p != [] && !Occurs(s, p)
    ensures MatchCount(s, p) == 0
    decreases |s|
  {
    if s != [] {
      assert !MatchAt(s, p, 0);
      forall i: nat ensures !MatchAt(s[1..], p, i) {
        MatchInSuffix(s, p, 1, i);
      }
      AbsenceUncounted(s[1..], p);
    }
  }

  /** `ReplaceAll` replaces something exactly when the pattern occurs. */
  lemma MatchCountZero(s: string, p: string)
    requires p != []
    ensures MatchCount(s, p) == 0 <==> !Occurs(s, p)
  {
    if Occurs(s, p) {
      var i: nat :| MatchAt(s, p, i);
      OccurrenceCounted(s, p, i);
    } else {
      AbsenceUncounted(s, p);
    }
  }

  lemma {:induction false} ReplaceAllLength(s: string, p: string, r: string)
    requires p != []
    ensures |ReplaceAll(s, p, r)| == |s| + MatchCount(s, p) * (|r| - |p|)
    decreases |s|
  {
    if s != [] {
      if MatchAt(s, p, 0) {
        ReplaceAllLength(s[|p|..], p, r);
        assert (1 + MatchCount(s[|p|..], p)) * (|r| - |p|)
            == (|r| - |p|) + MatchCount(s[|p|..], p) * (|r| - |p|);
      } else {
        ReplaceAllLength(s[1..], p, r);
      }
    }
  }

  /** A prefix in which no occurrence of `p` begins is copied unchanged. */
  lemma {:induction false} ReplaceAllKeepsPrefix(a: string, y: string, p: string, r: string)
    requires p != []
    requires forall j :: 0 <= j < |a| ==> !MatchAt(a + y, p, j)
    ensures ReplaceAll(a + y, p, r) == a + ReplaceAll(y, p, r)
    decreases |a|
  {
    if a != [] {
      assert !MatchAt(a + y, p, 0);
      assert (a + y)[1..] == a[1..] + y;
      forall j | 0 <= j < |a| - 1 ensures !MatchAt(a[1..] + y, p, j) {
        MatchInSuffix(a + y, p, 1, j);
      }
      ReplaceAllKeepsPrefix(a[1..], y, p, r);
      calc {
        ReplaceAll(a + y, p, r);
        [(a + y)[0]] + ReplaceAll((a + y)[1..], p, r);
        [a[0]] + (a[1..] + ReplaceAll(y, p, r));
        { assert a == [a[0]] + a[1..]; }
        a + ReplaceAll(y, p, r);
      }
    } else {
      assert a + y == y;
    }
  }

  // ---------------------------------------------------------------------------
  // The reference scan

  lemma {:induction false} InsertAfterNothing(s: string, ins: string)
    ensures InsertAfterEach(s, [], ins) == s
    decreases |s|
  {
    if s != [] {
      InsertAfterNothing(s[1..], ins);
    }
  }

  lemma {:induction false} InsertAfterLength(s: string, ps: seq<string>, ins: string)
    requires NonEmpty(ps)
    ensures |InsertAfterEach(s, ps, ins)| == |s| + CountEach(s, ps) * |ins|
    decreases |s|
  {
    if s != [] {
      var k := FirstMatch(s, ps);
      if k < |ps| {
        InsertAfterLength(s[|ps[k]|..], ps, ins);
        assert (1 + CountEach(s[|ps[k]|..], ps)) * |ins| == |ins| + CountEach(s[|ps[k]|..], ps) * |ins|;
      } else {
        InsertAfterLength(s[1..], ps, ins);
      }
    }
  }

  /** If some pattern occurs in `s`, the scan inserts at least once. */
  lemma {:induction false} InsertionHappens(s: string, ps: seq<string>, k: nat, i: nat)
    requires NonEmpty(ps) && k < |ps| && MatchAt(s, ps[k], i)
    ensures CountEach(s, ps) > 0
    decreases i
  {
    if FirstMatch(s, ps) == |ps| {
      MatchInSuffix(s, ps[k], 1, i - 1);
      InsertionHappens(s[1..], ps, k, i - 1);
    }
  }

  /** A prefix in which no pattern begins is copied unchanged. */
  lemma {:induction false} InsertAfterKeepsPrefix(a: string, x: string, ps: seq<string>, ins: string)
    requires NonEmpty(ps)
    requires forall j, k :: 0 <= j < |a| && 0 <= k < |ps| ==> !MatchAt(a + x, ps[k], j)
    ensures InsertAfterEach(a + x, ps, ins) == a + InsertAfterEach(x, ps, ins)
    decreases |a|
  {
    if a != [] {
      NoMatchInTail(a, x, ps);
      InsertAfterKeepsPrefix(a[1..], x, ps, ins);
      CopiedFirst(a, x, ps, ins);
    } else {
      assert a + x == x;
    }
  }

  /** The precondition of `InsertAfterKeepsPrefix` carries over to the tail of the prefix. */
  lemma NoMatchInTail(a: string, x: string, ps: seq<string>)
    requires a != []
    requires forall j, k :: 0 <= j < |a| && 0 <= k < |ps| ==> !MatchAt(a + x, ps[k], j)
    ensures forall j, k :: 0 <= j < |a| - 1 && 0 <= k < |ps| ==> !MatchAt(a[1..] + x, ps[k], j)
  {
    assert (a + x)[1..] == a[1..] + x;
    forall j, k | 0 <= j < |a| - 1 && 0 <= k < |ps| ensures !MatchAt(a[1..] + x, ps[k], j) {
      MatchInSuffix(a + x, ps[k], 1, j);
    }
  }

  /** The inductive step of `InsertAfterKeepsPrefix`: the first character of the prefix is copied. */
  lemma CopiedFirst(a: string, x: string, ps: seq<string>, ins: string)
    requires NonEmpty(ps) && a != []
    requires forall k :: 0 <= k < |ps| ==> !MatchAt(a + x, ps[k], 0)
    requires InsertAfterEach(a[1..] + x, ps, ins) == a[1..] + InsertAfterEach(x, ps, ins)
    ensures InsertAfterEach(a + x, ps, ins) == a + InsertAfterEach(x, ps, ins)
  {
    ConsSplit(a, x);
    CopyHead(a[0], a[1..] + x, ps, ins);
    ConsSplit(a, InsertAfterEach(x, ps, ins));
  }

  /** A non-empty text followed by more is its first character followed by the rest. */
  lemma ConsSplit(a: string, y: string)
    requires a != []
    ensures a + y == [a[0]] + (a[1..] + y)
  {
    assert a == [a[0]] + a[1..];
  }

  /** Where no pattern begins, the scan copies one character. */
  lemma CopyHead(c: char, r: string, ps: seq<string>, ins: string)
    requires NonEmpty(ps)
    requires forall k :: 0 <= k < |ps| ==> !MatchAt([c] + r, ps[k], 0)
    ensures InsertAfterEach([c] + r, ps, ins) == [c] + InsertAfterEach(r, ps, ins)
  {
    var s := [c] + r;
    assert FirstMatch(s, ps) == |ps|;
    assert s[0] == c && s[1..] == r;
  }

  /** Prefixes that agree still agree after the same character is put in front. */
  lemma ConsAgrees(c: char, u: string, x: string, n: nat)
    requires n <= |u| && n <= |x| && u[..n] == x[..n]
    ensures ([c] + u)[..n + 1] == ([c] + x)[..n + 1]
  {
    assert ([c] + u)[..n + 1] == [c] + u[..n];
    assert ([c] + x)[..n + 1] == [c] + x[..n];
  }

  /** An occurrence and an agreeing prefix move one place right when a character is put in front. */
  lemma ShiftedAgreement(s: string, t: string, c: char, x: string, u: string, p: string, j: nat)
    requires s == [c] + x && t == [c] + u
    requires MatchAt(x, p, j) && j + |p| <= |u| && u[..j + |p|] == x[..j + |p|]
    ensures MatchAt(s, p, j + 1) && j + 1 + |p| <= |t| && t[..j + 1 + |p|] == s[..j + 1 + |p|]
  {
    MatchInSuffix(s, p, 1, j);
    assert s[1..] == x;
    ConsAgrees(c, u, x, j + |p|);
  }

  /** `t` agrees with `s` up to the end of an occurrence of pattern `k` at index `j` of `s`. */
  predicate AgreesThrough(s: string, t: string, ps: seq<string>, j: nat, k: nat) {
    k < |ps| && MatchAt(s, ps[k], j) && j + |ps[k]| <= |t| && t[..j + |ps[k]|] == s[..j + |ps[k]|]
  }

  /**
   * Either the scan changes nothing, or it agrees with its input up to the end
   * of the first occurrence it meets: pattern `k` at index `j`.
   */
  lemma {:induction false} FirstInsertion(s: string, ps: seq<string>, ins: string) returns (j: nat, k: nat)
    requires NonEmpty(ps)
    ensures InsertAfterEach(s, ps, ins) == s || AgreesThrough(s, InsertAfterEach(s, ps, ins), ps, j, k)
    decreases |s|
  {
    j, k := 0, 0;
    if s != [] {
      k := FirstMatch(s, ps);
      if k < |ps| {
        AtFirstMatch(s, ps, ins, k);
      } else {
        Uncons(s);
        var j', k' := FirstInsertion(s[1..], ps, ins);
        CopiedAgreement(s[0], s[1..], ps, ins, j', k');
        j, k := j' + 1, k';
      }
    }
  }

  /** A non-empty text is its first character followed by the rest. */
  lemma Uncons(s: string)
    requires s != []
    ensures s == [s[0]] + s[1..]
  {
  }

  /** The scan starting with an occurrence copies that occurrence first. */
  lemma AtFirstMatch(s: string, ps: seq<string>, ins: string, k: nat)
    requires NonEmpty(ps) && s != [] && k == FirstMatch(s, ps) < |ps|
    ensures AgreesThrough(s, InsertAfterEach(s, ps, ins), ps, 0, k)
  {
    var t := InsertAfterEach(s, ps, ins);
    var p := ps[k];
    var r := InsertAfterEach(s[|p|..], ps, ins);
    assert t == p + (ins + r);
    assert t[..|p|] == p;
    assert s[..|p|] == s[0..|p|] == p;
  }

  /** Copying a character in front keeps the agreement one place further right. */
  lemma CopiedAgreement(c: char, r: string, ps: seq<string>, ins: string, j: nat, k: nat)
    requires NonEmpty(ps)
    requires forall m :: 0 <= m < |ps| ==> !MatchAt([c] + r, ps[m], 0)
    requires InsertAfterEach(r, ps, ins) == r || AgreesThrough(r, InsertAfterEach(r, ps, ins), ps, j, k)
    ensures InsertAfterEach([c] + r, ps, ins) == [c] + r ||
            AgreesThrough([c] + r, InsertAfterEach([c] + r, ps, ins), ps, j + 1, k)
  {
    CopyHead(c, r, ps, ins);
    var u := InsertAfterEach(r, ps, ins);
    if u != r {
      ShiftedAgreement([c] + r, [c] + u, c, r, u, ps[k], j);
    }
  }

  /** When no pattern begins at the start of `s`, the scan cannot create an occurrence of `q` there. */
  lemma HeadUntouched(s: string, ps: seq<string>, ins: string, q: string)
    requires NonEmpty(ps) && FirstMatch(s, ps) == |ps| && !MatchAt(s, q, 0)
    requires forall k :: 0 <= k < |ps| ==> NoStartWithin(q, ps[k])
    ensures !MatchAt(InsertAfterEach(s, ps, ins), q, 0)
  {
    var t := InsertAfterEach(s, ps, ins);
    var j, k := FirstInsertion(s, ps, ins);
    if t != s {
      assert AgreesThrough(s, t, ps, j, k);
      var e := j + |ps[k]|;
      if |q| <= e {
        assert t[..|q|] == s[..|q|];
      } else if |q| <= |t| {
        assert 0 < j;
        assert s[j..e] == ps[k];
        assert t[j..e] == t[..e][j..e];
        assert s[j..e] == s[..e][j..e];
        assert t[..|q|][j..e] == t[j..e] == ps[k];
        assert q[j..][..|ps[k]|] == q[j..e];
        assert Disagree(q[j..], ps[k]);
        assert q[j..e] != ps[k];
      }
    }
  }

  lemma {:induction false} FirstMatchExtend(s: string, ps: seq<string>, q: string)
    ensures FirstMatch(s, ps + [q]) ==
      if FirstMatch(s, ps) < |ps| then FirstMatch(s, ps)
      else if MatchAt(s, q, 0) then |ps| else |ps| + 1
    decreases |ps|
  {
    if ps != [] {
      assert (ps + [q])[0] == ps[0];
      assert (ps + [q])[1..] == ps[1..] + [q];
      FirstMatchExtend(s, ps[1..], q);
    }
  }

  /** No occurrence of `q` begins inside `p` followed by an inserted string that `q` cannot touch. */
  lemma NoMatchInInsertion(p: string, ins: string, y: string, q: string)
    requires Separated(p, q)
    requires ins != [] && !Occurs(ins, q) && ins[|ins| - 1] !in q
    ensures forall j :: 0 <= j < |p + ins| ==> !MatchAt(p + ins + y, q, j)
  {
    assert p + ins + y == p + (ins + y);
    forall j | 0 <= j < |p + ins| ensures !MatchAt(p + ins + y, q, j) {
      if j < |p| {
        MatchStraddles(p, ins + y, q, j);
      } else {
        MatchInSuffix(p + ins + y, q, |p|, j - |p|);
        assert (p + ins + y)[|p|..] == ins + y;
        MatchNearEnd(ins, y, q, j - |p|);
      }
    }
  }

  /**
   * The step that turns a chain of replacements into one scan: replacing every
   * occurrence of `q` by `q + ins` in the output of the scan for `ps` yields the
   * scan for `ps + [q]`, provided no pattern can begin inside another or inside
   * the inserted text.
   */
  lemma {:induction false} ReplaceAfterInsertion(s: string, ps: seq<string>, q: string, ins: string)
    requires NonEmpty(ps) && q != []
    requires forall k :: 0 <= k < |ps| ==> Separated(ps[k], q) && Separated(q, ps[k])
    requires ins != [] && !Occurs(ins, q) && ins[|ins| - 1] !in q
    ensures NonEmpty(ps + [q])
    ensures ReplaceAll(InsertAfterEach(s, ps, ins), q, q + ins) == InsertAfterEach(s, ps + [q], ins)
    decreases |s|
  {
    var qs := ps + [q];
    assert forall k :: 0 <= k < |ps| ==> qs[k] == ps[k];
    if s != [] {
      var k := FirstMatch(s, ps);
      FirstMatchExtend(s, ps, q);
      if k < |ps| {
        var p := ps[k];
        var rest := s[|p|..];
        var y := InsertAfterEach(rest, ps, ins);
        NoMatchInInsertion(p, ins, y, q);
        ReplaceAllKeepsPrefix(p + ins, y, q, q + ins);
        ReplaceAfterInsertion(rest, ps, q, ins);
      } else if MatchAt(s, q, 0) {
        var rest := s[|q|..];
        assert s == q + rest;
        forall j, m | 0 <= j < |q| && 0 <= m < |ps| ensures !MatchAt(q + rest, ps[m], j) {
          MatchStraddles(q, rest, ps[m], j);
        }
        InsertAfterKeepsPrefix(q, rest, ps, ins);
        var y := InsertAfterEach(rest, ps, ins);
        assert (q + y)[|q|..] == y;
        assert MatchAt(q + y, q, 0);
        ReplaceAfterInsertion(rest, ps, q, ins);
      } else {
        HeadUntouched(s, ps, ins, q);
        var y := InsertAfterEach(s[1..], ps, ins);
        assert ([s[0]] + y)[1..] == y;
        ReplaceAfterInsertion(s[1..], ps, q, ins);
      }
    }
  }

  lemma NoStartWithinByHead(q: string, p: string)
    requires p != []
    requires forall j :: 0 < j < |q| ==> q[j] != p[0]
    ensures NoStartWithin(q, p)
  {
    forall j | 0 < j < |q| ensures Disagree(q[j..], p) {
      DisagreeAt(q[j..], p, 0);
    }
  }

  /** Text in which no pattern occurs passes through the scan unchanged. */
  lemma InsertAfterIdentity(s: string, ps: seq<string>, ins: string)
    requires NonEmpty(ps)
    requires forall k :: 0 <= k < |ps| ==> !Occurs(s, ps[k])
    ensures InsertAfterEach(s, ps, ins) == s
  {
    assert s + [] == s;
    forall j, k | 0 <= j < |s| && 0 <= k < |ps| ensures !MatchAt(s + [], ps[k], j) {
      assert !MatchAt(s, ps[k], j);
    }
    InsertAfterKeepsPrefix(s, [], ps, ins);
  }

  /** Positions at which no pattern begins do not contribute to `Starts`. */
  lemma {:induction false} StartsDrop(t: string, d: nat, ps: seq<string>)
    requires d <= |t|
    requires forall j, m :: 0 <= j < d && 0 <= m < |ps| ==> !MatchAt(t, ps[m], j)
    ensures Starts(t, ps) == Starts(t[d..], ps)
    decreases d
  {
    if d > 0 {
      assert FirstMatch(t, ps) == |ps|;
      forall j, m | 0 <= j < d - 1 && 0 <= m < |ps| ensures !MatchAt(t[1..], ps[m], j) {
        MatchInSuffix(t, ps[m], 1, j);
      }
      StartsDrop(t[1..], d - 1, ps);
      assert t[1..][d - 1..] == t[d..];
    }
  }

  /**
   * For delimited patterns the occurrences never overlap, so the scan's count is
   * the number of positions at which a pattern begins.
   */
  lemma {:induction false} CountEachIsStarts(s: string, ps: seq<string>)
    requires NonEmpty(ps) && Delimited(ps)
    ensures CountEach(s, ps) == Starts(s, ps)
    decreases |s|
  {
    if s != [] {
      var k := FirstMatch(s, ps);
      if k < |ps| {
        var p := ps[k];
        var rest := s[|p|..];
        assert s == p + rest;
        forall j, m | 0 <= j < |p| - 1 && 0 <= m < |ps| ensures !MatchAt(s[1..], ps[m], j) {
          MatchInSuffix(s, ps[m], 1, j);
          MatchStraddles(p, rest, ps[m], j + 1);
        }
        StartsDrop(s[1..], |p| - 1, ps);
        assert s[1..][|p| - 1..] == rest;
        CountEachIsStarts(rest, ps);
      } else {
        CountEachIsStarts(s[1..], ps);
      }
    }
  }

  /** In a delimited list, the pattern that begins a text is the one the scan picks. */
  lemma OccurrenceAtHead(ps: seq<string>, k: nat, x: string)
    requires Delimited(ps) && k < |ps|
    ensures FirstMatch(ps[k] + x, ps) == k
  {
    var t := ps[k] + x;
    forall m | 0 <= m < k ensures !MatchAt(t, ps[m], 0) {
      assert Disagree(ps[k], ps[m]);
      MatchStraddles(ps[k], x, ps[m], 0);
    }
    assert t[..|ps[k]|] == ps[k];
  }

  /** Inserted text is copied unchanged by a later scan. */
  lemma InertPrefix(ins: string, y: string, ps: seq<string>, ins2: string)
    requires NonEmpty(ps) && Inert(ins, ps)
    ensures InsertAfterEach(ins + y, ps, ins2) == ins + InsertAfterEach(y, ps, ins2)
  {
    forall j, m | 0 <= j < |ins| && 0 <= m < |ps| ensures !MatchAt(ins + y, ps[m], j) {
      assert !Occurs(ins, ps[m]) && ins[|ins| - 1] !in ps[m];
      MatchNearEnd(ins, y, ps[m], j);
    }
    InsertAfterKeepsPrefix(ins, y, ps, ins2);
  }

  /** The scan emits an occurrence it meets, then the inserted text, then the scan of what follows. */
  lemma ScanAtOccurrence(ps: seq<string>, k: nat, ins: string, x: string)
    requires NonEmpty(ps) && k < |ps| && FirstMatch(ps[k] + x, ps) == k
    ensures InsertAfterEach(ps[k] + x, ps, ins) == ps[k] + (ins + InsertAfterEach(x, ps, ins))
  {
    assert (ps[k] + x)[|ps[k]|..] == x;
  }

  /** The step of `InsertTwice` where the text begins with an occurrence of `ps[k]`. */
  lemma TwiceAtOccurrence(ps: seq<string>, k: nat, rest: string, ins: string)
    requires NonEmpty(ps) && Delimited(ps) && Inert(ins, ps) && k < |ps|
    requires InsertAfterEach(InsertAfterEach(rest, ps, ins), ps, ins) == InsertAfterEach(rest, ps, ins + ins)
    ensures InsertAfterEach(InsertAfterEach(ps[k] + rest, ps, ins), ps, ins) == InsertAfterEach(ps[k] + rest, ps, ins + ins)
  {
    var p := ps[k];
    var y := InsertAfterEach(rest, ps, ins);
    var z := InsertAfterEach(rest, ps, ins + ins);
    assert ins + ins + z == ins + (ins + z);
    OccurrenceAtHead(ps, k, rest);
    ScanAtOccurrence(ps, k, ins, rest);
    ScanAtOccurrence(ps, k, ins + ins, rest);
    OccurrenceAtHead(ps, k, ins + y);
    ScanAtOccurrence(ps, k, ins, ins + y);
    InertPrefix(ins, y, ps, ins);
  }

  /** The step of `InsertTwice` where no pattern begins the text. */
  lemma TwiceAtPlain(s: string, ps: seq<string>, ins: string)
    requires NonEmpty(ps) && Delimited(ps)
    requires s != [] && FirstMatch(s, ps) == |ps|
    requires InsertAfterEach(InsertAfterEach(s[1..], ps, ins), ps, ins) == InsertAfterEach(s[1..], ps, ins + ins)
    ensures InsertAfterEach(InsertAfterEach(s, ps, ins), ps, ins) == InsertAfterEach(s, ps, ins + ins)
  {
    var t := InsertAfterEach(s, ps, ins);
    forall m | 0 <= m < |ps| ensures !MatchAt(t, ps[m], 0) {
      HeadUntouched(s, ps, ins, ps[m]);
    }
    var y := InsertAfterEach(s[1..], ps, ins);
    assert t == [s[0]] + y && t[1..] == y;
  }

  /** Scanning the scan's output again inserts `ins` a second time after every occurrence. */
  lemma {:induction false} InsertTwice(s: string, ps: seq<string>, ins: string)
    requires NonEmpty(ps) && Delimited(ps) && Inert(ins, ps)
    ensures InsertAfterEach(InsertAfterEach(s, ps, ins), ps, ins) == InsertAfterEach(s, ps, ins + ins)
    decreases |s|
  {
    if s != [] {
      var k := FirstMatch(s, ps);
      if k < |ps| {
        var rest := s[|ps[k]|..];
        assert s == ps[k] + rest;
        InsertTwice(rest, ps, ins);
        TwiceAtOccurrence(ps, k, rest, ins);
      } else {
        InsertTwice(s[1..], ps, ins);
        TwiceAtPlain(s, ps, ins);
      }
    }
  }

  /** The scan changes its input exactly when some pattern occurs in it. */
  lemma InsertChangesIff(s: string, ps: seq<string>, ins: string)
    requires NonEmpty(ps) && ins != []
    ensures InsertAfterEach(s, ps, ins) != s <==> exists k :: 0 <= k < |ps| && Occurs(s, ps[k])
  {
    if exists k :: 0 <= k < |ps| && Occurs(s, ps[k]) {
      var k: nat :| k < |ps| && Occurs(s, ps[k]);
      var i: nat :| i <= |s| && MatchAt(s, ps[k], i);
      InsertionHappens(s, ps, k, i);
      InsertAfterLength(s, ps, ins);
      InsertedLength(|s|, CountEach(s, ps), |ins|);
    } else {
      InsertAfterIdentity(s, ps, ins);
    }
  }

  /** Inserting twice as much text differs from inserting once wherever some pattern occurs. */
  lemma InsertMoreDiffers(s: string, ps: seq<string>, ins: string, k: nat, i: nat)
    requires NonEmpty(ps) && ins != [] && k < |ps| && MatchAt(s, ps[k], i)
    ensures InsertAfterEach(s, ps, ins + ins) != InsertAfterEach(s, ps, ins)
  {
    InsertionHappens(s, ps, k, i);
    InsertAfterLength(s, ps, ins);
    InsertAfterLength(s, ps, ins + ins);
    assert |ins + ins| == |ins| + |ins|;
    InsertedLength(|s|, CountEach(s, ps), |ins|);
  }

  /** Text grows with the number of insertions and with their length. */
  lemma InsertedLength(n: nat, c: nat, m: nat)
    requires c > 0 && m > 0
    ensures n + c * m > n
    ensures n + c * (m + m) > n + c * m
  {
    assert c * (m + m) == c * m + c * m;
    assert c * m >= m;
  }
}
