/*
 * Qualification of relative dependency paths in a staged Cargo.toml
 * (`qualify_cargo_toml_paths_in_text`, src/lib.rs:64-76).
 *
 * The source runs four literal `str::replace` passes, one per opener, each of
 * which puts `<base_dir>/` right after the opener.  The main result here is
 * that, as long as the base directory contains no opener, the four passes do
 * exactly what one left-to-right scan does that inserts `<base_dir>/` after
 * every opener it meets (`QualifyIsOneScan`); the other properties are proved
 * about that scan.
 */
module Manifest {
  import opened Text

  /** The four openers, in the order the source replaces them (src/lib.rs:71-74). */
  const DoubleQuoted: string := "path = \""
  const DoubleQuotedTight: string := "path=\""
  const SingleQuoted: string := "path = '"
  const SingleQuotedTight: string := "path='"

  const Openers: seq<string> := [DoubleQuoted, DoubleQuotedTight, SingleQuoted, SingleQuotedTight]

  /** `base_dir.display()` followed by the `/` the format strings add. */
  function Prefix(baseDir: string): string {
    baseDir + "/"
  }

  /** `qualify_cargo_toml_paths_in_text(manifest, base_dir)`: four sequential replace passes. */
  function Qualify(manifest: string, baseDir: string): string {
    var m1 := ReplaceAll(manifest, DoubleQuoted, DoubleQuoted + baseDir + "/");
    var m2 := ReplaceAll(m1, DoubleQuotedTight, DoubleQuotedTight + baseDir + "/");
    var m3 := ReplaceAll(m2, SingleQuoted, SingleQuoted + baseDir + "/");
    ReplaceAll(m3, SingleQuotedTight, SingleQuotedTight + baseDir + "/")
  }

  /** No opener occurs anywhere in `s`. */
  predicate NoOpener(s: string) {
    forall k :: 0 <= k < |Openers| ==> !Occurs(s, Openers[k])
  }

  /** The reference behaviour: one scan inserting `ins` after every opener occurrence. */
  function QualifyOnePass(manifest: string, ins: string): string {
    OpenersFacts();
    InsertAfterEach(manifest, Openers, ins)
  }

  /**
   * Text in which no opener can begin, whatever follows it: every `p` is
   * followed, inside the text, by a character other than `a`.
   */
  predicate Plain(s: string) {
    forall i :: 0 <= i < |s| && s[i] == 'p' ==> i + 1 < |s| && s[i + 1] != 'a'
  }

  // ---------------------------------------------------------------------------
  // Facts about the openers

  /** Every opener starts with `p`, has no other `p`, and contains no `/`. */
  lemma OpenerShape(k: nat)
    requires k < |Openers|
    ensures |Openers[k]| >= 2 && Openers[k][0] == 'p' && Openers[k][1] == 'a'
    ensures forall j :: 0 < j < |Openers[k]| ==> Openers[k][j] != 'p'
    ensures '/' !in Openers[k]
  {
  }

  /** No opener begins inside another, and distinct openers disagree. */
  lemma OpenersFacts()
    ensures NonEmpty(Openers) && Delimited(Openers)
  {
    forall k, m | 0 <= k < |Openers| && 0 <= m < |Openers|
      ensures NoStartWithin(Openers[k], Openers[m])
    {
      OpenerShape(k);
      OpenerShape(m);
      NoStartWithinByHead(Openers[k], Openers[m]);
    }
    DisagreeAt(DoubleQuoted, DoubleQuotedTight, 4);
    DisagreeAt(DoubleQuoted, SingleQuoted, 7);
    DisagreeAt(DoubleQuoted, SingleQuotedTight, 4);
    DisagreeAt(DoubleQuotedTight, SingleQuoted, 4);
    DisagreeAt(DoubleQuotedTight, SingleQuotedTight, 5);
    DisagreeAt(SingleQuoted, SingleQuotedTight, 4);
  }

  /**
   * A base directory free of openers gives an inserted text `<base_dir>/` in
   * which no opener begins: none occurs in it, and its last character `/` is
   * in no opener.
   */
  lemma PrefixInert(baseDir: string)
    requires NoOpener(baseDir)
    ensures Inert(Prefix(baseDir), Openers)
  {
    forall k | 0 <= k < |Openers| ensures !Occurs(Prefix(baseDir), Openers[k]) {
      OpenerShape(k);
      AppendKeepsAbsent(baseDir, '/', Openers[k]);
    }
    forall k | 0 <= k < |Openers| ensures '/' !in Openers[k] {
      OpenerShape(k);
    }
  }

  /** Plain text contains no opener. */
  lemma PlainHasNoOpener(s: string)
    requires Plain(s)
    ensures NoOpener(s)
  {
    forall k, i: nat | 0 <= k < |Openers| ensures !MatchAt(s, Openers[k], i) {
      OpenerShape(k);
      PlainBlocks(s, [], k, i);
    }
  }

  /** No opener begins inside plain text, whatever follows it. */
  lemma PlainBlocks(a: string, x: string, k: nat, j: nat)
    requires Plain(a) && k < |Openers|
    ensures j < |a| ==> !MatchAt(a + x, Openers[k], j)
  {
    OpenerShape(k);
    if j < |a| && j + |Openers[k]| <= |a + x| {
      var w := (a + x)[j..j + |Openers[k]|];
      assert w[0] == a[j];
      if a[j] == 'p' {
        assert w[1] == a[j + 1];
      }
    }
  }

  // ---------------------------------------------------------------------------
  // The four passes are one scan

  /**
   * When the base directory contains no opener, the four replace passes equal
   * one scan that inserts `<base_dir>/` after every opener occurrence.
   */
  lemma QualifyIsOneScan(manifest: string, baseDir: string)
    requires NoOpener(baseDir)
    ensures Qualify(manifest, baseDir) == QualifyOnePass(manifest, Prefix(baseDir))
  {
    var ins := Prefix(baseDir);
    OpenersFacts();
    PrefixInert(baseDir);
    var o := Openers;
    assert DoubleQuoted + baseDir + "/" == o[0] + ins;
    assert DoubleQuotedTight + baseDir + "/" == o[1] + ins;
    assert SingleQuoted + baseDir + "/" == o[2] + ins;
    assert SingleQuotedTight + baseDir + "/" == o[3] + ins;
    InsertAfterNothing(manifest, ins);
    ReplaceAfterInsertion(manifest, [], o[0], ins);
    assert [] + [o[0]] == o[..1];
    ReplaceAfterInsertion(manifest, o[..1], o[1], ins);
    assert o[..1] + [o[1]] == o[..2];
    ReplaceAfterInsertion(manifest, o[..2], o[2], ins);
    assert o[..2] + [o[2]] == o[..3];
    ReplaceAfterInsertion(manifest, o[..3], o[3], ins);
    assert o[..3] + [o[3]] == o;
  }

  // ---------------------------------------------------------------------------
  // Properties of the transform

  /** Text containing no opener comes back unchanged, whatever the base directory. */
  lemma QualifyUnchanged(manifest: string, baseDir: string)
    requires NoOpener(manifest)
    ensures Qualify(manifest, baseDir) == manifest
  {
    assert !Occurs(manifest, Openers[0]) && !Occurs(manifest, Openers[1]);
    assert !Occurs(manifest, Openers[2]) && !Occurs(manifest, Openers[3]);
    ReplaceAllWithoutMatch(manifest, DoubleQuoted, DoubleQuoted + baseDir + "/");
    ReplaceAllWithoutMatch(manifest, DoubleQuotedTight, DoubleQuotedTight + baseDir + "/");
    ReplaceAllWithoutMatch(manifest, SingleQuoted, SingleQuoted + baseDir + "/");
    ReplaceAllWithoutMatch(manifest, SingleQuotedTight, SingleQuotedTight + baseDir + "/");
  }

  /**
   * The output grows by `|base_dir| + 1` for every position at which an opener
   * begins; openers cannot overlap, so this counts every occurrence.
   */
  lemma QualifyLength(manifest: string, baseDir: string)
    requires NoOpener(baseDir)
    ensures |Qualify(manifest, baseDir)| == |manifest| + Starts(manifest, Openers) * (|baseDir| + 1)
  {
    QualifyIsOneScan(manifest, baseDir);
    OpenersFacts();
    InsertAfterLength(manifest, Openers, Prefix(baseDir));
    CountEachIsStarts(manifest, Openers);
  }

  /** With an opener-free base directory, the text changes exactly when it contains an opener. */
  lemma QualifyChangesIff(manifest: string, baseDir: string)
    requires NoOpener(baseDir)
    ensures Qualify(manifest, baseDir) != manifest <==> !NoOpener(manifest)
  {
    QualifyIsOneScan(manifest, baseDir);
    OpenersFacts();
    InsertChangesIff(manifest, Openers, Prefix(baseDir));
  }

  /** Qualifying twice inserts the base directory twice after every opener. */
  lemma QualifyTwice(manifest: string, baseDir: string)
    requires NoOpener(baseDir)
    ensures Qualify(Qualify(manifest, baseDir), baseDir)
         == QualifyOnePass(manifest, Prefix(baseDir) + Prefix(baseDir))
  {
    OpenersFacts();
    PrefixInert(baseDir);
    QualifyIsOneScan(manifest, baseDir);
    QualifyIsOneScan(Qualify(manifest, baseDir), baseDir);
    InsertTwice(manifest, Openers, Prefix(baseDir));
  }

  /** The transform is not idempotent: a second run changes any text that holds an opener. */
  lemma QualifyNotIdempotent(manifest: string, baseDir: string)
    requires NoOpener(baseDir) && !NoOpener(manifest)
    ensures Qualify(Qualify(manifest, baseDir), baseDir) != Qualify(manifest, baseDir)
  {
    var k: nat, i: nat :| k < |Openers| && i <= |manifest| && MatchAt(manifest, Openers[k], i);
    QualifyTwice(manifest, baseDir);
    QualifyIsOneScan(manifest, baseDir);
    OpenersFacts();
    InsertMoreDiffers(manifest, Openers, Prefix(baseDir), k, i);
  }

  /**
   * A single declaration `a + opener + v`, with no opener in the text around
   * it, gets `<base_dir>/` right after the opener and keeps the path text `v`
   * byte for byte.
   */
  lemma QualifyDeclaration(a: string, k: nat, v: string, baseDir: string)
    requires k < |Openers| && NoOpener(a) && NoOpener(v) && NoOpener(baseDir)
    ensures Qualify(a + Openers[k] + v, baseDir) == a + Openers[k] + baseDir + "/" + v
  {
    var o := Openers[k];
    assert a + o + v == a + (o + v);
    assert a + (o + (baseDir + "/" + v)) == a + o + baseDir + "/" + v;
    QualifyIsOneScan(a + (o + v), baseDir);
    OnePassDeclaration(a, k, v, Prefix(baseDir));
  }

  /**
   * No opener begins inside opener-free text that is followed by a `p`: one
   * running past its end would have a second `p`, which no opener has.
   */
  lemma NoOpenerBeforeP(a: string, x: string, m: nat, j: nat)
    requires NoOpener(a) && m < |Openers| && x != [] && x[0] == 'p' && j < |a|
    ensures !MatchAt(a + x, Openers[m], j)
  {
    OpenerShape(m);
    var q := Openers[m];
    if j + |q| <= |a| {
      assert !MatchAt(a, q, j);
      assert (a + x)[j..j + |q|] == a[j..j + |q|];
    } else if j + |q| <= |a + x| {
      assert (a + x)[j..j + |q|][|a| - j] == (a + x)[|a|] == 'p';
      assert q[|a| - j] != 'p';
    }
  }

  /** The scan of one declaration, stated with the concatenations grouped to the right. */
  lemma OnePassDeclaration(a: string, k: nat, v: string, ins: string)
    requires k < |Openers| && NoOpener(a) && NoOpener(v)
    ensures QualifyOnePass(a + (Openers[k] + v), ins) == a + (Openers[k] + (ins + v))
  {
    OpenersFacts();
    OpenerShape(k);
    var x := Openers[k] + v;
    forall j, m | 0 <= j < |a| && 0 <= m < |Openers| ensures !MatchAt(a + x, Openers[m], j) {
      NoOpenerBeforeP(a, x, m, j);
    }
    InsertAfterKeepsPrefix(a, x, Openers, ins);
    OccurrenceAtHead(Openers, k, v);
    ScanAtOccurrence(Openers, k, ins, v);
    InsertAfterIdentity(v, Openers, ins);
  }

  // ---------------------------------------------------------------------------
  // The source's unit tests (src/lib.rs:177-235)

  const TestHead: string := "\n[dependencies]\nlib-crate = { "
  const TestBase: string := "/basedir"

  lemma TestTextsPlain()
    ensures Plain(TestHead) && NoOpener(TestBase)
    ensures Plain("../../lib-crate\" }\n") && Plain("../../lib-crate' }\n")
  {
    assert TestHead[2] == 'd' && TestHead[4] == 'p' && TestHead[5] == 'e';
    forall i | 0 <= i < |TestHead| && i != 4 ensures TestHead[i] != 'p' {
    }
    assert Plain(TestBase);
    PlainHasNoOpener(TestBase);
  }

  /** One declaration of a test: its opener `k` gets the test base and a separator after it. */
  lemma PathFixupCase(input: string, expected: string, k: nat, v: string)
    requires k < |Openers| && Plain(v)
    requires input == TestHead + Openers[k] + v && expected == TestHead + Openers[k] + TestBase + "/" + v
    ensures Qualify(input, TestBase) == expected
  {
    TestTextsPlain();
    PlainHasNoOpener(TestHead);
    PlainHasNoOpener(v);
    QualifyDeclaration(TestHead, k, v, TestBase);
  }

  /** The test at src/lib.rs:178-190: one `path = "` declaration gets `/basedir/` after its opener. */
  lemma PathFixupDoubleQuoted(input: string, expected: string)
    requires input == "\n[dependencies]\nlib-crate = { path = \"../../lib-crate\" }\n"
    requires expected == "\n[dependencies]\nlib-crate = { path = \"/basedir/../../lib-crate\" }\n"
    ensures Qualify(input, TestBase) == expected
  {
    PathFixupDoubleQuotedInput(input);
    PathFixupDoubleQuotedExpected(expected);
    PathFixupCase(input, expected, 0, "../../lib-crate\" }\n");
  }

  lemma PathFixupDoubleQuotedInput(input: string)
    requires input == "\n[dependencies]\nlib-crate = { path = \"../../lib-crate\" }\n"
    ensures input == TestHead + DoubleQuoted + "../../lib-crate\" }\n"
  {
  }

  lemma PathFixupDoubleQuotedExpected(expected: string)
    requires expected == "\n[dependencies]\nlib-crate = { path = \"/basedir/../../lib-crate\" }\n"
    ensures expected == TestHead + DoubleQuoted + TestBase + "/" + "../../lib-crate\" }\n"
  {
  }

  /** The test at src/lib.rs:193-205: one `path="` declaration gets `/basedir/` after its opener. */
  lemma PathFixupDoubleQuotedTight(input: string, expected: string)
    requires input == "\n[dependencies]\nlib-crate = { path=\"../../lib-crate\" }\n"
    requires expected == "\n[dependencies]\nlib-crate = { path=\"/basedir/../../lib-crate\" }\n"
    ensures Qualify(input, TestBase) == expected
  {
    PathFixupDoubleQuotedTightInput(input);
    PathFixupDoubleQuotedTightExpected(expected);
    PathFixupCase(input, expected, 1, "../../lib-crate\" }\n");
  }

  lemma PathFixupDoubleQuotedTightInput(input: string)
    requires input == "\n[dependencies]\nlib-crate = { path=\"../../lib-crate\" }\n"
    ensures input == TestHead + DoubleQuotedTight + "../../lib-crate\" }\n"
  {
  }

  lemma PathFixupDoubleQuotedTightExpected(expected: string)
    requires expected == "\n[dependencies]\nlib-crate = { path=\"/basedir/../../lib-crate\" }\n"
    ensures expected == TestHead + DoubleQuotedTight + TestBase + "/" + "../../lib-crate\" }\n"
  {
  }

  /** The test at src/lib.rs:208-220: one `path = '` declaration gets `/basedir/` after its opener. */
  lemma PathFixupSingleQuoted(input: string, expected: string)
    requires input == "\n[dependencies]\nlib-crate = { path = '../../lib-crate' }\n"
    requires expected == "\n[dependencies]\nlib-crate = { path = '/basedir/../../lib-crate' }\n"
    ensures Qualify(input, TestBase) == expected
  {
    PathFixupSingleQuotedInput(input);
    PathFixupSingleQuotedExpected(expected);
    PathFixupCase(input, expected, 2, "../../lib-crate' }\n");
  }

  lemma PathFixupSingleQuotedInput(input: string)
    requires input == "\n[dependencies]\nlib-crate = { path = '../../lib-crate' }\n"
    ensures input == TestHead + SingleQuoted + "../../lib-crate' }\n"
  {
  }

  lemma PathFixupSingleQuotedExpected(expected: string)
    requires expected == "\n[dependencies]\nlib-crate = { path = '/basedir/../../lib-crate' }\n"
    ensures expected == TestHead + SingleQuoted + TestBase + "/" + "../../lib-crate' }\n"
  {
  }

  /** The test at src/lib.rs:223-235: one `path='` declaration gets `/basedir/` after its opener. */
  lemma PathFixupSingleQuotedTight(input: string, expected: string)
    requires input == "\n[dependencies]\nlib-crate = { path='../../lib-crate' }\n"
    requires expected == "\n[dependencies]\nlib-crate = { path='/basedir/../../lib-crate' }\n"
    ensures Qualify(input, TestBase) == expected
  {
    PathFixupSingleQuotedTightInput(input);
    PathFixupSingleQuotedTightExpected(expected);
    PathFixupCase(input, expected, 3, "../../lib-crate' }\n");
  }

  lemma PathFixupSingleQuotedTightInput(input: string)
    requires input == "\n[dependencies]\nlib-crate = { path='../../lib-crate' }\n"
    ensures input == TestHead + SingleQuotedTight + "../../lib-crate' }\n"
  {
  }

  lemma PathFixupSingleQuotedTightExpected(expected: string)
    requires expected == "\n[dependencies]\nlib-crate = { path='/basedir/../../lib-crate' }\n"
    ensures expected == TestHead + SingleQuotedTight + TestBase + "/" + "../../lib-crate' }\n"
  {
  }
}
