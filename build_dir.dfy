/*
 * The scratch directory a build crate is staged in (`BuildDir`,
 * src/lib.rs:5-38): its name is `/tmp/build-script-` followed by sixteen
 * random bytes, each printed with `{:x}` (lower-case hexadecimal without zero
 * padding), and dropping it removes the tree after checking that the path
 * lies under `/tmp`.
 */
module BuildDirs {
  import opened Paths

  newtype u8 = x: int | 0 <= x < 256

  const HexDigits: string := "0123456789abcdef"

  /** `format!("{:x}", b)`: one digit below 16, two otherwise, never a leading zero. */
  function LowerHex(b: u8): (s: string)
    ensures |s| == (if b < 16 then 1 else 2)
    ensures forall i :: 0 <= i < |s| ==> s[i] in HexDigits
  {
    var n := b as int;
    if n < 16 then [HexDigits[n]]
    else [HexDigits[n / 16], HexDigits[n % 16]]
  }

  /** Reading a digit back gives its value. */
  lemma DigitValue(d: nat)
    requires d < 16
    ensures HexValue(HexDigits[d]) == d
  {
  }

  /** `{:x}` is exact: the printed digits denote the byte, and no zero leads. */
  lemma LowerHexParses(b: u8)
    ensures ParseHex(LowerHex(b)) == b as int
    ensures LowerHex(b)[0] != '0' || b == 0
  {
    var n := b as int;
    var s := LowerHex(b);
    if n < 16 {
      DigitValue(n);
      assert s[..0] == [];
    } else {
      DigitValue(n / 16);
      DigitValue(n % 16);
      assert s[..1] == [HexDigits[n / 16]];
      assert s[..1][..0] == [];
      assert ParseHex(s[..1]) == n / 16;
      assert ParseHex(s) == 16 * (n / 16) + n % 16;
      assert HexValue(s[0]) != 0;
    }
  }

  /** The value of a lower-case hexadecimal digit. */
  function HexValue(c: char): int {
    if '0' <= c <= '9' then c as int - '0' as int else c as int - 'a' as int + 10
  }

  /** The number a string of lower-case hexadecimal digits denotes. */
  function ParseHex(s: string): int {
    if s == [] then 0 else 16 * ParseHex(s[..|s| - 1]) + HexValue(s[|s| - 1])
  }

  /** The suffix the naming loop builds: the bytes' `{:x}` texts, one after another. */
  function HexString(bs: seq<u8>): string {
    if bs == [] then [] else HexString(bs[..|bs| - 1]) + LowerHex(bs[|bs| - 1])
  }

  /** `/tmp/build-script-<hex>` (src/lib.rs:22). */
  function StagingPath(hex: string): string {
    "/tmp/build-script-" + hex
  }

  /** The hex-naming loop of `BuildDir::new` (src/lib.rs:16-19). */
  method HexSuffix(randomData: array<u8>) returns (hex: string)
    ensures hex == HexString(randomData[..])
  {
    hex := "";
    for i := 0 to randomData.Length
      invariant hex == HexString(randomData[..i])
    {
      assert randomData[..i + 1][..i] == randomData[..i];
      hex := hex + LowerHex(randomData[i]);
    }
    assert randomData[..] == randomData[..randomData.Length];
  }

  /** The number of bytes printed with two digits. */
  function Wide(bs: seq<u8>): nat {
    if bs == [] then 0 else Wide(bs[..|bs| - 1]) + (if bs[|bs| - 1] < 16 then 0 else 1)
  }

  /** What dropping a `BuildDir` does. */
  datatype Teardown =
    | Removed       // the guard held and the tree was removed
    | GuardPanic    // the `/tmp` guard failed: nothing is removed
    | RemovePanic   // the guard held but `remove_dir_all` failed

  class BuildDir {
    var path: string

    /** `BuildDir::new` with the sixteen bytes read from `/dev/urandom` passed in. */
    constructor(randomData: array<u8>)
      requires randomData.Length == 16
      ensures path == StagingPath(HexString(randomData[..]))
      ensures StartsWith(path, Tmp)
    {
      var hex := HexSuffix(randomData);
      path := StagingPath(hex);
      NewPathGuarded(randomData[..]);
    }

    /**
     * `Drop::drop` (src/lib.rs:28-37): the tree is removed only when the path
     * passes the `/tmp` guard; `removeOk` is whether `remove_dir_all` succeeds.
     */
    method Drop(removeOk: bool) returns (t: Teardown)
      ensures t == Removed <==> StartsWith(path, Tmp) && removeOk
      ensures t == GuardPanic <==> !StartsWith(path, Tmp)
      ensures t == RemovePanic <==> StartsWith(path, Tmp) && !removeOk
    {
      if !StartsWith(path, Tmp) {
        t := GuardPanic;
      } else if removeOk {
        t := Removed;
      } else {
        t := RemovePanic;
      }
    }
  }

  // ---------------------------------------------------------------------------
  // The hex suffix

  /** Printing a concatenation prints the parts one after the other. */
  lemma {:induction false} HexStringAppend(xs: seq<u8>, ys: seq<u8>)
    ensures HexString(xs + ys) == HexString(xs) + HexString(ys)
    decreases |ys|
  {
    if ys == [] {
      assert xs + ys == xs;
    } else {
      var zs := xs + ys;
      var init := ys[..|ys| - 1];
      assert zs[..|zs| - 1] == xs + init;
      assert zs[|zs| - 1] == ys[|ys| - 1];
      HexStringAppend(xs, init);
      var d := LowerHex(ys[|ys| - 1]);
      assert HexString(xs) + HexString(init) + d == HexString(xs) + (HexString(init) + d);
    }
  }

  /** Each byte adds one character, and the wide ones one more. */
  lemma {:induction false} HexStringLength(bs: seq<u8>)
    ensures |HexString(bs)| == |bs| + Wide(bs)
    ensures |bs| <= |HexString(bs)| <= 2 * |bs|
  {
    if bs != [] {
      HexStringLength(bs[..|bs| - 1]);
    }
  }

  /** Every character of the suffix is a lower-case hexadecimal digit. */
  lemma {:induction false} HexStringDigits(bs: seq<u8>)
    ensures forall i :: 0 <= i < |HexString(bs)| ==> HexString(bs)[i] in HexDigits
  {
    if bs != [] {
      var init := bs[..|bs| - 1];
      HexStringDigits(init);
      var h := HexString(init);
      var d := LowerHex(bs[|bs| - 1]);
      forall i | 0 <= i < |h + d| ensures (h + d)[i] in HexDigits {
        if i >= |h| {
          assert (h + d)[i] == d[i - |h|];
        }
      }
    }
  }

  /** No hexadecimal digit is a separator, so the suffix stays inside one path component. */
  lemma HexStringHasNoSlash(bs: seq<u8>)
    ensures '/' !in HexString(bs)
  {
    HexStringDigits(bs);
    assert '/' !in HexDigits;
  }

  /** Sixteen bytes give a suffix of 16 to 32 characters. */
  lemma SuffixLength(bs: seq<u8>)
    requires |bs| == 16
    ensures 16 <= |HexString(bs)| <= 32
  {
    HexStringLength(bs);
  }

  /** The suffix of two bytes is the text of the first followed by that of the second. */
  lemma HexPair(x: u8, y: u8)
    ensures HexString([x, y]) == LowerHex(x) + LowerHex(y)
  {
    var bs := [x, y];
    assert bs[..1] == [x] && [x][..0] == [];
    assert HexString([x]) == LowerHex(x);
    assert HexString(bs) == HexString(bs[..1]) + LowerHex(bs[1]);
  }

  /**
   * Without zero padding, different bytes can print the same: `01 23` and
   * `12 03` both give `123`, so two staging directories can share a name.
   */
  lemma HexNotInjective(x: seq<u8>, y: seq<u8>)
    requires x == [1, 0x23] && y == [0x12, 3]
    ensures x != y && HexString(x) == HexString(y)
  {
    HexPair(1, 0x23);
    HexPair(0x12, 3);
    assert LowerHex(1) == [HexDigits[1]];
    assert LowerHex(0x23) == [HexDigits[2], HexDigits[3]];
    assert LowerHex(0x12) == [HexDigits[1], HexDigits[2]];
    assert LowerHex(3) == [HexDigits[3]];
  }

  // ---------------------------------------------------------------------------
  // The staging path

  /** The staging path is `/`, `tmp`, then one name, so it always passes the teardown guard. */
  lemma StagingPathGuarded(hex: string)
    requires '/' !in hex
    ensures Components(StagingPath(hex)) == [RootDir, Normal("tmp"), Normal("build-script-" + hex)]
    ensures StartsWith(StagingPath(hex), Tmp)
  {
    var name := "build-script-" + hex;
    assert ValidName(name) by {
      assert name[0] == 'b';
    }
    assert StagingPath(hex) == "/tmp/" + name;
    GuardAcceptsUnderTmp(name);
    NameComponents(name);
  }

  /** Every `BuildDir::new` path passes the guard, whatever the random bytes. */
  lemma NewPathGuarded(bs: seq<u8>)
    ensures StartsWith(StagingPath(HexString(bs)), Tmp)
    ensures FileName(StagingPath(HexString(bs))) == Some("build-script-" + HexString(bs))
  {
    HexStringHasNoSlash(bs);
    StagingPathGuarded(HexString(bs));
  }
}
