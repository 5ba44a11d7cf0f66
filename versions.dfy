/**
 * `compareVersions(v1, v2)`: a leading `v` is dropped, a leading
 * `digits.digits.digits` is kept and anything after it ignored, the rest is
 * split on `.` into numbers, and the numbers are compared left to right
 * with missing ones read as 0. The result is 1, 0 or -1.
 */
module Versions {
  import opened Text

  /** `version.replace(/^v/, "")`: one lower-case `v` at the start is dropped. */
  function StripV(v: string): string {
    if v != "" && v[0] == 'v' then v[1..] else v
  }

  /**
   * The end of a leading `\d+\.\d+\.\d+`, digits taken as far as they go,
   * or 0 when the text does not start that way.
   */
  function MainVersionEnd(s: string): nat {
    var a := DigitRunEnd(s, 0);
    if a == 0 || a == |s| || s[a] != '.' then 0
    else
      var b := DigitRunEnd(s, a + 1);
      if b == a + 1 || b == |s| || s[b] != '.' then 0
      else
        var c := DigitRunEnd(s, b + 1);
        if c == b + 1 then 0 else c
  }

  /** `extractMainVersion`: the leading `x.y.z` when there is one, the whole text otherwise. */
  function MainVersion(s: string): string {
    var c := MainVersionEnd(s);
    if c == 0 then s else s[..c]
  }

  /** `Number(part) || 0` for a part made of decimal digits; any other part counts as 0. */
  function NumberOf(part: string): nat {
    if AllDigits(part) then DecimalValue(part) else 0
  }

  /** `parts.map(Number)`, with each part read as `NumberOf` reads it. */
  function Numbers(parts: seq<string>): (r: seq<nat>)
    ensures |r| == |parts|
  {
    seq(|parts|, i requires 0 <= i < |parts| => NumberOf(parts[i]))
  }

  /** The numbers `compareVersions` compares for `v`. */
  function Components(v: string): seq<nat> {
    Numbers(Split(MainVersion(StripV(v)), '.'))
  }

  function Max(m: nat, n: nat): nat {
    if m < n then n else m
  }

  /** `parts[i] || 0`: a missing component is 0. */
  function At(p: seq<nat>, i: nat): nat {
    if i < |p| then p[i] else 0
  }

  /** The loop from index `i` on: the first component that differs decides. */
  function CompareFrom(p1: seq<nat>, p2: seq<nat>, i: nat): (r: int)
    ensures r == -1 || r == 0 || r == 1
    decreases Max(|p1|, |p2|) - i
  {
    if i >= Max(|p1|, |p2|) then 0
    else if At(p1, i) > At(p2, i) then 1
    else if At(p1, i) < At(p2, i) then -1
    else CompareFrom(p1, p2, i + 1)
  }

  /** `compareVersions(v1, v2)`. */
  function CompareVersions(v1: string, v2: string): (r: int)
    ensures r == -1 || r == 0 || r == 1
  {
    CompareFrom(Components(v1), Components(v2), 0)
  }

  /* ---------- The order, stated without the loop ---------- */

  /** The components agree before index `n`. */
  predicate SameUpTo(p1: seq<nat>, p2: seq<nat>, n: nat) {
    forall j :: 0 <= j < n ==> At(p1, j) == At(p2, j)
  }

  /** The components agree everywhere, missing ones read as 0. */
  ghost predicate PaddedEqual(p1: seq<nat>, p2: seq<nat>) {
    forall j: nat :: At(p1, j) == At(p2, j)
  }

  /** `k` is the first index where the components differ. */
  predicate FirstDiffAt(p1: seq<nat>, p2: seq<nat>, k: nat) {
    SameUpTo(p1, p2, k) && At(p1, k) != At(p2, k)
  }

  /** Beyond both lengths every component is 0. */
  lemma AtBeyond(p1: seq<nat>, p2: seq<nat>, j: nat)
    requires j >= Max(|p1|, |p2|)
    ensures At(p1, j) == 0 && At(p2, j) == 0
  {
  }

  /** Two different first differences cannot both be first. */
  lemma FirstDiffUnique(p1: seq<nat>, p2: seq<nat>, k: nat, k': nat)
    requires FirstDiffAt(p1, p2, k) && FirstDiffAt(p1, p2, k')
    ensures k == k'
  {
    assert k < k' ==> At(p1, k) == At(p2, k);
    assert k' < k ==> At(p1, k') == At(p2, k');
  }

  /**
   * Once the components agree before `i`, the loop returns 0 exactly when
   * they agree everywhere, and 1 or -1 exactly when the first difference
   * has the larger or the smaller component on the left.
   */
  lemma {:induction false} CompareFromSpec(p1: seq<nat>, p2: seq<nat>, i: nat)
    requires SameUpTo(p1, p2, i)
    ensures CompareFrom(p1, p2, i) == 0 ==> PaddedEqual(p1, p2)
    ensures PaddedEqual(p1, p2) ==> CompareFrom(p1, p2, i) == 0
    ensures CompareFrom(p1, p2, i) != 0 ==> exists k :: FirstDiffAt(p1, p2, k)
    ensures forall k :: FirstDiffAt(p1, p2, k) ==>
      (CompareFrom(p1, p2, i) == 1 <==> At(p1, k) > At(p2, k))
    decreases Max(|p1|, |p2|) - i
  {
    if i >= Max(|p1|, |p2|) {
      forall j: nat ensures At(p1, j) == At(p2, j) {
        if j >= i { AtBeyond(p1, p2, j); }
      }
    } else if At(p1, i) != At(p2, i) {
      assert FirstDiffAt(p1, p2, i);
      forall k | FirstDiffAt(p1, p2, k) ensures k == i {
        FirstDiffUnique(p1, p2, k, i);
      }
    } else {
      assert SameUpTo(p1, p2, i + 1);
      CompareFromSpec(p1, p2, i + 1);
    }
  }

  /**
   * `compareVersions` returns 0 exactly when the components agree with
   * missing ones read as 0, and otherwise 1 exactly when the first
   * component that differs is larger in `v1`.
   */
  lemma CompareVersionsSpec(v1: string, v2: string)
    ensures var p1, p2 := Components(v1), Components(v2);
      && (CompareVersions(v1, v2) == 0 <==> PaddedEqual(p1, p2))
      && (forall k :: FirstDiffAt(p1, p2, k) ==>
            (CompareVersions(v1, v2) == 1 <==> At(p1, k) > At(p2, k)))
  {
    var p1, p2 := Components(v1), Components(v2);
    CompareFromSpec(p1, p2, 0);
  }

  /** Swapping the arguments swaps the answer. */
  lemma {:induction false} CompareFromAntisymmetric(p1: seq<nat>, p2: seq<nat>, i: nat)
    ensures CompareFrom(p1, p2, i) == -CompareFrom(p2, p1, i)
    decreases Max(|p1|, |p2|) - i
  {
    if i < Max(|p1|, |p2|) && At(p1, i) == At(p2, i) {
      CompareFromAntisymmetric(p1, p2, i + 1);
    }
  }

  /** `compareVersions(a, b) == -compareVersions(b, a)`, and every version equals itself. */
  lemma CompareVersionsAntisymmetric(v1: string, v2: string)
    ensures CompareVersions(v1, v2) == -CompareVersions(v2, v1)
    ensures CompareVersions(v1, v1) == 0
  {
    CompareFromAntisymmetric(Components(v1), Components(v2), 0);
    CompareFromAntisymmetric(Components(v1), Components(v1), 0);
  }

  /** When the loop from `i` finds `a >= b` and `b >= c`, it finds `a >= c`. */
  lemma {:induction false} CompareFromTransitive(p1: seq<nat>, p2: seq<nat>, p3: seq<nat>, i: nat)
    requires CompareFrom(p1, p2, i) >= 0 && CompareFrom(p2, p3, i) >= 0
    ensures CompareFrom(p1, p3, i) >= 0
    decreases Max(Max(|p1|, |p2|), |p3|) - i
  {
    if i < Max(|p1|, |p3|) && At(p1, i) == At(p3, i) {
      CompareFromTransitive(p1, p2, p3, i + 1);
    }
  }

  /** When `a >= b` and `b >= c` then `a >= c`: the answer is a consistent order. */
  lemma CompareVersionsTransitive(v1: string, v2: string, v3: string)
    requires CompareVersions(v1, v2) >= 0 && CompareVersions(v2, v3) >= 0
    ensures CompareVersions(v1, v3) >= 0
  {
    CompareFromTransitive(Components(v1), Components(v2), Components(v3), 0);
  }

  /** Components padded with zeros compare as before: `1.2` and `1.2.0` are equal. */
  lemma ComparePadded(p: seq<nat>, q: seq<nat>)
    ensures CompareFrom(p + [0], q, 0) == CompareFrom(p, q, 0)
  {
    var p' := p + [0];
    assert forall j: nat :: At(p', j) == At(p, j);
    CompareFromSpec(p, q, 0);
    CompareFromSpec(p', q, 0);
    if CompareFrom(p, q, 0) != 0 {
      var k :| FirstDiffAt(p, q, k);
      assert FirstDiffAt(p', q, k);
    }
    if CompareFrom(p', q, 0) != 0 {
      var k :| FirstDiffAt(p', q, k);
      assert FirstDiffAt(p, q, k);
    }
  }

  /* ---------- What is compared ---------- */

  /** The version text written from three digit runs. */
  function Triple(x: string, y: string, z: string): string {
    x + "." + y + "." + z
  }

  /** The run of digits from `i` ends at `k`. */
  lemma DigitsThen(s: string, i: nat, k: nat)
    requires i <= k <= |s| && (k == |s| || !IsDigit(s[k]))
    requires forall j :: i <= j < k ==> IsDigit(s[j])
    ensures DigitRunEnd(s, i) == k
  {
    DigitRunEndAt(s, i, k);
  }

  /**
   * A text starting with `x.y.z` has that triple as its main version:
   * whatever follows the third run of digits is ignored.
   */
  lemma MainVersionOfTriple(x: string, y: string, z: string, suffix: string)
    requires x != "" && y != "" && z != "" && AllDigits(x) && AllDigits(y) && AllDigits(z)
    requires suffix == "" || !IsDigit(suffix[0])
    ensures MainVersion(Triple(x, y, z) + suffix) == Triple(x, y, z)
  {
    var s := Triple(x, y, z) + suffix;
    var a, b, c := |x|, |x| + 1 + |y|, |x| + 1 + |y| + 1 + |z|;
    assert s[a] == '.' && s[b] == '.';
    assert forall j :: 0 <= j < a ==> s[j] == x[j];
    assert forall j :: a + 1 <= j < b ==> s[j] == y[j - a - 1];
    assert forall j :: b + 1 <= j < c ==> s[j] == z[j - b - 1];
    DigitsThen(s, 0, a);
    DigitsThen(s, a + 1, b);
    if suffix != "" { assert s[c] == suffix[0]; }
    DigitsThen(s, b + 1, c);
    assert s[..c] == Triple(x, y, z);
  }

  /** A triple splits on `.` into its three runs. */
  lemma SplitTriple(x: string, y: string, z: string)
    requires AllDigits(x) && AllDigits(y) && AllDigits(z)
    ensures Split(Triple(x, y, z), '.') == [x, y, z]
  {
    var parts := [x, y, z];
    forall i | 0 <= i < 3 ensures '.' !in parts[i] {
      if '.' in parts[i] {
        var j :| 0 <= j < |parts[i]| && parts[i][j] == '.';
      }
    }
    assert Join(parts, ".") == Triple(x, y, z) by {
      assert parts[1..] == [y, z] && [y, z][1..] == [z];
      assert Join([z], ".") == z;
      assert Join([y, z], ".") == y + "." + z;
    }
    SplitJoin(parts, '.');
  }

  /**
   * `x.y.z` followed by anything that does not start with a digit is
   * compared as the three numbers `x`, `y`, `z`: suffixes such as
   * `-abc-dirty` do not count.
   */
  lemma ComponentsOfTriple(x: string, y: string, z: string, suffix: string)
    requires x != "" && y != "" && z != "" && AllDigits(x) && AllDigits(y) && AllDigits(z)
    requires suffix == "" || !IsDigit(suffix[0])
    ensures Components(Triple(x, y, z) + suffix) == [DecimalValue(x), DecimalValue(y), DecimalValue(z)]
  {
    var t := Triple(x, y, z) + suffix;
    assert t[0] == x[0] && IsDigit(x[0]);
    assert StripV(t) == t;
    MainVersionOfTriple(x, y, z, suffix);
    SplitTriple(x, y, z);
    var r := Numbers([x, y, z]);
    assert r[0] == DecimalValue(x) && r[1] == DecimalValue(y) && r[2] == DecimalValue(z);
  }

  /** A leading `v` is dropped before anything else: `v1.2.3` and `1.2.3` have the same components. */
  lemma ComponentsStripV(s: string)
    requires s == "" || s[0] != 'v'
    ensures Components("v" + s) == Components(s)
  {
    assert ("v" + s)[1..] == s;
  }

  /** Two versions that share `x.y.z` compare equal whatever follows. */
  lemma SuffixIgnored(x: string, y: string, z: string, suffix1: string, suffix2: string)
    requires x != "" && y != "" && z != "" && AllDigits(x) && AllDigits(y) && AllDigits(z)
    requires suffix1 == "" || !IsDigit(suffix1[0])
    requires suffix2 == "" || !IsDigit(suffix2[0])
    ensures CompareVersions(Triple(x, y, z) + suffix1, "v" + (Triple(x, y, z) + suffix2)) == 0
  {
    ComponentsOfTriple(x, y, z, suffix1);
    ComponentsOfTriple(x, y, z, suffix2);
    var t2 := Triple(x, y, z) + suffix2;
    assert t2[0] == x[0];
    ComponentsStripV(t2);
    CompareFromAntisymmetric(Components(Triple(x, y, z) + suffix1), Components(Triple(x, y, z) + suffix1), 0);
  }

  /** A leading `v` is dropped before anything else: `v1.2.3` and `1.2.3` compare equal. */
  lemma StripVPrefix(s: string, other: string)
    requires s == "" || s[0] != 'v'
    ensures CompareVersions("v" + s, other) == CompareVersions(s, other)
  {
    ComponentsStripV(s);
  }

  lemma ComponentsOfOneTwo()
    ensures Components("1.2") == [1, 2]
  {
    DecimalRoundTrip(1);
    DecimalRoundTrip(2);
    assert MainVersionEnd("1.2") == 0 by {
      DigitsThen("1.2", 0, 1);
      DigitsThen("1.2", 2, 3);
    }
    assert Split("1.2", '.') == ["1", "2"] by {
      FindCharAt("1.2", '.', 0, 1);
      assert "1.2"[..1] == "1" && "1.2"[2..] == "2";
      FindCharAt("2", '.', 0, 1);
      assert Split("2", '.') == ["2"];
    }
  }

  lemma ComponentsOfOneTwoZero()
    ensures Components("1.2.0") == [1, 2, 0]
  {
    DecimalRoundTrip(1);
    DecimalRoundTrip(2);
    DecimalRoundTrip(0);
    ComponentsOfTriple("1", "2", "0", "");
    assert Triple("1", "2", "0") + "" == "1.2.0";
  }

  /** `1.2` and `1.2.0` are the same version. */
  lemma MissingComponentIsZero()
    ensures CompareVersions("1.2", "1.2.0") == 0
  {
    ComponentsOfOneTwo();
    ComponentsOfOneTwoZero();
    ComparePadded([1, 2], [1, 2, 0]);
    assert [1, 2] + [0] == [1, 2, 0];
    CompareFromAntisymmetric([1, 2, 0], [1, 2, 0], 0);
  }
}
