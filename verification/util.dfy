/**
 * The header-only helpers of src/util/util.hpp: `stripComments`,
 * `contains`, `findIndex`, `implies`, the `ERROR_CODE` constant and the
 * `operator<<` for vectors (with the elements already rendered as text).
 */
module Util {
  import opened CppSize

  /** `ERROR_CODE`, which is `(size_t)-1`. */
  const ErrorCode: SizeT := SizeMax - 1

  /** `pat` occurs in `s` starting at `i`. */
  predicate OccursAt(s: string, pat: string, i: nat) {
    i + |pat| <= |s| && s[i..i + |pat|] == pat
  }

  /** `s.find(pat)` from position `from`: the first occurrence, or `NotFound` for `npos`. */
  function FindFrom(s: string, pat: string, from: nat): (r: Position)
    requires from <= |s|
    ensures r.At? ==> from <= r.at && OccursAt(s, pat, r.at)
    ensures r.At? ==> forall j :: from <= j < r.at ==> !OccursAt(s, pat, j)
    ensures r.NotFound? ==> forall j :: from <= j <= |s| ==> !OccursAt(s, pat, j)
    decreases |s| - from
  {
    if OccursAt(s, pat, from) then At(from)
    else if from == |s| then NotFound
    else FindFrom(s, pat, from + 1)
  }

  /** A found position, or `npos`. */
  datatype Position = NotFound | At(at: nat)

  /** `stripComments(line)`: everything before the first "//", or the whole line. */
  function StripComments(line: string): (r: string)
    ensures r <= line
    ensures forall j :: 0 <= j <= |r| ==> !OccursAt(r, "//", j)
    ensures |r| < |line| ==> OccursAt(line, "//", |r|)
    ensures forall j :: 0 <= j < |r| ==> !OccursAt(line, "//", j)
  {
    var found := FindFrom(line, "//", 0);
    if found.NotFound? then line
    else
      var k := found.at;
      forall j | 0 <= j <= k ensures !OccursAt(line[..k], "//", j) {
        if j + 2 <= k {
          assert !OccursAt(line, "//", j);
          assert line[..k][j..j + 2] == line[j..j + 2];
        }
      }
      line[..k]
  }

  /** Stripping twice is stripping once. */
  lemma StripCommentsIdempotent(line: string)
    ensures StripComments(StripComments(line)) == StripComments(line)
  {
    var r := StripComments(line);
    assert r[..|r|] == r;
  }

  /** A line holding no "//" is kept whole; one holding it loses that marker. */
  lemma StripCommentsRemovesMarker(line: string)
    ensures (exists j :: 0 <= j <= |line| && OccursAt(line, "//", j)) <==> |StripComments(line)| < |line|
  {
    var r := StripComments(line);
    if |r| == |line| {
      assert r == line;
    }
  }

  /** `findIndex(vec, t)`: the position of the first `t`, or `vec.size()` when absent. */
  function FindIndex<T(==)>(v: seq<T>, t: T): (i: nat)
    ensures i <= |v|
    ensures i < |v| ==> v[i] == t
    ensures forall j :: 0 <= j < i ==> v[j] != t
  {
    if |v| == 0 then 0
    else if v[0] == t then 0
    else 1 + FindIndex(v[1..], t)
  }

  /** `contains(vec, t)`: `std::find` did not reach the end. */
  function Contains<T(==)>(v: seq<T>, t: T): (b: bool)
    ensures b <==> t in v
  {
    FindIndex(v, t) != |v|
  }

  /** `contains` and `findIndex` agree: found exactly when the index is in range. */
  lemma ContainsIffFound<T>(v: seq<T>, t: T)
    ensures Contains(v, t) <==> FindIndex(v, t) < |v|
    ensures !Contains(v, t) ==> FindIndex(v, t) == |v|
  {
  }

  /** `implies(a, b)`. */
  function Implies(a: bool, b: bool): (r: bool)
    ensures r <==> (a ==> b)
  {
    !a || b
  }

  /** Elements separated by `sep`: the reference for the vector printer. */
  function Join(sep: string, v: seq<string>): string
    decreases |v|
  {
    if |v| == 0 then ""
    else if |v| == 1 then v[0]
    else Join(sep, v[..|v| - 1]) + sep + v[|v| - 1]
  }

  /**
   * `operator<<` for a vector whose elements print as `v[i]`: "[" then the
   * elements separated by ", " then "]".
   */
  method FormatVector(v: seq<string>) returns (out: string)
    ensures out == "[" + Join(", ", v) + "]"
    ensures |v| == 0 ==> out == "[]"
  {
    out := "[";
    if |v| == 0 {
      out := out + "]";
      return;
    }
    var i := 0;
    while i < |v| - 1
      invariant 0 <= i <= |v| - 1
      invariant out == "[" + (if i == 0 then "" else Join(", ", v[..i]) + ", ")
    {
      if i > 0 {
        assert v[..i + 1][..i] == v[..i];
      }
      out := out + v[i] + ", ";
      i := i + 1;
    }
    if |v| > 1 {
      assert v[..|v| - 1] == v[..|v|][..|v| - 1];
    }
    out := out + v[|v| - 1] + "]";
    assert v[..|v|] == v;
  }
}
