/**
 * The three ways the page picks branches (script.js): the search filter
 * (`filterBranches`), the outward-code lookup of the "find nearest" button,
 * and the closest-branch scan (`findClosestBranchTo`). Great-circle distance
 * is not computed here: every scan takes the distance of each branch from the
 * point of interest as a function `dist`.
 */
module Resolver {
  import opened Wrappers
  import opened Text
  import opened ArrayOps
  import opened Branches

  /** A lower-cased query occurs in the lower-cased name, area or outward code. */
  predicate Matches(b: Branch, q: string) {
    Includes(ToLower(b.name), q) || Includes(ToLower(b.area), q) || Includes(ToLower(b.outward), q)
  }

  /** The search filter's own normalisation: trimmed, then lower-cased. */
  function SearchKey(q: string): string {
    ToLower(Trim(q))
  }

  /** `filterBranches(q)`: the whole directory for a blank query, otherwise the matching branches in directory order. */
  function FilterBranches(dir: seq<Branch>, q: string): seq<Branch> {
    var t := SearchKey(q);
    if t == [] then dir else Filter(dir, (b: Branch) => Matches(b, t))
  }

  /** What the filter keeps, stated on its own so that callers bring these facts in only when they need them. */
  lemma FilterBranchesSelects(dir: seq<Branch>, q: string)
    ensures AllWhitespace(q) ==> FilterBranches(dir, q) == dir
    ensures !AllWhitespace(q) ==>
      var r := FilterBranches(dir, q);
      IsSubsequence(r, dir) &&
      (forall b :: multiset(r)[b] == if Matches(b, SearchKey(q)) then multiset(dir)[b] else 0) &&
      (forall i :: 0 <= i < |r| ==> Matches(r[i], SearchKey(q)))
  {
    assert |SearchKey(q)| == |Trim(q)|;
  }

  /** The search is case-insensitive: upper- or lower-casing the query changes nothing. */
  lemma FilterIgnoresCase(dir: seq<Branch>, q: string)
    ensures FilterBranches(dir, ToUpper(q)) == FilterBranches(dir, q)
    ensures FilterBranches(dir, ToLower(q)) == FilterBranches(dir, q)
  {
    SearchKeyIgnoresCase(q);
  }

  lemma SearchKeyIgnoresCase(q: string)
    ensures SearchKey(ToUpper(q)) == SearchKey(q) && SearchKey(ToLower(q)) == SearchKey(q)
  {
    CaseMappingsKeepWhitespace();
    TrimMap(q, UpperChar);
    TrimMap(q, LowerChar);
    CaseFolds(Trim(q));
  }

  /** The "find nearest" button's normalisation of the search text: trimmed, then upper-cased. */
  function OutwardQuery(q: string): string {
    ToUpper(Trim(q))
  }

  /** The outward lookup is case-insensitive in the query. */
  lemma OutwardQueryIgnoresCase(q: string)
    ensures OutwardQuery(ToLower(q)) == OutwardQuery(q)
  {
    CaseMappingsKeepWhitespace();
    TrimMap(q, LowerChar);
    CaseFolds(Trim(q));
  }

  predicate OutwardMatches(b: Branch, q: string) {
    StartsWith(b.outward, q)
  }

  /** `k` is the first index whose outward code starts with `q`. */
  predicate IsFirstOutward(dir: seq<Branch>, q: string, k: int) {
    0 <= k < |dir| && OutwardMatches(dir[k], q) && forall j :: 0 <= j < k ==> !OutwardMatches(dir[j], q)
  }

  /** `branches.find(b => b.outward.startsWith(q))`. */
  function OutwardMatch(dir: seq<Branch>, q: string): (r: Option<Branch>)
    ensures r.None? <==> forall i :: 0 <= i < |dir| ==> !OutwardMatches(dir[i], q)
    ensures r.Some? ==> exists k :: IsFirstOutward(dir, q, k) && r.value == dir[k]
  {
    var p := (b: Branch) => OutwardMatches(b, q);
    var r := Find(dir, p);
    assert r.Some? ==> exists k :: IsFirst(dir, p, k) && r.value == dir[k];
    r
  }

  /** Whichever branch is first to match is the one the lookup returns. */
  lemma FirstOutwardMatch(dir: seq<Branch>, q: string, k: int)
    requires IsFirstOutward(dir, q, k)
    ensures OutwardMatch(dir, q) == Some(dir[k])
  {
    var r := OutwardMatch(dir, q);
    var k' :| IsFirstOutward(dir, q, k') && r.value == dir[k'];
    assert !(k' < k) && !(k < k');
  }

  /** A distance in kilometres, or the `Infinity` the scan starts from. */
  datatype Distance = Finite(km: real) | Infinity

  predicate Below(d: real, e: Distance) {
    e.Infinity? || d < e.km
  }

  /** What `findClosestBranchTo` returns: `best` (absent for an empty directory) and `bestDistance`. */
  datatype Closest = Closest(best: Option<Branch>, bestDistance: Distance)

  /** Index `k` holds a smallest distance, and every earlier branch is strictly farther. */
  predicate IsFirstMinimum(dir: seq<Branch>, dist: Branch -> real, k: int) {
    0 <= k < |dir|
    && (forall j :: 0 <= j < |dir| ==> dist(dir[k]) <= dist(dir[j]))
    && (forall j :: 0 <= j < k ==> dist(dir[k]) < dist(dir[j]))
  }

  /** What the scan should have found among `dir`: nothing for no branches, otherwise the first closest branch. */
  predicate IsClosest(dir: seq<Branch>, dist: Branch -> real, r: Closest) {
    if dir == [] then r == Closest(None, Infinity)
    else exists k :: 0 <= k < |dir| && IsFirstMinimum(dir, dist, k) && r == Closest(Some(dir[k]), Finite(dist(dir[k])))
  }

  /** One turn of the scan: `b` replaces the best so far only when strictly closer. */
  function Step(prev: Closest, b: Branch, dist: Branch -> real): Closest {
    if Below(dist(b), prev.bestDistance) then Closest(Some(b), Finite(dist(b))) else prev
  }

  /** The scan's result after the branches of `dir`, one after another. */
  function ClosestTo(dir: seq<Branch>, dist: Branch -> real): (r: Closest)
    ensures IsClosest(dir, dist, r)
  {
    if dir == [] then Closest(None, Infinity)
    else
      var prev := ClosestTo(dir[..|dir| - 1], dist);
      StepKeepsClosest(dir, dist, prev);
      Step(prev, dir[|dir| - 1], dist)
  }

  /** The index of the branch the scan picks among a non-empty directory. */
  lemma ClosestIndex(dir: seq<Branch>, dist: Branch -> real) returns (k: nat)
    requires dir != []
    ensures k < |dir| && IsFirstMinimum(dir, dist, k)
    ensures ClosestTo(dir, dist) == Closest(Some(dir[k]), Finite(dist(dir[k])))
  {
    var r := ClosestTo(dir, dist);
    assert IsClosest(dir, dist, r);
    k :| 0 <= k < |dir| && IsFirstMinimum(dir, dist, k) && r == Closest(Some(dir[k]), Finite(dist(dir[k])));
  }

  lemma StepKeepsClosest(dir: seq<Branch>, dist: Branch -> real, prev: Closest)
    requires dir != [] && IsClosest(dir[..|dir| - 1], dist, prev)
    ensures IsClosest(dir, dist, Step(prev, dir[|dir| - 1], dist))
  {
    var prefix := dir[..|dir| - 1];
    var n := |dir| - 1;
    var b := dir[n];
    if prefix == [] {
      assert IsFirstMinimum(dir, dist, 0);
    } else {
      var k :| 0 <= k < |prefix| && IsFirstMinimum(prefix, dist, k)
        && prev == Closest(Some(prefix[k]), Finite(dist(prefix[k])));
      if dist(b) < dist(prefix[k]) {
        assert IsFirstMinimum(dir, dist, n);
      } else {
        assert IsFirstMinimum(dir, dist, k);
      }
    }
  }

  /** `findClosestBranchTo`: the loop keeps the closest branch seen so far, replacing it only when strictly closer. */
  method FindClosestBranchTo(dir: seq<Branch>, dist: Branch -> real) returns (best: Option<Branch>, bestDistance: Distance)
    ensures Closest(best, bestDistance) == ClosestTo(dir, dist)
    ensures best.None? <==> dir == []
    ensures dir == [] ==> bestDistance == Infinity
    ensures best.Some? ==>
      exists k :: IsFirstMinimum(dir, dist, k) && best.value == dir[k] && bestDistance == Finite(dist(dir[k]))
  {
    best, bestDistance := None, Infinity;
    for i := 0 to |dir|
      invariant Closest(best, bestDistance) == ClosestTo(dir[..i], dist)
    {
      var b := dir[i];
      var d := dist(b);
      assert dir[..i + 1][..i] == dir[..i];
      assert ClosestTo(dir[..i + 1], dist) == Step(ClosestTo(dir[..i], dist), b, dist);
      if Below(d, bestDistance) {
        bestDistance := Finite(d);
        best := Some(b);
      }
    }
    assert dir[..|dir|] == dir;
  }
}
