/** The branch records and the page's fixed directory of them (script.js, `branches`). */
module Branches {
  import opened Wrappers
  import opened ArrayOps

  datatype Branch = Branch(
    id: string,
    name: string,
    area: string,
    outward: string,  // the outward part of the branch's postcode
    lat: real,
    lng: real,
    url: string)

  /** The five branches, in the order the page lists them; nothing ever changes this table. */
  function Table(): seq<Branch> {
    [ Branch("harlow", "Cheese Pizza - Harlow", "Harlow, Essex", "CM20",
             51.7729, 0.1023, "https://example.com/harlow"),
      Branch("stalbans", "Cheese Pizza - St Albans", "St Albans, Hertfordshire", "AL1",
             51.75, -0.3333, "https://cheerzpizza.uk/"),
      Branch("stevenage", "Cheese Pizza - Stevenage", "Stevenage, Hertfordshire", "SG1",
             51.8979, -0.2020, "https://cheesepizzastevenage.co.uk/"),
      Branch("chatham", "Cheese Pizza - Chatham", "Chatham, Kent", "ME4",
             51.38, 0.53, "https://example.com/chatham"),
      Branch("tunbridgewells", "Cheese Pizza - Tunbridge Wells", "Royal Tunbridge Wells, Kent", "TN1",
             51.1328, 0.2636, "https://cheesepizza.uk/") ]
  }

  predicate DistinctIds(dir: seq<Branch>) {
    forall i, j :: 0 <= i < j < |dir| ==> dir[i].id != dir[j].id
  }

  lemma TableIdsDistinct()
    ensures DistinctIds(Table())
  {
  }

  predicate HasId(dir: seq<Branch>, id: string) {
    exists i :: 0 <= i < |dir| && dir[i].id == id
  }

  /** `branches.find(x => x.id === id)`. */
  function FindById(dir: seq<Branch>, id: string): (r: Option<Branch>)
    ensures r.None? <==> !HasId(dir, id)
    ensures r.Some? ==> r.value in dir && r.value.id == id
  {
    Find(dir, (b: Branch) => b.id == id)
  }

  /** `branches.filter(x => x.id !== id)`. */
  function Without(dir: seq<Branch>, id: string): (r: seq<Branch>)
    ensures IsSubsequence(r, dir)
    ensures forall i :: 0 <= i < |r| ==> r[i].id != id
    ensures forall x: Branch :: x.id != id ==> multiset(r)[x] == multiset(dir)[x]
  {
    Filter(dir, (b: Branch) => b.id != id)
  }

  /** With distinct ids, the branch at `k` occurs once and nothing else shares its id. */
  lemma {:induction false} OccursOnce(dir: seq<Branch>, k: nat, x: Branch)
    requires DistinctIds(dir) && k < |dir| && x.id == dir[k].id
    ensures multiset(dir)[x] == if x == dir[k] then 1 else 0
  {
    assert dir == [dir[0]] + dir[1..];
    if k == 0 {
      forall j | 0 <= j < |dir[1..]| ensures dir[1..][j] != x {
        assert dir[j + 1].id != dir[0].id;
      }
    } else {
      assert DistinctIds(dir[1..]);
      OccursOnce(dir[1..], k - 1, x);
      assert dir[0].id != x.id;
    }
  }

  /** Moving one branch to the front, the others after it in table order, is a permutation of the table. */
  lemma MoveToFrontIsPermutation(dir: seq<Branch>, k: nat)
    requires DistinctIds(dir) && k < |dir|
    ensures multiset([dir[k]] + Without(dir, dir[k].id)) == multiset(dir)
  {
    var b := dir[k];
    var r := [b] + Without(dir, b.id);
    forall x: Branch ensures multiset(r)[x] == multiset(dir)[x] {
      if x.id == b.id {
        OccursOnce(dir, k, x);
        var w := Without(dir, b.id);
        assert forall j :: 0 <= j < |w| ==> w[j] != x;
      }
    }
  }
}
