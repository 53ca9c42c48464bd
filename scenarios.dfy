/** The outward-code lookup on the page's own five branches. */
module Scenarios {
  import opened Wrappers
  import opened Text
  import opened Branches
  import opened Resolver

  /** A query of capitals, digits and inner spaces reaches the lookup as typed. */
  lemma QueryKept(q: string)
    requires forall i :: 0 <= i < |q| ==> 'A' <= q[i] <= 'Z' || '0' <= q[i] <= '9' || (q[i] == ' ' && 0 < i < |q| - 1)
    ensures OutwardQuery(q) == q
  {
    TrimUnchanged(q);
    UpperUnchanged(q);
  }

  lemma StevenageFirstForSG1()
    ensures IsFirstOutward(Table(), "SG1", 2)
  {
    var q, dir := "SG1", Table();
    assert !OutwardMatches(dir[0], q) by { assert dir[0].outward[0] != q[0]; }
    assert !OutwardMatches(dir[1], q) by { assert dir[1].outward[0] != q[0]; }
    assert OutwardMatches(dir[2], q) by { assert dir[2].outward[..3] == q; }
  }

  /** An outward code finds its branch. */
  lemma OutwardCodeFindsStevenage()
    ensures OutwardMatch(Table(), OutwardQuery("SG1")) == Some(Table()[2])
  {
    QueryKept("SG1");
    StevenageFirstForSG1();
    FirstOutwardMatch(Table(), "SG1", 2);
  }

  lemma OutwardCodesShort()
    ensures forall i :: 0 <= i < |Table()| ==> |Table()[i].outward| <= 4
  {
  }

  /** A full postcode is not cut down to its outward code: no outward code starts with it. */
  lemma FullPostcodeMatchesNoOutwardCode()
    ensures OutwardMatch(Table(), OutwardQuery("SG1 4AB")) == None
  {
    var q := "SG1 4AB";
    QueryKept(q);
    OutwardCodesShort();
    forall i | 0 <= i < |Table()| ensures !OutwardMatches(Table()[i], q) {
    }
  }

  lemma StAlbansFirstForA()
    ensures IsFirstOutward(Table(), "A", 1)
  {
    var q, dir := "A", Table();
    assert !OutwardMatches(dir[0], q) by { assert dir[0].outward[0] != q[0]; }
    assert OutwardMatches(dir[1], q) by { assert dir[1].outward[..1] == q; }
  }

  /** There is no minimum length: a single letter selects the first outward code it begins. */
  lemma SingleLetterFindsStAlbans()
    ensures OutwardMatch(Table(), OutwardQuery("A")) == Some(Table()[1])
  {
    QueryKept("A");
    StAlbansFirstForA();
    FirstOutwardMatch(Table(), "A", 1);
  }
}
