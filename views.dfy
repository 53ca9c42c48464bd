/**
 * The page state that script.js keeps in the DOM and in `userMarker`, and the
 * event handlers as functions from one state to the next. The map itself (view,
 * popups, markers other than the user's) is not part of this state.
 */
module Views {
  import opened Wrappers
  import opened Text
  import opened ArrayOps
  import opened Branches
  import opened Resolver

  datatype View = View(
    query: string,             // the search box's text
    status: string,            // the status line's text
    selected: string,          // the dropdown's value; "" is its leading "Please choose" option
    options: seq<Branch>,      // the branches offered by the dropdown after "Please choose"
    cards: seq<Branch>,        // the branch cards, top to bottom
    activeId: Option<string>,  // the id of the card flagged active, if any
    userMarker: bool)          // whether the "You are here" marker is on the map

  const PromptText: string := "Type an outward code (e.g. TN1, SG1)"
  const UnsupportedText: string := "Geolocation is not supported by your browser."
  const LocatingText: string := "Getting your location\U{2026}"
  const NoBranchesText: string := "No branches found."
  const DeniedText: string := "Location permission denied. Please allow location access."
  const RetryText: string := "Could not get your location. Try again."

  function NearestText(name: string): string {
    "Nearest branch: " + name
  }

  /** `km` is the distance as the page formats it (one decimal place). */
  function ClosestText(name: string, km: string): string {
    "Closest branch: " + name + " (~" + km + " km away)"
  }

  /** What a dropdown reads back once its value is set to `id`: `id` if one of its options carries it, else "". */
  function SelectValue(options: seq<Branch>, id: string): string {
    if HasId(options, id) then id else ""
  }

  /** The page as first rendered: every branch in the dropdown and as cards, nothing selected. */
  function Initial(dir: seq<Branch>): View {
    View("", "", "", dir, dir, None, false)
  }

  /** `setActiveBranch(id)`. */
  function SetActive(dir: seq<Branch>, v: View, id: string): View {
    match FindById(dir, id)
    case None => v
    case Some(b) =>
      v.(selected := SelectValue(v.options, id),
         status := NearestText(b.name),
         cards := [b] + Without(dir, b.id),
         activeId := Some(b.id))
  }

  /** The search box's input handler: both lists show the filtered branches, and the dropdown is rebuilt. */
  function Search(dir: seq<Branch>, v: View, text: string): View {
    var list := FilterBranches(dir, text);
    v.(query := text, selected := "", options := list, cards := list, activeId := None)
  }

  /** The dropdown's change handler, for a value among its options. */
  function Choose(dir: seq<Branch>, v: View, value: string): View
    requires value == "" || HasId(v.options, value)
  {
    var w := v.(selected := value);
    if value != "" then SetActive(dir, w, value) else w
  }

  /** The reset button's handler. */
  function Reset(dir: seq<Branch>, v: View): View {
    v.(query := "", status := "", selected := "", options := dir, cards := dir, activeId := None,
       userMarker := false)
  }

  /** The "find nearest" button: outward-code prefix first, else the branch closest to the map's centre. */
  function FindNearest(dir: seq<Branch>, v: View, centreDist: Branch -> real): View {
    var q := OutwardQuery(v.query);
    if q == [] then v.(status := PromptText)
    else match OutwardMatch(dir, q)
      case Some(b) => SetActive(dir, v, b.id)
      case None =>
        match ClosestTo(dir, centreDist).best
        case Some(b) => SetActive(dir, v, b.id)
        case None => v
  }

  /** The "use my location" button, before the browser answers. */
  function RequestLocation(v: View, supported: bool): View {
    v.(status := if supported then LocatingText else UnsupportedText)
  }

  /** The browser reports a position; `userDist` gives each branch's distance from it, `fixed1` formats kilometres. */
  function LocationFound(dir: seq<Branch>, v: View, userDist: Branch -> real, fixed1: real -> string): View {
    var w := v.(userMarker := true);
    var c := ClosestTo(dir, userDist);
    match c.best
    case None => w.(status := NoBranchesText)
    case Some(b) => SetActive(dir, w, b.id).(status := ClosestText(b.name, fixed1(c.bestDistance.km)))
  }

  /** The browser reports an error with the given code. */
  function LocationFailed(v: View, code: int): View {
    v.(status := if code == 1 then DeniedText else RetryText)
  }

  /** What every reachable page state satisfies. */
  predicate Consistent(dir: seq<Branch>, v: View) {
    DistinctIds(dir)
    && IsSubsequence(v.options, dir)
    && multiset(v.cards) <= multiset(dir)
    && (v.selected == "" || HasId(v.options, v.selected))
    && (v.activeId.Some? ==>
          |v.cards| > 0 && v.cards[0].id == v.activeId.value
          && forall i :: 1 <= i < |v.cards| ==> v.cards[i].id != v.activeId.value)
  }

  lemma {:induction false} SubsequenceOfSelf<T>(s: seq<T>)
    ensures IsSubsequence(s, s)
  {
    if s != [] {
      SubsequenceOfSelf(s[1..]);
    }
  }

  lemma InitialConsistent(dir: seq<Branch>)
    requires DistinctIds(dir)
    ensures Consistent(dir, Initial(dir))
  {
    SubsequenceOfSelf(dir);
  }

  /** `setActiveBranch` ignores an id that is not in the directory. */
  lemma SetActiveUnknownId(dir: seq<Branch>, v: View, id: string)
    requires !HasId(dir, id)
    ensures SetActive(dir, v, id) == v
  {
  }

  /** The fields `setActiveBranch` writes once it has found the branch `b`. */
  lemma SetActiveFound(dir: seq<Branch>, v: View, b: Branch)
    requires FindById(dir, b.id) == Some(b)
    ensures SetActive(dir, v, b.id)
         == v.(selected := SelectValue(v.options, b.id), status := NearestText(b.name),
               cards := [b] + Without(dir, b.id), activeId := Some(b.id))
  {
  }

  /**
   * For a known id: the chosen branch heads the cards, the others follow in
   * directory order, the cards are a permutation of the directory, exactly the
   * first card is flagged active, and the status names the branch.
   */
  lemma SetActiveKnownId(dir: seq<Branch>, v: View, k: nat)
    requires DistinctIds(dir) && k < |dir|
    ensures var w := SetActive(dir, v, dir[k].id);
      w.activeId == Some(dir[k].id)
      && w.status == NearestText(dir[k].name)
      && w.cards[0] == dir[k]
      && IsSubsequence(w.cards[1..], dir)
      && multiset(w.cards) == multiset(dir)
      && (forall i :: 0 <= i < |w.cards| ==> (w.cards[i].id == dir[k].id <==> i == 0))
      && (HasId(v.options, dir[k].id) ==> w.selected == dir[k].id)
      && (!HasId(v.options, dir[k].id) ==> w.selected == "")
      && w.query == v.query && w.options == v.options && w.userMarker == v.userMarker
  {
    var id := dir[k].id;
    var found := FindById(dir, id);
    assert HasId(dir, id);
    var b := found.value;
    assert b == dir[k] by {
      var j :| 0 <= j < |dir| && dir[j] == b;
      assert dir[j].id == dir[k].id;
    }
    var w := SetActive(dir, v, id);
    assert w.cards == [b] + Without(dir, id);
    assert w.cards[1..] == Without(dir, id);
    MoveToFrontIsPermutation(dir, k);
  }

  lemma SetActivePreservesConsistency(dir: seq<Branch>, v: View, id: string)
    requires Consistent(dir, v)
    ensures Consistent(dir, SetActive(dir, v, id))
  {
    if HasId(dir, id) {
      var k :| 0 <= k < |dir| && dir[k].id == id;
      SetActiveKnownId(dir, v, k);
    }
  }

  lemma SearchPreservesConsistency(dir: seq<Branch>, v: View, text: string)
    requires Consistent(dir, v)
    ensures Consistent(dir, Search(dir, v, text))
  {
    var list := FilterBranches(dir, text);
    FilterBranchesSelects(dir, text);
    if AllWhitespace(text) {
      SubsequenceOfSelf(dir);
    } else {
      assert forall b :: multiset(list)[b] <= multiset(dir)[b];
    }
  }

  lemma ChoosePreservesConsistency(dir: seq<Branch>, v: View, value: string)
    requires Consistent(dir, v) && (value == "" || HasId(v.options, value))
    ensures Consistent(dir, Choose(dir, v, value))
  {
    var w := v.(selected := value);
    SetActivePreservesConsistency(dir, w, value);
  }

  /** Reset leaves the page as first rendered, whatever came before; so resetting twice is resetting once. */
  lemma ResetIdempotent(dir: seq<Branch>, v: View)
    ensures Reset(dir, v) == Initial(dir)
    ensures Reset(dir, Reset(dir, v)) == Reset(dir, v)
  {
  }

  /** A blank query only prompts for an outward code. */
  lemma FindNearestBlankQuery(dir: seq<Branch>, v: View, centreDist: Branch -> real)
    requires AllWhitespace(v.query)
    ensures FindNearest(dir, v, centreDist) == v.(status := PromptText)
  {
  }

  /** A query some outward code starts with selects the first such branch in directory order. */
  lemma FindNearestPrefersOutward(dir: seq<Branch>, v: View, centreDist: Branch -> real, k: nat)
    requires DistinctIds(dir) && OutwardQuery(v.query) != []
    requires IsFirstOutward(dir, OutwardQuery(v.query), k)
    ensures FindNearest(dir, v, centreDist) == SetActive(dir, v, dir[k].id)
    ensures var w := FindNearest(dir, v, centreDist);
      w.activeId == Some(dir[k].id) && w.status == NearestText(dir[k].name) && w.cards[0] == dir[k]
  {
    var q := OutwardQuery(v.query);
    var m := OutwardMatch(dir, q);
    assert m.Some?;
    var j :| IsFirstOutward(dir, q, j) && m.value == dir[j];
    assert j == k;
    SetActiveKnownId(dir, v, k);
  }

  /** Only when no outward code starts with the query does the map centre decide. */
  lemma FindNearestFallsBack(dir: seq<Branch>, v: View, centreDist: Branch -> real)
    requires DistinctIds(dir) && dir != [] && OutwardQuery(v.query) != []
    requires forall i :: 0 <= i < |dir| ==> !OutwardMatches(dir[i], OutwardQuery(v.query))
    ensures var w := FindNearest(dir, v, centreDist);
      exists k :: IsFirstMinimum(dir, centreDist, k)
        && w == SetActive(dir, v, dir[k].id)
        && w.activeId == Some(dir[k].id) && w.status == NearestText(dir[k].name) && w.cards[0] == dir[k]
  {
    var q := OutwardQuery(v.query);
    assert OutwardMatch(dir, q) == None;
    var k := ClosestIndex(dir, centreDist);
    assert FindNearest(dir, v, centreDist) == SetActive(dir, v, dir[k].id);
    SetActiveKnownId(dir, v, k);
  }

  /** With no outward match and no branches at all, the button changes nothing. */
  lemma FindNearestEmptyTable(v: View, centreDist: Branch -> real)
    requires OutwardQuery(v.query) != []
    ensures FindNearest([], v, centreDist) == v
  {
  }

  lemma FindNearestPreservesConsistency(dir: seq<Branch>, v: View, centreDist: Branch -> real)
    requires Consistent(dir, v)
    ensures Consistent(dir, FindNearest(dir, v, centreDist))
  {
    var q := OutwardQuery(v.query);
    if q != [] {
      match OutwardMatch(dir, q)
      case Some(b) => SetActivePreservesConsistency(dir, v, b.id);
      case None =>
        match ClosestTo(dir, centreDist).best
        case Some(b) => SetActivePreservesConsistency(dir, v, b.id);
        case None =>
    }
  }

  /** A position from the browser places the user's marker and selects the first closest branch. */
  lemma LocationFoundSelectsClosest(dir: seq<Branch>, v: View, userDist: Branch -> real, fixed1: real -> string)
    requires DistinctIds(dir)
    ensures var w := LocationFound(dir, v, userDist, fixed1);
      w.userMarker
      && (dir == [] ==> w == v.(userMarker := true, status := NoBranchesText))
      && (dir != [] ==>
            exists k :: IsFirstMinimum(dir, userDist, k)
              && w == SetActive(dir, v.(userMarker := true), dir[k].id).(status := w.status)
              && w.activeId == Some(dir[k].id) && w.cards[0] == dir[k]
              && w.status == ClosestText(dir[k].name, fixed1(userDist(dir[k]))))
  {
    if dir != [] {
      var k := ClosestIndex(dir, userDist);
      var u := v.(userMarker := true);
      assert LocationFound(dir, v, userDist, fixed1)
        == SetActive(dir, u, dir[k].id).(status := ClosestText(dir[k].name, fixed1(userDist(dir[k]))));
      SetActiveKnownId(dir, u, k);
    }
  }

  lemma LocationFoundPreservesConsistency(dir: seq<Branch>, v: View, userDist: Branch -> real, fixed1: real -> string)
    requires Consistent(dir, v)
    ensures Consistent(dir, LocationFound(dir, v, userDist, fixed1))
  {
    var w := v.(userMarker := true);
    match ClosestTo(dir, userDist).best
    case None =>
    case Some(b) => SetActivePreservesConsistency(dir, w, b.id);
  }

  /** A location error only changes the status line: code 1 is a refused permission, anything else a retry. */
  lemma LocationFailedKeepsSelection(v: View, code: int)
    ensures var w := LocationFailed(v, code);
      (w.status == DeniedText <==> code == 1)
      && (code != 1 ==> w.status == RetryText)
      && w.(status := v.status) == v
  {
  }
}
