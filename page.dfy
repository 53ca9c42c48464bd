/**
 * The branch-finder page as script.js drives it: the dropdown, the search box,
 * the cards, the status line and the user's marker are fields that the event
 * handlers update in place. Each handler is proved to perform the transition
 * given in module Views and to keep the page consistent.
 */
module Page {
  import opened Wrappers
  import opened Text
  import opened Branches
  import opened Resolver
  import opened Views

  class Locator {
    const dir: seq<Branch>
    var query: string
    var status: string
    var selected: string
    var options: seq<Branch>
    var cards: seq<Branch>
    var activeId: Option<string>
    var userMarker: bool

    function State(): View
      reads this
    {
      View(query, status, selected, options, cards, activeId, userMarker)
    }

    predicate Valid()
      reads this
    {
      Consistent(dir, State())
    }

    /** The first render: every branch in the dropdown and as cards. */
    constructor (dir: seq<Branch>)
      requires DistinctIds(dir)
      ensures this.dir == dir && Valid() && State() == Initial(dir)
    {
      this.dir := dir;
      query, status, selected := "", "", "";
      options, cards := dir, dir;
      activeId, userMarker := None, false;
      new;
      InitialConsistent(dir);
    }

    /** `setActiveBranch(id)`, from a marker, a card, the dropdown or a finder. */
    method SetActiveBranch(id: string)
      requires Valid()
      modifies this
      ensures Valid() && State() == SetActive(dir, old(State()), id)
    {
      SetActivePreservesConsistency(dir, State(), id);
      Highlight(id);
    }

    /** The updates `setActiveBranch` makes to the dropdown, the status line and the cards. */
    method Highlight(id: string)
      modifies this
      ensures State() == SetActive(dir, old(State()), id)
    {
      var found := FindById(dir, id);
      if found.None? {
        return;
      }
      var b := found.value;
      SetActiveFound(dir, State(), b);
      selected, status, cards, activeId := SelectValue(options, id), NearestText(b.name), [b] + Without(dir, b.id), Some(b.id);
    }

    /** The search box's input handler. */
    method Search(text: string)
      requires Valid()
      modifies this
      ensures Valid() && State() == Views.Search(dir, old(State()), text)
    {
      SearchPreservesConsistency(dir, State(), text);
      ShowMatches(text);
    }

    /** The updates the input handler makes: the filtered branches fill the dropdown and the cards. */
    method ShowMatches(text: string)
      modifies this
      ensures State() == Views.Search(dir, old(State()), text)
    {
      var list := FilterBranches(dir, text);
      query, selected, options, cards, activeId := text, "", list, list, None;
    }

    /** The dropdown's change handler; the visitor can only pick one of its options. */
    method ChooseOption(value: string)
      requires Valid() && (value == "" || HasId(options, value))
      modifies this
      ensures Valid() && State() == Choose(dir, old(State()), value)
    {
      ChoosePreservesConsistency(dir, State(), value);
      selected := value;
      if value != "" {
        SetActiveBranch(value);
      }
    }

    /** The reset button's handler. */
    method Reset()
      requires Valid()
      modifies this
      ensures Valid() && State() == Views.Reset(dir, old(State()))
    {
      InitialConsistent(dir);
      query, status, selected, options, cards, activeId, userMarker := "", "", "", dir, dir, None, false;
    }

    /** The "find nearest" button; `centreDist` gives each branch's distance from the map's centre. */
    method FindNearest(centreDist: Branch -> real)
      requires Valid()
      modifies this
      ensures Valid() && State() == Views.FindNearest(dir, old(State()), centreDist)
    {
      var q := ToUpper(Trim(query));
      if q == [] {
        status := PromptText;
        return;
      }
      var outwardMatch := OutwardMatch(dir, q);
      if outwardMatch.Some? {
        SetActiveBranch(outwardMatch.value.id);
        return;
      }
      var best, _ := FindClosestBranchTo(dir, centreDist);
      if best.Some? {
        SetActiveBranch(best.value.id);
      }
    }

    /** The "use my location" button, up to the request to the browser. */
    method RequestLocation(supported: bool)
      requires Valid()
      modifies this
      ensures Valid() && State() == Views.RequestLocation(old(State()), supported)
    {
      if !supported {
        status := UnsupportedText;
        return;
      }
      status := LocatingText;
    }

    /** The success callback; `userDist` gives each branch's distance from the reported position. */
    method LocationFound(userDist: Branch -> real, fixed1: real -> string)
      requires Valid()
      modifies this
      ensures Valid() && State() == Views.LocationFound(dir, old(State()), userDist, fixed1)
    {
      userMarker := true;
      ghost var located := State();
      var best, bestDistance := FindClosestBranchTo(dir, userDist);
      if best.None? {
        status := NoBranchesText;
        return;
      }
      SetActiveBranch(best.value.id);
      assert State() == SetActive(dir, located, best.value.id);
      status := ClosestText(best.value.name, fixed1(bestDistance.km));
    }

    /** The error callback. */
    method LocationFailed(code: int)
      requires Valid()
      modifies this
      ensures Valid() && State() == Views.LocationFailed(old(State()), code)
    {
      if code == 1 {
        status := DeniedText;
      } else {
        status := RetryText;
      }
    }
  }
}
