/** main, lines 198-210: await the schedule search, and unless it resolved
    to a truthy value, turn the host element into the volunteer card. */
module Orchestrator {

  import opened Wrappers
  import opened Weekday
  import opened Schedule
  import opened Dom
  import opened Card

  /** The JavaScript value searchForWednesday resolves to. */
  datatype JsValue = JsTrue | JsFalse | JsUndefined

  function Resolution(o: Outcome): JsValue {
    match o
    case Meets => JsTrue
    case DoesNotMeet => JsFalse
    case Unknown => JsUndefined
  }

  /** `if (meetsWednesday)`: of these three values only true is truthy. */
  predicate Truthy(v: JsValue) {
    v == JsTrue
  }

  /** Whether main goes on to callVolunteers. A failed or faulty search
      resolves to undefined and so shows the card (fail-open). */
  function Injects(o: Outcome): (r: bool)
    ensures r <==> o != Meets
    ensures o == Unknown ==> r
  {
    !Truthy(Resolution(o))
  }

  /** main, with the fetch result and the host element as parameters. When a
      group meets on the weekday the page is left alone; otherwise the host's
      content moves onto the front of a new flip card, which becomes the
      host's only child and starts unflipped. */
  method Run(p: Payload, host: Node) returns (injected: bool, card: Option<Node>)
    requires host.Valid()
    modifies host
    ensures injected == Injects(Search(p)) && injected == card.Some?
    ensures !injected ==> unchanged(host)
    ensures injected ==> host.Valid() && |host.children| == 1
    ensures injected ==> host.Model == Tree(host.name, old(host.classes), [ContainerTree(old(host.Model.kids))])
    ensures injected ==> fresh(host.children[0].Repr) && host.children[0].children == [card.value]
    ensures injected ==> card.value.Model == CardTree(old(host.Model.kids))
    ensures injected ==> fresh(card.value.style) && card.value.style.transform == Unset
  {
    var meetsWednesday := SearchForWednesday(p);
    if Truthy(Resolution(meetsWednesday)) {
      return false, None;
    }
    var container, c := CallVolunteers(host);
    return true, Some(c);
  }

  /** A directory where a later group meets on Wednesday: no card. */
  lemma ScenarioWednesdayGroup()
    ensures var gs := [Some(Group(Some("Sundays 9am, 11am"))), Some(Group(Some("Wednesday 7pm")))];
            Search(Fetched(gs)) == Meets && !Injects(Search(Fetched(gs)))
  {
    SundayService();
    WednesdayEvening();
    SecondGroupMeets("Sundays 9am, 11am", "Wednesday 7pm");
  }

  lemma SecondGroupMeets(first: string, second: string)
    requires !Matches(first) && Matches(second)
    ensures Search(Fetched([Some(Group(Some(first))), Some(Group(Some(second)))])) == Meets
  {
    var gs := [Some(Group(Some(first))), Some(Group(Some(second)))];
    assert Misses(gs, 0) && Hits(gs, 1);
    assert IsFirstHit(gs, 1);
  }

  /** A directory with no Wednesday group: the card is injected. */
  lemma ScenarioNoWednesdayGroup()
    ensures var gs := [Some(Group(Some("Sundays 9am, 11am")))];
            Search(Fetched(gs)) == DoesNotMeet && Injects(Search(Fetched(gs)))
  {
    var gs := [Some(Group(Some("Sundays 9am, 11am")))];
    SundayService();
    assert Misses(gs, 0);
  }

  lemma SundayService()
    ensures !Matches("Sundays 9am, 11am")
  {
    var s := "Sundays 9am, 11am";
    forall j | 0 <= j < |s| ensures Fold(s[j]) != 'w' {
      assert s[j] in "Sundays 9am,1";
    }
    NoWNeverMatches(s);
  }

  lemma WednesdayEvening()
    ensures Matches("Wednesday 7pm")
  {
    assert "Wednesday 7pm"[0..9] == "Wednesday" && FoldAll("Wednesday") == "wednesday";
    MatchesAtOccurrence("Wednesday 7pm", 0, "wednesday");
  }

  /** A failed fetch, like an empty directory, leads to the card. */
  lemma ScenarioFailures()
    ensures Search(FetchFailed) == Unknown && Injects(Search(FetchFailed))
    ensures Search(NotAnArray) == Unknown && Injects(Search(NotAnArray))
    ensures Search(Fetched([])) == DoesNotMeet && Injects(Search(Fetched([])))
  {
  }
}
