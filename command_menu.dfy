/**
 * What the command menu renders for a search text: the "Navigate" group of
 * static commands and the People, Companies and Notes groups built from the
 * three remote search results.
 */
module CommandMenu {
  import opened Wrappers
  import opened TextOps
  import opened CommandMatcher

  /** A person search result: its id and display name. */
  datatype Person = Person(id: string, displayName: string)

  /** A company search result: its id and name. */
  datatype Company = Company(id: string, name: string)

  /** An activity (note) search result: its id and its title, which may be null. */
  datatype Activity = Activity(id: string, title: Option<string>)

  /** What selecting an item does: follow a route, or open the side panel of an activity. */
  datatype Action = Route(to: string) | OpenActivity(activityId: string)

  /** One rendered menu item: its React key (absent for the exact-match item),
      its label, its action and the shortcut letters it displays. */
  datatype Item = Item(key: Option<string>, labelText: string, action: Action, shortcuts: seq<string>)

  /** The group headings. */
  datatype Heading = Navigate | People | Companies | Notes

  /** The heading text shown above a group. */
  function HeadingText(h: Heading): string {
    match h
    case Navigate => "Navigate"
    case People => "People"
    case Companies => "Companies"
    case Notes => "Notes"
  }

  /** The four headings read differently, so a heading text names one group kind. */
  lemma HeadingTextsDistinct(a: Heading, b: Heading)
    ensures HeadingText(a) == HeadingText(b) <==> a == b
  {
  }

  /** One rendered group: its heading and its items, in order. */
  datatype Group = Group(heading: Heading, items: seq<Item>)

  /** `data?.searchResults ?? []`: a missing response reads as no results. */
  function ResultsOrEmpty<T>(data: Option<seq<T>>): seq<T> {
    match data
    case None => []
    case Some(results) => results
  }

  /** The single item of the exact-match Navigate group (it has no key). */
  function ExactItem(cmd: Command): Item {
    Item(None, cmd.labelText, Route(cmd.to), cmd.shortcuts)
  }

  /** An item of the filtered Navigate group, keyed by its joined shortcut. */
  function CommandItem(cmd: Command): Item {
    Item(Some(Join(cmd.shortcuts)), cmd.labelText, Route(cmd.to), cmd.shortcuts)
  }

  /** A person item: keyed by the id, linking to `person/<id>`. */
  function PersonItem(p: Person): Item {
    Item(Some(p.id), p.displayName, Route("person/" + p.id), [])
  }

  /** A company item: keyed by the id, linking to `companies/<id>`. */
  function CompanyItem(c: Company): Item {
    Item(Some(c.id), c.name, Route("companies/" + c.id), [])
  }

  /** A note item: keyed by the id, labelled by the title or "" when it is null,
      opening the activity's side panel. */
  function NoteItem(a: Activity): Item {
    Item(Some(a.id), match a.title case Some(t) => t case None => "", OpenActivity(a.id), [])
  }

  /** The Navigate group: the exact match alone when there is one, otherwise
      one item per filtered command. */
  function NavigateGroup(exact: Option<Command>, kept: seq<Command>): (g: Group)
    ensures g.heading == Navigate
    ensures exact.Some? ==> g.items == [Item(None, exact.value.labelText, Route(exact.value.to), exact.value.shortcuts)]
    ensures exact.None? ==> |g.items| == |kept|
  {
    match exact
    case Some(c) => Group(Navigate, [ExactItem(c)])
    case None => Group(Navigate, seq(|kept|, i requires 0 <= i < |kept| => CommandItem(kept[i])))
  }

  /** Without an exact match, the Navigate group lists the filtered commands in
      order, each keyed by its joined shortcut. */
  lemma FilteredNavigateItems(kept: seq<Command>)
    ensures forall i :: 0 <= i < |kept| ==>
              NavigateGroup(None, kept).items[i] == Item(Some(Join(kept[i].shortcuts)), kept[i].labelText, Route(kept[i].to), kept[i].shortcuts)
  {
  }

  /** The People group: one item per person, in order. */
  function PeopleGroup(people: seq<Person>): (g: Group)
    ensures g.heading == People && |g.items| == |people|
  {
    Group(People, seq(|people|, i requires 0 <= i < |people| => PersonItem(people[i])))
  }

  /** The Companies group: one item per company, in order. */
  function CompaniesGroup(companies: seq<Company>): (g: Group)
    ensures g.heading == Companies && |g.items| == |companies|
  {
    Group(Companies, seq(|companies|, i requires 0 <= i < |companies| => CompanyItem(companies[i])))
  }

  /** The Notes group: one item per activity, in order. */
  function NotesGroup(activities: seq<Activity>): (g: Group)
    ensures g.heading == Notes && |g.items| == |activities|
  {
    Group(Notes, seq(|activities|, i requires 0 <= i < |activities| => NoteItem(activities[i])))
  }

  /** Each person item is keyed by the id, labelled by the display name and links to `person/<id>`. */
  lemma PeopleGroupItems(people: seq<Person>)
    ensures forall i :: 0 <= i < |people| ==>
              PeopleGroup(people).items[i] == Item(Some(people[i].id), people[i].displayName, Route("person/" + people[i].id), [])
  {
  }

  /** Each company item is keyed by the id, labelled by the name and links to `companies/<id>`. */
  lemma CompaniesGroupItems(companies: seq<Company>)
    ensures forall i :: 0 <= i < |companies| ==>
              CompaniesGroup(companies).items[i] == Item(Some(companies[i].id), companies[i].name, Route("companies/" + companies[i].id), [])
  {
  }

  /** Each note item is keyed by the id, labelled by the title ("" when null) and opens the activity. */
  lemma NotesGroupItems(activities: seq<Activity>)
    ensures forall i :: 0 <= i < |activities| ==>
              && NotesGroup(activities).items[i].key == Some(activities[i].id)
              && NotesGroup(activities).items[i].action == OpenActivity(activities[i].id)
              && NotesGroup(activities).items[i].labelText == (if activities[i].title.Some? then activities[i].title.value else "")
  {
  }

  /** The group `g` when `shown`, nothing otherwise. */
  function GroupIf(shown: bool, g: Group): seq<Group> {
    if shown then [g] else []
  }

  /** The rendered list, top to bottom, given the exact match (if any), the
      filtered commands and the three result lists: the exact-match Navigate
      group, People, Companies and Notes each when non-empty, and the filtered
      Navigate group when there is no exact match. */
  function Layout(exact: Option<Command>, kept: seq<Command>, people: seq<Person>,
                  companies: seq<Company>, activities: seq<Activity>): (r: seq<Group>)
    ensures |r| == 1 + |ResultGroups(people, companies, activities)|
  {
    GroupIf(exact.Some?, NavigateGroup(exact, kept))
    + ResultGroups(people, companies, activities)
    + GroupIf(exact.None?, NavigateGroup(exact, kept))
  }

  /** People, Companies and Notes, each only when its result list is non-empty. */
  function ResultGroups(people: seq<Person>, companies: seq<Company>, activities: seq<Activity>): (r: seq<Group>)
    ensures |r| == (if |people| > 0 then 1 else 0) + (if |companies| > 0 then 1 else 0) + (if |activities| > 0 then 1 else 0)
  {
    GroupIf(|people| > 0, PeopleGroup(people))
    + GroupIf(|companies| > 0, CompaniesGroup(companies))
    + GroupIf(|activities| > 0, NotesGroup(activities))
  }

  /** The groups the menu renders for the command list `cmds`, `search` and the
      three search responses (`None` for a response that has not arrived). */
  function Sections(cmds: seq<Command>, search: string, peopleData: Option<seq<Person>>,
                    companyData: Option<seq<Company>>, activityData: Option<seq<Activity>>): seq<Group>
  {
    Layout(FindExact(cmds, search), FilterPartial(cmds, search),
           ResultsOrEmpty(peopleData), ResultsOrEmpty(companyData), ResultsOrEmpty(activityData))
  }

  /** The menu as the component renders it, over its five static commands. */
  function Render(search: string, peopleData: Option<seq<Person>>, companyData: Option<seq<Company>>,
                  activityData: Option<seq<Activity>>): seq<Group>
  {
    Sections(Commands, search, peopleData, companyData, activityData)
  }

  // ----- group gating and order -----

  /** No group of `gs` has heading `h`. */
  predicate Lacks(gs: seq<Group>, h: Heading) {
    forall k :: 0 <= k < |gs| ==> gs[k].heading != h
  }

  /** Two lists of groups without heading `h` make one without it. */
  lemma LacksAppend(a: seq<Group>, b: seq<Group>, h: Heading)
    requires Lacks(a, h) && Lacks(b, h)
    ensures Lacks(a + b, h)
  {
    assert forall k :: |a| <= k < |a + b| ==> (a + b)[k] == b[k - |a|];
  }

  /** In `pre + middle + post`, where one of `pre` and `post` is `[g]` and the
      other is empty, and no group of `middle` has `g`'s heading, `g` is the only
      group with that heading. */
  lemma SingleGroupBetween(pre: seq<Group>, middle: seq<Group>, post: seq<Group>, g: Group)
    requires (pre == [g] && post == []) || (pre == [] && post == [g])
    requires Lacks(middle, g.heading)
    ensures var r := pre + middle + post;
            && (exists k :: 0 <= k < |r| && r[k].heading == g.heading)
            && forall k :: 0 <= k < |r| && r[k].heading == g.heading ==> r[k] == g && k == (if pre == [] then |r| - 1 else 0)
  {
    var r := pre + middle + post;
    if pre == [g] {
      assert r[0] == g;
      assert forall k :: 1 <= k < |r| ==> r[k] == middle[k - 1];
    } else {
      assert r[|middle|] == g;
      assert forall k :: 0 <= k < |middle| ==> r[k] == middle[k];
    }
  }

  /** In `pre + GroupIf(shown, g) + post`, where no group of `pre` or `post` has
      `g`'s heading, a group with that heading is there exactly when `shown`, and
      it is `g`. */
  lemma OptionalGroupBetween(pre: seq<Group>, shown: bool, g: Group, post: seq<Group>)
    requires Lacks(pre, g.heading) && Lacks(post, g.heading)
    ensures var r := pre + GroupIf(shown, g) + post;
            && ((exists k :: 0 <= k < |r| && r[k].heading == g.heading) <==> shown)
            && forall k :: 0 <= k < |r| && r[k].heading == g.heading ==> r[k] == g
  {
    var mid := GroupIf(shown, g);
    var r := pre + mid + post;
    assert forall k :: 0 <= k < |pre| ==> r[k] == pre[k];
    assert forall k :: 0 <= k < |mid| ==> r[|pre| + k] == mid[k];
    assert forall k :: 0 <= k < |post| ==> r[|pre| + |mid| + k] == post[k];
    if shown {
      assert r[|pre|] == g;
    }
  }

  /** Exactly one Navigate group is rendered: first when there is an exact
      match, last otherwise. */
  lemma NavigateShownOnce(exact: Option<Command>, kept: seq<Command>, people: seq<Person>,
                          companies: seq<Company>, activities: seq<Activity>)
    ensures var r := Layout(exact, kept, people, companies, activities);
            exists k :: 0 <= k < |r| && r[k].heading == Navigate
    ensures var r := Layout(exact, kept, people, companies, activities);
            forall k :: 0 <= k < |r| && r[k].heading == Navigate ==>
              r[k] == NavigateGroup(exact, kept) && k == (if exact.Some? then 0 else |r| - 1)
  {
    ResultGroupsLackNavigate(people, companies, activities);
    var nav := NavigateGroup(exact, kept);
    assert nav.heading == Navigate;
    SingleGroupBetween(GroupIf(exact.Some?, nav), ResultGroups(people, companies, activities), GroupIf(exact.None?, nav), nav);
    var r := Layout(exact, kept, people, companies, activities);
    assert r == GroupIf(exact.Some?, nav) + ResultGroups(people, companies, activities) + GroupIf(exact.None?, nav);
    assert exists k :: 0 <= k < |r| && r[k].heading == nav.heading;
  }

  /** The result groups are never Navigate groups. */
  lemma ResultGroupsLackNavigate(people: seq<Person>, companies: seq<Company>, activities: seq<Activity>)
    ensures Lacks(ResultGroups(people, companies, activities), Navigate)
  {
    var a, b, c := GroupIf(|people| > 0, PeopleGroup(people)), GroupIf(|companies| > 0, CompaniesGroup(companies)),
                   GroupIf(|activities| > 0, NotesGroup(activities));
    LacksAppend(a, b, Navigate);
    LacksAppend(a + b, c, Navigate);
  }

  /** A Navigate-only part of the menu has no group with heading `h` other than Navigate. */
  lemma NavigatePartLacks(shown: bool, exact: Option<Command>, kept: seq<Command>, h: Heading)
    requires h != Navigate
    ensures Lacks(GroupIf(shown, NavigateGroup(exact, kept)), h)
  {
  }

  /** The People group is rendered exactly when there are people results; its
      items are the results in order, each keyed by its id, labelled by its
      display name and linking to `person/<id>`. */
  lemma PeopleShownIffResults(exact: Option<Command>, kept: seq<Command>, people: seq<Person>,
                              companies: seq<Company>, activities: seq<Activity>)
    ensures var r := Layout(exact, kept, people, companies, activities);
            && ((exists k :: 0 <= k < |r| && r[k].heading == People) <==> |people| > 0)
            && forall k :: 0 <= k < |r| && r[k].heading == People ==> r[k] == PeopleGroup(people)
  {
    var g := PeopleGroup(people);
    var a, b := GroupIf(exact.Some?, NavigateGroup(exact, kept)), GroupIf(|people| > 0, g);
    var c, d := GroupIf(|companies| > 0, CompaniesGroup(companies)), GroupIf(|activities| > 0, NotesGroup(activities));
    var e := GroupIf(exact.None?, NavigateGroup(exact, kept));
    assert Layout(exact, kept, people, companies, activities) == a + b + (c + d + e);
    NavigatePartLacks(exact.Some?, exact, kept, People);
    NavigatePartLacks(exact.None?, exact, kept, People);
    LacksAppend(c, d, People);
    LacksAppend(c + d, e, People);
    OptionalGroupBetween(a, |people| > 0, g, c + d + e);
  }

  /** The Companies group is rendered exactly when there are company results; its
      items are the results in order, each keyed by its id, labelled by its name
      and linking to `companies/<id>`. */
  lemma CompaniesShownIffResults(exact: Option<Command>, kept: seq<Command>, people: seq<Person>,
                                 companies: seq<Company>, activities: seq<Activity>)
    ensures var r := Layout(exact, kept, people, companies, activities);
            && ((exists k :: 0 <= k < |r| && r[k].heading == Companies) <==> |companies| > 0)
            && forall k :: 0 <= k < |r| && r[k].heading == Companies ==> r[k] == CompaniesGroup(companies)
  {
    var g := CompaniesGroup(companies);
    var a, b := GroupIf(exact.Some?, NavigateGroup(exact, kept)), GroupIf(|people| > 0, PeopleGroup(people));
    var c, d := GroupIf(|companies| > 0, g), GroupIf(|activities| > 0, NotesGroup(activities));
    var e := GroupIf(exact.None?, NavigateGroup(exact, kept));
    assert Layout(exact, kept, people, companies, activities) == (a + b) + c + (d + e);
    HeadLacks(exact, kept, people, Companies);
    TailLacks(exact, kept, activities, Companies);
    OptionalGroupBetween(a + b, |companies| > 0, g, d + e);
  }

  /** The exact-match Navigate part and the People part hold no group with heading `h`. */
  lemma HeadLacks(exact: Option<Command>, kept: seq<Command>, people: seq<Person>, h: Heading)
    requires h != Navigate && h != People
    ensures Lacks(GroupIf(exact.Some?, NavigateGroup(exact, kept)) + GroupIf(|people| > 0, PeopleGroup(people)), h)
  {
    NavigatePartLacks(exact.Some?, exact, kept, h);
    LacksAppend(GroupIf(exact.Some?, NavigateGroup(exact, kept)), GroupIf(|people| > 0, PeopleGroup(people)), h);
  }

  /** The Notes part and the filtered Navigate part hold no group with heading `h`. */
  lemma TailLacks(exact: Option<Command>, kept: seq<Command>, activities: seq<Activity>, h: Heading)
    requires h != Navigate && h != Notes
    ensures Lacks(GroupIf(|activities| > 0, NotesGroup(activities)) + GroupIf(exact.None?, NavigateGroup(exact, kept)), h)
  {
    NavigatePartLacks(exact.None?, exact, kept, h);
    LacksAppend(GroupIf(|activities| > 0, NotesGroup(activities)), GroupIf(exact.None?, NavigateGroup(exact, kept)), h);
  }

  /** The Notes group is rendered exactly when there are activity results; its
      items are the results in order, each keyed by its id, labelled by its title
      ("" when the title is null) and opening that activity. */
  lemma NotesShownIffResults(exact: Option<Command>, kept: seq<Command>, people: seq<Person>,
                             companies: seq<Company>, activities: seq<Activity>)
    ensures var r := Layout(exact, kept, people, companies, activities);
            && ((exists k :: 0 <= k < |r| && r[k].heading == Notes) <==> |activities| > 0)
            && forall k :: 0 <= k < |r| && r[k].heading == Notes ==> r[k] == NotesGroup(activities)
  {
    var g := NotesGroup(activities);
    var a, b := GroupIf(exact.Some?, NavigateGroup(exact, kept)), GroupIf(|people| > 0, PeopleGroup(people));
    var c, d := GroupIf(|companies| > 0, CompaniesGroup(companies)), GroupIf(|activities| > 0, g);
    var e := GroupIf(exact.None?, NavigateGroup(exact, kept));
    assert Layout(exact, kept, people, companies, activities) == (a + b + c) + d + e;
    HeadLacks(exact, kept, people, Notes);
    LacksAppend(a + b, c, Notes);
    NavigatePartLacks(exact.None?, exact, kept, Notes);
    OptionalGroupBetween(a + b + c, |activities| > 0, g, e);
  }

  /** The place of a group in the menu: the exact-match Navigate group first,
      then People, Companies, Notes, and the filtered Navigate group last. */
  function Slot(h: Heading, exact: bool): nat {
    match h
    case Navigate => if exact then 0 else 4
    case People => 1
    case Companies => 2
    case Notes => 3
  }

  /** The groups of `gs` come in strictly increasing slots. */
  predicate Ascending(gs: seq<Group>, exact: bool) {
    forall k, l :: 0 <= k < l < |gs| ==> Slot(gs[k].heading, exact) < Slot(gs[l].heading, exact)
  }

  /** Every group of `gs` has a slot in `[lo, hi)`. */
  predicate SlotsIn(gs: seq<Group>, exact: bool, lo: nat, hi: nat) {
    forall k :: 0 <= k < |gs| ==> lo <= Slot(gs[k].heading, exact) < hi
  }

  /** Ascending groups followed by ascending groups of higher slots are ascending. */
  lemma AppendInOrder(a: seq<Group>, b: seq<Group>, exact: bool, lo: nat, mid: nat, hi: nat)
    requires Ascending(a, exact) && Ascending(b, exact)
    requires lo <= mid <= hi && SlotsIn(a, exact, lo, mid) && SlotsIn(b, exact, mid, hi)
    ensures Ascending(a + b, exact) && SlotsIn(a + b, exact, lo, hi)
  {
    var r := a + b;
    forall k, l | 0 <= k < l < |r| ensures Slot(r[k].heading, exact) < Slot(r[l].heading, exact) {
      if l < |a| {
        assert r[k] == a[k] && r[l] == a[l];
      } else if k < |a| {
        assert r[k] == a[k] && r[l] == b[l - |a|];
      } else {
        assert r[k] == b[k - |a|] && r[l] == b[l - |a|];
      }
    }
    forall k | 0 <= k < |r| ensures lo <= Slot(r[k].heading, exact) < hi {
      if k < |a| {
        assert r[k] == a[k];
      } else {
        assert r[k] == b[k - |a|];
      }
    }
  }

  /** At most one group is trivially ascending, and it sits in its own slot. */
  lemma GroupIfInSlot(shown: bool, g: Group, exact: bool, n: nat)
    requires shown ==> Slot(g.heading, exact) == n
    ensures Ascending(GroupIf(shown, g), exact) && SlotsIn(GroupIf(shown, g), exact, n, n + 1)
  {
  }

  /** The groups appear in the fixed order Navigate (exact match), People,
      Companies, Notes, Navigate (filtered). */
  lemma GroupsInFixedOrder(exact: Option<Command>, kept: seq<Command>, people: seq<Person>,
                           companies: seq<Company>, activities: seq<Activity>)
    ensures Ascending(Layout(exact, kept, people, companies, activities), exact.Some?)
  {
    var x := exact.Some?;
    var nav := NavigateGroup(exact, kept);
    var front := GroupIf(x, nav) + ResultGroups(people, companies, activities);
    FrontInOrder(exact, kept, people, companies, activities);
    GroupIfInSlot(exact.None?, nav, x, 4);
    AppendInOrder(front, GroupIf(exact.None?, nav), x, 0, 4, 5);
  }

  /** Up to the filtered Navigate group, the groups come in slots 0 to 3, in order. */
  lemma FrontInOrder(exact: Option<Command>, kept: seq<Command>, people: seq<Person>,
                     companies: seq<Company>, activities: seq<Activity>)
    ensures var front := GroupIf(exact.Some?, NavigateGroup(exact, kept)) + ResultGroups(people, companies, activities);
            Ascending(front, exact.Some?) && SlotsIn(front, exact.Some?, 0, 4)
  {
    var x := exact.Some?;
    GroupIfInSlot(x, NavigateGroup(exact, kept), x, 0);
    ResultGroupsInOrder(people, companies, activities, x);
    AppendInOrder(GroupIf(x, NavigateGroup(exact, kept)), ResultGroups(people, companies, activities), x, 0, 1, 4);
  }

  /** People, Companies and Notes come in slots 1, 2 and 3, in order. */
  lemma ResultGroupsInOrder(people: seq<Person>, companies: seq<Company>, activities: seq<Activity>, x: bool)
    ensures Ascending(ResultGroups(people, companies, activities), x) && SlotsIn(ResultGroups(people, companies, activities), x, 1, 4)
  {
    var p1, p2 := GroupIf(|people| > 0, PeopleGroup(people)), GroupIf(|companies| > 0, CompaniesGroup(companies));
    var p3 := GroupIf(|activities| > 0, NotesGroup(activities));
    GroupIfInSlot(|people| > 0, PeopleGroup(people), x, 1);
    GroupIfInSlot(|companies| > 0, CompaniesGroup(companies), x, 2);
    AppendInOrder(p1, p2, x, 1, 2, 3);
    GroupIfInSlot(|activities| > 0, NotesGroup(activities), x, 3);
    AppendInOrder(p1 + p2, p3, x, 1, 3, 4);
  }

  /** A missing response renders exactly as an empty one, and its group is not shown. */
  lemma MissingResponseIsEmpty(cmds: seq<Command>, search: string, peopleData: Option<seq<Person>>,
                               companyData: Option<seq<Company>>, activityData: Option<seq<Activity>>)
    ensures Sections(cmds, search, None, companyData, activityData) == Sections(cmds, search, Some([]), companyData, activityData)
    ensures Lacks(Sections(cmds, search, None, companyData, activityData), People)
    ensures Sections(cmds, search, peopleData, None, activityData) == Sections(cmds, search, peopleData, Some([]), activityData)
    ensures Lacks(Sections(cmds, search, peopleData, None, activityData), Companies)
    ensures Sections(cmds, search, peopleData, companyData, None) == Sections(cmds, search, peopleData, companyData, Some([]))
    ensures Lacks(Sections(cmds, search, peopleData, companyData, None), Notes)
  {
    var exact, kept := FindExact(cmds, search), FilterPartial(cmds, search);
    var people, companies, activities := ResultsOrEmpty(peopleData), ResultsOrEmpty(companyData), ResultsOrEmpty(activityData);
    PeopleShownIffResults(exact, kept, [], companies, activities);
    CompaniesShownIffResults(exact, kept, people, [], activities);
    NotesShownIffResults(exact, kept, people, companies, []);
  }

  // ----- the menu over the static commands -----

  /** The keys of the Navigate items are pairwise distinct when the filtered
      commands have distinct joined shortcuts (the exact-match group has one item). */
  lemma NavigateKeysDistinct(exact: Option<Command>, kept: seq<Command>)
    requires DistinctJoins(kept)
    ensures var items := NavigateGroup(exact, kept).items;
            forall i, j :: 0 <= i < j < |items| ==> items[i].key != items[j].key
  {
    if exact.None? {
      FilteredNavigateItems(kept);
    }
  }

  /** The Navigate items of the rendered menu have pairwise distinct React keys. */
  lemma RenderNavigateKeysDistinct(search: string, peopleData: Option<seq<Person>>,
                                   companyData: Option<seq<Company>>, activityData: Option<seq<Activity>>)
    ensures var r := Render(search, peopleData, companyData, activityData);
            forall k :: 0 <= k < |r| && r[k].heading == Navigate ==>
              forall i, j :: 0 <= i < j < |r[k].items| ==> r[k].items[i].key != r[k].items[j].key
  {
    var exact, kept := FindExact(Commands, search), FilterPartial(Commands, search);
    StaticFilteredJoinsDistinct(search);
    NavigateKeysDistinct(exact, kept);
    NavigateShownOnce(exact, kept, ResultsOrEmpty(peopleData), ResultsOrEmpty(companyData), ResultsOrEmpty(activityData));
  }

  /** Whatever the search, the filtered static commands have distinct joined shortcuts. */
  lemma StaticFilteredJoinsDistinct(search: string)
    ensures DistinctJoins(FilterPartial(Commands, search))
  {
    StaticJoinsDistinct();
    FilterPartialKeepsDistinctJoins(Commands, search);
  }

  /** With an exact match, the menu opens with the Navigate group holding that
      command alone, and no other Navigate group follows. */
  lemma SectionsWithExactMatch(cmds: seq<Command>, search: string, peopleData: Option<seq<Person>>,
                               companyData: Option<seq<Company>>, activityData: Option<seq<Activity>>, c: Command)
    requires FindExact(cmds, search) == Some(c)
    ensures var r := Sections(cmds, search, peopleData, companyData, activityData);
            && |r| > 0 && r[0] == Group(Navigate, [ExactItem(c)])
            && forall k :: 0 <= k < |r| && r[k].heading == Navigate ==> k == 0
  {
    var r := Sections(cmds, search, peopleData, companyData, activityData);
    NavigateShownOnce(Some(c), FilterPartial(cmds, search), ResultsOrEmpty(peopleData),
                      ResultsOrEmpty(companyData), ResultsOrEmpty(activityData));
    assert r[0] == NavigateGroup(Some(c), FilterPartial(cmds, search));
  }

  /** Without an exact match, the menu ends with the Navigate group listing the
      filtered commands, and no other Navigate group comes before it. */
  lemma SectionsWithoutExactMatch(cmds: seq<Command>, search: string, peopleData: Option<seq<Person>>,
                                  companyData: Option<seq<Company>>, activityData: Option<seq<Activity>>)
    requires FindExact(cmds, search) == None
    ensures var r := Sections(cmds, search, peopleData, companyData, activityData);
            && |r| > 0 && r[|r| - 1] == NavigateGroup(None, FilterPartial(cmds, search))
            && forall k :: 0 <= k < |r| && r[k].heading == Navigate ==> k == |r| - 1
  {
    var r := Sections(cmds, search, peopleData, companyData, activityData);
    NavigateShownOnce(None, FilterPartial(cmds, search), ResultsOrEmpty(peopleData),
                      ResultsOrEmpty(companyData), ResultsOrEmpty(activityData));
    assert r[|r| - 1] == NavigateGroup(None, FilterPartial(cmds, search));
  }

  /** The menu `r` ends with a Navigate group listing `cmds` in order, each keyed
      by its joined shortcut, and no other group of `r` is a Navigate group. */
  predicate EndsListing(r: seq<Group>, cmds: seq<Command>) {
    && |r| > 0 && r[|r| - 1].heading == Navigate
    && |r[|r| - 1].items| == |cmds|
    && (forall i :: 0 <= i < |cmds| ==> r[|r| - 1].items[i] == CommandItem(cmds[i]))
    && forall k :: 0 <= k < |r| && r[k].heading == Navigate ==> k == |r| - 1
  }

  /** When nothing matches exactly and every command matches partially, the menu
      ends with the Navigate group listing every command in order, and it is the
      only Navigate group. */
  lemma SectionsListAll(cmds: seq<Command>, search: string, peopleData: Option<seq<Person>>,
                        companyData: Option<seq<Company>>, activityData: Option<seq<Activity>>)
    requires FindExact(cmds, search) == None && FilterPartial(cmds, search) == cmds
    ensures EndsListing(Sections(cmds, search, peopleData, companyData, activityData), cmds)
  {
    SectionsWithoutExactMatch(cmds, search, peopleData, companyData, activityData);
    FilteredNavigateItems(cmds);
  }

  /** Before anything is typed, the menu ends with the Navigate group listing all
      five commands in declaration order, and it is the only Navigate group. */
  lemma RenderEmptySearch(peopleData: Option<seq<Person>>, companyData: Option<seq<Company>>,
                          activityData: Option<seq<Activity>>)
    ensures EndsListing(Render("", peopleData, companyData, activityData), Commands) && |Commands| == 5
  {
    StaticEmptySearch();
    SectionsListAll(Commands, "", peopleData, companyData, activityData);
  }

  /** Typing "gp" opens the menu with "Go to People" alone under Navigate, and
      it is the only Navigate group. */
  lemma RenderShortcutSearch(peopleData: Option<seq<Person>>, companyData: Option<seq<Company>>,
                             activityData: Option<seq<Activity>>)
    ensures var r := Render("gp", peopleData, companyData, activityData);
            && |r| > 0 && r[0] == Group(Navigate, [Item(None, "Go to People", Route("/people"), ["G", "P"])])
            && forall k :: 0 <= k < |r| && r[k].heading == Navigate ==> k == 0
  {
    LowerCaseSearchMatchesPeople();
    SectionsWithExactMatch(Commands, "gp", peopleData, companyData, activityData, Commands[0]);
  }
}
