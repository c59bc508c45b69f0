# Command menu: a verified model

This project models the decision logic of the global command menu of the CRM
front end (`CommandMenu`, opened with ctrl+k / meta+k). For a search text
and the three remote search responses, it decides two things:

- which of the five static "Go to …" navigation commands appear;
- which result groups (People, Companies, Notes) appear, with what items.

The parts of the model:

- `TextOps` covers the string operations the component relies on:
  - ASCII upper-casing (`toUpperCase`);
  - `join('')`;
  - substring containment (`includes`).
- `CommandMatcher` covers:
  - the static command list;
  - the exact shortcut match (`find`);
  - the partial match (`filter`);
  - lemmas about both, in general and over the five static commands.
- `CommandMenu` covers:
  - the rendered groups and items, in order, as the value `Render` returns;
  - lemmas about which groups are shown, where, and with which items, keys and routes.
- `Wrappers` holds the `Option` type. `None` stands for a response that has not arrived, and for an exact match that was not found.

Of the search and the shortcut, only the search is upper-cased: the shortcut
letters are joined as written in both comparisons (lines 109 and 231). The
partial comparison also upper-cases the label (line 232). The exact match
ignores case only because every static shortcut letter is upper case.

- `CommandMatcher.ExactMatchIgnoresCase` shows that the exact match is still case-insensitive while every shortcut letter is upper case, as it is in the static list.
- `CommandMatcher.LowerCaseShortcutNeverMatches` shows what would happen with a lower-case shortcut: it could never match exactly.

## Model

| member | source | states |
|---|---|---|
| TextOps.Upper | front/src/modules/command-menu/components/CommandMenu.tsx:109 | `toUpperCase` on ASCII keeps the length, upper-cases each character and leaves no lower-case letter |
| TextOps.UpperIdempotent | front/src/modules/command-menu/components/CommandMenu.tsx:231-232 | upper-casing an already upper-cased search changes nothing |
| TextOps.Join | front/src/modules/command-menu/components/CommandMenu.tsx:109 | `join('')` is empty exactly when every part is empty |
| TextOps.JoinAppend | front/src/modules/command-menu/components/CommandMenu.tsx:109 | joining a concatenation of parts is the concatenation of the joins |
| TextOps.Contains | front/src/modules/command-menu/components/CommandMenu.tsx:231-232 | `s.includes(t)`: the empty search is contained in every text, and a contained text is never longer than the text it is found in |
| TextOps.ContainsIffOccurs | front/src/modules/command-menu/components/CommandMenu.tsx:231-232 | `includes` holds exactly when the searched text occurs at some position |
| TextOps.NotContainedWithoutChar | front/src/modules/command-menu/components/CommandMenu.tsx:231-232 | a search holding a character the text lacks is not included in it |
| CommandMatcher.Commands | front/src/modules/command-menu/components/CommandMenu.tsx:80-106 | the five static commands, with their routes, labels and shortcut letters, in declaration order |
| CommandMatcher.IsExactMatch | front/src/modules/command-menu/components/CommandMenu.tsx:109 | a command matches exactly when its shortcut letters, joined as written, equal the upper-cased search |
| CommandMatcher.IsPartialMatch | front/src/modules/command-menu/components/CommandMenu.tsx:230-232 | a command matches partially when its joined shortcut or its upper-cased label contains the upper-cased search |
| CommandMatcher.FindExact | front/src/modules/command-menu/components/CommandMenu.tsx:108-110 | no result exactly when no command's joined shortcut equals the upper-cased search; otherwise the first such command in list order |
| CommandMatcher.FilterPartial | front/src/modules/command-menu/components/CommandMenu.tsx:228-233 | keeps exactly the commands whose joined shortcut or upper-cased label contains the upper-cased search |
| CommandMatcher.FilterPartialIsSubsequence | front/src/modules/command-menu/components/CommandMenu.tsx:228-233 | the kept commands keep their declaration order |
| CommandMatcher.FilterPartialCounts | front/src/modules/command-menu/components/CommandMenu.tsx:228-233 | each matching command is kept as often as the list holds it, and every other command is dropped |
| CommandMatcher.FilterPartialKeepsAllIff | front/src/modules/command-menu/components/CommandMenu.tsx:228-233 | the filter returns the whole list if and only if every command matches |
| CommandMatcher.FilterNoneMatch | front/src/modules/command-menu/components/CommandMenu.tsx:228-233 | when no command matches, the Navigate list is empty |
| CommandMatcher.FilterPartialKeepsDistinctJoins | front/src/modules/command-menu/components/CommandMenu.tsx:228-236 | filtering keeps the joined shortcuts pairwise distinct |
| CommandMatcher.ExactMatchIsUnique | front/src/modules/command-menu/components/CommandMenu.tsx:108-110 | with distinct joined shortcuts, at most one command matches exactly, and `find` returns a command iff it is in the list and matches |
| CommandMatcher.ExactMatchIgnoresCase | front/src/modules/command-menu/components/CommandMenu.tsx:84-109 | with upper-case shortcut letters, the exact match compares shortcut and search case-insensitively |
| CommandMatcher.LowerCaseShortcutNeverMatches | front/src/modules/command-menu/components/CommandMenu.tsx:109 | a shortcut holding a lower-case letter never equals the upper-cased search |
| CommandMatcher.EmptySearchShowsAll | front/src/modules/command-menu/components/CommandMenu.tsx:33 | when no joined shortcut is empty, the initial empty search has no exact match and lists every command |
| CommandMatcher.StaticJoins | front/src/modules/command-menu/components/CommandMenu.tsx:80-106 | the five joined shortcuts are GP, GC, GO, GS and GT |
| CommandMatcher.StaticJoinsUpperPairs | front/src/modules/command-menu/components/CommandMenu.tsx:80-106 | every joined shortcut is two letters with no lower-case letter |
| CommandMatcher.StaticJoinsDistinct | front/src/modules/command-menu/components/CommandMenu.tsx:80-106 | the five joined shortcuts are pairwise distinct |
| CommandMatcher.StaticExactMatch | front/src/modules/command-menu/components/CommandMenu.tsx:80-110 | on the static list, `find` returns a command iff it is a listed command that matches exactly |
| CommandMatcher.StaticEmptySearch | front/src/modules/command-menu/components/CommandMenu.tsx:33 | the empty search shows all five commands, without an exact match |
| CommandMatcher.LowerCaseSearchMatchesPeople | front/src/modules/command-menu/components/CommandMenu.tsx:108-110 | "gp" matches "Go to People" exactly |
| CommandMatcher.StaticLabelPrefix | front/src/modules/command-menu/components/CommandMenu.tsx:80-106 | every label starts with "Go to " |
| CommandMatcher.StaticExactNeedsTwoLetters | front/src/modules/command-menu/components/CommandMenu.tsx:80-110 | a search that is not two characters long has no exact match |
| CommandMatcher.LabelLetterMatches | front/src/modules/command-menu/components/CommandMenu.tsx:232 | a search that upper-cases to one upper-cased letter of a label matches that command |
| CommandMatcher.PrefixLetterMatchesEvery | front/src/modules/command-menu/components/CommandMenu.tsx:232 | when every label starts with "Go to ", a search naming one of its letters matches every command |
| CommandMatcher.PrefixLetterMatchesAll | front/src/modules/command-menu/components/CommandMenu.tsx:228-233 | such a search lists all five static commands, without an exact match |
| CommandMatcher.StaticSingleLetterSearches | front/src/modules/command-menu/components/CommandMenu.tsx:228-233 | "G" and "o" list all five commands, without an exact match |
| CommandMatcher.MissingLetterNoPartialMatch | front/src/modules/command-menu/components/CommandMenu.tsx:231-232 | a command whose shortcut is shorter than the search, and whose label lacks one of the search's letters in both cases, does not match |
| CommandMatcher.StaticPeopleSearch | front/src/modules/command-menu/components/CommandMenu.tsx:228-233 | "people" has no exact match and lists only "Go to People" |
| CommandMatcher.FilterOnlyFirst | front/src/modules/command-menu/components/CommandMenu.tsx:228-233 | when only the first command matches, the filter returns it alone |
| CommandMatcher.OtherCommandsMissPeople | front/src/modules/command-menu/components/CommandMenu.tsx:86-106 | no command after the first matches "people" |
| CommandMatcher.PeopleLabelMatches | front/src/modules/command-menu/components/CommandMenu.tsx:232 | a label "Go to People" matches the search "people" |
| CommandMatcher.OtherLabelsLackL | front/src/modules/command-menu/components/CommandMenu.tsx:88-103 | the other four labels have no "l" in either case |
| CommandMenu.HeadingTextsDistinct | front/src/modules/command-menu/components/CommandMenu.tsx:168-227 | the four group headings "Navigate", "People", "Companies" and "Notes" are pairwise different texts |
| CommandMenu.ResultsOrEmpty | front/src/modules/command-menu/components/CommandMenu.tsx:55-78 | `data?.searchResults ?? []`: a response that has not arrived reads as no results |
| CommandMenu.ExactItem | front/src/modules/command-menu/components/CommandMenu.tsx:169-173 | the exact-match item: no key, the command's label, route and shortcuts |
| CommandMenu.CommandItem | front/src/modules/command-menu/components/CommandMenu.tsx:235-240 | a filtered command item: keyed by the joined shortcut, with the command's label, route and shortcuts |
| CommandMenu.PersonItem | front/src/modules/command-menu/components/CommandMenu.tsx:179-182 | a person item: keyed by id, labelled with the display name, linking to "person/" + id |
| CommandMenu.CompanyItem | front/src/modules/command-menu/components/CommandMenu.tsx:198-201 | a company item: keyed by id, labelled with the name, linking to "companies/" + id |
| CommandMenu.NoteItem | front/src/modules/command-menu/components/CommandMenu.tsx:217-220 | a note item: keyed by id, labelled with the title or "" when it is null, opening that activity |
| CommandMenu.ResultGroups | front/src/modules/command-menu/components/CommandMenu.tsx:176-225 | People, Companies and Notes, each only when its list is non-empty: as many groups as there are non-empty lists |
| CommandMenu.Layout | front/src/modules/command-menu/components/CommandMenu.tsx:167-243 | the rendered groups top to bottom: one Navigate group plus one group per non-empty result list |
| CommandMenu.Sections | front/src/modules/command-menu/components/CommandMenu.tsx:149-247 | the menu for a command list, a search and the three responses: the exact match and the filtered commands fed into the layout |
| CommandMenu.Render | front/src/modules/command-menu/components/CommandMenu.tsx:149-247 | the menu the component renders, over its five static commands |
| CommandMenu.NavigateShownOnce | front/src/modules/command-menu/components/CommandMenu.tsx:167-243 | exactly one Navigate group is rendered: first and holding the exact match when there is one, otherwise last and holding the filtered commands |
| CommandMenu.NavigateGroup | front/src/modules/command-menu/components/CommandMenu.tsx:168-173 | a Navigate group; with an exact match it holds that command alone, unkeyed, with its label, route and shortcuts; without one it has one item per filtered command (lines 227-241) |
| CommandMenu.FilteredNavigateItems | front/src/modules/command-menu/components/CommandMenu.tsx:234-241 | without an exact match, the i-th Navigate item is the i-th filtered command, keyed by its joined shortcut, with its label, route and shortcuts |
| CommandMenu.ResultGroupsLackNavigate | front/src/modules/command-menu/components/CommandMenu.tsx:176-225 | the People, Companies and Notes part holds no Navigate group |
| CommandMenu.PeopleGroup | front/src/modules/command-menu/components/CommandMenu.tsx:177-193 | a People group with one item per person result |
| CommandMenu.PeopleGroupItems | front/src/modules/command-menu/components/CommandMenu.tsx:178-182 | the i-th person item is keyed by the i-th id, labelled with its display name and links to "person/" + id |
| CommandMenu.CompaniesGroup | front/src/modules/command-menu/components/CommandMenu.tsx:196-212 | a Companies group with one item per company result |
| CommandMenu.CompaniesGroupItems | front/src/modules/command-menu/components/CommandMenu.tsx:197-201 | the i-th company item is keyed by the i-th id, labelled with its name and links to "companies/" + id |
| CommandMenu.NotesGroup | front/src/modules/command-menu/components/CommandMenu.tsx:215-224 | a Notes group with one item per activity result |
| CommandMenu.NotesGroupItems | front/src/modules/command-menu/components/CommandMenu.tsx:216-220 | the i-th note item is keyed by the i-th id, labelled with its title or "" when it is null, and opens that activity |
| CommandMenu.PeopleShownIffResults | front/src/modules/command-menu/components/CommandMenu.tsx:176-194 | a People group is rendered iff the people list is non-empty, and every People group is `PeopleGroup(people)` |
| CommandMenu.CompaniesShownIffResults | front/src/modules/command-menu/components/CommandMenu.tsx:195-213 | a Companies group is rendered iff the company list is non-empty, and every Companies group is `CompaniesGroup(companies)` |
| CommandMenu.NotesShownIffResults | front/src/modules/command-menu/components/CommandMenu.tsx:214-225 | a Notes group is rendered iff the activity list is non-empty, and every Notes group is `NotesGroup(activities)` |
| CommandMenu.ResultGroupsInOrder | front/src/modules/command-menu/components/CommandMenu.tsx:176-225 | People, Companies and Notes come in that order |
| CommandMenu.FrontInOrder | front/src/modules/command-menu/components/CommandMenu.tsx:167-225 | the exact-match Navigate group comes before People, Companies and Notes |
| CommandMenu.GroupsInFixedOrder | front/src/modules/command-menu/components/CommandMenu.tsx:167-243 | the groups come in the fixed order Navigate (exact), People, Companies, Notes, Navigate (filtered) |
| CommandMenu.MissingResponseIsEmpty | front/src/modules/command-menu/components/CommandMenu.tsx:55-78 | a people, company or activity response that has not arrived renders as an empty one, and its group is not shown |
| CommandMenu.NavigateKeysDistinct | front/src/modules/command-menu/components/CommandMenu.tsx:234-236 | the items of the Navigate group have pairwise distinct keys when the filtered shortcuts are distinct |
| CommandMenu.StaticFilteredJoinsDistinct | front/src/modules/command-menu/components/CommandMenu.tsx:228-236 | whatever the search, the filtered static commands have distinct joined shortcuts |
| CommandMenu.RenderNavigateKeysDistinct | front/src/modules/command-menu/components/CommandMenu.tsx:236 | in the rendered menu, the Navigate items have pairwise distinct React keys |
| CommandMenu.SectionsWithExactMatch | front/src/modules/command-menu/components/CommandMenu.tsx:167-175 | with an exact match, the menu opens with a Navigate group holding that command alone, and no other Navigate group follows |
| CommandMenu.SectionsWithoutExactMatch | front/src/modules/command-menu/components/CommandMenu.tsx:226-243 | without an exact match, the menu ends with a Navigate group listing the filtered commands, and no other Navigate group comes before it |
| CommandMenu.SectionsListAll | front/src/modules/command-menu/components/CommandMenu.tsx:226-243 | when nothing matches exactly and every command matches partially, the menu ends with a Navigate group listing every command in order, and it is the only one |
| CommandMenu.RenderEmptySearch | front/src/modules/command-menu/components/CommandMenu.tsx:226-243 | before anything is typed, the menu ends with a Navigate group listing all five commands in declaration order, each keyed by its joined shortcut, and it is the only Navigate group |
| CommandMenu.RenderShortcutSearch | front/src/modules/command-menu/components/CommandMenu.tsx:167-175 | typing "gp" opens the menu with a Navigate group holding "Go to People" alone, and it is the only Navigate group |

## Left out

- The three GraphQL search hooks (lines 44-78) are not modelled. Their server-side case-insensitive filter and `limit: 3` belong to a remote service. Their responses are arbitrary input sequences, with `None` for a response that has not arrived. No length bound is assumed.
- Opening and closing the menu is not modelled:
  - the hotkey handler (lines 35-42) only calls `openCommandMenu`;
  - the dialog's `onOpenChange` (lines 152-156) only calls `closeCommandMenu`;
  - both are framework callbacks into `useCommandMenu`, which is not part of this model.
- `toUpperCase` is modelled for ASCII letters only. Other characters are left unchanged, unlike full Unicode upper-casing.
- Rendering, styling, icons and avatars are not modelled, including `getLogoUrlFromDomainName` (line 204). The company `domainName` field is not modelled either, since only the avatar uses it.
- `openActivityRightDrawer` (line 218) is a side-panel navigation. It is modelled only as the item's `OpenActivity` action.
- Whether cmdk shows the "No results found." empty state (line 166) is decided by that library, so it is not modelled.
- The commented-out "Create" section (lines 112-147) is dead code.
- `front/src/providers/user/UserProvider.tsx` is not part of this model. It is a React effect over state and an authentication hook that are not shown.
