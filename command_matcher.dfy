/**
 * The navigation commands of the global command menu and the two ways the
 * search text selects among them: an exact shortcut match (`find`) and, when
 * there is none, a partial match on shortcut or label (`filter`).
 */
module CommandMatcher {
  import opened Wrappers
  import opened TextOps

  /** A static navigation command: its route, its label and its shortcut letters. */
  datatype Command = Command(to: string, labelText: string, shortcuts: seq<string>)

  /** The five commands, in declaration order. */
  const Commands: seq<Command> := [
    Command("/people", "Go to People", ["G", "P"]),
    Command("/companies", "Go to Companies", ["G", "C"]),
    Command("/opportunities", "Go to Opportunities", ["G", "O"]),
    Command("/settings/profile", "Go to Settings", ["G", "S"]),
    Command("/tasks", "Go to Tasks", ["G", "T"])
  ]

  /** The exact-match test of `find`: the shortcut letters, joined as written
      (not upper-cased), equal the upper-cased search text. */
  predicate IsExactMatch(cmd: Command, search: string) {
    Join(cmd.shortcuts) == Upper(search)
  }

  /** The partial-match test of `filter`: the joined shortcut (as written) or the
      upper-cased label contains the upper-cased search text. */
  predicate IsPartialMatch(cmd: Command, search: string) {
    Contains(Join(cmd.shortcuts), Upper(search)) || Contains(Upper(cmd.labelText), Upper(search))
  }

  /** `commands.find(...)`: the first command, in list order, that is an exact
      match; `None` when no command is. */
  function FindExact(cmds: seq<Command>, search: string): (r: Option<Command>)
    ensures r.None? <==> forall i :: 0 <= i < |cmds| ==> !IsExactMatch(cmds[i], search)
    ensures r.Some? ==> exists i :: 0 <= i < |cmds| && cmds[i] == r.value && IsExactMatch(cmds[i], search)
                                    && forall j :: 0 <= j < i ==> !IsExactMatch(cmds[j], search)
  {
    if cmds == [] then None
    else if IsExactMatch(cmds[0], search) then Some(cmds[0])
    else
      var r := FindExact(cmds[1..], search);
      assert forall i :: 1 <= i < |cmds| ==> cmds[i] == cmds[1..][i - 1];
      r
  }

  /** `commands.filter(...)`: the partially matching commands, in list order. */
  function FilterPartial(cmds: seq<Command>, search: string): (r: seq<Command>)
    ensures |r| <= |cmds|
    ensures forall c :: c in r <==> c in cmds && IsPartialMatch(c, search)
  {
    if cmds == [] then []
    else if IsPartialMatch(cmds[0], search) then [cmds[0]] + FilterPartial(cmds[1..], search)
    else FilterPartial(cmds[1..], search)
  }

  /** The filter keeps every matching command as often as the list holds it,
      and drops every other command. */
  lemma {:induction false} FilterPartialCounts(cmds: seq<Command>, search: string)
    ensures forall c :: multiset(FilterPartial(cmds, search))[c] == if IsPartialMatch(c, search) then multiset(cmds)[c] else 0
  {
    if cmds != [] {
      FilterPartialCounts(cmds[1..], search);
      assert cmds == [cmds[0]] + cmds[1..];
    }
  }

  /** `r` is `s` with some elements left out and the rest kept in order. */
  predicate IsSubsequence<T(==)>(r: seq<T>, s: seq<T>) {
    if s == [] then r == []
    else (r != [] && r[0] == s[0] && IsSubsequence(r[1..], s[1..])) || IsSubsequence(r, s[1..])
  }

  /** No two commands of the list have the same joined shortcut. */
  predicate DistinctJoins(cmds: seq<Command>) {
    forall i, j :: 0 <= i < j < |cmds| ==> Join(cmds[i].shortcuts) != Join(cmds[j].shortcuts)
  }

  /** The filter keeps the declaration order of the commands it keeps. */
  lemma {:induction false} FilterPartialIsSubsequence(cmds: seq<Command>, search: string)
    ensures IsSubsequence(FilterPartial(cmds, search), cmds)
  {
    if cmds != [] {
      FilterPartialIsSubsequence(cmds[1..], search);
    }
  }

  /** The filter returns the whole list exactly when every command matches. */
  lemma {:induction false} FilterPartialKeepsAllIff(cmds: seq<Command>, search: string)
    ensures FilterPartial(cmds, search) == cmds <==> forall i :: 0 <= i < |cmds| ==> IsPartialMatch(cmds[i], search)
  {
    if cmds != [] {
      FilterPartialKeepsAllIff(cmds[1..], search);
      if !IsPartialMatch(cmds[0], search) {
        assert |FilterPartial(cmds, search)| < |cmds|;
      } else if FilterPartial(cmds, search) == cmds {
        assert FilterPartial(cmds[1..], search) == FilterPartial(cmds, search)[1..];
        forall i | 1 <= i < |cmds| ensures IsPartialMatch(cmds[i], search) {
          assert cmds[i] == cmds[1..][i - 1];
        }
      } else {
        assert forall i :: 0 <= i < |cmds[1..]| ==> cmds[1..][i] == cmds[i + 1];
      }
    }
  }

  /** Filtering a list with distinct joined shortcuts keeps them distinct, so the
      React keys `cmd.shortcuts.join('')` of the filtered items are unique. */
  lemma {:induction false} FilterPartialKeepsDistinctJoins(cmds: seq<Command>, search: string)
    requires DistinctJoins(cmds)
    ensures DistinctJoins(FilterPartial(cmds, search))
  {
    if cmds != [] {
      assert DistinctJoins(cmds[1..]) by {
        forall i, j | 0 <= i < j < |cmds[1..]|
          ensures Join(cmds[1..][i].shortcuts) != Join(cmds[1..][j].shortcuts)
        {
          assert cmds[1..][i] == cmds[i + 1] && cmds[1..][j] == cmds[j + 1];
        }
      }
      FilterPartialKeepsDistinctJoins(cmds[1..], search);
      var rest := FilterPartial(cmds[1..], search);
      if IsPartialMatch(cmds[0], search) {
        forall k | 0 <= k < |rest| ensures Join(rest[k].shortcuts) != Join(cmds[0].shortcuts) {
          assert rest[k] in cmds[1..];
          var m :| 0 <= m < |cmds[1..]| && cmds[1..][m] == rest[k];
          assert cmds[m + 1] == rest[k];
        }
        var r := [cmds[0]] + rest;
        forall i, j | 0 <= i < j < |r| ensures Join(r[i].shortcuts) != Join(r[j].shortcuts) {
          if i == 0 {
            assert r[j] == rest[j - 1];
          } else {
            assert r[i] == rest[i - 1] && r[j] == rest[j - 1];
          }
        }
      }
    }
  }

  /** With distinct joined shortcuts at most one command is an exact match, so
      `find` returns the only matching command. */
  lemma ExactMatchIsUnique(cmds: seq<Command>, search: string)
    requires DistinctJoins(cmds)
    ensures forall i, j ::
              0 <= i < |cmds| && 0 <= j < |cmds| && IsExactMatch(cmds[i], search) && IsExactMatch(cmds[j], search)
              ==> i == j
    ensures forall c :: FindExact(cmds, search) == Some(c) <==> c in cmds && IsExactMatch(c, search)
  {
  }

  /** When every shortcut letter is upper case, the exact match compares the
      shortcut and the search ignoring ASCII case. */
  lemma ExactMatchIgnoresCase(cmd: Command, search: string)
    requires NoLower(Join(cmd.shortcuts))
    ensures IsExactMatch(cmd, search) <==> Upper(Join(cmd.shortcuts)) == Upper(search)
  {
    UpperFixesNoLower(Join(cmd.shortcuts));
  }

  /** Only the search is upper-cased: a command whose shortcut holds a
      lower-case letter is never an exact match, whatever is typed. */
  lemma LowerCaseShortcutNeverMatches(cmd: Command, search: string)
    requires !NoLower(Join(cmd.shortcuts))
    ensures !IsExactMatch(cmd, search)
  {
  }

  /** With no empty joined shortcut, the empty search matches no command
      exactly and every command partially, so the menu lists them all. */
  lemma {:induction false} EmptySearchShowsAll(cmds: seq<Command>)
    requires forall i :: 0 <= i < |cmds| ==> Join(cmds[i].shortcuts) != []
    ensures FindExact(cmds, "") == None
    ensures FilterPartial(cmds, "") == cmds
  {
    assert Upper("") == "";
    forall i | 0 <= i < |cmds| ensures !IsExactMatch(cmds[i], "") {
      assert Join(cmds[i].shortcuts) != [];
    }
    FilterPartialKeepsAllIff(cmds, "");
  }

  // ----- facts about the static list -----

  /** Joining two letters writes them one after the other. */
  lemma JoinPair(a: string, b: string)
    ensures Join([a, b]) == a + b
  {
    assert [a, b][1..] == [b];
    assert [b][1..] == [];
  }

  /** The joined shortcuts of the five commands are GP, GC, GO, GS and GT. */
  lemma StaticJoins()
    ensures Join(Commands[0].shortcuts) == "GP"
    ensures Join(Commands[1].shortcuts) == "GC"
    ensures Join(Commands[2].shortcuts) == "GO"
    ensures Join(Commands[3].shortcuts) == "GS"
    ensures Join(Commands[4].shortcuts) == "GT"
  {
    JoinPair("G", "P");
    JoinPair("G", "C");
    JoinPair("G", "O");
    JoinPair("G", "S");
    JoinPair("G", "T");
  }

  /** Every joined shortcut is two upper-case letters. */
  lemma StaticJoinsUpperPairs()
    ensures forall i :: 0 <= i < |Commands| ==> |Join(Commands[i].shortcuts)| == 2 && NoLower(Join(Commands[i].shortcuts))
  {
    StaticJoins();
    forall i | 0 <= i < |Commands|
      ensures |Join(Commands[i].shortcuts)| == 2 && NoLower(Join(Commands[i].shortcuts))
    {
      assert i == 0 || i == 1 || i == 2 || i == 3 || i == 4;
    }
  }

  /** The five joined shortcuts are pairwise distinct. */
  lemma StaticJoinsDistinct()
    ensures DistinctJoins(Commands)
  {
    StaticJoins();
    forall i, j | 0 <= i < j < |Commands|
      ensures Join(Commands[i].shortcuts) != Join(Commands[j].shortcuts)
    {
      // the joins differ in their second letter
      assert Join(Commands[i].shortcuts)[1] == Commands[i].labelText[6];
      assert Join(Commands[j].shortcuts)[1] == Commands[j].labelText[6];
    }
  }

  /** On the static list `find` returns a command exactly when it is the only one
      whose shortcut equals the upper-cased search. */
  lemma StaticExactMatch(search: string, c: Command)
    ensures FindExact(Commands, search) == Some(c) <==> c in Commands && IsExactMatch(c, search)
  {
    StaticJoinsDistinct();
    ExactMatchIsUnique(Commands, search);
  }

  /** The initial empty search shows all five commands under Navigate. */
  lemma StaticEmptySearch()
    ensures FindExact(Commands, "") == None
    ensures FilterPartial(Commands, "") == Commands
  {
    StaticJoinsUpperPairs();
    EmptySearchShowsAll(Commands);
  }

  /** "gp" is upper-cased to "GP", the joined shortcut of "Go to People". */
  lemma LowerCaseSearchMatchesPeople()
    ensures FindExact(Commands, "gp") == Some(Commands[0])
  {
    assert Upper("gp") == "GP";
    StaticJoins();
  }

  /** Every label starts with "Go to ". */
  lemma StaticLabelPrefix()
    ensures forall i :: 0 <= i < |Commands| ==> "Go to " <= Commands[i].labelText
  {
  }

  /** Every joined shortcut has two letters, so only a two-letter search can
      match a static command exactly. */
  lemma StaticExactNeedsTwoLetters(search: string)
    requires |search| != 2
    ensures FindExact(Commands, search) == None
  {
    StaticJoinsUpperPairs();
  }

  /** A search that upper-cases to the upper-cased `k`-th letter of a label
      partially matches that command. */
  lemma LabelLetterMatches(cmd: Command, search: string, k: nat)
    requires k < |cmd.labelText| && Upper(search) == [UpperChar(cmd.labelText[k])]
    ensures IsPartialMatch(cmd, search)
  {
    var up := Upper(cmd.labelText);
    assert up[k..k + 1] == [up[k]];
    ContainsAt(up, Upper(search), k);
  }

  /** When every label starts with "Go to ", a search that upper-cases to a
      letter of that prefix partially matches every command. */
  lemma PrefixLetterMatchesEvery(cmds: seq<Command>, search: string, k: nat)
    requires forall i :: 0 <= i < |cmds| ==> "Go to " <= cmds[i].labelText
    requires k < 6 && Upper(search) == [UpperChar("Go to "[k])]
    ensures forall i :: 0 <= i < |cmds| ==> IsPartialMatch(cmds[i], search)
  {
    forall i | 0 <= i < |cmds| ensures IsPartialMatch(cmds[i], search) {
      assert cmds[i].labelText[k] == "Go to "[k];
      LabelLetterMatches(cmds[i], search, k);
    }
  }

  /** A search that upper-cases to a letter of "Go to " partially matches every
      static command and exactly matches none. */
  lemma PrefixLetterMatchesAll(search: string, k: nat)
    requires k < 6 && Upper(search) == [UpperChar("Go to "[k])]
    ensures FindExact(Commands, search) == None
    ensures FilterPartial(Commands, search) == Commands
  {
    StaticExactNeedsTwoLetters(search);
    StaticLabelPrefix();
    PrefixLetterMatchesEvery(Commands, search, k);
    FilterPartialKeepsAllIff(Commands, search);
  }

  /** "G" and "o" list all five commands. */
  lemma StaticSingleLetterSearches()
    ensures FindExact(Commands, "G") == None && FilterPartial(Commands, "G") == Commands
    ensures FindExact(Commands, "o") == None && FilterPartial(Commands, "o") == Commands
  {
    assert Upper("G") == [UpperChar("Go to "[0])];
    PrefixLetterMatchesAll("G", 0);
    assert Upper("o") == [UpperChar("Go to "[1])];
    PrefixLetterMatchesAll("o", 1);
  }

  /** A command whose joined shortcut is shorter than the search and whose label
      lacks some letter of the upper-cased search, in either case, does not
      partially match it. */
  lemma MissingLetterNoPartialMatch(cmd: Command, search: string, lower: char)
    requires |Join(cmd.shortcuts)| < |search|
    requires IsLower(lower) && UpperChar(lower) in Upper(search)
    requires lower !in cmd.labelText && UpperChar(lower) !in cmd.labelText
    ensures !IsPartialMatch(cmd, search)
  {
    UpperLacksLetter(cmd.labelText, lower);
    NotContainedWithoutChar(Upper(cmd.labelText), Upper(search), UpperChar(lower));
  }

  /** "people" is no shortcut; it lists only "Go to People", found through its label. */
  lemma StaticPeopleSearch()
    ensures FindExact(Commands, "people") == None
    ensures FilterPartial(Commands, "people") == [Commands[0]]
  {
    StaticExactNeedsTwoLetters("people");
    PeopleLabelMatches(Commands[0]);
    OtherCommandsMissPeople();
    FilterOnlyFirst(Commands, "people");
  }

  /** When only the first command matches, the filter returns just that command. */
  lemma FilterOnlyFirst(cmds: seq<Command>, search: string)
    requires cmds != [] && IsPartialMatch(cmds[0], search)
    requires forall i :: 0 <= i < |cmds[1..]| ==> !IsPartialMatch(cmds[1..][i], search)
    ensures FilterPartial(cmds, search) == [cmds[0]]
  {
    FilterNoneMatch(cmds[1..], search);
  }

  /** When no command matches partially, the filtered list is empty. */
  lemma {:induction false} FilterNoneMatch(cmds: seq<Command>, search: string)
    requires forall i :: 0 <= i < |cmds| ==> !IsPartialMatch(cmds[i], search)
    ensures FilterPartial(cmds, search) == []
  {
    if cmds != [] {
      FilterNoneMatch(cmds[1..], search);
    }
  }

  /** No command after the first matches "people": their joined shortcuts are too
      short and their labels have no "l". */
  lemma OtherCommandsMissPeople()
    ensures forall i :: 0 <= i < |Commands[1..]| ==> !IsPartialMatch(Commands[1..][i], "people")
  {
    StaticJoinsUpperPairs();
    assert UpperChar('l') in Upper("people") by {
      assert Upper("people")[3] == UpperChar("people"[3]);
    }
    forall i | 1 <= i < |Commands| ensures !IsPartialMatch(Commands[i], "people") {
      var text := Commands[i].labelText;
      if i == 1 {
        assert text == "Go to Companies";
      } else if i == 2 {
        assert text == "Go to Opportunities";
      } else if i == 3 {
        assert text == "Go to Settings";
      } else {
        assert text == "Go to Tasks";
      }
      OtherLabelsLackL(text);
      MissingLetterNoPartialMatch(Commands[i], "people", 'l');
    }
  }

  /** A label reading "Go to People" partially matches the search "people". */
  lemma PeopleLabelMatches(cmd: Command)
    requires cmd.labelText == "Go to People"
    ensures IsPartialMatch(cmd, "people")
  {
    var up, key := Upper(cmd.labelText), Upper("people");
    assert |up| == 12 && |key| == 6;
    forall i | 0 <= i < 6 ensures up[6 + i] == key[i] {
      assert cmd.labelText[6 + i] == "people"[i] || cmd.labelText[6 + i] == UpperChar("people"[i]);
    }
    assert up[6..12] == key;
    ContainsAt(up, key, 6);
  }

  /** The labels other than "Go to People" have no "l" in either case. */
  lemma OtherLabelsLackL(text: string)
    requires text in ["Go to Companies", "Go to Opportunities", "Go to Settings", "Go to Tasks"]
    ensures 'l' !in text && 'L' !in text
  {
    var letters := {'G', 'o', ' ', 't', 'C', 'm', 'p', 'a', 'n', 'i', 'e', 's', 'O', 'r', 'u', 'S', 'g', 'T', 'k'};
    forall k | 0 <= k < |text| ensures text[k] in letters { }
  }
}
