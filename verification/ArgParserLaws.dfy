/** What the argument parser promises about whole argument lists. */
module ArgParserLaws {
  import opened Strings
  import opened Wrappers
  import opened ArgParsers

  // ---------------------------------------------------------------- the lookup table

  /** A newly registered option takes over its bound name and all its aliases; every other name keeps its option. */
  lemma {:induction false} LookupAfterAdd(mapping: map<string, nat>, aliases: seq<string>, id: nat, name: string)
    ensures name in MapAliases(mapping, aliases, id) <==> name in aliases || name in mapping
    ensures name in aliases ==> MapAliases(mapping, aliases, id)[name] == id
    ensures name !in aliases && name in mapping ==> MapAliases(mapping, aliases, id)[name] == mapping[name]
    decreases |aliases|
  {
    if aliases != [] {
      LookupAfterAdd(mapping[aliases[0] := id], aliases[1..], id, name);
    }
  }

  // ---------------------------------------------------------------- the text of an argument

  /** An option token is whatever begins with a hyphen; an abbreviation has just one. */
  lemma {:induction false} TokensByHyphens(s: string)
    ensures IsOptionToken(s) <==> s != "" && s[0] == '-'
    ensures HasAbbreviationPrefix(s) <==> s != "" && s[0] == '-' && (|s| == 1 || s[1] != '-')
    ensures HasNamePrefix(s) <==> |s| > 1 && s[0] == '-' && s[1] == '-'
  {
    assert "--"[0] == '-' && "--"[1] == '-' && "-"[0] == '-';
    if "--" <= s {
      assert s[..2] == "--" && s[..1] == "-";
    }
    if s != "" && s[0] == '-' {
      assert s[..1] == "-";
      if |s| > 1 && s[1] == '-' {
        assert s[..2] == "--";
      }
    }
  }

  /** Name and value of an argument are the trimmed texts around its first '='. */
  lemma {:induction false} NameAndValue(name: string, value: string)
    requires '=' !in name
    ensures NameOf(name) == Trim(name, BLANKS) && ValueOf(name) == ""
    ensures NameOf(name + "=" + value) == Trim(name, BLANKS) && ValueOf(name + "=" + value) == Trim(value, BLANKS)
  {
    SplitOf(name, value);
  }

  lemma {:induction false} SplitOf(name: string, value: string)
    requires '=' !in name
    ensures Split(name) == (name, None) && Split(name + "=" + value) == (name, Some(value))
    decreases |name|
  {
    var s := name + "=" + value;
    if name == "" {
      assert s[0] == '=' && s[1..] == value;
    } else {
      assert name == [name[0]] + name[1..];
      assert s[0] == name[0] != '=' && s[1..] == name[1..] + "=" + value;
      SplitOf(name[1..], value);
    }
  }

  /** An argument is cut at its first '=', if it has one. */
  lemma {:induction false} SplitAtFirstEquals(s: string)
    ensures var (name, value) := Split(s);
      '=' !in name && s == name + if value.Some? then "=" + value.value else ""
    decreases |s|
  {
    if s != "" && s[0] != '=' {
      SplitAtFirstEquals(s[1..]);
      assert s == [s[0]] + s[1..];
    }
  }

  /** A combined abbreviation names just the options that its known characters stand for. */
  lemma {:induction false} AbbreviatedAre(table: Table, chars: string, id: nat)
    ensures id in Abbreviated(table, chars)
       <==> exists i :: 0 <= i < |chars| && AbbreviationKey(chars[i]) in table.mapping
                        && table.mapping[AbbreviationKey(chars[i])] == id
    decreases |chars|
  {
    if chars != "" {
      AbbreviatedAre(table, chars[1..], id);
      assert forall i | 0 < i < |chars| :: chars[1..][i - 1] == chars[i];
      if id in Abbreviated(table, chars[1..]) {
        var i :| 0 <= i < |chars[1..]| && AbbreviationKey(chars[1..][i]) in table.mapping
                 && table.mapping[AbbreviationKey(chars[1..][i])] == id;
        assert chars[i + 1] == chars[1..][i];
      }
    }
  }

  /** A NUL character ends the key that is looked up, so it stands for an option that is named by a hyphen alone. */
  lemma {:induction false} NulAbbreviation(table: Table)
    ensures Abbreviated(table, "\0") == if "-" in table.mapping then [table.mapping["-"]] else []
  {
    assert "\0"[1..] == "";
    assert Abbreviated(table, "") == [];
  }

  // ---------------------------------------------------------------- options given by one token

  /** Unless a value is refused, every option that the token names gets a value, in order; several options named at
      once are then all boolean. */
  lemma {:induction false} GiveAll(options: seq<Opt>, ids: seq<nat>, single: bool, value: string, next: bool, any: bool)
    requires forall i | 0 <= i < |ids| :: ids[i] < |options|
    ensures var given := Give(options, ids, single, value, next, any);
      given.ok ==>
        && |given.hits| == |ids|
        && (single || forall i | 0 <= i < |ids| :: options[ids[i]].boolean)
        && (forall i | 0 <= i < |ids| :: given.hits[i].option == ids[i])
        && (given.anyBoolean <==> any || exists i :: 0 <= i < |ids| && options[ids[i]].boolean)
    decreases |ids|
  {
    if ids != [] {
      var option := options[ids[0]];
      GiveAll(options, ids[1..], single, Given(option, value, next, any), next, any || option.boolean);
      assert forall i | 0 < i < |ids| :: ids[i] == ids[1..][i - 1];
    }
  }

  /** The next argument may be a value exactly if there is one, the token has none itself, and it does not begin with a
      hyphen. */
  lemma {:induction false} NextByHyphen(args: seq<string>, index: nat)
    requires index < |args|
    ensures NextAsValue(args, index)
       <==> ValueOf(args[index]) == "" && index + 1 < |args| && (args[index + 1] == "" || args[index + 1][0] != '-')
  {
    if index + 1 < |args| {
      TokensByHyphens(args[index + 1]);
    }
  }

  /** A token takes the next argument as its value exactly if it carries none itself, the next one is no option token,
      and none of the options it names is boolean. */
  lemma {:induction false} ConsumesExactly(table: Table, args: seq<string>, index: nat)
    requires table.Valid() && index < |args| && Read(table, args, index).Token?
    ensures var ids := Matches(table, NameOf(args[index]));
      && (forall i | 0 <= i < |ids| :: ids[i] < |table.options|)
      && (Read(table, args, index).consumed <==>
            NextAsValue(args, index) && forall i | 0 <= i < |ids| :: !table.options[ids[i]].boolean)
  {
    var ids := Matches(table, NameOf(args[index]));
    MatchesExist(table, NameOf(args[index]));
    var next := NextAsValue(args, index);
    GiveAll(table.options, ids, |ids| <= 1, if next then args[index + 1] else ValueOf(args[index]), next, false);
  }

  /** The token names just the one option: `--name`, or `-x` for a single abbreviation. */
  predicate Names(table: Table, name: string, id: nat) {
    && (HasNamePrefix(name) || (HasAbbreviationPrefix(name) && |name| == 2 && name[1] != '\0'))
    && name in table.mapping && table.mapping[name] == id
  }

  lemma {:induction false} NamedMatches(table: Table, name: string, id: nat)
    requires Names(table, name, id)
    ensures Matches(table, name) == [id]
  {
    if !HasNamePrefix(name) {
      assert name[1..] == [name[1]] && name[1..][1..] == "";
      assert name[..1] == "-";
      assert AbbreviationKey(name[1]) == name;
      assert Abbreviated(table, "") == [];
      assert [id] + [] == [id];
    }
  }

  /** What giving a value to a single option leads to. */
  lemma {:induction false} GiveSingle(options: seq<Opt>, id: nat, value: string, next: bool)
    requires id < |options|
    ensures var given := Given(options[id], value, next, false);
      Give(options, [id], true, value, next, false)
      == if options[id].accepts(given) then Hits([Hit(id, options[id].boundName, given)], options[id].boolean, true)
         else Hits([], options[id].boolean, false)
  {
    var given := Given(options[id], value, next, false);
    assert [id][1..] == [];
    assert Give(options, [], true, given, next, options[id].boolean) == Hits([], options[id].boolean, true);
    assert [Hit(id, options[id].boundName, given)] + [] == [Hit(id, options[id].boundName, given)];
  }

  /** The reading of a token for one option, given the value it comes with and whether the next argument is that. */
  lemma {:induction false} ReadSingle(table: Table, args: seq<string>, index: nat, id: nat)
    requires table.Valid() && index < |args| && Names(table, NameOf(args[index]), id)
    ensures var next := NextAsValue(args, index);
      var option := table.options[id];
      var given := Given(option, if next then args[index + 1] else ValueOf(args[index]), next, false);
      Read(table, args, index)
      == if option.accepts(given) then Token([Hit(id, option.boundName, given)], next && !option.boolean)
         else Failed([])
  {
    var next := NextAsValue(args, index);
    NamedMatches(table, NameOf(args[index]), id);
    MatchesExist(table, NameOf(args[index]));
    GiveSingle(table.options, id, if next then args[index + 1] else ValueOf(args[index]), next);
  }

  /** A boolean option without a value of its own is switched on, whatever the next argument says: `--switch false`
      switches on and leaves `false` to be read next. The same holds of `-s`. */
  lemma {:induction false} SwitchIgnoresNext(table: Table, args: seq<string>, index: nat, id: nat)
    requires table.Valid() && index < |args| && Names(table, NameOf(args[index]), id) && ValueOf(args[index]) == ""
    requires table.options[id].boolean
    ensures Read(table, args, index)
         == if table.options[id].accepts("true") then Token([Hit(id, table.options[id].boundName, "true")], false)
            else Failed([])
  {
    ReadSingle(table, args, index, id);
  }

  /** A boolean option with a value of its own gets just that: `--switch=false` switches off, and so does `-s=false`. */
  lemma {:induction false} SwitchIsSet(table: Table, args: seq<string>, index: nat, id: nat)
    requires table.Valid() && index < |args| && Names(table, NameOf(args[index]), id) && ValueOf(args[index]) != ""
    requires table.options[id].boolean
    ensures var value := ValueOf(args[index]);
      Read(table, args, index)
      == if table.options[id].accepts(value) then Token([Hit(id, table.options[id].boundName, value)], false)
         else Failed([])
  {
    ReadSingle(table, args, index, id);
  }

  /** An option that is not boolean gets the value assigned to it, else the next argument if that may be a value, else
      nothing, and refuses what it does not accept. */
  lemma {:induction false} ValueIsTaken(table: Table, args: seq<string>, index: nat, id: nat)
    requires table.Valid() && index < |args| && Names(table, NameOf(args[index]), id) && !table.options[id].boolean
    ensures var next := NextAsValue(args, index);
      var value := if ValueOf(args[index]) != "" then ValueOf(args[index]) else if next then args[index + 1] else "";
      Read(table, args, index)
      == if table.options[id].accepts(value) then Token([Hit(id, table.options[id].boundName, value)], next)
         else Failed([])
  {
    ReadSingle(table, args, index, id);
  }

  /** A name that nobody has registered names no option, and still takes the next argument along if that may be a
      value. */
  lemma {:induction false} UnknownName(table: Table, args: seq<string>, index: nat)
    requires table.Valid() && index < |args|
    requires HasNamePrefix(NameOf(args[index])) && NameOf(args[index]) !in table.mapping
    ensures Read(table, args, index) == Token([], NextAsValue(args, index))
  {
    assert Give(table.options, [], true, "", false, false).hits == [];
  }

  // ---------------------------------------------------------------- combined abbreviations

  /** All characters are abbreviations of boolean options that accept to be switched on. */
  predicate Switches(table: Table, chars: string)
    requires table.Valid()
  {
    forall i | 0 <= i < |chars| ::
      && chars[i] != '\0' && ['-', chars[i]] in table.mapping
      && table.options[table.mapping[['-', chars[i]]]].boolean
      && table.options[table.mapping[['-', chars[i]]]].accepts("true")
  }

  /** The options of the characters, each switched on, in order. */
  function SwitchHits(table: Table, chars: string): seq<Hit>
    requires table.Valid() && Switches(table, chars)
  {
    seq(|chars|, i requires 0 <= i < |chars| =>
        var id := table.mapping[['-', chars[i]]]; Hit(id, table.options[id].boundName, "true"))
  }

  lemma {:induction false} SwitchMatches(table: Table, chars: string)
    requires table.Valid() && Switches(table, chars)
    ensures |Abbreviated(table, chars)| == |chars|
    ensures forall i | 0 <= i < |chars| :: Abbreviated(table, chars)[i] == table.mapping[['-', chars[i]]]
    decreases |chars|
  {
    if chars != "" {
      assert AbbreviationKey(chars[0]) == ['-', chars[0]];
      SwitchMatches(table, chars[1..]);
    }
  }

  lemma {:induction false} GiveSwitches(
      table: Table, chars: string, ids: seq<nat>, value: string, next: bool, any: bool, single: bool)
    requires table.Valid() && Switches(table, chars) && |ids| == |chars|
    requires forall i | 0 <= i < |ids| :: ids[i] == table.mapping[['-', chars[i]]]
    requires next || value == "" || value == "true"
    ensures Give(table.options, ids, single, value, next, any)
         == Hits(SwitchHits(table, chars), any || chars != "", true)
    decreases |chars|
  {
    if chars != "" {
      var option := table.options[ids[0]];
      var given := Given(option, value, next, any);
      assert given == "true";
      GiveSwitches(table, chars[1..], ids[1..], given, next, true, single);
      assert SwitchHits(table, chars) == [Hit(ids[0], option.boundName, "true")] + SwitchHits(table, chars[1..]);
    }
  }

  /** A combined abbreviation of boolean options switches on each of them, in order, and consumes nothing. */
  lemma {:induction false} CombinedSwitches(table: Table, args: seq<string>, index: nat)
    requires table.Valid() && index < |args| && HasAbbreviationPrefix(NameOf(args[index])) && |NameOf(args[index])| > 2
    requires ValueOf(args[index]) == "" && Switches(table, NameOf(args[index])[1..])
    ensures Read(table, args, index) == Token(SwitchHits(table, NameOf(args[index])[1..]), false)
  {
    var name := NameOf(args[index]);
    var next := NextAsValue(args, index);
    TokensByHyphens(name);
    SwitchMatches(table, name[1..]);
    var ids := Matches(table, name);
    GiveSwitches(table, name[1..], ids, if next then args[index + 1] else "", next, false, |ids| <= 1);
  }

  /** Assigning a value to a combined abbreviation fails. */
  lemma {:induction false} CombinedAssignmentFails(table: Table, args: seq<string>, index: nat)
    requires table.Valid() && index < |args| && HasAbbreviationPrefix(NameOf(args[index])) && |NameOf(args[index])| > 2
    requires ValueOf(args[index]) != ""
    ensures Read(table, args, index) == Failed([])
  {
  }

  /** So does combining several options of which one is not boolean. */
  lemma {:induction false} CombinedMixFails(table: Table, args: seq<string>, index: nat, i: nat)
    requires table.Valid() && index < |args| && IsOptionToken(NameOf(args[index]))
    requires var ids := Matches(table, NameOf(args[index]));
      1 < |ids| && i < |ids| && ids[i] < |table.options| && !table.options[ids[i]].boolean
    ensures Read(table, args, index).Failed?
  {
    var ids := Matches(table, NameOf(args[index]));
    MatchesExist(table, NameOf(args[index]));
    var next := NextAsValue(args, index);
    GiveAll(table.options, ids, |ids| <= 1, if next then args[index + 1] else ValueOf(args[index]), next, false);
  }

  // ---------------------------------------------------------------- every argument has one role

  /** There is a reading that starts at position i and satisfies the given condition. */
  predicate UnmatchedAt(places: seq<Place>, i: int) {
    exists k :: 0 <= k < |places| && places[k].index == i && places[k].reading.Unmatched?
  }

  predicate TokenAt(places: seq<Place>, i: int) {
    exists k :: 0 <= k < |places| && places[k].index == i && places[k].reading.Token?
  }

  predicate ConsumedAt(places: seq<Place>, i: int) {
    exists k :: 0 <= k < |places| && places[k].index == i - 1 && places[k].reading.Token? && places[k].reading.consumed
  }

  predicate ExactlyOne(a: bool, b: bool, c: bool) {
    (a && !b && !c) || (!a && b && !c) || (!a && !b && c)
  }

  /** Readings of n arguments from `start` on that lead from one to the next, up to the end or a failure. */
  predicate Linked(places: seq<Place>, start: nat, n: nat) {
    if places == [] then start >= n
    else
      var first := places[0];
      && first.index == start < first.Next() <= n
      && if first.reading.Failed? then places[1..] == [] else Linked(places[1..], first.Next(), n)
  }

  /** The first reading and those after it. */
  lemma {:induction false} FirstAndRest(table: Table, args: seq<string>, start: nat)
    returns (place: Place, rest: seq<Place>)
    requires table.Valid() && start < |args|
    ensures place == Place(start, Read(table, args, start)) && start < place.Next() <= |args|
    ensures rest == if place.reading.Failed? then [] else Readings(table, args, place.Next())
    ensures Readings(table, args, start) == [place] + rest
  {
    ReadingsStep(table, args, start);
    place := Place(start, Read(table, args, start));
    rest := Readings(table, args, place.Continue(|args|));
  }

  /** The readings follow each other without gaps up to the end of the arguments. */
  lemma {:induction false} ReadingsAreLinked(table: Table, args: seq<string>, start: nat)
    requires table.Valid()
    ensures Linked(Readings(table, args, start), start, |args|)
    decreases |args| - start
  {
    if start < |args| {
      var place, rest := FirstAndRest(table, args, start);
      if !place.reading.Failed? {
        ReadingsAreLinked(table, args, place.Next());
      }
      assert ([place] + rest)[0] == place && ([place] + rest)[1..] == rest;
    }
  }

  /** Where the k-th of linked readings stands, and where it leads. */
  lemma {:induction false} LinkedAt(places: seq<Place>, start: nat, n: nat, k: nat)
    requires Linked(places, start, n) && k < |places|
    ensures start + k <= places[k].index < n && (k == 0 ==> places[k].index == start)
    ensures k + 1 < |places| ==> places[k + 1].index == places[k].Next() && !places[k].reading.Failed?
    ensures k + 1 == |places| && !places[k].reading.Failed? ==> places[k].Next() == n
    decreases k
  {
    if k > 0 {
      LinkedAt(places[1..], places[0].Next(), n, k - 1);
    }
  }

  /** The index strictly increases from reading to reading and, without a failure, ends at the number of arguments. */
  lemma {:induction false} ReadingsInOrder(table: Table, args: seq<string>, start: nat, k: nat)
    requires table.Valid() && k < |Readings(table, args, start)|
    ensures var places := Readings(table, args, start);
      && start + k <= places[k].index < |args| && (k == 0 ==> places[k].index == start)
      && (k + 1 < |places| ==> places[k + 1].index == places[k].Next() && !places[k].reading.Failed?)
      && (k + 1 == |places| && !places[k].reading.Failed? ==> places[k].Next() == |args|)
  {
    ReadingsAreLinked(table, args, start);
    LinkedAt(Readings(table, args, start), start, |args|, k);
  }

  /** Each reading is that of its own argument. */
  lemma {:induction false} ReadingsAreRead(table: Table, args: seq<string>, start: nat, place: Place)
    requires table.Valid() && place in Readings(table, args, start)
    ensures place.index < |args| && place.reading == Read(table, args, place.index)
    decreases |args| - start
  {
    var first, rest := FirstAndRest(table, args, start);
    if place != first {
      ReadingsAreRead(table, args, first.Next(), place);
    }
  }

  /** How the roles of the arguments at and after `start` depend on the first reading. */
  lemma {:induction false} RolesFromFirst(place: Place, rest: seq<Place>, i: int)
    ensures var places := [place] + rest;
      && (UnmatchedAt(places, i) <==> (place.index == i && place.reading.Unmatched?) || UnmatchedAt(rest, i))
      && (TokenAt(places, i) <==> (place.index == i && place.reading.Token?) || TokenAt(rest, i))
      && (ConsumedAt(places, i) <==>
            (place.index == i - 1 && place.reading.Token? && place.reading.consumed) || ConsumedAt(rest, i))
  {
    var places := [place] + rest;
    assert places[0] == place;
    assert forall k | 0 <= k < |rest| :: places[k + 1] == rest[k];
    assert forall k | 0 < k < |places| :: places[k] == rest[k - 1];
  }

  /** Without an error every argument is an unmatched one, an option token, or the value that the token just before it
      consumed, and nothing else. */
  lemma {:induction false} EveryArgumentHasOneRole(table: Table, args: seq<string>, start: nat, i: nat)
    requires table.Valid() && !Fails(Readings(table, args, start))
    ensures var places := Readings(table, args, start);
      if start <= i < |args| then ExactlyOne(UnmatchedAt(places, i), TokenAt(places, i), ConsumedAt(places, i))
      else !UnmatchedAt(places, i) && !TokenAt(places, i) && !ConsumedAt(places, i)
    decreases |args| - start
  {
    if start < |args| {
      var place, rest := FirstAndRest(table, args, start);
      NoFailureAfter(place, rest);
      EveryArgumentHasOneRole(table, args, place.Next(), i);
      RolesFromFirst(place, rest, i);
    }
  }

  lemma {:induction false} NoFailureAfter(place: Place, rest: seq<Place>)
    requires !Fails([place] + rest)
    ensures !Fails(rest) && !place.reading.Failed?
  {
    assert ([place] + rest)[0] == place;
    assert forall k | 0 <= k < |rest| :: rest[k] == ([place] + rest)[k + 1];
  }

  /** The arguments at the positions from `start` on that are unmatched, in order. */
  function Selected(args: seq<string>, places: seq<Place>, start: nat): seq<string>
    decreases |args| - start
  {
    if start >= |args| then []
    else (if UnmatchedAt(places, start) then [args[start]] else []) + Selected(args, places, start + 1)
  }

  lemma {:induction false} UnmatchedCons(place: Place, rest: seq<Place>)
    ensures UnmatchedArgs([place] + rest)
         == (if place.reading.Unmatched? then [place.reading.arg] else []) + UnmatchedArgs(rest)
    decreases |rest|
  {
    var places := [place] + rest;
    if rest == [] {
      assert places == [place];
      assert places[..0] == [];
    } else {
      assert places[..|places| - 1] == [place] + rest[..|rest| - 1];
      UnmatchedCons(place, rest[..|rest| - 1]);
    }
  }

  /** Readings of earlier arguments do not matter to what is selected later. */
  lemma {:induction false} SelectedFrom(args: seq<string>, place: Place, rest: seq<Place>, start: nat)
    requires place.index < start
    ensures Selected(args, [place] + rest, start) == Selected(args, rest, start)
    decreases |args| - start
  {
    if start < |args| {
      RolesFromFirst(place, rest, start);
      SelectedFrom(args, place, rest, start + 1);
    }
  }

  lemma {:induction false} UnmatchedHere(place: Place, rest: seq<Place>)
    requires !UnmatchedAt(rest, place.index)
    ensures UnmatchedAt([place] + rest, place.index) <==> place.reading.Unmatched?
  {
    RolesFromFirst(place, rest, place.index);
  }

  /** The first reading adds its argument to what is selected, and what it consumed is not selected. */
  lemma {:induction false} SelectedStep(args: seq<string>, place: Place, rest: seq<Place>)
    requires place.index < |args| && !place.reading.Failed? && place.Next() <= |args|
    requires place.reading.Unmatched? ==> place.reading.arg == args[place.index]
    requires !UnmatchedAt(rest, place.index)
    requires place.Next() == place.index + 2 ==> !UnmatchedAt(rest, place.index + 1)
    ensures Selected(args, [place] + rest, place.index)
         == (if place.reading.Unmatched? then [place.reading.arg] else []) + Selected(args, rest, place.Next())
  {
    UnmatchedHere(place, rest);
    SelectedFrom(args, place, rest, place.index + 1);
    if place.Next() == place.index + 2 {
      assert !UnmatchedAt(rest, place.index + 1);
    }
  }

  /** The unmatched arguments of the parser are just the arguments in that role, in the order of the command line. */
  lemma {:induction false} UnmatchedAreSelected(table: Table, args: seq<string>, start: nat)
    requires table.Valid() && !Fails(Readings(table, args, start))
    ensures UnmatchedArgs(Readings(table, args, start)) == Selected(args, Readings(table, args, start), start)
    decreases |args| - start
  {
    if start < |args| {
      var place, rest := FirstAndRest(table, args, start);
      NoFailureAfter(place, rest);
      UnmatchedAreSelected(table, args, place.Next());
      EveryArgumentHasOneRole(table, args, place.Next(), start);
      EveryArgumentHasOneRole(table, args, place.Next(), start + 1);
      UnmatchedCons(place, rest);
      SelectedStep(args, place, rest);
    }
  }

  // ---------------------------------------------------------------- hyphens

  predicate EndsInHyphen(s: string) {
    s != "" && s[|s| - 1] == '-'
  }

  /** Bound names have lost the hyphens at their start when they were set. */
  predicate LeftTrimmed(options: seq<Opt>) {
    forall i | 0 <= i < |options| :: TrimLeft(options[i].boundName, "-") == options[i].boundName
  }

  /** The key of an absent option is its bound name exactly if that does not end in a hyphen. */
  lemma {:induction false} AbsentKeyIs(option: Opt)
    requires TrimLeft(option.boundName, "-") == option.boundName
    ensures AbsentKey(option) == option.boundName <==> !EndsInHyphen(option.boundName)
    ensures !EndsInHyphen(AbsentKey(option))
  {
    var s := option.boundName;
    TrimRightEnds(s, "-");
    if EndsInHyphen(s) {
      assert s[|s| - 1] in "-";
    }
  }

  // ---------------------------------------------------------------- the result

  /** All values that arguments give go to registered options, under their bound names. */
  lemma {:induction false} HitsAreRegistered(table: Table, args: seq<string>, places: seq<Place>)
    requires table.Valid()
    requires forall k | 0 <= k < |places| ::
               places[k].index < |args| && places[k].reading == Read(table, args, places[k].index)
    ensures Registered(table.options, AllHits(places))
    decreases |places|
  {
    if places != [] {
      var last := places[|places| - 1];
      HitsAreRegistered(table, args, places[..|places| - 1]);
      var name := NameOf(args[last.index]);
      MatchesExist(table, name);
      var ids, next := Matches(table, name), NextAsValue(args, last.index);
      var value := if next then args[last.index + 1] else ValueOf(args[last.index]);
      GiveRegistered(table.options, ids, |ids| <= 1, value, next, false);
    }
  }

  /** After all values were cached, an option has a result exactly if some argument named it, and it is the last
      value given to it under any of its names. */
  lemma {:induction false} CachedValue(options: seq<Opt>, hits: seq<Hit>, i: nat)
    requires DistinctNames(options) && Registered(options, hits) && i < |options|
    ensures options[i].boundName in Enter(map[], hits) <==> i in HitOptions(hits)
    ensures i in HitOptions(hits) <==> LastValue(hits, i).Some?
    ensures i in HitOptions(hits) ==> Enter(map[], hits)[options[i].boundName] == OptionResult(i, LastValue(hits, i))
    decreases |hits|
  {
    if hits != [] {
      var last := hits[|hits| - 1];
      CachedValue(options, hits[..|hits| - 1], i);
      assert hits == hits[..|hits| - 1] + [last];
      assert HitOptions(hits) == HitOptions(hits[..|hits| - 1]) + {last.option};
    }
  }

  /** Adding the next option, if it is absent, sets its default under its bound name. */
  lemma {:induction false} AddNext(options: seq<Opt>, present: set<nat>, result: ParseResult, n: nat)
    requires LeftTrimmed(options) && 0 < n <= |options|
    requires n - 1 !in present ==> !EndsInHyphen(options[n - 1].boundName)
    ensures AddAbsent(options, present, result, n)
         == var before := AddAbsent(options, present, result, n - 1);
            if n - 1 in present then before
            else before[options[n - 1].boundName := OptionResult(n - 1, options[n - 1].defaultValue)]
  {
    AbsentKeyIs(options[n - 1]);
  }

  /** What adding the absent ones among the first n options does to the result of one option. */
  lemma {:induction false} AddedTo(options: seq<Opt>, present: set<nat>, result: ParseResult, n: nat, i: nat)
    requires DistinctNames(options) && LeftTrimmed(options) && n <= |options| && i < |options|
    requires forall j | 0 <= j < n && j !in present :: !EndsInHyphen(options[j].boundName)
    ensures var added, name := AddAbsent(options, present, result, n), options[i].boundName;
      if i < n && i !in present then name in added && added[name] == OptionResult(i, options[i].defaultValue)
      else (name in added <==> name in result) && (name in added ==> added[name] == result[name])
    decreases n
  {
    if n > 0 {
      AddedTo(options, present, result, n - 1, i);
      AddNext(options, present, result, n);
    }
  }

  /** What the result holds for an option once the absent options among the first n were added. */
  lemma {:induction false} AddedValue(options: seq<Opt>, hits: seq<Hit>, n: nat, i: nat)
    requires DistinctNames(options) && LeftTrimmed(options) && Registered(options, hits)
    requires n <= |options| && i < |options|
    requires forall j | 0 <= j < n && j !in HitOptions(hits) :: !EndsInHyphen(options[j].boundName)
    ensures var result := AddAbsent(options, HitOptions(hits), Enter(map[], hits), n);
      var name := options[i].boundName;
      && (name in result <==> i < n || i in HitOptions(hits))
      && (i in HitOptions(hits) ==> result[name] == OptionResult(i, LastValue(hits, i)))
      && (i < n && i !in HitOptions(hits) ==> result[name] == OptionResult(i, options[i].defaultValue))
  {
    CachedValue(options, hits, i);
    AddedTo(options, HitOptions(hits), Enter(map[], hits), n, i);
  }

  /** A key that ends in a hyphen comes from an option that is present. */
  lemma {:induction false} HyphenKeys(options: seq<Opt>, hits: seq<Hit>, n: nat, key: string)
    requires LeftTrimmed(options) && n <= |options| && EndsInHyphen(key)
    requires key in AddAbsent(options, HitOptions(hits), Enter(map[], hits), n)
    ensures key in Enter(map[], hits)
    decreases n
  {
    if n > 0 {
      AbsentKeyIs(options[n - 1]);
      HyphenKeys(options, hits, n - 1, key);
    }
  }

  /** When parsing succeeds, the result names every registered option exactly if no absent one has a bound name that
      ends in a hyphen; and then it holds for each option the value of its last occurrence, else its default. */
  lemma {:induction false} ResultIsComplete(table: Table, args: seq<string>)
    requires table.Valid() && LeftTrimmed(table.options) && Succeeds(table, args)
    ensures var options := table.options;
      var hits := AllHits(Readings(table, args, 0));
      var result := FullResult(options, hits);
      && ((forall i | 0 <= i < |options| :: options[i].boundName in result)
          <==> (forall i | 0 <= i < |options| && i !in HitOptions(hits) :: !EndsInHyphen(options[i].boundName)))
      && ((forall i | 0 <= i < |options| && i !in HitOptions(hits) :: !EndsInHyphen(options[i].boundName)) ==>
            forall i | 0 <= i < |options| ::
              && options[i].boundName in result
              && result[options[i].boundName]
                 == OptionResult(i, if LastValue(hits, i).Some? then LastValue(hits, i) else options[i].defaultValue)
              && result[options[i].boundName].rawValue.Some?)
  {
    var options, places := table.options, Readings(table, args, 0);
    var hits := AllHits(places);
    forall k | 0 <= k < |places|
      ensures places[k].index < |args| && places[k].reading == Read(table, args, places[k].index)
    {
      ReadingsAreRead(table, args, 0, places[k]);
    }
    HitsAreRegistered(table, args, places);
    forall i | 0 <= i < |options| ensures i in HitOptions(hits) <==> LastValue(hits, i).Some? {
      CachedValue(options, hits, i);
    }
    if i :| 0 <= i < |options| && i !in HitOptions(hits) && EndsInHyphen(options[i].boundName) {
      CachedValue(options, hits, i);
      if options[i].boundName in FullResult(options, hits) {
        HyphenKeys(options, hits, |options|, options[i].boundName);
      }
    } else {
      forall i | 0 <= i < |options|
        ensures options[i].boundName in FullResult(options, hits)
        ensures FullResult(options, hits)[options[i].boundName]
             == OptionResult(i, if LastValue(hits, i).Some? then LastValue(hits, i) else options[i].defaultValue)
      {
        AddedValue(options, hits, |options|, i);
      }
    }
  }
}
