/** The command-line argument parser: what one argument means, the loop over all of them, and the result. */
module ArgParsers {
  import opened Strings
  import opened Wrappers

  // ---------------------------------------------------------------- strings

  const TRUE: string := "true"
  const FALSE: string := "false"

  /** The part before the first '=', and what follows it if there is one. */
  function Split(s: string): (string, Option<string>) {
    if s == "" then ("", None)
    else if s[0] == '=' then ("", Some(s[1..]))
    else var (name, value) := Split(s[1..]); ([s[0]] + name, value)
  }

  function NameOf(arg: string): string {
    Trim(Split(arg).0, BLANKS)
  }

  /** The value assigned in the argument itself; empty when there is none. */
  function ValueOf(arg: string): string {
    match Split(arg).1
    case None => ""
    case Some(value) => Trim(value, BLANKS)
  }

  predicate HasNamePrefix(s: string) {
    "--" <= s
  }

  predicate HasAbbreviationPrefix(s: string) {
    !HasNamePrefix(s) && "-" <= s
  }

  predicate IsOptionToken(s: string) {
    HasNamePrefix(s) || HasAbbreviationPrefix(s)
  }

  // ---------------------------------------------------------------- options

  /** An option. `accepts` stands for parsing, range check and validation of a value. */
  datatype Opt = Opt(
    boundName: string,
    aliases: seq<string>,
    defaultValue: Option<string>,
    boolean: bool,
    accepts: string -> bool)

  const HELP: Opt := Opt("help", ["--help", "-h", "-?"], Some(FALSE), true, s => s == TRUE || s == FALSE)

  predicate DistinctNames(options: seq<Opt>) {
    forall i, j | 0 <= i < j < |options| :: options[i].boundName != options[j].boundName
  }

  /** The registered options and the lookup table from names and aliases to their positions. */
  datatype Table = Table(options: seq<Opt>, mapping: map<string, nat>) {
    predicate Valid() {
      && DistinctNames(options)
      && (forall name | name in mapping :: mapping[name] < |options|)
    }
  }

  function MapAliases(mapping: map<string, nat>, aliases: seq<string>, id: nat): map<string, nat>
    decreases |aliases|
  {
    if aliases == [] then mapping else MapAliases(mapping[aliases[0] := id], aliases[1..], id)
  }

  /** The key under which an abbreviation is looked up, which ends at a NUL character. */
  function AbbreviationKey(c: char): string {
    if c == '\0' then "-" else ['-', c]
  }

  /** The options that the characters of a combined abbreviation stand for; unknown characters are skipped. */
  function Abbreviated(table: Table, chars: string): seq<nat> {
    if chars == "" then []
    else
      var key := AbbreviationKey(chars[0]);
      (if key in table.mapping then [table.mapping[key]] else []) + Abbreviated(table, chars[1..])
  }

  /** The options that a token names. */
  function Matches(table: Table, name: string): seq<nat> {
    if HasNamePrefix(name) then (if name in table.mapping then [table.mapping[name]] else [])
    else if HasAbbreviationPrefix(name) then Abbreviated(table, name[1..])
    else []
  }

  lemma {:induction false} AbbreviatedExist(table: Table, chars: string, i: nat)
    requires table.Valid() && i < |Abbreviated(table, chars)|
    ensures Abbreviated(table, chars)[i] < |table.options|
  {
    var key := AbbreviationKey(chars[0]);
    if key !in table.mapping {
      AbbreviatedExist(table, chars[1..], i);
    } else if i > 0 {
      AbbreviatedExist(table, chars[1..], i - 1);
    }
  }

  lemma {:induction false} MatchesExist(table: Table, name: string)
    requires table.Valid()
    ensures forall i | 0 <= i < |Matches(table, name)| :: Matches(table, name)[i] < |table.options|
  {
    if !HasNamePrefix(name) && HasAbbreviationPrefix(name) {
      forall i | 0 <= i < |Matches(table, name)| ensures Matches(table, name)[i] < |table.options| {
        AbbreviatedExist(table, name[1..], i);
      }
    }
  }

  // ---------------------------------------------------------------- one argument

  /** An option that got a value; `key` is its bound name. */
  datatype Hit = Hit(option: nat, key: string, value: string)

  /** The outcome of the options named by one token, in order. */
  datatype Hits = Hits(hits: seq<Hit>, anyBoolean: bool, ok: bool) {
    function After(done: seq<Hit>): Hits {
      this.(hits := done + hits)
    }
  }

  /** The value an option gets: a boolean option ignores a value that is the next argument, and makes the options
      after it ignore it too; without a value it is switched on. */
  function Given(option: Opt, value: string, nextAsValue: bool, anyBoolean: bool): string {
    var own := if (anyBoolean || option.boolean) && nextAsValue then "" else value;
    if option.boolean && own == "" then TRUE else own
  }

  /** Gives the value to the options one after the other. Only boolean options may be combined. */
  function Give(
      options: seq<Opt>, ids: seq<nat>, single: bool, value: string, nextAsValue: bool, anyBoolean: bool): Hits
    requires forall i | 0 <= i < |ids| :: ids[i] < |options|
  {
    if ids == [] then Hits([], anyBoolean, true)
    else
      var option := options[ids[0]];
      var any := anyBoolean || option.boolean;
      var given := Given(option, value, nextAsValue, anyBoolean);
      if (single || option.boolean) && option.accepts(given) then
        Give(options, ids[1..], single, given, nextAsValue, any).After([Hit(ids[0], option.boundName, given)])
      else Hits([], any, false)
  }

  /** What the argument at a position is. */
  datatype Reading =
    | Unmatched(arg: string)
    | Failed(hits: seq<Hit>)
    | Token(hits: seq<Hit>, consumed: bool)   // `consumed`: the next argument is its value

  /** The next argument may serve as the value of this one. */
  predicate NextAsValue(args: seq<string>, index: nat)
    requires index < |args|
  {
    ValueOf(args[index]) == "" && index + 1 < |args| && !IsOptionToken(args[index + 1])
  }

  function Read(table: Table, args: seq<string>, index: nat): Reading
    requires table.Valid() && index < |args|
  {
    var name, value := NameOf(args[index]), ValueOf(args[index]);
    if !IsOptionToken(name) then Unmatched(args[index])
    else if HasAbbreviationPrefix(name) && |name| > 2 && value != "" then Failed([])
    else
      MatchesExist(table, name);
      var next := NextAsValue(args, index);
      var ids := Matches(table, name);
      var given := Give(table.options, ids, |ids| <= 1, if next then args[index + 1] else value, next, false);
      if !given.ok then Failed(given.hits) else Token(given.hits, next && !given.anyBoolean)
  }

  // ---------------------------------------------------------------- all arguments

  /** A reading and the position of the argument it is about. */
  datatype Place = Place(index: nat, reading: Reading) {
    /** Where reading goes on. */
    function Next(): nat {
      if reading.Token? && reading.consumed then index + 2 else index + 1
    }

    /** The same, but past the end of the n arguments after a failure. */
    function Continue(n: nat): nat {
      if reading.Failed? then n + 1 else Next()
    }
  }

  /** The readings of the arguments from `index` on, up to a failure. */
  function Readings(table: Table, args: seq<string>, index: nat): seq<Place>
    requires table.Valid()
    decreases |args| - index
  {
    if index >= |args| then []
    else
      var place := Place(index, Read(table, args, index));
      [place] + if place.reading.Failed? then [] else Readings(table, args, place.Next())
  }

  predicate Fails(places: seq<Place>) {
    exists k :: 0 <= k < |places| && places[k].reading.Failed?
  }

  function HitsOf(reading: Reading): seq<Hit> {
    if reading.Unmatched? then [] else reading.hits
  }

  function AllHits(places: seq<Place>): seq<Hit> {
    if places == [] then [] else AllHits(places[..|places| - 1]) + HitsOf(places[|places| - 1].reading)
  }

  /** The arguments that are no option tokens and no values, in order. */
  function UnmatchedArgs(places: seq<Place>): seq<string> {
    if places == [] then []
    else
      var last := places[|places| - 1].reading;
      UnmatchedArgs(places[..|places| - 1]) + if last.Unmatched? then [last.arg] else []
  }

  // ---------------------------------------------------------------- the result

  datatype OptionResult = OptionResult(option: nat, rawValue: Option<string>)

  type ParseResult = map<string, OptionResult>

  /** Every hit sets the result of its option; later hits override. */
  function Enter(result: ParseResult, hits: seq<Hit>): ParseResult {
    if hits == [] then result
    else
      var hit := hits[|hits| - 1];
      Enter(result, hits[..|hits| - 1])[hit.key := OptionResult(hit.option, Some(hit.value))]
  }

  lemma {:induction false} EnterAppend(result: ParseResult, a: seq<Hit>, b: seq<Hit>)
    ensures Enter(Enter(result, a), b) == Enter(result, a + b)
  {
    if b == [] {
      assert a + b == a;
    } else {
      assert (a + b)[..|a + b| - 1] == a + b[..|b| - 1];
      EnterAppend(result, a, b[..|b| - 1]);
    }
  }

  function HitOptions(hits: seq<Hit>): set<nat> {
    set h | h in hits :: h.option
  }

  /** The value given last to an option. */
  function LastValue(hits: seq<Hit>, option: nat): Option<string> {
    if hits == [] then None
    else if hits[|hits| - 1].option == option then Some(hits[|hits| - 1].value)
    else LastValue(hits[..|hits| - 1], option)
  }

  /** What is added for an option that got no value; its key loses hyphens at both ends. */
  function AbsentKey(option: Opt): string {
    Trim(option.boundName, "-")
  }

  /** The absent options among the first n get their defaults. */
  function AddAbsent(options: seq<Opt>, present: set<nat>, result: ParseResult, n: nat): ParseResult
    requires n <= |options|
  {
    if n == 0 then result
    else
      var before := AddAbsent(options, present, result, n - 1);
      if n - 1 in present then before
      else before[AbsentKey(options[n - 1]) := OptionResult(n - 1, options[n - 1].defaultValue)]
  }

  /** What the parser caches while it reads. */
  datatype Cached = Cached(unmatched: seq<string>, result: ParseResult, present: set<nat>)

  /** What one reading adds. */
  function Apply(cached: Cached, reading: Reading): Cached {
    Cached(cached.unmatched + (if reading.Unmatched? then [reading.arg] else []),
           Enter(cached.result, HitsOf(reading)),
           cached.present + HitOptions(HitsOf(reading)))
  }

  function Cache(places: seq<Place>): Cached {
    if places == [] then Cached([], map[], {})
    else Apply(Cache(places[..|places| - 1]), places[|places| - 1].reading)
  }

  /** The cache holds the unmatched arguments, the last values of the options, and the options that got one. */
  lemma {:induction false} CacheIs(places: seq<Place>)
    ensures Cache(places) == Cached(UnmatchedArgs(places), Enter(map[], AllHits(places)), HitOptions(AllHits(places)))
    decreases |places|
  {
    if places != [] {
      var before := places[..|places| - 1];
      CacheIs(before);
      EnterAppend(map[], AllHits(before), HitsOf(places[|places| - 1].reading));
    }
  }

  predicate DefaultsKnown(options: seq<Opt>, present: set<nat>) {
    forall j | 0 <= j < |options| && j !in present :: options[j].defaultValue.Some?
  }

  /** The result of arguments that were all read. */
  function FullResult(options: seq<Opt>, hits: seq<Hit>): ParseResult {
    AddAbsent(options, HitOptions(hits), Enter(map[], hits), |options|)
  }

  predicate Succeeds(table: Table, args: seq<string>)
    requires table.Valid()
  {
    var places := Readings(table, args, 0);
    !Fails(places) && DefaultsKnown(table.options, HitOptions(AllHits(places)))
  }

  // ---------------------------------------------------------------- the parser

  datatype Ending = HelpShown | Finished

  class ArgParser {
    var table: Table
    var args: seq<string>
    var unmatched: seq<string>
    var result: ParseResult
    var present: set<nat>
    var success: bool

    ghost predicate Valid()
      reads this
    {
      table.Valid()
    }

    /** What has been cached by now. */
    function Now(): Cached
      reads this
    {
      Cached(unmatched, result, present)
    }

    constructor ()
      ensures Valid() && table.options == [HELP] && !success
      ensures table.mapping == map["help" := 0, "--help" := 0, "-h" := 0, "-?" := 0]
    {
      table := Table([HELP], MapAliases(map["help" := 0], HELP.aliases, 0));
      args, unmatched, result, present, success := [], [], map[], {}, false;
      new;
      MapAliasesRange(map["help" := 0], HELP.aliases, 0, 1);
      assert HELP.aliases[1..] == ["-h", "-?"] && HELP.aliases[1..][1..] == ["-?"] && ["-?"][1..] == [];
    }

    /** Registers an option unless one with its bound name is there; names and aliases are taken over from others. */
    method AddOption(option: Opt)
      requires Valid()
      modifies this`table
      ensures Valid()
      ensures if exists i :: 0 <= i < |old(table).options| && old(table).options[i].boundName == option.boundName
              then table == old(table)
              else
                && table.options == old(table).options + [option]
                && table.mapping
                   == MapAliases(old(table).mapping[option.boundName := |old(table).options|], option.aliases,
                                 |old(table).options|)
    {
      var n := |table.options|;
      for i := 0 to n
        invariant forall j | 0 <= j < i :: table.options[j].boundName != option.boundName
      {
        if table.options[i].boundName == option.boundName {
          return;
        }
      }
      var mapping := table.mapping[option.boundName := n];
      MapAliasesRange(mapping, option.aliases, n, n + 1);
      table := Table(table.options + [option], MapAliases(mapping, option.aliases, n));
    }

    /** Caches the value of an option. */
    method Record(hit: Hit)
      modifies this`result, this`present
      ensures result == old(result)[hit.key := OptionResult(hit.option, Some(hit.value))]
      ensures present == old(present) + {hit.option}
    {
      present := present + {hit.option};
      result := result[hit.key := OptionResult(hit.option, Some(hit.value))];
    }

    /** Gives the value to one option: the value it took is `value`, unless the option refuses it. */
    method GiveOne(id: nat, single: bool, text: string, nextAsValue: bool, anyBefore: bool)
      returns (ok: bool, value: string, anyBoolean: bool)
      requires id < |table.options|
      modifies this`result, this`present
      ensures anyBoolean == (anyBefore || table.options[id].boolean)
      ensures var given := Given(table.options[id], text, nextAsValue, anyBefore);
        && ok == ((single || table.options[id].boolean) && table.options[id].accepts(given))
        && (ok ==> value == given)
      ensures if ok
              then
                && result == old(result)[table.options[id].boundName := OptionResult(id, Some(value))]
                && present == old(present) + {id}
              else result == old(result) && present == old(present)
    {
      var option := table.options[id];
      value, anyBoolean := text, anyBefore;
      if option.boolean {
        anyBoolean := true;
      }
      // --option true/false is omitted
      if anyBoolean && nextAsValue {
        value := "";
      }
      if !single && !option.boolean {
        return false, value, anyBoolean;
      }
      if option.boolean && value == "" {
        value := TRUE;
      }
      if !option.accepts(value) {
        return false, value, anyBoolean;
      }
      Record(Hit(id, option.boundName, value));
      ok := true;
    }

    /** The loop over the options that one token names. */
    method GiveValue(ids: seq<nat>, text: string, nextAsValue: bool) returns (ok: bool, anyBoolean: bool)
      requires forall i | 0 <= i < |ids| :: ids[i] < |table.options|
      modifies this`result, this`present
      ensures var given := Give(table.options, ids, |ids| <= 1, text, nextAsValue, false);
        && ok == given.ok && anyBoolean == given.anyBoolean
        && result == Enter(old(result), given.hits)
        && present == old(present) + HitOptions(given.hits)
    {
      anyBoolean := false;
      var value := text;
      var single := |ids| <= 1;
      ghost var all := Give(table.options, ids, single, text, nextAsValue, false);
      assert ids[0..] == ids;
      ghost var done: seq<Hit> := [];
      assert all == all.After([]);
      for i := 0 to |ids|
        invariant all == Give(table.options, ids[i..], single, value, nextAsValue, anyBoolean).After(done)
        invariant result == Enter(old(result), done)
        invariant present == old(present) + HitOptions(done)
      {
        GiveFirst(table.options, ids[i..], single, value, nextAsValue, anyBoolean, done);
        assert ids[i..][1..] == ids[i + 1..];
        ok, value, anyBoolean := GiveOne(ids[i], single, value, nextAsValue, anyBoolean);
        if !ok {
          return;
        }
        ghost var hit := Hit(ids[i], table.options[ids[i]].boundName, value);
        assert (done + [hit])[..|done|] == done;
        done := done + [hit];
      }
      assert done + [] == done;
      ok := true;
    }

    /** Parses the argument at `index`; returns the last position it used, or the number of arguments on an error. */
    method ParseArgument(index: nat) returns (last: nat, ghost reading: Reading)
      requires Valid() && index < |args|
      modifies this`unmatched, this`result, this`present
      ensures reading == Read(table, args, index) && Now() == Apply(old(Now()), reading)
      ensures last + 1 == Place(index, reading).Continue(|args|)
    {
      reading := Read(table, args, index);
      var arg := args[index];
      var name, value := NameOf(arg), ValueOf(arg);
      if !IsOptionToken(name) {
        unmatched := unmatched + [arg];
        return index, reading;
      }
      // Options like -xyz=abc are illegal.
      if HasAbbreviationPrefix(name) && |name| > 2 && value != "" {
        return |args|, reading;
      }
      var nextAsValue := false;
      if value == "" && index + 1 < |args| && !IsOptionToken(args[index + 1]) {
        value := args[index + 1];
        nextAsValue := true;
      }
      MatchesExist(table, name);
      var ok, anyBoolean := GiveValue(Matches(table, name), value, nextAsValue);
      if !ok {
        return |args|, reading;
      }
      last := index + if anyBoolean || !nextAsValue then 0 else 1;
    }

    /** The loop over the arguments; the final index exceeds their number exactly if there was an error. */
    method ParseArguments() returns (index: nat)
      requires Valid()
      modifies this`unmatched, this`result, this`present
      ensures var places := Readings(table, args, 0);
        Now() == Cache(places) && index == if Fails(places) then |args| + 1 else |args|
    {
      index := 0;
      result, unmatched, present := map[], [], {};
      ghost var done: seq<Place> := [];
      while index < |args|
        invariant Scanned(table, args, done, index)
        invariant Now() == Cache(done)
        decreases |args| - index
      {
        var last, reading := ParseArgument(index);
        ghost var more := done + [Place(index, reading)];
        assert more[..|done|] == done;
        done := more;
        index := last + 1;
      }
      ScannedAll(table, args, done, index);
    }

    /** Gives every option that is not present its default; one without a default makes the parsing fail. */
    method AddAbsentOptions()
      requires Valid()
      modifies this`result, this`success
      ensures result == AddAbsent(table.options, present, old(result), |table.options|)
      ensures success == (old(success) && DefaultsKnown(table.options, present))
    {
      for i := 0 to |table.options|
        invariant result == AddAbsent(table.options, present, old(result), i)
        invariant success == (old(success) &&
                    forall j | 0 <= j < i && j !in present :: table.options[j].defaultValue.Some?)
      {
        if i !in present {
          var item := table.options[i];
          if item.defaultValue == None {
            success := false;
          }
          result := result[AbsentKey(item) := OptionResult(i, item.defaultValue)];
        }
      }
    }

    /** Parses the cached arguments. After the help was shown the source ends the program. */
    method ParseArgsAndCache() returns (ending: Ending)
      requires Valid()
      modifies this`unmatched, this`result, this`present, this`success
      ensures var places := Readings(table, args, 0);
        var hits := AllHits(places);
        && unmatched == UnmatchedArgs(places)
        && (ending == HelpShown <==> HELP.boundName in Enter(map[], hits))
        && (ending == Finished ==>
              && success == (!Fails(places) && DefaultsKnown(table.options, HitOptions(hits)))
              && result == (if Fails(places) then Enter(map[], hits) else FullResult(table.options, hits)))
    {
      var index := ParseArguments();
      CacheIs(Readings(table, args, 0));
      if HELP.boundName in result {
        return HelpShown;
      }
      success := index <= |args|;
      if success {
        AddAbsentOptions();
      }
      ending := Finished;
    }

    /** Parses a list of arguments, each without blanks around it. */
    method Parse(input: seq<string>) returns (ending: Ending)
      requires Valid()
      modifies this`args, this`unmatched, this`result, this`present, this`success
      ensures |args| == |input| && forall i | 0 <= i < |input| :: args[i] == Trim(input[i], BLANKS)
      ensures var places := Readings(table, args, 0);
        var hits := AllHits(places);
        && unmatched == UnmatchedArgs(places)
        && (ending == HelpShown <==> HELP.boundName in Enter(map[], hits))
        && (ending == Finished ==>
              && success == Succeeds(table, args)
              && result == (if Fails(places) then Enter(map[], hits) else FullResult(table.options, hits)))
    {
      args := [];
      for i := 0 to |input|
        invariant |args| == i && forall j | 0 <= j < i :: args[j] == Trim(input[j], BLANKS)
      {
        args := args + [Trim(input[i], BLANKS)];
      }
      ending := ParseArgsAndCache();
    }
  }

  /** Reading one argument after the other has led from the first one to `index`, or past the end after a failure. */
  predicate Scanned(table: Table, args: seq<string>, done: seq<Place>, index: nat)
    requires table.Valid()
    decreases |done|
  {
    if done == [] then index == 0
    else
      var last := done[|done| - 1];
      && last.index < |args| && last.reading == Read(table, args, last.index)
      && index == last.Continue(|args|)
      && Scanned(table, args, done[..|done| - 1], last.index)
  }

  lemma {:induction false} FailsMore(done: seq<Place>)
    requires done != []
    ensures Fails(done) <==> Fails(done[..|done| - 1]) || done[|done| - 1].reading.Failed?
  {
    var before := done[..|done| - 1];
    if Fails(before) {
      var k :| 0 <= k < |before| && before[k].reading.Failed?;
      assert done[k].reading.Failed?;
    }
    if Fails(done) && !done[|done| - 1].reading.Failed? {
      var k :| 0 <= k < |done| && done[k].reading.Failed?;
      assert before[k].reading.Failed?;
    }
  }

  /** The first reading, where reading goes on, and the readings from there. */
  lemma {:induction false} ReadingsStep(table: Table, args: seq<string>, index: nat)
    requires table.Valid() && index < |args|
    ensures var place := Place(index, Read(table, args, index));
      && index < place.Next() <= |args|
      && Readings(table, args, index) == [place] + Readings(table, args, place.Continue(|args|))
  {
  }

  lemma {:induction false} Regroup(all: seq<Place>, done: seq<Place>, here: seq<Place>, rest: seq<Place>)
    requires done != [] && all == done[..|done| - 1] + here && here == [done[|done| - 1]] + rest
    ensures all == done + rest
  {
    assert done == done[..|done| - 1] + [done[|done| - 1]];
  }

  /** The arguments scanned so far and the readings from there make up all readings. */
  lemma {:induction false} ScannedAreReadings(table: Table, args: seq<string>, done: seq<Place>, index: nat)
    requires table.Valid() && Scanned(table, args, done, index)
    ensures Readings(table, args, 0) == done + Readings(table, args, index)
    decreases |done|
  {
    if done != [] {
      var before, last := done[..|done| - 1], done[|done| - 1];
      ScannedAreReadings(table, args, before, last.index);
      ReadingsStep(table, args, last.index);
      Regroup(Readings(table, args, 0), done, Readings(table, args, last.index), Readings(table, args, index));
    }
  }

  /** Only a failure leads past the end. */
  lemma {:induction false} ScannedPastEnd(table: Table, args: seq<string>, done: seq<Place>, index: nat)
    requires table.Valid() && Scanned(table, args, done, index)
    ensures index <= |args| + 1 && (Fails(done) <==> index > |args|)
    decreases |done|
  {
    if done != [] {
      var before, last := done[..|done| - 1], done[|done| - 1];
      ScannedPastEnd(table, args, before, last.index);
      assert last.index < last.Next() <= |args|;
      FailsMore(done);
    }
  }

  /** When everything has been scanned. */
  lemma {:induction false} ScannedAll(table: Table, args: seq<string>, done: seq<Place>, index: nat)
    requires table.Valid() && Scanned(table, args, done, index) && index >= |args|
    ensures done == Readings(table, args, 0)
    ensures index == if Fails(done) then |args| + 1 else |args|
  {
    ScannedAreReadings(table, args, done, index);
    ScannedPastEnd(table, args, done, index);
    assert Readings(table, args, index) == [];
    assert done + [] == done;
  }

  /** What giving a value to the first option leaves for the others. */
  lemma {:induction false} GiveFirst(
      options: seq<Opt>, ids: seq<nat>, single: bool, text: string, next: bool, any: bool, done: seq<Hit>)
    requires ids != [] && forall i | 0 <= i < |ids| :: ids[i] < |options|
    ensures var option := options[ids[0]];
      var given := Given(option, text, next, any);
      var any' := any || option.boolean;
      Give(options, ids, single, text, next, any).After(done)
      == if (single || option.boolean) && option.accepts(given)
         then Give(options, ids[1..], single, given, next, any').After(done + [Hit(ids[0], option.boundName, given)])
         else Hits(done, any', false)
  {
    var option := options[ids[0]];
    var given := Given(option, text, next, any);
    var rest := Give(options, ids[1..], single, given, next, any || option.boolean);
    assert done + ([Hit(ids[0], option.boundName, given)] + rest.hits)
        == done + [Hit(ids[0], option.boundName, given)] + rest.hits;
    assert done + [] == done;
  }

  lemma {:induction false} MapAliasesRange(mapping: map<string, nat>, aliases: seq<string>, id: nat, n: nat)
    requires id < n && forall name | name in mapping :: mapping[name] < n
    ensures forall name | name in MapAliases(mapping, aliases, id) :: MapAliases(mapping, aliases, id)[name] < n
    decreases |aliases|
  {
    if aliases != [] {
      MapAliasesRange(mapping[aliases[0] := id], aliases[1..], id, n);
    }
  }

  /** Hits are about registered options, under their bound names. */
  predicate Registered(options: seq<Opt>, hits: seq<Hit>) {
    forall i | 0 <= i < |hits| :: hits[i].option < |options| && hits[i].key == options[hits[i].option].boundName
  }

  lemma {:induction false} GiveRegistered(
      options: seq<Opt>, ids: seq<nat>, single: bool, value: string, next: bool, any: bool)
    requires forall i | 0 <= i < |ids| :: ids[i] < |options|
    ensures Registered(options, Give(options, ids, single, value, next, any).hits)
    decreases |ids|
  {
    if ids != [] {
      var option := options[ids[0]];
      GiveRegistered(options, ids[1..], single, Given(option, value, next, any), next, any || option.boolean);
    }
  }
}
