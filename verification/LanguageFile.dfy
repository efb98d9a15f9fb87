/** Language files: the compiler that prints key-value pairs and the translator that reads them back. */
module LanguageFiles {
  import opened Wrappers
  import opened Bytes

  type Text = seq<byte>

  const DELIMITER: byte := 0x1E
  const TERMINATOR: byte := 0x1F
  const MAGIC: Text := [77, 73, 83, 67, 32, 76, 65, 78, 71]  // MISC LANG
  const VERSION: Text := [1, 0]

  // ---------------------------------------------------------------- the compiler

  /** A member of a JSON object: only strings are compiled. */
  datatype Json = String(text: Text) | NotString

  datatype Item = Item(key: Text, value: Json)

  datatype Pair = Pair(key: Text, value: Text)

  /** The items of a JSON object have distinct keys. */
  predicate IsObject(items: seq<Item>) {
    forall i, j | 0 <= i < j < |items| :: items[i].key != items[j].key
  }

  predicate DistinctKeys(pairs: seq<Pair>) {
    forall i, j | 0 <= i < j < |pairs| :: pairs[i].key != pairs[j].key
  }

  /** The string items, in order. */
  function KeyValuePairs(items: seq<Item>): seq<Pair> {
    if items == [] then []
    else (if items[0].value.String? then [Pair(items[0].key, items[0].value.text)] else []) + KeyValuePairs(items[1..])
  }

  /** The pairs are the string items and nothing else. */
  lemma {:induction false} PairsAreStrings(items: seq<Item>, pair: Pair)
    ensures pair in KeyValuePairs(items) <==> Item(pair.key, String(pair.value)) in items
  {
    if items != [] {
      PairsAreStrings(items[1..], pair);
      assert items == [items[0]] + items[1..];
    }
  }

  lemma {:induction false} PairsHaveDistinctKeys(items: seq<Item>)
    requires IsObject(items)
    ensures DistinctKeys(KeyValuePairs(items))
  {
    if items != [] {
      PairsHaveDistinctKeys(items[1..]);
      var rest := KeyValuePairs(items[1..]);
      forall j | 0 <= j < |rest| ensures rest[j].key != items[0].key {
        PairsAreStrings(items[1..], rest[j]);
        var i :| 0 <= i < |items[1..]| && items[1..][i] == Item(rest[j].key, String(rest[j].value));
        assert items[i + 1].key == rest[j].key;
      }
    }
  }

  function Line(pair: Pair): Text {
    pair.key + [DELIMITER] + pair.value + [TERMINATOR]
  }

  function Body(pairs: seq<Pair>): Text {
    if pairs == [] then [] else Line(pairs[0]) + Body(pairs[1..])
  }

  /** A file in full: the magic flag, the version 1.0, and a pair with its separators. */
  lemma {:induction false} FileInFull(pair: Pair)
    ensures |MAGIC| == |"MISC LANG"| && forall i | 0 <= i < |MAGIC| :: MAGIC[i] as int == "MISC LANG"[i] as int
    ensures MAGIC + VERSION + Body([pair]) == MAGIC + [1, 0] + (pair.key + [0x1E] + pair.value + [0x1F])
  {
    assert [pair][1..] == [];
    assert Line(pair) + [] == Line(pair);
  }

  lemma {:induction false} BodySnoc(pairs: seq<Pair>, pair: Pair)
    ensures Body(pairs + [pair]) == Body(pairs) + Line(pair)
  {
    if pairs == [] {
      assert pairs + [pair] == [pair];
    } else {
      assert (pairs + [pair])[1..] == pairs[1..] + [pair];
      BodySnoc(pairs[1..], pair);
    }
  }

  lemma {:induction false} BodyNext(pairs: seq<Pair>, i: nat)
    requires i < |pairs|
    ensures Body(pairs[..i + 1]) == Body(pairs[..i]) + Line(pairs[i])
  {
    assert pairs[..i + 1] == pairs[..i] + [pairs[i]];
    BodySnoc(pairs[..i], pairs[i]);
  }

  method ToBytes(items: seq<Item>) returns (result: Text)
    ensures result == MAGIC + VERSION + Body(KeyValuePairs(items))
  {
    result := MAGIC;
    result := result + VERSION;
    var pairs := KeyValuePairs(items);
    for i := 0 to |pairs|
      invariant result == MAGIC + VERSION + Body(pairs[..i])
    {
      result := result + pairs[i].key;
      result := result + [DELIMITER];
      result := result + pairs[i].value;
      result := result + [TERMINATOR];
      ghost var header, pair := MAGIC + VERSION, pairs[i];
      assert header + Body(pairs[..i]) + pair.key + [DELIMITER] + pair.value + [TERMINATOR]
          == header + (Body(pairs[..i]) + Line(pair));
      BodyNext(pairs, i);
    }
    assert pairs[..|pairs|] == pairs;
  }

  // ---------------------------------------------------------------- the parser

  type Entries = map<Text, Text>

  datatype FileError = DoesNotExist | InvalidMagicFlag | InvalidFileVersion

  /** What a chunk between two terminators adds: nothing, unless it holds a delimiter. */
  function Enter(entries: Entries, chunk: Text): Entries {
    var n := IndexOf(DELIMITER, chunk);
    if n < |chunk| then entries[chunk[..n] := chunk[n + 1..]] else entries
  }

  /** What a body adds, chunk by chunk; the last chunk may lack its terminator. */
  function EnterAll(entries: Entries, body: Text): Entries
    decreases |body|
  {
    if body == [] then entries
    else
      var n := IndexOf(TERMINATOR, body);
      if n < |body| then EnterAll(Enter(entries, body[..n]), body[n + 1..]) else Enter(entries, body)
  }

  function ParseFile(content: Text): Result<Entries, FileError> {
    if !(MAGIC <= content) then Failure(InvalidMagicFlag)
    else if !(VERSION <= content[|MAGIC|..]) then Failure(InvalidFileVersion)
    else Success(EnterAll(map[], content[|MAGIC| + |VERSION|..]))
  }

  /** A file can be read exactly if it begins with the magic flag and the version. Without the flag that is what is
      wrong with it, and with the flag alone it is the version. */
  lemma {:induction false} ReadableExactly(content: Text)
    ensures ParseFile(content).Success? <==> MAGIC + VERSION <= content
    ensures ParseFile(content) == Failure(InvalidMagicFlag) <==> !(MAGIC <= content)
    ensures ParseFile(content) == Failure(InvalidFileVersion) <==> MAGIC <= content && !(MAGIC + VERSION <= content)
    ensures MAGIC + VERSION <= content ==>
              ParseFile(content) == Success(EnterAll(map[], content[|MAGIC| + |VERSION|..]))
  {
    if MAGIC + VERSION <= content {
      assert (MAGIC + VERSION)[..|MAGIC|] == content[..|MAGIC|];
    }
    if MAGIC <= content {
      var rest := content[|MAGIC|..];
      assert content == MAGIC + rest;
      if VERSION <= rest {
        assert rest == VERSION + rest[|VERSION|..];
        assert content == MAGIC + VERSION + rest[|VERSION|..];
      }
      if MAGIC + VERSION <= content {
        assert content[|MAGIC|..|MAGIC| + |VERSION|] == VERSION;
        assert rest[..|VERSION|] == VERSION;
      }
    }
  }

  /** The bytes from `at` up to the next terminator or the end. */
  function ChunkAt(content: Text, at: nat): Text
    requires at < |content|
  {
    content[at..at + IndexOf(TERMINATOR, content[at..])]
  }

  /** Where reading goes on. */
  function NextAt(content: Text, at: nat): (next: nat)
    requires at < |content|
    ensures at < next <= |content|
  {
    var n := IndexOf(TERMINATOR, content[at..]);
    if at + n < |content| then at + n + 1 else |content|
  }

  /** One line of a stream read from position `at`: it fails only when nothing is left to read. */
  method GetLine(content: Text, at: nat) returns (ok: bool, chunk: Text, next: nat)
    requires at <= |content|
    ensures ok <==> at < |content|
    ensures ok ==> chunk == ChunkAt(content, at) && next == NextAt(content, at)
  {
    chunk, next := [], at;
    if at == |content| {
      return false, [], at;
    }
    while next < |content| && content[next] != TERMINATOR
      invariant at <= next <= |content|
      invariant chunk == content[at..next] && TERMINATOR !in chunk
    {
      chunk := chunk + [content[next]];
      next := next + 1;
    }
    assert content[at..][..next - at] == chunk;
    IndexOfIs(TERMINATOR, content[at..], next - at);
    if next < |content| {
      next := next + 1;
    }
    ok := true;
  }

  lemma {:induction false} EnterChunk(entries: Entries, chunk: Text, rest: Text)
    requires TERMINATOR !in chunk
    ensures EnterAll(entries, chunk + [TERMINATOR] + rest) == EnterAll(Enter(entries, chunk), rest)
  {
    var body := chunk + [TERMINATOR] + rest;
    IndexOfIs(TERMINATOR, body, |chunk|);
    assert body[..|chunk|] == chunk && body[|chunk| + 1..] == rest;
  }

  /** The content from `at` on is the chunk there and what follows its terminator, if it has one. */
  lemma {:induction false} CutAt(content: Text, at: nat)
    requires at < |content|
    ensures var chunk, next := ChunkAt(content, at), NextAt(content, at);
      && TERMINATOR !in chunk
      && (IndexOf(TERMINATOR, content[at..]) < |content[at..]| ==>
            content[at..] == chunk + [TERMINATOR] + content[next..])
      && (IndexOf(TERMINATOR, content[at..]) == |content[at..]| ==> content[at..] == chunk && content[next..] == [])
  {
    var n := IndexOf(TERMINATOR, content[at..]);
    assert content[at..][..n] == ChunkAt(content, at);
  }

  /** A last chunk without a terminator. */
  lemma {:induction false} EnterLast(entries: Entries, chunk: Text)
    requires TERMINATOR !in chunk && chunk != []
    ensures EnterAll(entries, chunk) == Enter(entries, chunk)
  {
    assert chunk[..|chunk|] == chunk;
    IndexOfIs(TERMINATOR, chunk, |chunk|);
  }

  /** The chunk read at `at` and what follows it, in terms of the rest of the content. */
  lemma {:induction false} EnterNext(entries: Entries, content: Text, at: nat)
    requires at < |content|
    ensures EnterAll(entries, content[at..])
         == EnterAll(Enter(entries, ChunkAt(content, at)), content[NextAt(content, at)..])
  {
    CutAt(content, at);
    if IndexOf(TERMINATOR, content[at..]) < |content[at..]| {
      EnterChunk(entries, ChunkAt(content, at), content[NextAt(content, at)..]);
    } else {
      EnterLast(entries, ChunkAt(content, at));
    }
  }

  /** Enters one chunk if it is a key and a value. */
  method EnterPair(entries: Entries, chunk: Text) returns (result: Entries)
    ensures result == Enter(entries, chunk)
  {
    result := entries;
    var keySize := IndexOf(DELIMITER, chunk);
    if keySize < |chunk| {
      result := result[chunk[..keySize] := chunk[keySize + 1..]];
    }
  }

  /** The loop over the body: key1 1E value1 1F key2 1E value2 1F ... */
  method ParseBody(content: Text, start: nat) returns (entries: Entries)
    requires start <= |content|
    ensures entries == EnterAll(map[], content[start..])
  {
    entries := map[];
    var at := start;
    var ok, chunk, next := GetLine(content, at);
    while ok
      invariant at <= |content| && (ok <==> at < |content|)
      invariant ok ==> chunk == ChunkAt(content, at) && next == NextAt(content, at)
      invariant EnterAll(entries, content[at..]) == EnterAll(map[], content[start..])
      decreases |content| - at
    {
      EnterNext(entries, content, at);
      entries := EnterPair(entries, chunk);
      at := next;
      ok, chunk, next := GetLine(content, at);
    }
  }

  method ParseLanguageFile(content: Text) returns (r: Result<Entries, FileError>)
    ensures r == ParseFile(content)
  {
    if |content| < |MAGIC| || content[..|MAGIC|] != MAGIC {
      return Failure(InvalidMagicFlag);
    }
    var at := |MAGIC|;
    if |content| - at < |VERSION| || content[at..at + |VERSION|] != VERSION {
      return Failure(InvalidFileVersion);
    }
    var entries := ParseBody(content, at + |VERSION|);
    r := Success(entries);
  }

  // ---------------------------------------------------------------- bodies compose

  /** Cuts `a`, and what follows it, behind the first terminator of `a`. */
  lemma {:induction false} CutFirst(a: Text, b: Text) returns (chunk: Text, rest: Text)
    requires a != [] && a[|a| - 1] == TERMINATOR
    ensures TERMINATOR !in chunk && |rest| < |a| && (rest == [] || rest[|rest| - 1] == TERMINATOR)
    ensures a == chunk + [TERMINATOR] + rest && a + b == chunk + [TERMINATOR] + (rest + b)
  {
    var n := IndexOf(TERMINATOR, a);
    assert n < |a| by {
      assert a[..|a|][|a| - 1] == TERMINATOR;
    }
    chunk, rest := a[..n], a[n + 1..];
  }

  lemma {:induction false} EnterBoth(entries: Entries, a: Text, b: Text)
    requires a == [] || a[|a| - 1] == TERMINATOR
    ensures EnterAll(entries, a + b) == EnterAll(EnterAll(entries, a), b)
    decreases |a|
  {
    if a == [] {
      assert a + b == b;
    } else {
      var chunk, rest := CutFirst(a, b);
      EnterChunk(entries, chunk, rest + b);
      EnterChunk(entries, chunk, rest);
      EnterBoth(Enter(entries, chunk), rest, b);
    }
  }

  /** Entries read later override those read before. */
  lemma {:induction false} EnterOverrides(entries: Entries, body: Text)
    ensures EnterAll(entries, body) == entries + EnterAll(map[], body)
    decreases |body|
  {
    if body != [] {
      var n := IndexOf(TERMINATOR, body);
      var first := Enter(map[], body[..n]);
      assert Enter(entries, body[..n]) == entries + first;
      if n < |body| {
        EnterOverrides(entries + first, body[n + 1..]);
        EnterOverrides(first, body[n + 1..]);
      } else {
        assert body[..n] == body;
      }
    }
  }

  /** Reading one body after another is reading both and letting the second override the first. */
  lemma {:induction false} BodiesCompose(a: Text, b: Text)
    requires a != [] && a[|a| - 1] == TERMINATOR
    ensures EnterAll(map[], a + b) == EnterAll(map[], a) + EnterAll(map[], b)
  {
    EnterBoth(map[], a, b);
    EnterOverrides(EnterAll(map[], a), b);
  }

  /** A chunk without a delimiter adds nothing, wherever it stands. */
  lemma {:induction false} ChunkIsIgnored(a: Text, chunk: Text, b: Text)
    requires a == [] || a[|a| - 1] == TERMINATOR
    requires TERMINATOR !in chunk && DELIMITER !in chunk
    ensures EnterAll(map[], a + (chunk + [TERMINATOR] + b)) == EnterAll(map[], a + b)
  {
    var before := EnterAll(map[], a);
    EnterBoth(map[], a, chunk + [TERMINATOR] + b);
    EnterBoth(map[], a, b);
    EnterChunk(before, chunk, b);
    assert chunk[..|chunk|] == chunk;
    IndexOfIs(DELIMITER, chunk, |chunk|);
  }

  /** The terminator of the last chunk may be missing. */
  lemma {:induction false} LastTerminatorOptional(a: Text, chunk: Text)
    requires a == [] || a[|a| - 1] == TERMINATOR
    requires TERMINATOR !in chunk
    ensures EnterAll(map[], a + chunk) == EnterAll(map[], a + chunk + [TERMINATOR])
  {
    EnterBoth(map[], a, chunk);
    EnterBoth(map[], a, chunk + [TERMINATOR]);
    assert a + chunk + [TERMINATOR] == a + (chunk + [TERMINATOR]);
    assert chunk + [TERMINATOR] + [] == chunk + [TERMINATOR];
    EnterChunk(EnterAll(map[], a), chunk, []);
    if chunk != [] {
      EnterLast(EnterAll(map[], a), chunk);
    }
  }

  // ---------------------------------------------------------------- the round trip

  function ToMap(pairs: seq<Pair>): Entries {
    if pairs == [] then map[] else map[pairs[0].key := pairs[0].value] + ToMap(pairs[1..])
  }

  /** What a pair may not contain to survive the round trip; a value may contain the delimiter. */
  predicate Separable(pair: Pair) {
    DELIMITER !in pair.key && TERMINATOR !in pair.key && TERMINATOR !in pair.value
  }

  /** Whatever is read has keys without separators and values without terminators. */
  lemma {:induction false} ReadIsSeparable(entries: Entries, body: Text, key: Text)
    requires forall k | k in entries :: Separable(Pair(k, entries[k]))
    requires key in EnterAll(entries, body)
    ensures Separable(Pair(key, EnterAll(entries, body)[key]))
    decreases |body|
  {
    if body != [] {
      var n := IndexOf(TERMINATOR, body);
      var chunk := body[..n];
      var m := IndexOf(DELIMITER, chunk);
      var entries' := Enter(entries, chunk);
      forall k | k in entries' ensures Separable(Pair(k, entries'[k])) {
        if m < |chunk| && k == chunk[..m] {
          assert forall b | b in chunk[..m] || b in chunk[m + 1..] :: b in chunk;
        }
      }
      if n < |body| {
        ReadIsSeparable(entries', body[n + 1..], key);
      } else {
        assert body == chunk;
      }
    }
  }

  lemma {:induction false} MapHolds(pairs: seq<Pair>, i: nat)
    requires i < |pairs| && DistinctKeys(pairs)
    ensures pairs[i].key in ToMap(pairs) && ToMap(pairs)[pairs[i].key] == pairs[i].value
  {
    if i > 0 {
      MapHolds(pairs[1..], i - 1);
    } else if pairs[0].key in ToMap(pairs[1..]) {
      var j := MapFrom(pairs[1..], pairs[0].key);
    }
  }

  lemma {:induction false} MapFrom(pairs: seq<Pair>, key: Text) returns (i: nat)
    requires key in ToMap(pairs)
    ensures i < |pairs| && pairs[i].key == key
  {
    if pairs[0].key == key {
      i := 0;
    } else {
      i := MapFrom(pairs[1..], key);
      i := i + 1;
    }
  }

  lemma {:induction false} ReadBack(pairs: seq<Pair>)
    requires forall i | 0 <= i < |pairs| :: Separable(pairs[i])
    ensures EnterAll(map[], Body(pairs)) == ToMap(pairs)
  {
    if pairs != [] {
      var pair := pairs[0];
      var chunk := pair.key + [DELIMITER] + pair.value;
      assert Body(pairs) == chunk + [TERMINATOR] + Body(pairs[1..]);
      EnterChunk(map[], chunk, Body(pairs[1..]));
      IndexOfIs(DELIMITER, chunk, |pair.key|) by {
        assert chunk[..|pair.key|] == pair.key;
      }
      assert Enter(map[], chunk) == map[pair.key := pair.value] by {
        assert chunk[..|pair.key|] == pair.key && chunk[|pair.key| + 1..] == pair.value;
      }
      EnterOverrides(map[pair.key := pair.value], Body(pairs[1..]));
      ReadBack(pairs[1..]);
    }
  }

  /** What the string items of an object are read back as. */
  lemma {:induction false} EntriesAreStrings(items: seq<Item>, key: Text, value: Text)
    requires IsObject(items)
    ensures var entries := ToMap(KeyValuePairs(items));
      key in entries && entries[key] == value <==> Item(key, String(value)) in items
  {
    var pairs := KeyValuePairs(items);
    PairsHaveDistinctKeys(items);
    PairsAreStrings(items, Pair(key, value));
    if Pair(key, value) in pairs {
      var i :| 0 <= i < |pairs| && pairs[i] == Pair(key, value);
      MapHolds(pairs, i);
    }
    if key in ToMap(pairs) {
      var i := MapFrom(pairs, key);
      MapHolds(pairs, i);
      assert pairs[i] in pairs;
    }
  }

  /** The compiled bytes are read back exactly if all pairs survive. */
  lemma {:induction false} PairsReadBack(pairs: seq<Pair>)
    requires DistinctKeys(pairs)
    ensures ParseFile(MAGIC + VERSION + Body(pairs)) == Success(ToMap(pairs))
       <==> forall i | 0 <= i < |pairs| :: Separable(pairs[i])
  {
    var content := MAGIC + VERSION + Body(pairs);
    assert content[..|MAGIC|] == MAGIC && content[|MAGIC|..] == VERSION + Body(pairs);
    assert content[|MAGIC| + |VERSION|..] == Body(pairs);
    if forall i | 0 <= i < |pairs| :: Separable(pairs[i]) {
      ReadBack(pairs);
    } else {
      var i :| 0 <= i < |pairs| && !Separable(pairs[i]);
      MapHolds(pairs, i);
      if pairs[i].key in EnterAll(map[], Body(pairs)) {
        ReadIsSeparable(map[], Body(pairs), pairs[i].key);
      }
    }
  }

  /** No string item contains a separator where it would be taken for one. */
  predicate AllSeparable(items: seq<Item>) {
    forall i | 0 <= i < |items| && items[i].value.String? :: Separable(Pair(items[i].key, items[i].value.text))
  }

  lemma {:induction false} SeparableItems(items: seq<Item>)
    ensures AllSeparable(items) <==> forall i | 0 <= i < |KeyValuePairs(items)| :: Separable(KeyValuePairs(items)[i])
  {
    var pairs := KeyValuePairs(items);
    if AllSeparable(items) {
      forall i | 0 <= i < |pairs| ensures Separable(pairs[i]) {
        PairsAreStrings(items, pairs[i]);
      }
    } else {
      var i :| 0 <= i < |items| && items[i].value.String? && !Separable(Pair(items[i].key, items[i].value.text));
      PairsAreStrings(items, Pair(items[i].key, items[i].value.text));
    }
  }

  /** Exactly when the translator reads back what the compiler was given. */
  lemma {:induction false} RoundTrip(items: seq<Item>)
    requires IsObject(items)
    ensures ParseFile(MAGIC + VERSION + Body(KeyValuePairs(items))) == Success(ToMap(KeyValuePairs(items)))
       <==> AllSeparable(items)
  {
    PairsHaveDistinctKeys(items);
    PairsReadBack(KeyValuePairs(items));
    SeparableItems(items);
  }

  // ---------------------------------------------------------------- the translator

  /** The text for a name, or the name itself. */
  function Lookup(entries: Entries, name: Text): Text {
    if name in entries then entries[name] else name
  }

  /** A translator that has loaded a compiled file answers with the compiled texts and echoes every other name. */
  lemma {:induction false} CompiledTexts(items: seq<Item>, name: Text)
    requires IsObject(items) && AllSeparable(items)
    ensures var r := ParseFile(MAGIC + VERSION + Body(KeyValuePairs(items)));
      && r.Success?
      && (forall i | 0 <= i < |items| && items[i].value.String? ::
            Lookup(r.value, items[i].key) == items[i].value.text)
      && ((forall i | 0 <= i < |items| && items[i].value.String? :: items[i].key != name) ==>
            Lookup(r.value, name) == name)
  {
    RoundTrip(items);
    var entries := ToMap(KeyValuePairs(items));
    forall i | 0 <= i < |items| && items[i].value.String?
      ensures Lookup(entries, items[i].key) == items[i].value.text
    {
      EntriesAreStrings(items, items[i].key, items[i].value.text);
    }
    if name in entries {
      EntriesAreStrings(items, name, entries[name]);
    }
  }

  /** A file system: the contents of the files that exist. */
  type FileSystem = map<Text, Text>

  /** What a translator works with; it is replaced as a whole. */
  datatype Loaded = Loaded(fs: FileSystem, workingDirectory: Text, language: Text, entries: Entries)

  /** The translator whose settings can be changed. How a directory and a language name a file is a parameter. */
  class DefaultTranslator {
    const pathOf: (Text, Text) -> Text
    var current: Loaded

    ghost predicate Valid()
      reads this
    {
      var path := pathOf(current.workingDirectory, current.language);
      path in current.fs && ParseFile(current.fs[path]) == Success(current.entries)
    }

    /** What loading under the given settings yields. */
    function Load(fs: FileSystem, directory: Text, language: Text): Result<Entries, FileError> {
      var path := pathOf(directory, language);
      if path in fs then ParseFile(fs[path]) else Failure(DoesNotExist)
    }

    constructor (pathOf: (Text, Text) -> Text, initial: Loaded)
      requires pathOf(initial.workingDirectory, initial.language) in initial.fs
      requires ParseFile(initial.fs[pathOf(initial.workingDirectory, initial.language)]) == Success(initial.entries)
      ensures Valid() && current == initial && this.pathOf == pathOf
    {
      this.pathOf := pathOf;
      current := initial;
    }

    /** Loads first and publishes after: a failure leaves the translator as it was. */
    method Update(fs: FileSystem, directory: Text, language: Text) returns (r: Result<(), FileError>)
      requires Valid()
      modifies this
      ensures Valid()
      ensures match Load(fs, directory, language)
              case Success(entries) => r == Success(()) && current == Loaded(fs, directory, language, entries)
              case Failure(error) => r == Failure(error) && current == old(current)
    {
      var path := pathOf(directory, language);
      if path !in fs {
        return Failure(DoesNotExist);
      }
      var parsed := ParseLanguageFile(fs[path]);
      match parsed {
        case Failure(error) => r := Failure(error);
        case Success(entries) =>
          current := Loaded(fs, directory, language, entries);
          r := Success(());
      }
    }

    method SetVirtualFs(fs: FileSystem) returns (r: Result<(), FileError>)
      requires Valid()
      modifies this
      ensures Valid()
      ensures match Load(fs, old(current).workingDirectory, old(current).language)
              case Success(entries) => r == Success(()) && current == old(current).(fs := fs, entries := entries)
              case Failure(error) => r == Failure(error) && current == old(current)
    {
      r := Update(fs, current.workingDirectory, current.language);
    }

    method SetWorkingDirectory(directory: Text) returns (r: Result<(), FileError>)
      requires Valid()
      modifies this
      ensures Valid()
      ensures match Load(old(current).fs, directory, old(current).language)
              case Success(entries) =>
                r == Success(()) && current == old(current).(workingDirectory := directory, entries := entries)
              case Failure(error) => r == Failure(error) && current == old(current)
    {
      r := Update(current.fs, directory, current.language);
    }

    method SetLanguage(name: Text) returns (r: Result<(), FileError>)
      requires Valid()
      modifies this
      ensures Valid()
      ensures match Load(old(current).fs, old(current).workingDirectory, name)
              case Success(entries) =>
                r == Success(()) && current == old(current).(language := name, entries := entries)
              case Failure(error) => r == Failure(error) && current == old(current)
    {
      r := Update(current.fs, current.workingDirectory, name);
    }

    /** The text for a name, or the name itself. */
    function GetText(name: Text): (text: Text)
      reads this
      ensures name in current.entries ==> text == current.entries[name]
      ensures name !in current.entries ==> text == name
    {
      Lookup(current.entries, name)
    }
  }

  /** Loading fails only for a file that is not there or does not begin as it should. */
  lemma {:induction false} LoadExactly(translator: DefaultTranslator, fs: FileSystem, directory: Text, language: Text)
    ensures var path := translator.pathOf(directory, language);
      var r := translator.Load(fs, directory, language);
      && (r == Failure(DoesNotExist) <==> path !in fs)
      && (r.Success? <==> path in fs && MAGIC + VERSION <= fs[path])
      && (r.Success? ==> r.value == EnterAll(map[], fs[path][|MAGIC| + |VERSION|..]))
  {
    var path := translator.pathOf(directory, language);
    if path in fs {
      ReadableExactly(fs[path]);
    }
  }

  /** From the compiler to the reader: switching to a language whose file was compiled succeeds, and from then on every
      string item is answered with its text and every other name echoed. */
  method SwitchToCompiled(translator: DefaultTranslator, language: Text, items: seq<Item>, name: Text)
    returns (r: Result<(), FileError>, text: Text)
    requires translator.Valid() && IsObject(items) && AllSeparable(items)
    requires var path := translator.pathOf(translator.current.workingDirectory, language);
      path in translator.current.fs && translator.current.fs[path] == MAGIC + VERSION + Body(KeyValuePairs(items))
    modifies translator
    ensures r == Success(()) && translator.Valid()
    ensures translator.current.language == language && translator.current.fs == old(translator.current).fs
    ensures forall i | 0 <= i < |items| && items[i].value.String? && items[i].key == name :: text == items[i].value.text
    ensures (forall i | 0 <= i < |items| && items[i].value.String? :: items[i].key != name) ==> text == name
  {
    CompiledTexts(items, name);
    r := translator.SetLanguage(language);
    text := translator.GetText(name);
  }
}
