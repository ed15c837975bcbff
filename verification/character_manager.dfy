/**
  The character registry (core/character_manager.py). Templates are read
  from a directory listing; each JSON template with a non-empty `name` is
  registered under that name, a later template replacing an earlier one of
  the same name. Registration keeps Python's dict order: a name keeps the
  place where it was first inserted. File reading and JSON parsing are
  abstracted into the `TemplateFile` values of the listing.
*/
module Characters {
  import opened Wrappers
  import opened Text
  import opened Config

  /** One entry of `os.listdir`: its file name and, when opening and `json.load` succeed, the parsed template. */
  datatype TemplateFile = TemplateFile(fileName: string, parsed: Option<Character>)

  /** The entry is registered: a `.json` file that parsed and has a non-empty `name`. */
  predicate Loads(f: TemplateFile) {
    EndsWith(f.fileName, ".json") && f.parsed.Some? && f.parsed.value.name != []
  }

  /** `self.characters`: the keys in insertion order and the dict itself. */
  datatype Registry = Registry(names: seq<string>, entries: map<string, Character>)
  {
    /** Keys are distinct, listed exactly once, non-empty, and each entry is stored under its own name. */
    ghost predicate Valid() {
      && (forall i, j :: 0 <= i < j < |names| ==> names[i] != names[j])
      && (forall n :: n in entries <==> n in names)
      && (forall n :: n in entries ==> n != [] && entries[n].name == n)
    }

    /** `self.characters[name] = character`: a new name goes to the end, an existing one keeps its place. */
    function Put(c: Character): (r: Registry)
      ensures r.entries == entries[c.name := c]
      ensures names <= r.names
      ensures Valid() && c.name != [] ==> r.Valid()
    {
      if c.name in entries then Registry(names, entries[c.name := c])
      else Registry(names + [c.name], entries[c.name := c])
    }
  }

  const EmptyRegistry: Registry := Registry([], map[])

  /** One step of the `_load_characters` loop. */
  function Load(r: Registry, f: TemplateFile): (loaded: Registry)
    ensures Loads(f) ==> loaded.entries == r.entries[f.parsed.value.name := f.parsed.value]
    ensures !Loads(f) ==> loaded == r
    ensures r.names <= loaded.names
  {
    if Loads(f) then r.Put(f.parsed.value) else r
  }

  /** The registry after the `_load_characters` loop has gone over `files` in order. */
  function LoadAll(r: Registry, files: seq<TemplateFile>): (loaded: Registry)
    ensures r.names <= loaded.names
    ensures r.entries.Keys <= loaded.entries.Keys
    decreases |files|
  {
    if files == [] then r else Load(LoadAll(r, files[..|files| - 1]), files[|files| - 1])
  }

  /** The names of the templates in `files` that get registered. */
  function LoadedNames(files: seq<TemplateFile>): set<string> {
    set i | 0 <= i < |files| && Loads(files[i]) :: files[i].parsed.value.name
  }

  /** Loading keeps the registry well formed and the order of the names already there. */
  lemma {:induction false} LoadAllValid(r: Registry, files: seq<TemplateFile>)
    requires r.Valid()
    ensures LoadAll(r, files).Valid()
    ensures r.names <= LoadAll(r, files).names
    decreases |files|
  {
    if files != [] {
      LoadAllValid(r, files[..|files| - 1]);
    }
  }

  /** After loading, the keys are the old keys together with the names of the loadable templates. */
  lemma {:induction false} LoadAllKeys(r: Registry, files: seq<TemplateFile>)
    ensures LoadAll(r, files).entries.Keys == r.entries.Keys + LoadedNames(files)
    decreases |files|
  {
    if files != [] {
      var init := files[..|files| - 1];
      LoadAllKeys(r, init);
      assert forall i :: 0 <= i < |init| ==> init[i] == files[i];
      assert LoadedNames(files) == LoadedNames(init) +
        (if Loads(files[|files| - 1]) then {files[|files| - 1].parsed.value.name} else {});
    }
  }

  /** A template without a name is never registered. */
  lemma NamelessNeverRegistered(r: Registry, files: seq<TemplateFile>)
    requires [] !in r.entries
    ensures [] !in LoadAll(r, files).entries
  {
  }

  /** When several templates share a name, the one loaded last is the one stored. */
  lemma {:induction false} LastTemplateWins(r: Registry, files: seq<TemplateFile>, i: nat)
    requires i < |files| && Loads(files[i])
    requires forall j :: i < j < |files| && Loads(files[j]) ==> files[j].parsed.value.name != files[i].parsed.value.name
    ensures files[i].parsed.value.name in LoadAll(r, files).entries
    ensures LoadAll(r, files).entries[files[i].parsed.value.name] == files[i].parsed.value
    decreases |files|
  {
    if i < |files| - 1 {
      var init := files[..|files| - 1];
      assert init[i] == files[i];
      LastTemplateWins(r, init, i);
    }
  }

  /** A line read by `input()`, or Ctrl-C while waiting for one. */
  datatype Input = Entered(line: string) | Interrupted

  /** What one round of the selection loop does with its input. */
  datatype Choice = Quit | Pick(index: nat) | Retry

  /** One round of `select_character` with `count` characters listed. */
  function Decide(count: nat, input: Input): (c: Choice)
    ensures input.Interrupted? ==> c == Quit
    ensures c.Pick? ==> c.index < count
    ensures input.Entered? ==> (c == Quit <==> Lower(Strip(input.line, IsSpace)) == "q")
    ensures input.Entered? && Lower(Strip(input.line, IsSpace)) != "q" ==>
      var n := ParseInt(Strip(input.line, IsSpace));
      && (c.Pick? <==> n.Some? && 1 <= n.value <= count)
      && (c.Pick? ==> c.index + 1 == n.value)
  {
    match input
    case Interrupted => Quit
    case Entered(line) =>
      var choice := Strip(line, IsSpace);
      if Lower(choice) == "q" then Quit
      else
        match ParseInt(choice)
        case None => Retry
        case Some(n) => if 0 <= n - 1 < count then Pick(n - 1) else Retry
  }

  /** How a selection session ends: a 0-based pick, a cancel, or input running out (`EOFError`). */
  datatype Outcome = Selected(index: nat) | Cancelled | EndOfInput

  /** The selection loop over a sequence of inputs: invalid entries are skipped until a decision. */
  function Session(count: nat, inputs: seq<Input>): (o: Outcome)
    ensures o.Selected? ==> o.index < count
    decreases |inputs|
  {
    if inputs == [] then EndOfInput
    else
      match Decide(count, inputs[0])
      case Quit => Cancelled
      case Pick(index) => Selected(index)
      case Retry => Session(count, inputs[1..])
  }

  /** Entering the 1-based number `k + 1` of a listed character picks `names[k]`. */
  lemma PickByNumber(count: nat, k: nat)
    requires k < count
    ensures Decide(count, Entered(Decimal(k + 1))) == Pick(k)
  {
    var s := Decimal(k + 1);
    StripKeeps(s, IsSpace);
    ParseDecimal(k + 1);
    assert Lower(s)[0] == s[0];
  }

  /** A number outside `1..count` is refused and the loop asks again. */
  lemma OutOfRangeNumberRetries(count: nat, n: nat)
    requires n == 0 || n > count
    ensures Decide(count, Entered(Decimal(n))) == Retry
  {
    var s := Decimal(n);
    StripKeeps(s, IsSpace);
    ParseDecimal(n);
    assert Lower(s) != "q" by {
      assert Lower(s)[0] == s[0] && IsDigit(s[0]);
    }
    var c := Decide(count, Entered(s));
    assert !c.Pick? && c != Quit;
  }

  /** Entries the loop refuses are skipped: the session continues as if they were never typed. */
  lemma {:induction false} RefusedEntriesAreSkipped(count: nat, refused: seq<Input>, rest: seq<Input>)
    requires forall j :: 0 <= j < |refused| ==> Decide(count, refused[j]) == Retry
    ensures Session(count, refused + rest) == Session(count, rest)
    decreases |refused|
  {
    if refused != [] {
      var all := refused + rest;
      assert all[0] == refused[0];
      assert Decide(count, all[0]) == Retry;
      assert all[1..] == refused[1..] + rest;
      assert Session(count, all) == Session(count, all[1..]);
      RefusedEntriesAreSkipped(count, refused[1..], rest);
    } else {
      assert refused + rest == rest;
    }
  }

  class CharacterManager {
    var characters: Registry

    ghost predicate Valid()
      reads this
    {
      characters.Valid()
    }

    /** `__init__`: an empty registry, then `_load_characters`. */
    constructor(templatesDirExists: bool, listing: seq<TemplateFile>)
      ensures characters == (if templatesDirExists then LoadAll(EmptyRegistry, listing) else EmptyRegistry)
      ensures Valid()
    {
      characters := EmptyRegistry;
      new;
      LoadCharacters(templatesDirExists, listing);
    }

    /** `_load_characters`: nothing when the directory is missing, otherwise every listed file in turn. */
    method LoadCharacters(templatesDirExists: bool, listing: seq<TemplateFile>)
      requires Valid()
      modifies this`characters
      ensures characters == (if templatesDirExists then LoadAll(old(characters), listing) else old(characters))
      ensures Valid()
    {
      if !templatesDirExists {
        return;
      }
      var i := 0;
      while i < |listing|
        invariant 0 <= i <= |listing|
        invariant characters == LoadAll(old(characters), listing[..i])
        invariant Valid()
      {
        var f := listing[i];
        if EndsWith(f.fileName, ".json") {
          match f.parsed {
            case None =>
              // opening or parsing raised: the error is logged and the file skipped
            case Some(character) =>
              if character.name != [] {
                characters := characters.Put(character);
              }
          }
        }
        assert listing[..i + 1][..i] == listing[..i];
        i := i + 1;
      }
      assert listing[..|listing|] == listing;
    }

    /** `get_character_names`: every registered name once, in insertion order. */
    function CharacterNames(): (names: seq<string>)
      reads this
      requires Valid()
      ensures forall n :: n in names <==> n in characters.entries
      ensures forall i, j :: 0 <= i < j < |names| ==> names[i] != names[j]
    {
      characters.names
    }

    /** `get_character`: `None` for an unknown name, else the template registered under it. */
    function GetCharacter(name: string): (c: Option<Character>)
      reads this
      requires Valid()
      ensures c.Some? <==> name in CharacterNames()
      ensures c.Some? ==> c.value.name == name && c.value == characters.entries[name]
    {
      if name in characters.entries then Some(characters.entries[name]) else None
    }

    /**
      `select_character`: `None` at once when no character is registered;
      otherwise inputs are read until one quits or picks a listed number.
      `endOfInput` stands for the `EOFError` that `input()` raises when the
      inputs run out.
    */
    method SelectCharacter(inputs: seq<Input>) returns (selected: Option<Character>, endOfInput: bool)
      requires Valid()
      ensures var names := CharacterNames();
        var o := Session(|names|, inputs);
        && (names == [] ==> selected == None && !endOfInput)
        && (names != [] && o.Selected? ==> selected == GetCharacter(names[o.index]) && selected.Some? && !endOfInput)
        && (names != [] && o.Cancelled? ==> selected == None && !endOfInput)
        && (names != [] && o.EndOfInput? ==> selected == None && endOfInput)
    {
      var rest := inputs;
      while true
        invariant Session(|CharacterNames()|, rest) == Session(|CharacterNames()|, inputs)
        decreases |rest|
      {
        var names := CharacterNames();
        if names == [] {
          return None, false;
        }
        if rest == [] {
          return None, true;
        }
        match Decide(|names|, rest[0]) {
          case Quit =>
            return None, false;
          case Pick(index) =>
            return GetCharacter(names[index]), false;
          case Retry =>
            rest := rest[1..];
        }
      }
    }
  }
}
