/**
  The string logic of the desktop window (gui/main_window.py): the file-name
  sanitiser for new characters, the mapping from a character name to its
  prompt file, the checks made before a new character is created, saving and
  loading a prompt, and the colour of a log line. The file system is a map
  from path to content that the operations read and return; the widgets are
  replaced by the strings they would hold.
*/
module MainWindow {
  import opened Wrappers
  import opened Text

  // ---------------------------------------------------------------------
  // Sanitising a new character's name

  /** A character that may appear in a file name built from a character name. */
  predicate IsSafeChar(c: char) {
    IsAlnum(c) || c == '_'
  }

  /** `"".join(c if c.isalnum() else "_" for c in name)`. */
  function SanitizeName(name: string): (safe: string)
    ensures |safe| == |name|
    ensures forall i :: 0 <= i < |name| && IsAlnum(name[i]) ==> safe[i] == name[i]
    ensures forall i :: 0 <= i < |name| && !IsAlnum(name[i]) ==> safe[i] == '_'
  {
    seq(|name|, i requires 0 <= i < |name| => if IsAlnum(name[i]) then name[i] else '_')
  }

  /** Every character of a sanitised name is a letter, a digit or `_`. */
  lemma SanitizedNameIsSafe(name: string)
    ensures forall i :: 0 <= i < |SanitizeName(name)| ==> IsSafeChar(SanitizeName(name)[i])
  {
  }

  /** A name made of safe characters only is left as it is. */
  lemma SanitizeKeepsSafeName(name: string)
    requires forall i :: 0 <= i < |name| ==> IsSafeChar(name[i])
    ensures SanitizeName(name) == name
  {
  }

  /** Sanitising twice is sanitising once. */
  lemma SanitizeIdempotent(name: string)
    ensures SanitizeName(SanitizeName(name)) == SanitizeName(name)
  {
  }

  /** Different names can share a file name: a space and a hyphen both become `_`. */
  lemma SanitizeConflatesNames()
    ensures SanitizeName("a b") == SanitizeName("a-b") == "a_b"
  {
  }

  // ---------------------------------------------------------------------
  // Paths

  /** `os.path.join(a, b)` on POSIX: an absolute `b` replaces `a`; a `/` is added only when `a` lacks one. */
  function PathJoin(a: string, b: string): (p: string)
    ensures b != [] && b[0] == '/' ==> p == b
    ensures (b == [] || b[0] != '/') && a != [] && a[|a| - 1] != '/' ==> p == a + "/" + b
    ensures (b == [] || b[0] != '/') && (a == [] || a[|a| - 1] == '/') ==> p == a + b
  {
    if b != [] && b[0] == '/' then b
    else if a == [] || a[|a| - 1] == '/' then a + b
    else a + "/" + b
  }

  /** The one character whose prompt file does not follow the naming rule. */
  const SpecialCharacter: string := "neuronlinkenthusiast"

  /** The prompt file `character_selected` reads and `save_prompt` writes. */
  function PromptPath(characterName: string): (path: string)
    ensures characterName == SpecialCharacter ==> path == "prompts/neuronlink_prompt.txt"
    ensures characterName != SpecialCharacter && (characterName == [] || characterName[0] != '/') ==>
      path == "prompts/" + characterName + "_prompt.txt"
    ensures characterName != SpecialCharacter && characterName != [] && characterName[0] == '/' ==>
      path == characterName + "_prompt.txt"
  {
    if characterName == SpecialCharacter then PathJoin("prompts", "neuronlink_prompt.txt")
    else PathJoin("prompts", characterName + "_prompt.txt")
  }

  /** The prompt file `add_new_character` creates: the naming rule, without the special case. */
  function NewPromptPath(safeName: string): (path: string)
    ensures safeName == [] || safeName[0] != '/' ==> path == "prompts/" + safeName + "_prompt.txt"
  {
    PathJoin("prompts", safeName + "_prompt.txt")
  }

  /** `os.path.join("characters", "templates", f"{safeName}.json")`. */
  function TemplatePath(safeName: string): (path: string)
    ensures safeName == [] || safeName[0] != '/' ==> path == "characters/templates/" + safeName + ".json"
  {
    PathJoin(PathJoin("characters", "templates"), safeName + ".json")
  }

  /** Apart from the special character, every name maps to `prompts/<name>_prompt.txt`. */
  lemma PromptPathFollowsNamingRule(characterName: string)
    requires characterName != SpecialCharacter
    requires characterName == [] || characterName[0] != '/'
    ensures PromptPath(characterName) == "prompts/" + characterName + "_prompt.txt"
    ensures PromptPath(characterName) == NewPromptPath(characterName)
  {
  }

  /** Names that follow the rule never share a prompt file. */
  lemma {:induction false} PromptPathInjective(a: string, b: string)
    requires a != SpecialCharacter && b != SpecialCharacter
    requires a == [] || a[0] != '/'
    requires b == [] || b[0] != '/'
    requires PromptPath(a) == PromptPath(b)
    ensures a == b
  {
    PromptPathFollowsNamingRule(a);
    PromptPathFollowsNamingRule(b);
    var pa := "prompts/" + a + "_prompt.txt";
    var pb := "prompts/" + b + "_prompt.txt";
    assert |a| == |b| by {
      assert |pa| == |pb|;
    }
    assert a == pa[8..8 + |a|];
    assert b == pb[8..8 + |b|];
  }

  /** The special case makes "neuronlinkenthusiast" and "neuronlink" read and write the same prompt file. */
  lemma SpecialCharacterSharesPromptFile()
    ensures PromptPath(SpecialCharacter) == PromptPath("neuronlink")
  {
  }

  // ---------------------------------------------------------------------
  // Creating a new character

  /** The file system the window reads and writes: path to content. */
  type Files = map<string, string>

  datatype CreateError = EmptyName | AlreadyExists(name: string)

  /** What a successful `add_new_character` leaves behind: the new files and the name selected in the list. */
  datatype Created = Created(files: Files, selected: string)

  /**
    `add_new_character` after the dialog is accepted: the name is stripped
    and must not be empty; the sanitised name gives the template and prompt
    paths, neither of which may exist yet; then an empty JSON template and
    the prompt are written and the sanitised name is selected.
  */
  function AddNewCharacter(rawName: string, promptContent: string, files: Files): (r: Result<Created, CreateError>)
    ensures r == Err(EmptyName) <==> Strip(rawName, IsSpace) == []
    ensures r.Err? && r.error.AlreadyExists? <==>
      && Strip(rawName, IsSpace) != []
      && (TemplatePath(SanitizeName(Strip(rawName, IsSpace))) in files
          || NewPromptPath(SanitizeName(Strip(rawName, IsSpace))) in files)
    ensures r.Ok? ==>
      var safe := SanitizeName(Strip(rawName, IsSpace));
      && safe != []
      && r.value.selected == safe
      && TemplatePath(safe) !in files && NewPromptPath(safe) !in files
      && r.value.files == files[TemplatePath(safe) := "{}"][NewPromptPath(safe) := promptContent]
  {
    var name := Strip(rawName, IsSpace);
    if name == [] then Err(EmptyName)
    else
      var safe := SanitizeName(name);
      var templatePath := TemplatePath(safe);
      var promptPath := NewPromptPath(safe);
      if templatePath in files || promptPath in files then Err(AlreadyExists(name))
      else Ok(Created(files[templatePath := "{}"][promptPath := promptContent], safe))
  }

  /** Creation never overwrites or removes a file that was already there. */
  lemma CreationKeepsExistingFiles(rawName: string, promptContent: string, files: Files)
    requires AddNewCharacter(rawName, promptContent, files).Ok?
    ensures forall p :: p in files ==>
      (p in AddNewCharacter(rawName, promptContent, files).value.files
       && AddNewCharacter(rawName, promptContent, files).value.files[p] == files[p])
  {
  }

  /** A second creation under the same name is refused. */
  lemma SecondCreationRefused(rawName: string, promptContent: string, other: string, files: Files)
    requires AddNewCharacter(rawName, promptContent, files).Ok?
    ensures AddNewCharacter(rawName, other, AddNewCharacter(rawName, promptContent, files).value.files).Err?
  {
  }

  // ---------------------------------------------------------------------
  // Loading and saving a prompt

  /** `agent.set_character(name, prompt)`: the character and prompt the agent is given. */
  datatype AgentCharacter = AgentCharacter(name: string, prompt: string)

  datatype PromptError = PromptNotFound(name: string) | NoCharacterSelected

  /** `character_selected`: the prompt file for the name is read and handed to the agent. */
  function CharacterSelected(characterName: string, files: Files): (r: Result<AgentCharacter, PromptError>)
    ensures r.Ok? <==> PromptPath(characterName) in files
    ensures r.Ok? ==> r.value == AgentCharacter(characterName, files[PromptPath(characterName)])
    ensures r.Err? ==> r.error == PromptNotFound(characterName)
  {
    var path := PromptPath(characterName);
    if path in files then Ok(AgentCharacter(characterName, files[path])) else Err(PromptNotFound(characterName))
  }

  /** What a successful `save_prompt` leaves behind. */
  datatype Saved = Saved(files: Files, agent: AgentCharacter)

  /** `save_prompt`: refused without a selected character; otherwise the editor text is written and given to the agent. */
  function SavePrompt(characterName: string, editorText: string, files: Files): (r: Result<Saved, PromptError>)
    ensures r.Err? <==> characterName == []
    ensures r.Err? ==> r.error == NoCharacterSelected
    ensures r.Ok? ==> r.value.agent == AgentCharacter(characterName, editorText)
    ensures r.Ok? ==> r.value.files == files[PromptPath(characterName) := editorText]
  {
    if characterName == [] then Err(NoCharacterSelected)
    else
      var path := PromptPath(characterName);
      Ok(Saved(files[path := editorText], AgentCharacter(characterName, editorText)))
  }

  /** Loading and saving use the same path: selecting a character after saving gives back the saved text. */
  lemma SaveThenSelect(characterName: string, editorText: string, files: Files)
    requires characterName != []
    ensures CharacterSelected(characterName, SavePrompt(characterName, editorText, files).value.files)
      == Ok(SavePrompt(characterName, editorText, files).value.agent)
  {
  }

  /** Selecting a newly created character loads the prompt it was created with. */
  lemma SelectNewCharacter(rawName: string, promptContent: string, files: Files)
    ensures var r := AddNewCharacter(rawName, promptContent, files);
      r.Ok? && r.value.selected != SpecialCharacter ==>
        CharacterSelected(r.value.selected, r.value.files) == Ok(AgentCharacter(r.value.selected, promptContent))
  {
  }

  /**
    The exception: a new "neuronlinkenthusiast" gets its prompt written to
    `prompts/neuronlinkenthusiast_prompt.txt` but selecting it reads
    `prompts/neuronlink_prompt.txt`, so unless that file already exists the
    new prompt is not found.
  */
  lemma NewSpecialCharacterPromptNotFound(rawName: string, promptContent: string, files: Files)
    requires AddNewCharacter(rawName, promptContent, files).Ok?
    requires AddNewCharacter(rawName, promptContent, files).value.selected == SpecialCharacter
    requires PromptPath(SpecialCharacter) !in files
    ensures var created := AddNewCharacter(rawName, promptContent, files).value;
      CharacterSelected(created.selected, created.files) == Err(PromptNotFound(SpecialCharacter))
  {
  }

  // ---------------------------------------------------------------------
  // Log lines

  /** `append_log`'s colour for a level; unknown levels are black. */
  function LogColour(level: string): (colour: string)
    ensures colour == "black" <==> level !in ["warning", "error", "debug", "info"]
    ensures level == "warning" ==> colour == "orange"
    ensures level == "error" ==> colour == "red"
    ensures level == "debug" ==> colour == "blue"
    ensures level == "info" ==> colour == "green"
  {
    if level == "warning" then "orange"
    else if level == "error" then "red"
    else if level == "debug" then "blue"
    else if level == "info" then "green"
    else "black"
  }

  /** The four known levels are told apart by colour. */
  lemma KnownLevelsHaveDistinctColours(a: string, b: string)
    requires a in ["warning", "error", "debug", "info"] && b in ["warning", "error", "debug", "info"]
    requires a != b
    ensures LogColour(a) != LogColour(b)
  {
  }

  const FontClose: string := "</font>"

  function FontOpen(colour: string): string {
    "<font color=\"" + colour + "\">"
  }

  /** The HTML line `append_log` adds: the message, unescaped, inside a font tag of the level's colour. */
  function AppendLog(message: string, level: string): (line: string)
    ensures |line| == |FontOpen(LogColour(level))| + |message| + |FontClose|
    ensures line[|FontOpen(LogColour(level))|..|line| - |FontClose|] == message
    ensures FontOpen(LogColour(level)) <= line
    ensures line[|line| - |FontClose|..] == "</font>"
  {
    FontOpen(LogColour(level)) + message + FontClose
  }
}
