/** The `tinker <tinker_word>` command of src/kli.ts: the word is checked
    against a fixed enumeration, looked up in a table of project templates,
    and turned into the commands sent to a new terminal window. */
module Tinker {
  import opened Wrappers

  datatype TinkerWord = Node | NodeTs | Web | WebTs | Bun | Rust | Odin

  /** The string value of each enum member. */
  function Text(w: TinkerWord): (t: string)
    ensures |t| > 0
  {
    match w
    case Node => "node"
    case NodeTs => "node-ts"
    case Web => "web"
    case WebTs => "web-ts"
    case Bun => "bun"
    case Rust => "rust"
    case Odin => "odin"
  }

  /** Every string value can stand as one path segment and one shell word. */
  lemma TextIsOneSegment(w: TinkerWord)
    ensures ' ' !in Text(w) && '/' !in Text(w)
  {
  }

  /** The members in declaration order, as `Object.values` lists them. */
  const AllWords: seq<TinkerWord> := [Node, NodeTs, Web, WebTs, Bun, Rust, Odin]

  lemma AllWordsListsEveryMember()
    ensures forall w :: w in AllWords
  {
    forall w ensures w in AllWords {
      var k := match w
        case Node => 0
        case NodeTs => 1
        case Web => 2
        case WebTs => 3
        case Bun => 4
        case Rust => 5
        case Odin => 6;
      assert AllWords[k] == w;
    }
  }

  /** Distinct members have distinct strings. */
  lemma TextInjective(v: TinkerWord, w: TinkerWord)
    requires Text(v) == Text(w)
    ensures v == w
  {
    // Strings of different lengths, or the first differing character, tell the rest apart.
    match v
    case Node => assert Text(w)[0] == 'n' && |Text(w)| == 4;
    case NodeTs => assert |Text(w)| == 7;
    case Web => assert |Text(w)| == 3 && Text(w)[0] == 'w';
    case WebTs => assert |Text(w)| == 6 && Text(w)[0] == 'w';
    case Bun => assert |Text(w)| == 3 && Text(w)[0] == 'b';
    case Rust => assert |Text(w)| == 4 && Text(w)[0] == 'r';
    case Odin => assert |Text(w)| == 4 && Text(w)[0] == 'o';
  }

  /** `Array.prototype.join`. */
  function Join(parts: seq<string>, sep: string): string
  {
    if parts == [] then []
    else if |parts| == 1 then parts[0]
    else parts[0] + sep + Join(parts[1..], sep)
  }

  /** The strings of `ws`, in order. */
  function Texts(ws: seq<TinkerWord>): (ts: seq<string>)
    ensures |ts| == |ws|
    ensures forall k :: 0 <= k < |ws| ==> ts[k] == Text(ws[k])
  {
    if ws == [] then [] else [Text(ws[0])] + Texts(ws[1..])
  }

  /** The list of allowed values printed with a rejected word. */
  function AllowedValues(): string
  {
    Join(Texts(AllWords), ", ")
  }

  /** The allowed values listed with a rejected word, in declaration order. */
  lemma TextsOfAllWords()
    ensures Texts(AllWords) == ["node", "node-ts", "web", "web-ts", "bun", "rust", "odin"]
    ensures AllowedValues() == Join(["node", "node-ts", "web", "web-ts", "bun", "rust", "odin"], ", ")
  {
    var ws := AllWords;
    assert Texts(ws[6..]) == ["odin"];
    assert Texts(ws[5..]) == ["rust", "odin"];
    assert Texts(ws[4..]) == ["bun", "rust", "odin"];
    assert Texts(ws[3..]) == ["web-ts", "bun", "rust", "odin"];
    assert Texts(ws[2..]) == ["web", "web-ts", "bun", "rust", "odin"];
    assert Texts(ws[1..]) == ["node-ts", "web", "web-ts", "bun", "rust", "odin"];
  }

  function InvalidWordMessage(word: string): string
  {
    "Invalid tinker project word: " + word + ". Allowed values are: " + AllowedValues()
  }

  /** The first member of `ws` whose string is `word`: the `includes` search. */
  function Find(word: string, ws: seq<TinkerWord>): (r: Option<TinkerWord>)
    ensures r.Some? <==> exists k :: 0 <= k < |ws| && Text(ws[k]) == word
    ensures r.Some? ==> r.value in ws && Text(r.value) == word
  {
    if ws == [] then None
    else if Text(ws[0]) == word then Some(ws[0])
    else
      var r := Find(word, ws[1..]);
      assert forall k :: 1 <= k < |ws| ==> ws[k] == ws[1..][k - 1];
      r
  }

  /** The validation at the start of the action: accept exactly the
      enumeration's strings; otherwise the error lists the allowed values. */
  function Validate(word: string): (r: Result<TinkerWord, string>)
    ensures r.Ok? <==> exists w :: Text(w) == word
    ensures r.Ok? ==> Text(r.value) == word
    ensures r.Err? ==> r.error == InvalidWordMessage(word)
  {
    match Find(word, AllWords)
    case Some(w) => Ok(w)
    case None =>
      AllWordsListsEveryMember();
      Err(InvalidWordMessage(word))
  }

  /** Validation recognises each member's own string. */
  lemma ValidateText(w: TinkerWord)
    ensures Validate(Text(w)) == Ok(w)
  {
    var r := Validate(Text(w));
    TextInjective(r.value, w);
  }

  /** The command that initialises a project and the file opened in it. */
  datatype Template = Template(initCommand: string, defaultFile: string)

  /** The `switch` table. `web-ts` has no case (its case is commented out)
      and falls through to the default branch. */
  function TemplateFor(w: TinkerWord): (t: Option<Template>)
    ensures t.None? <==> w == WebTs
    ensures w == Node ==> t == Some(Template("npm init -y", "index.js"))
    ensures w == Rust ==> t == Some(Template("cargo init", "src/main.rs"))
    ensures w == Bun ==> t == Some(Template("bun init", "index.ts"))
    ensures w == Web ==> t.value.defaultFile == "index.html"
    ensures w == NodeTs ==> t.value.defaultFile == "index.ts"
    ensures w == Odin ==> t.value.defaultFile == "main.odin"
  {
    match w
    case Node => Some(Template("npm init -y", "index.js"))
    case NodeTs =>
      Some(Template("npm init -y && npm install --save-dev typescript @types/node && npx tsc --init", "index.ts"))
    case Web => Some(Template("echo \"Creating Web project\"", "index.html"))
    case WebTs => None
    case Bun => Some(Template("bun init", "index.ts"))
    case Rust => Some(Template("cargo init", "src/main.rs"))
    case Odin =>
      Some(Template("echo \"package main\n\nimport \\\"core:fmt\\\"\n\nmain :: proc() {\n    fmt.println(\\\"Hello, Odin!\\\")\n}\" > main.odin",
                    "main.odin"))
  }

  /** `path.join(os.homedir(), 'scratch', 'tinker', word)` for a home
      directory without a trailing separator. */
  function TinkerDir(home: string, word: string): (dir: string)
    ensures |dir| == |home| + 16 + |word|
    ensures dir[..|home|] == home
    ensures dir[|home|..|dir| - |word|] == "/scratch/tinker/"
    ensures dir[|dir| - |word|..] == word
  {
    home + "/scratch/tinker/" + word
  }

  /** Different words get different directories under the same home. */
  lemma TinkerDirInjective(home: string, v: string, w: string)
    requires TinkerDir(home, v) == TinkerDir(home, w)
    ensures v == w
  {
    var dv, dw := TinkerDir(home, v), TinkerDir(home, w);
    assert |v| == |w|;
    assert v == dv[|dv| - |v|..];
  }

  /** The commands sent to the new window, in order: the initialisation and
      the `touch` only when the default file is missing, `nvim` always. */
  function SessionCommands(dir: string, t: Template, fileExists: bool): (cmds: seq<string>)
    ensures |cmds| == if fileExists then 1 else 3
    ensures cmds[|cmds| - 1] == "nvim " + t.defaultFile
    ensures t.initCommand in cmds[..|cmds| - 1] <==> !fileExists
    ensures !fileExists ==> cmds[..2] == [t.initCommand, "touch " + dir + "/" + t.defaultFile]
  {
    (if fileExists then [] else [t.initCommand, "touch " + dir + "/" + t.defaultFile])
      + ["nvim " + t.defaultFile]
  }

  /** What one `tinker` invocation does. */
  datatype TinkerPlan =
    | Rejected(message: string)
    | NotImplemented(message: string)
    | Launch(dir: string, createDir: bool, commands: seq<string>)

  /** The action: `pathExists` is the file system's answer to `fs.existsSync`.
      A rejected or unimplemented word exits with status 1 before anything is
      created; otherwise the directory is created when missing, a window is
      opened there and the commands are sent to it. */
  function Tinker(home: string, word: string, pathExists: string -> bool): (p: TinkerPlan)
    ensures p.Rejected? <==> Validate(word).Err?
    ensures p.Rejected? ==> p.message == InvalidWordMessage(word)
    ensures p.NotImplemented? <==> Validate(word) == Ok(WebTs)
    ensures p.NotImplemented? ==> p.message == "tinkering with " + word + " is not implemented"
    ensures p.Launch? ==> p.dir == TinkerDir(home, word) && p.createDir == !pathExists(p.dir)
    ensures p.Launch? ==>
              var t := TemplateFor(Validate(word).value).value;
              p.commands == SessionCommands(p.dir, t, pathExists(p.dir + "/" + t.defaultFile))
  {
    match Validate(word)
    case Err(message) => Rejected(message)
    case Ok(w) =>
      match TemplateFor(w)
      case None => NotImplemented("tinkering with " + word + " is not implemented")
      case Some(t) =>
        var dir := TinkerDir(home, word);
        Launch(dir, !pathExists(dir), SessionCommands(dir, t, pathExists(dir + "/" + t.defaultFile)))
  }

  /** A word is rejected exactly when it is none of the enumeration's strings. */
  lemma TinkerRejectsUnknownWords(home: string, word: string, pathExists: string -> bool)
    ensures Tinker(home, word, pathExists).Rejected? <==> !(exists w :: Text(w) == word)
  {
  }

  /** `web-ts`, which passes validation, is the one word that is not
      implemented. */
  lemma {:induction false} TinkerNotImplementedOnlyWebTs(home: string, word: string, pathExists: string -> bool)
    ensures Tinker(home, word, pathExists).NotImplemented? <==> word == "web-ts"
  {
    if word == "web-ts" {
      ValidateText(WebTs);
    }
  }

  /** Every accepted word but `web-ts` opens its editor on its default file,
      and initialises the project only the first time. */
  lemma TinkerOpensDefaultFile(home: string, w: TinkerWord, pathExists: string -> bool)
    requires w != WebTs
    ensures var p := Tinker(home, Text(w), pathExists);
            var file := TemplateFor(w).value.defaultFile;
            var dir := TinkerDir(home, Text(w));
            p.Launch? && p.commands[|p.commands| - 1] == "nvim " + file &&
            (|p.commands| == 1 <==> pathExists(dir + "/" + file))
  {
    ValidateText(w);
  }
}
