# kli — a Dafny model of its self-contained logic

`kli` is a personal command-line tool that creates and deletes GitHub
repositories by running `git` and `gh`, and opens "tinker" scratch projects in
a new `kitty` window. Almost all of it hands work to other programs. This
project models the parts that decide something on their own, and proves what
they promise:

- **Configuration** (`src/config.rs`, module `ConfigLoader`). `Config::new`
  picks the override path or the fixed default
  `/home/kenny/.config/kli/config.toml`. It then flattens the parsed file (an
  optional `[ssh]` block with optional `username` and `host`, and an optional
  `[github]` block with an optional `username`) into three independent optional
  fields. Each accessor returns its field, or an error naming the missing key.
  `read_toml_to_string` is modelled over a map from openable paths to their
  contents.
- **Line filter** (`src/lib.rs`, module `LineFilter`). `find_matches` is a
  grep-like loop over `content.lines()`. It writes every line that contains the
  pattern to a writer, each followed by `'\n'`. The writer is a class whose
  `written` string the loop appends to. The method is proved equal to a filter
  specification (`Matching` over `Lines`). Lemmas prove that the filter is
  sound, complete and order-keeping. They also prove that splitting written
  lines gives them back when no line holds a `'\n'` or ends in `'\r'`, and that
  writing back the lines of a text without `'\r'` reproduces it, with a final
  `'\n'` added when it had none.
- **Tinker command** (`src/kli.ts`, module `Tinker`). This covers the
  `TinkerWord` enumeration, the validation against its values, the `switch`
  table of `(initCommand, defaultFile)` templates (`web-ts` has no case), the
  scratch directory, and the commands sent to the window. The init command and
  the `touch` are sent only when the default file is missing; `nvim` is always
  sent, and always last.
- **Repository command strings** (`src/kli.ts`, module `RepoCommands`). The
  GitHub URL `https://github.com/<user>/<repo>`, the `--public`/`--private`
  flag, and the `gh repo create`, `git remote add origin` and `gh repo delete`
  command lines. `ParseRepoUrl` reads a URL back, and the round-trip lemma
  shows the URL determines owner and repository for owners without `/`.

Two places where the program disagrees with itself:

- The test at src/config.rs:149 expects `is_err()` for a missing configuration
  file, but `read_config` calls `unwrap` on the read (src/config.rs:66) and so
  panics. The model claims neither outcome (see "## Left out").
- The Rust `gh_create_repo` and `gh_remove_repo` hard-code the account
  `protofarer` (src/lib.rs:37, 76). The TypeScript actions use
  `config.github.username` (src/kli.ts:103, 121), and those are the strings
  modelled here.

`Lines` follows Rust's `str::lines`. It splits at `'\n'` and drops a `'\r'`
just before it. A final line without a terminator is kept, including any
trailing lone `'\r'`. No empty line follows a final `'\n'`.

## Model

| member | source | states |
|---|---|---|
| `ConfigLoader.ReadTomlToString` | src/config.rs:112-118 | succeeds exactly when the path can be opened, with that file's contents; otherwise fails with the "could not open file" message naming the path |
| `ConfigLoader.Config.Flatten` | src/config.rs:28-54 | the path is kept; with no `[ssh]` block both ssh fields are unset, otherwise they are the block's `username` and `host` exactly; the github username is the `[github]` block's `username`, unset when the block is absent |
| `ConfigLoader.Config.New` | src/config.rs:19-63 | loads exactly when the file at the chosen path parses, otherwise fails with the TOML read error; the chosen path is the override when given and the fixed default otherwise; the result is the flattening of the file at that path |
| `ConfigLoader.Config.GhUsername` | src/config.rs:72-77 | `Ok(u)` exactly when the field holds `u`; otherwise the error "No github username specified in config file" |
| `ConfigLoader.Config.SshUsername` | src/config.rs:79-84 | `Ok(u)` exactly when the field holds `u`; otherwise the error "No ssh username specified in config file" |
| `ConfigLoader.Config.SshHost` | src/config.rs:86-91 | `Ok(h)` exactly when the field holds `h`; otherwise the error "No ssh host specified in config file" |
| `ConfigLoader.FlattenUnflatten` | src/config.rs:28-62 | re-building a file from a config's three fields and flattening it again gives back the same config |
| `ConfigLoader.FlattenIdentifiesOnlyEmptyBlocks` | src/config.rs:28-54 | two files flatten to the same config if and only if they agree once an absent block is treated as a block with every key absent |
| `ConfigLoader.GhUsernameIndependentOfSsh` | src/config.rs:47-54 | the github accessor's answer does not depend on the `[ssh]` block, and succeeds exactly when `[github]` is present with a `username` |
| `ConfigLoader.SshFieldsIndependentOfGithub` | src/config.rs:28-45 | the two ssh accessors' answers do not depend on the `[github]` block |
| `ConfigLoader.UnrelatedSectionsLoad` | src/config.rs:152-162 | a file with neither `[ssh]` nor `[github]` loads successfully, with all three fields unset |
| `ConfigLoader.SshOnlyFile` | src/config.rs:19-91 | a file with only `[ssh]` username "foo" and host "bar" loads; the ssh accessors return "foo" and "bar" and the github accessor reports the missing username |
| `LineFilter.Contains` | src/lib.rs:100 | the empty pattern is contained in every line, and a contained pattern is no longer than the line |
| `LineFilter.ContainsIffOccurs` | src/lib.rs:100 | the `contains` test holds exactly when the pattern occurs at some index of the line |
| `LineFilter.Lines` | src/lib.rs:99 | only the empty text has no lines, and there are never more lines than characters |
| `LineFilter.LinesHaveNoNewline` | src/lib.rs:99 | no line holds a `'\n'` |
| `LineFilter.Matching` | src/lib.rs:99-100 | every selected line contains the pattern, and there are no more selected lines than lines |
| `LineFilter.MatchingAppend` | src/lib.rs:99-100 | filtering two consecutive runs of lines gives the first run's matches followed by the second's |
| `LineFilter.MatchingSelectsInOrder` | src/lib.rs:99-101 | the matches are the lines at a strictly increasing list of indices; each of those lines contains the pattern, and every index whose line contains it is on the list (sound, complete, order kept) |
| `LineFilter.EmptyPatternSelectsAll` | src/lib.rs:100 | with the empty pattern every line is selected, in order |
| `LineFilter.TerminatedAppend` | src/lib.rs:101 | the written text of two runs of lines is the first run's text followed by the second's |
| `LineFilter.LinesOfTerminated` | src/lib.rs:101 | lines without `'\n'` and not ending in `'\r'`, each written with one `'\n'`, split back into exactly those lines |
| `LineFilter.TerminatedOfLines` | src/lib.rs:99-101 | for a text without `'\r'`, writing back all its lines reproduces it, with one `'\n'` added when its last line had none |
| `LineFilter.LinesAtNewline` | src/lib.rs:99 | a text without `'\r'` splits into what precedes its first `'\n'`, followed by the lines of what follows it |
| `LineFilter.WrittenForNextLine` | src/lib.rs:99-104 | one more line adds itself and a `'\n'` to the output when it contains the pattern, and nothing otherwise |
| `LineFilter.Writer.WriteLine` | src/lib.rs:101 | the writer's text grows by the line and one `'\n'` |
| `LineFilter.FindMatches` | src/lib.rs:98-107 | always returns `Ok(())`; the writer's text becomes its old text followed by every line of `content` that contains the pattern, in order, each followed by `'\n'` |
| `Tinker.AllWordsListsEveryMember` | src/kli.ts:130-138 | the listed values cover every member of the enumeration |
| `Tinker.Text` | src/kli.ts:130-138 | every member has a non-empty string value |
| `Tinker.TextIsOneSegment` | src/kli.ts:130-138 | no string value holds a space or a `/`, so each is one path segment of `tinkerDir` and one word of the `touch` command |
| `Tinker.TextInjective` | src/kli.ts:130-138 | distinct members have distinct string values |
| `Tinker.TextsOfAllWords` | src/kli.ts:145-148 | the allowed values are node, node-ts, web, web-ts, bun, rust and odin, in that order, and the error lists them joined by ", " |
| `Tinker.Find` | src/kli.ts:145 | finds a member exactly when one of the searched members has the word as its value, and returns such a member |
| `Tinker.Validate` | src/kli.ts:145-150 | accepts a word exactly when it is the value of some member, returning that member; otherwise fails with "Invalid tinker project word: …" followed by the allowed values |
| `Tinker.ValidateText` | src/kli.ts:145-150 | every member's own value is accepted as that member |
| `Tinker.TemplateFor` | src/kli.ts:159-199 | only `web-ts` has no template; node is (`npm init -y`, `index.js`), rust is (`cargo init`, `src/main.rs`), bun is (`bun init`, `index.ts`); web, node-ts and odin open `index.html`, `index.ts` and `main.odin` |
| `Tinker.TinkerDir` | src/kli.ts:152-157 | the directory is the home directory, then `/scratch/tinker/`, then the word |
| `Tinker.TinkerDirInjective` | src/kli.ts:152-157 | under one home directory, different words get different directories |
| `Tinker.SessionCommands` | src/kli.ts:214-219 | `nvim <defaultFile>` is always sent, and last; the init command and `touch <dir>/<defaultFile>` come first, in that order, exactly when the default file does not exist |
| `Tinker.Tinker` | src/kli.ts:144-220 | an invalid word is rejected with the validation message; a valid word without a template exits as not implemented; otherwise the tinker directory is opened, created when missing, and the session commands for its template are sent |
| `Tinker.TinkerRejectsUnknownWords` | src/kli.ts:145-150 | a word is rejected exactly when it is none of the enumeration's values |
| `Tinker.TinkerNotImplementedOnlyWebTs` | src/kli.ts:176-198 | the "not implemented" exit happens exactly for `web-ts` |
| `Tinker.TinkerOpensDefaultFile` | src/kli.ts:159-219 | every member but `web-ts` launches, ends with `nvim` on its default file, and sends only that command exactly when the default file already exists |
| `RepoCommands.RepoUrl` | src/kli.ts:103 | the URL is `https://github.com/`, then the user name at the positions right after it, then a `/`, then the repository name to the end |
| `RepoCommands.ParseRepoUrlRoundTrip` | src/kli.ts:103 | for a user name without `/`, the URL reads back as exactly that user and repository |
| `RepoCommands.VisibilityFlag` | src/kli.ts:96 | the flag is `--public` exactly when public and `--private` exactly when not |
| `RepoCommands.CreateRepoCommand` | src/kli.ts:95-97 | `gh repo create`, then the repository name, a space, and the visibility flag last |
| `RepoCommands.CreateRepoVisibility` | src/kli.ts:95-97 | the create command ends in ` --public` exactly when public and in ` --private` exactly when not |
| `RepoCommands.AddOriginCommand` | src/kli.ts:103-106 | `git remote add origin` followed by the repository URL |
| `RepoCommands.OriginNamesOwnerAndRepo` | src/kli.ts:103-106 | the remote added as `origin` reads back as the configured user and the new repository |
| `RepoCommands.DeleteRepoCommand` | src/kli.ts:121 | `gh repo delete`, the repository URL, then `--yes` |
| `RepoCommands.DeleteTargetsOrigin` | src/kli.ts:103-121 | the deleted URL is the same URL the create action attached as `origin` |

## Left out

- `ConfigLoader.Config.New`: the file is given as `load`, a function from a path to its parsed contents (`None` when the TOML does not parse). TOML parsing itself is a library call and is not modelled.
- `ConfigLoader.Config.New`: a missing configuration file is not modelled. The code panics on the `unwrap` of the read, while a test expects an error, so neither is claimed.
- `ConfigLoader.ReadTomlToString`: a file that opens but cannot be read as UTF-8 text is not modelled. Contents are taken as a string.
- `Tinker.TemplateFor`: its contract states the full template only for node, rust and bun. For web, node-ts and odin it states only the default file; their init commands appear only in the body.
- `LineFilter.Writer.WriteLine`: a failing write is not modelled. The source panics through `unwrap`, so `find_matches` never returns `Err`.
- `gh_create_repo` and `gh_remove_repo` in src/lib.rs: these only run `git` and `gh` and react to exit statuses.
- The `repo new` and `repo del` action flows in src/kli.ts: they run `git rev-parse`, `git remote -v`, `git init`, `gh` and read `package.json`. Only the command strings they build are modelled.
- `createKittyWindow` and `sendCommand`: terminal control and timing. This includes the `'\n'` appended to each command text and the one-second sleep.
- The tinker action's console messages, and the `mkdir` that is started without being awaited. The plan records only whether the directory is to be created.
- `Tinker.TinkerDir`: `path.join` normalisation (repeated or trailing separators, `.` and `..`) is not modelled. The home directory is taken without a trailing separator; a validated word contains no separator.
- `readConfig` in src/kli.ts, and a missing `[github]` block there: the TOML is parsed by a library. The model takes the GitHub username as a string.
- The JSON field reader, CLI dispatch (`clap`, `commander`), and the subdomain stub: library wrappers and an unimplemented placeholder.
- The top-level kli.ts and main.ts: they repeat the src/kli.ts repository flow.
- tests/cli.rs: end-to-end tests that create and delete real GitHub repositories.
