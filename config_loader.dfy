/** The configuration loader of src/config.rs: a parsed TOML file with an
    optional `[ssh]` block and an optional `[github]` block is flattened into
    three independent optional fields, each read back through an accessor that
    fails when the field is unset. */
module ConfigLoader {
  import opened Wrappers

  /** The path used when no override is given. */
  const DefaultPath: string := "/home/kenny/.config/kli/config.toml"

  const ParseError: string := "Error: could not read toml file"
  const NoGithubUsername: string := "No github username specified in config file"
  const NoSshUsername: string := "No ssh username specified in config file"
  const NoSshHost: string := "No ssh host specified in config file"

  /** `[ssh]` block of the TOML file. */
  datatype SshConfig = SshConfig(username: Option<string>, host: Option<string>)

  /** `[github]` block of the TOML file. */
  datatype GithubConfig = GithubConfig(username: Option<string>)

  /** The deserialised file; sections other than these two are ignored. */
  datatype ConfigFile = ConfigFile(ssh: Option<SshConfig>, github: Option<GithubConfig>)

  /** Error message of `read_toml_to_string` for a path that cannot be opened. */
  function OpenError(path: string): string
  {
    "Error: could not open file `" + path + "`"
  }

  /** `read_toml_to_string`: the file system is the map from the paths that can
      be opened to their contents. */
  function ReadTomlToString(files: map<string, string>, path: string): (r: Result<string, string>)
    ensures r.Ok? <==> path in files
    ensures r.Ok? ==> r.value == files[path]
    ensures r.Err? ==> r.error == OpenError(path)
  {
    if path in files then Ok(files[path]) else Err(OpenError(path))
  }

  /** The override path, or the fixed default when there is none. */
  function ChosenPath(path: Option<string>): string
  {
    match path
    case Some(p) => p
    case None => DefaultPath
  }

  datatype Config = Config(path: string,
                           sshUsername: Option<string>,
                           sshHost: Option<string>,
                           ghUsername: Option<string>)
  {
    /** The flattening done by `Config::new` once the file is parsed. */
    static function Flatten(path: string, file: ConfigFile): (c: Config)
      ensures c.path == path
      ensures file.ssh.None? ==> c.sshUsername.None? && c.sshHost.None?
      ensures file.ssh.Some? ==> c.sshUsername == file.ssh.value.username && c.sshHost == file.ssh.value.host
      ensures file.github.None? ==> c.ghUsername.None?
      ensures file.github.Some? ==> c.ghUsername == file.github.value.username
    {
      var ssh := match file.ssh
        case Some(s) => (s.username, s.host)
        case None => (None, None);
      var gh := match file.github
        case Some(g) => g.username
        case None => None;
      Config(path, ssh.0, ssh.1, gh)
    }

    /** `Config::new`: `load` reads and parses the file at a path, `None`
        standing for TOML that does not parse. */
    static function New(path: Option<string>, load: string -> Option<ConfigFile>): (r: Result<Config, string>)
      ensures r.Ok? <==> load(ChosenPath(path)).Some?
      ensures r.Err? ==> r.error == ParseError
      ensures r.Ok? ==> r.value.path == (if path.Some? then path.value else DefaultPath)
      ensures r.Ok? ==> r.value == Flatten(r.value.path, load(r.value.path).value)
    {
      var p := ChosenPath(path);
      match load(p)
      case None => Err(ParseError)
      case Some(file) => Ok(Flatten(p, file))
    }

    /** `Config::gh_username`. */
    function GhUsername(): (r: Result<string, string>)
      ensures r.Ok? <==> ghUsername.Some?
      ensures r.Ok? ==> ghUsername == Some(r.value)
      ensures r.Err? ==> r.error == NoGithubUsername
    {
      match ghUsername
      case Some(u) => Ok(u)
      case None => Err(NoGithubUsername)
    }

    /** `Config::ssh_username`. */
    function SshUsername(): (r: Result<string, string>)
      ensures r.Ok? <==> sshUsername.Some?
      ensures r.Ok? ==> sshUsername == Some(r.value)
      ensures r.Err? ==> r.error == NoSshUsername
    {
      match sshUsername
      case Some(u) => Ok(u)
      case None => Err(NoSshUsername)
    }

    /** `Config::ssh_host`. */
    function SshHost(): (r: Result<string, string>)
      ensures r.Ok? <==> sshHost.Some?
      ensures r.Ok? ==> sshHost == Some(r.value)
      ensures r.Err? ==> r.error == NoSshHost
    {
      match sshHost
      case Some(h) => Ok(h)
      case None => Err(NoSshHost)
    }
  }

  /** The file with both blocks present that holds exactly a config's fields. */
  function Unflatten(c: Config): ConfigFile
  {
    ConfigFile(Some(SshConfig(c.sshUsername, c.sshHost)), Some(GithubConfig(c.ghUsername)))
  }

  /** A file with an absent block replaced by a block whose keys are all absent. */
  function Normalize(file: ConfigFile): ConfigFile
  {
    ConfigFile(Some(file.ssh.GetOr(SshConfig(None, None))),
               Some(file.github.GetOr(GithubConfig(None))))
  }

  /** Flattening loses nothing a config can tell apart: re-building the file
      from the fields and flattening again gives the same config. */
  lemma FlattenUnflatten(c: Config)
    ensures Config.Flatten(c.path, Unflatten(c)) == c
  {
  }

  /** Two files give the same config exactly when they agree once an absent
      block is identified with an empty one. */
  lemma FlattenIdentifiesOnlyEmptyBlocks(path: string, f1: ConfigFile, f2: ConfigFile)
    ensures Config.Flatten(path, f1) == Config.Flatten(path, f2) <==> Normalize(f1) == Normalize(f2)
  {
    var c1, c2 := Config.Flatten(path, f1), Config.Flatten(path, f2);
    if c1 == c2 {
      assert Normalize(f1) == Unflatten(c1);
      assert Normalize(f2) == Unflatten(c2);
    }
    if Normalize(f1) == Normalize(f2) {
      assert Unflatten(c1) == Normalize(f1);
      assert Unflatten(c2) == Normalize(f2);
      FlattenUnflatten(c1);
      FlattenUnflatten(c2);
    }
  }

  /** The github username read through the accessor depends only on the
      `[github]` block, never on `[ssh]`. */
  lemma GhUsernameIndependentOfSsh(path: string, file: ConfigFile, ssh: Option<SshConfig>)
    ensures Config.Flatten(path, file.(ssh := ssh)).GhUsername() == Config.Flatten(path, file).GhUsername()
    ensures Config.Flatten(path, file).GhUsername().Ok? <==>
              file.github.Some? && file.github.value.username.Some?
  {
  }

  /** The ssh accessors depend only on the `[ssh]` block. */
  lemma SshFieldsIndependentOfGithub(path: string, file: ConfigFile, github: Option<GithubConfig>)
    ensures Config.Flatten(path, file.(github := github)).SshUsername() == Config.Flatten(path, file).SshUsername()
    ensures Config.Flatten(path, file.(github := github)).SshHost() == Config.Flatten(path, file).SshHost()
  {
  }

  /** A file holding only unrelated sections still loads, with nothing set. */
  lemma UnrelatedSectionsLoad(path: string)
    ensures Config.New(Some(path), _ => Some(ConfigFile(None, None))) ==
            Ok(Config(path, None, None, None))
  {
  }

  /** A file with only `[ssh]` username "foo" and host "bar": both ssh
      accessors succeed and the github accessor reports the missing username. */
  lemma SshOnlyFile(path: string)
    ensures var r := Config.New(Some(path), _ => Some(ConfigFile(Some(SshConfig(Some("foo"), Some("bar"))), None)));
            r.Ok? && r.value.SshUsername() == Ok("foo") && r.value.SshHost() == Ok("bar") &&
            r.value.GhUsername() == Err(NoGithubUsername)
  {
  }
}
