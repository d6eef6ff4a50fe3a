/** The command strings of the `repo new` and `repo del` actions of
    src/kli.ts: the GitHub URL of a repository and the visibility flag. The
    processes they are handed to are not modelled. */
module RepoCommands {
  import opened Wrappers
  import opened Strings

  const GithubPrefix: string := "https://github.com/"

  predicate EndsWith(s: string, suffix: string)
  {
    |suffix| <= |s| && s[|s| - |suffix|..] == suffix
  }

  /** `https://github.com/${username}/${repoName}`. */
  function RepoUrl(username: string, repoName: string): (url: string)
    ensures |url| == |GithubPrefix| + |username| + 1 + |repoName|
    ensures url[..|GithubPrefix|] == GithubPrefix
    ensures url[|GithubPrefix|..|GithubPrefix| + |username|] == username
    ensures url[|GithubPrefix| + |username|] == '/'
    ensures url[|url| - |repoName|..] == repoName
  {
    GithubPrefix + username + "/" + repoName
  }

  /** Reads the owner and the repository back out of a GitHub URL. */
  function ParseRepoUrl(url: string): (r: Option<(string, string)>)
    ensures r.Some? ==> '/' !in r.value.0
  {
    if !(GithubPrefix <= url) then None
    else
      var path := url[|GithubPrefix|..];
      var i := FirstIndexOf(path, '/');
      if i == |path| then None
      else
        assert forall c :: c in path[..i] ==> c != '/';
        Some((path[..i], path[i + 1..]))
  }

  /** The URL determines the owner and the repository, for owners without a
      '/'. */
  lemma ParseRepoUrlRoundTrip(username: string, repoName: string)
    requires '/' !in username
    ensures ParseRepoUrl(RepoUrl(username, repoName)) == Some((username, repoName))
  {
    var url := RepoUrl(username, repoName);
    var path := url[|GithubPrefix|..];
    assert path == username + "/" + repoName;
    assert forall j :: 0 <= j < |username| ==> path[j] == username[j];
    assert path[|username|] == '/';
    assert FirstIndexOf(path, '/') == |username|;
    assert path[..|username|] == username;
    assert path[|username| + 1..] == repoName;
  }

  /** The visibility flag passed to `gh repo create`. */
  function VisibilityFlag(isPublic: bool): (flag: string)
    ensures flag == "--public" <==> isPublic
    ensures flag == "--private" <==> !isPublic
  {
    if isPublic then "--public" else "--private"
  }

  /** `gh repo create ${repoName} --public|--private`: the name follows
      `gh repo create ` and the visibility flag comes last. */
  function CreateRepoCommand(repoName: string, isPublic: bool): (cmd: string)
    ensures |cmd| == 16 + |repoName| + |VisibilityFlag(isPublic)|
    ensures cmd[..15] == "gh repo create "
    ensures cmd[15..15 + |repoName|] == repoName && cmd[15 + |repoName|] == ' '
    ensures cmd[16 + |repoName|..] == VisibilityFlag(isPublic)
  {
    var named := "gh repo create " + repoName;
    var cmd := named + " " + VisibilityFlag(isPublic);
    assert cmd[..|named|] == named;
    cmd
  }

  /** The command asks for a public repository exactly when `isPublic`. */
  lemma CreateRepoVisibility(repoName: string, isPublic: bool)
    ensures isPublic <==> EndsWith(CreateRepoCommand(repoName, isPublic), " --public")
    ensures !isPublic <==> EndsWith(CreateRepoCommand(repoName, isPublic), " --private")
  {
    var cmd := CreateRepoCommand(repoName, isPublic);
    var k := 15 + |repoName|;
    assert cmd[k..] == " " + VisibilityFlag(isPublic);
    if isPublic {
      assert cmd[|cmd| - 9..] == " --public";
      assert cmd[|cmd| - 1] != " --private"[9];
    } else {
      assert cmd[|cmd| - 10..] == " --private";
      assert cmd[|cmd| - 1] != " --public"[8];
    }
  }

  /** `git remote add origin ${url}`, with the URL built from the configured
      GitHub username. */
  function AddOriginCommand(username: string, repoName: string): (cmd: string)
    ensures |cmd| == 22 + |RepoUrl(username, repoName)|
    ensures cmd[..22] == "git remote add origin "
    ensures cmd[22..] == RepoUrl(username, repoName)
  {
    "git remote add origin " + RepoUrl(username, repoName)
  }

  /** The remote added as `origin` names the configured owner and the new
      repository. */
  lemma OriginNamesOwnerAndRepo(username: string, repoName: string)
    requires '/' !in username
    ensures ParseRepoUrl(AddOriginCommand(username, repoName)[22..]) == Some((username, repoName))
  {
    ParseRepoUrlRoundTrip(username, repoName);
  }

  /** `gh repo delete https://github.com/${username}/${repoName} --yes`. */
  function DeleteRepoCommand(username: string, repoName: string): (cmd: string)
    ensures |cmd| == 21 + |RepoUrl(username, repoName)|
    ensures cmd[..15] == "gh repo delete "
    ensures cmd[|cmd| - 6..] == " --yes"
    ensures cmd[15..|cmd| - 6] == RepoUrl(username, repoName)
  {
    "gh repo delete " + RepoUrl(username, repoName) + " --yes"
  }

  /** `repo del` deletes the very repository `repo new` attached as `origin`. */
  lemma DeleteTargetsOrigin(username: string, repoName: string)
    ensures var add, del := AddOriginCommand(username, repoName), DeleteRepoCommand(username, repoName);
            add[22..] == del[15..|del| - 6]
  {
  }
}
