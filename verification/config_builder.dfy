/**
 * The configuration of a run (readConfig and VirtualConfigFile): where the
 * resource files live and which sources are merged into which destinations.
 * The YAML parse is abstracted: a config file is given already parsed.
 * What is modelled is the existence check and the fix-up that makes a
 * relative rootPath relative to the directory of the config file.
 */
module ConfigBuilder {
  import opened Errors
  import opened Text
  import opened RegexPatterns

  /** One translation: the source files to merge and the files to write; YAML may leave either out. */
  datatype Translation = Translation(from: Option<seq<string>>, to: Option<seq<string>>)

  datatype VirtualConfigFile = VirtualConfigFile(rootPath: string, translations: Option<seq<Translation>>)

  /**
   * The rootPath fix-up: a path starting with '/' stays; otherwise it is
   * prefixed with the config path up to and including its last '/' (the
   * last-slash pattern's match), and stays as it is when there is none.
   */
  function ResolveRootPath(configPath: string, rootPath: string): (r: string)
    ensures StartsWith(rootPath, "/") ==> r == rootPath
    ensures !StartsWith(rootPath, "/") && LastSlashPrefix(configPath).None? ==> r == rootPath
    ensures !StartsWith(rootPath, "/") && LastSlashPrefix(configPath).Some? ==>
              exists j: nat :: SlashMatchEnd(configPath, j) && r == configPath[..j + 1] + rootPath
                               && forall j': nat :: SlashMatchEnd(configPath, j') ==> j' <= j
  {
    if StartsWith(rootPath, "/") then rootPath
    else
      match LastSlashPrefix(configPath)
      case None => rootPath
      case Some(prefix) => prefix + rootPath
  }

  /** With a config file at an absolute path, the resolved rootPath is absolute too. */
  lemma ResolvedRootPathIsAbsolute(configPath: string, rootPath: string)
    requires StartsWith(configPath, "/")
    ensures StartsWith(ResolveRootPath(configPath, rootPath), "/")
  {
    if !StartsWith(rootPath, "/") {
      assert SlashMatchEnd(configPath, 0);
      var prefix := LastSlashPrefix(configPath).value;
      assert prefix[0] == configPath[0];
    }
  }

  /** Resolving a resolved path again, against a config at an absolute path, changes nothing. */
  lemma ResolveRootPathIdempotent(configPath: string, rootPath: string)
    requires StartsWith(configPath, "/")
    ensures ResolveRootPath(configPath, ResolveRootPath(configPath, rootPath)) == ResolveRootPath(configPath, rootPath)
  {
    ResolvedRootPathIsAbsolute(configPath, rootPath);
  }

  /**
   * A relative rootPath is resolved in the config file's directory: for a
   * config `dir + name` where dir ends with '/' and holds no line terminator
   * and name holds no '/', `hello/world` becomes `dir + "hello/world"`.
   */
  lemma RelativeRootPathInConfigDirectory(dir: string, name: string, rootPath: string)
    requires |dir| > 0 && dir[|dir| - 1] == '/'
    requires forall c :: c in dir ==> !IsLineTerminator(c)
    requires '/' !in name
    requires !StartsWith(rootPath, "/")
    ensures ResolveRootPath(dir + name, rootPath) == dir + rootPath
  {
    LastSlashOfDirectory(dir, name);
  }

  /**
   * readConfig on a set of config files given already parsed, by path: a
   * missing file is FILE NOT FOUND; otherwise its rootPath is resolved.
   */
  function ReadConfig(configPath: string, configs: map<string, VirtualConfigFile>): (r: Result<VirtualConfigFile>)
    ensures configPath !in configs <==> r.Err?
    ensures r.Err? ==> r.error == Error(FileNotFound, "Could not find config file under:\n" + configPath)
    ensures r.Ok? ==> r.value.translations == configs[configPath].translations
    ensures r.Ok? ==> r.value.rootPath == ResolveRootPath(configPath, configs[configPath].rootPath)
  {
    if configPath !in configs then Err(Error(FileNotFound, "Could not find config file under:\n" + configPath))
    else
      var result := configs[configPath];
      Ok(result.(rootPath := ResolveRootPath(configPath, result.rootPath)))
  }
}
