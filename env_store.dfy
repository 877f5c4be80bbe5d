/** An abstract model of the environments directory and of the commands of
    src/main.rs that act on it: the directory is a map from file name to
    contents, and each command checks its guards in the order src/main.rs
    checks them before it acts. */
module EnvStore {
  import opened Wrappers
  import opened NameCodec
  import opened EnvList
  import opened Launcher

  /** The ways a command can fail in this model. */
  datatype Error =
    | DirectoryUnavailable   // the configuration directory cannot be resolved
    | SourceNotFound         // the file to install does not exist
    | EnvironmentNotFound    // no installed file for the name

  /** What `fs::spawn_command` is handed: the program, its arguments and the
      (undecoded) contents of the environment file. */
  datatype Launch = Launch(program: string, args: seq<string>, envFile: string)

  /** The file that holds environment `name` in the directory. */
  function InstalledFileName(name: string): (f: string)
    ensures FileNameToEnvName(f) == Some(name)
  {
    RoundTrip(name);
    name + EnvSuffix
  }

  /** Distinct names are kept in distinct files. */
  lemma InstalledFileNameInjective(a: string, b: string)
    ensures InstalledFileName(a) == InstalledFileName(b) <==> a == b
  {
    if InstalledFileName(a) == InstalledFileName(b) {
      assert Some(a) == FileNameToEnvName(InstalledFileName(a));
    }
  }

  /** `listing` names exactly the files of `dir`, in some order. */
  ghost predicate IsListingOf(listing: seq<string>, dir: map<string, string>) {
    forall f :: f in listing <==> f in dir
  }

  class Store {
    /** Whether the configuration directory can be resolved (and created). */
    var dirAvailable: bool
    /** The files of the configuration directory: file name to contents. */
    var files: map<string, string>

    constructor (dirAvailable: bool, files: map<string, string>)
      ensures this.dirAvailable == dirAvailable && this.files == files
    {
      this.dirAvailable := dirAvailable;
      this.files := files;
    }

    /** The assumed behaviour of `fs::load_installed_env_file` without the
        decoding step: the directory is resolved, then the environment's file
        must exist, and its contents are returned. An environment that loads
        is one that every listing of the directory shows. */
    function Load(name: string): (r: Result<string, Error>)
      reads this
      ensures r.Ok? ==> forall listing :: IsListingOf(listing, files) ==> name in GetEnvsList(listing)
    {
      if !dirAvailable then Err(DirectoryUnavailable)
      else if InstalledFileName(name) !in files then Err(EnvironmentNotFound)
      else
        InstalledIsListedEverywhere(files, name);
        Ok(files[InstalledFileName(name)])
    }

    /** `install_env`: the source must exist (checked first), then the
        destination is resolved and the source copied over it. */
    method Install(name: string, sourcePath: string, sources: map<string, string>)
      returns (r: Result<(), Error>)
      modifies this`files
      ensures sourcePath !in sources ==> r == Err(SourceNotFound) && files == old(files)
      ensures sourcePath in sources && !dirAvailable ==>
                r == Err(DirectoryUnavailable) && files == old(files)
      ensures sourcePath in sources && dirAvailable ==>
                r == Ok(()) && files == old(files)[InstalledFileName(name) := sources[sourcePath]]
      ensures r.Ok? ==> Load(name) == Ok(sources[sourcePath])
      ensures r.Ok? ==> forall other :: other != name ==> Load(other) == old(Load(other))
    {
      if sourcePath !in sources {
        return Err(SourceNotFound);
      }
      if !dirAvailable {
        return Err(DirectoryUnavailable);
      }
      var dest := InstalledFileName(name);
      files := files[dest := sources[sourcePath]];
      r := Ok(());
      forall other | other != name
        ensures Load(other) == old(Load(other))
      {
        InstalledFileNameInjective(other, name);
      }
    }

    /** `remove_env`: the destination is resolved first, must exist, and is
        then deleted. */
    method Remove(name: string) returns (r: Result<(), Error>)
      modifies this`files
      ensures !dirAvailable ==> r == Err(DirectoryUnavailable) && files == old(files)
      ensures dirAvailable && InstalledFileName(name) !in old(files) ==>
                r == Err(EnvironmentNotFound) && files == old(files)
      ensures dirAvailable && InstalledFileName(name) in old(files) ==>
                r == Ok(()) && files == old(files) - {InstalledFileName(name)}
      ensures r.Ok? ==> Load(name) == Err(EnvironmentNotFound)
      ensures r.Ok? ==> forall other :: other != name ==> Load(other) == old(Load(other))
    {
      if !dirAvailable {
        return Err(DirectoryUnavailable);
      }
      var dest := InstalledFileName(name);
      if dest !in files {
        return Err(EnvironmentNotFound);
      }
      files := files - {dest};
      r := Ok(());
      forall other | other != name
        ensures Load(other) == old(Load(other))
      {
        InstalledFileNameInjective(other, name);
      }
    }

    /** `exec_command` up to the spawn: the environment is loaded first, and
        only then is the command line split into program and arguments. */
    method Exec(name: string, commandLine: seq<string>) returns (r: Result<Launch, Error>)
      requires |commandLine| > 0
      ensures r.Err? <==> Load(name).Err?
      ensures r.Err? ==> r.error == Load(name).error
      ensures r.Ok? ==> r.value.envFile == Load(name).value
      ensures r.Ok? ==> r.value.program == commandLine[0] && r.value.args == commandLine[1..]
    {
      var env := Load(name);
      if env.Err? {
        return Err(env.error);
      }
      var program, args := SplitCommandLine(commandLine);
      r := Ok(Launch(program, args, env.value));
    }

    /** `list_envs` without the printing: the directory is resolved first,
        then `listing` (what `fs::list_env_files` returns) is filtered. */
    method ListEnvs(listing: seq<string>) returns (r: Result<seq<string>, Error>)
      ensures !dirAvailable ==> r == Err(DirectoryUnavailable)
      ensures dirAvailable ==> r.Ok? && r.value == GetEnvsList(listing)
    {
      if !dirAvailable {
        return Err(DirectoryUnavailable);
      }
      r := Ok(GetEnvsList(listing));
    }
  }

  /** An installed environment shows up in every listing of the directory. */
  lemma InstalledIsListed(dir: map<string, string>, listing: seq<string>, name: string)
    requires IsListingOf(listing, dir)
    requires InstalledFileName(name) in dir
    ensures name in GetEnvsList(listing)
  {
    ListedIff(listing, name);
  }

  /** The same for all listings at once. */
  lemma InstalledIsListedEverywhere(dir: map<string, string>, name: string)
    requires InstalledFileName(name) in dir
    ensures forall listing :: IsListingOf(listing, dir) ==> name in GetEnvsList(listing)
  {
    forall listing | IsListingOf(listing, dir)
      ensures name in GetEnvsList(listing)
    {
      InstalledIsListed(dir, listing, name);
    }
  }

  /** When every file of the directory ends in ".env", each listed name
      resolves back to a file that exists. */
  lemma ListedNameResolves(dir: map<string, string>, listing: seq<string>, e: string)
    requires IsListingOf(listing, dir)
    requires forall f :: f in dir ==> |f| >= 4 && IsEnvAt(f, |f| - 4)
    requires e in GetEnvsList(listing)
    ensures InstalledFileName(e) in dir
  {
    ListedIff(listing, e);
    var f :| f in listing && FileNameToEnvName(f) == Some(e);
    var p := f[..|f| - 4];
    assert f == p + f[|f| - 4..] && f[|f| - 4..] == EnvSuffix;
    RoundTrip(p);
    assert FileNameToEnvName(f) == Some(p);
  }

  /** The rightmost-".env" rule lists a name with no installed file: a
      directory holding only "a.env.bak" lists "a", yet loading "a" fails. */
  lemma ListedNameWithoutFile()
    ensures var dir := map["a.env.bak" := ""];
            IsListingOf(["a.env.bak"], dir) &&
            "a" in GetEnvsList(["a.env.bak"]) &&
            InstalledFileName("a") !in dir
  {
    ExampleMiddle();
    assert InstalledFileName("a") == "a.env";
    assert ["a.env.bak"][1..] == [];
  }
}
