# rsenv environment names, listing and store — a Dafny model

rsenv keeps named sets of environment variables as files `<name>.env` in a
per-user configuration directory, lists them, installs and removes them, and
runs a command with one of them applied. This project models the logic of
`src/main.rs` that can be stated without the file system:

- **NameCodec** (`name_codec.dfy`): `file_name_to_env_name`, which splits a
  file name with `rsplitn(2, ".env")` and returns the text before the
  rightmost ".env" anywhere in the name, or nothing if ".env" does not occur.
  The model includes the reverse search and the two-piece split.
- **EnvList** (`env_list.dfy`): `get_envs_list`, which maps the codec over a
  directory listing, keeps the decoded names in listing order and drops the
  rest.
- **Launcher** (`launcher.dfy`): the split of the command line in
  `exec_command`. The first word is the program and the remaining words, in
  order, are its arguments.
- **EnvStore** (`env_store.dfy`): an abstract store. The configuration
  directory is a map from file name to contents, plus a flag saying whether the
  directory can be resolved. `install_env`, `remove_env`, the loading and
  splitting of `exec_command`, and `list_envs` are methods on it. Each checks
  its guards in the order src/main.rs checks them before it acts.
- **Wrappers** (`wrappers.dfy`): Rust's `Option` and `Result`.

The code does not do what a plain suffix rule would. A file name is accepted
whenever it contains ".env" anywhere, and the name is the text before the
LAST occurrence: "a.env.bak" gives "a", "a.env.env" gives "a.env", and ".env"
gives the empty name. The model follows the code. A consequence is proved as
`EnvStore.ListedNameWithoutFile`: if `fs::list_env_files` returns every entry
of the directory unfiltered, then a directory holding only "a.env.bak" lists
the name "a", though no file "a.env" exists for it. Whether that function
filters is not visible in src/main.rs.

The `fs` and `os` modules are not part of this model. The store assumes that
`fs::get_installed_env_file(name)` names the file `name + ".env"` in the
configuration directory. That is the naming convention the listing filter
inverts. It also assumes that a failure of `os::get_config_dir` surfaces as
`DirectoryUnavailable`. The listing that `fs::list_env_files` returns is a
parameter. `IsListingOf` says when it enumerates exactly the directory's files.

## Model

| member | source | states |
|---|---|---|
| NameCodec.RFindFrom | src/main.rs:190-192 | the reverse search finds the rightmost ".env" starting at or before a position, or proves there is none there |
| NameCodec.RFind | src/main.rs:190-192 | nothing is found exactly when the string holds no ".env"; otherwise the position found holds ".env" and no later position does |
| NameCodec.NoEnvInTail | src/main.rs:190-192 | past an occurrence of ".env" with no later occurrence, the rest of the string holds no ".env" |
| NameCodec.RSplitN2 | src/main.rs:190-192 | `rsplitn(2, ".env")` gives one piece equal to the input when there is no ".env"; otherwise two pieces, after and before the match, that rebuild the input around ".env", and the piece after holds no ".env", so the split is at the rightmost match |
| NameCodec.FileNameToEnvName | src/main.rs:189-199 | None exactly when the name holds no ".env"; otherwise the result is a prefix at least 4 characters shorter than the input, followed by ".env", with no ".env" starting later |
| NameCodec.RestHasNoEnv | src/main.rs:190-195 | a decoded name `p` splits the input as `p + ".env" + rest` with no ".env" in `rest` |
| NameCodec.DecodesBeforeLastEnv | src/main.rs:190-195 | conversely, `p + ".env" + rest` with no ".env" in `rest` decodes to `p`, whatever `p` contains |
| NameCodec.DecodesIff | src/main.rs:189-199 | decoding to `p` holds if and only if the input is `p + ".env" + rest` with no ".env" in `rest` |
| NameCodec.RoundTrip | src/main.rs:190-195 | for every name `n`, including names that already hold ".env", `n + ".env"` decodes to `n`: exactly one ".env" is stripped |
| NameCodec.ExampleSuffix | src/main.rs:189-198 | "a.env" decodes to "a" |
| NameCodec.ExampleMiddle | src/main.rs:189-198 | "a.env.bak" decodes to "a": an inner ".env" is accepted |
| NameCodec.ExampleTwice | src/main.rs:189-198 | "a.env.env" decodes to "a.env": only the last ".env" is stripped |
| NameCodec.ExampleBare | src/main.rs:189-198 | ".env" decodes to the empty name, which is not rejected |
| NameCodec.ExampleRejected | src/main.rs:189-198 | "b.txt" decodes to nothing |
| EnvList.GetEnvsList | src/main.rs:204-208 | the list is no longer than the listing, and every listed name is the decoding of some listed file |
| EnvList.ListConcat | src/main.rs:204-208 | filtering a concatenation is the concatenation of the filtered parts, so input order is kept |
| EnvList.ListSingle | src/main.rs:204-208 | one file contributes its decoded name, or nothing when it holds no ".env" |
| EnvList.ListedIff | src/main.rs:204-208 | a name is listed if and only if some file of the listing decodes to it |
| EnvList.ListOrder | src/main.rs:204-208 | two accepted files at positions `i < j` give names at positions `k < l` of the result |
| EnvList.ListAllAccepted | src/main.rs:204-208 | when every file decodes, nothing is dropped and element `k` is the decoding of file `k` |
| EnvList.ListNoneAccepted | src/main.rs:204-208 | when no file decodes, the list is empty |
| EnvList.ListOfThree | src/main.rs:204-208 | three files of which only the middle one fails to decode list the first and the third names, in that order |
| EnvList.ExampleListing | src/main.rs:204-208 | the listing "a.env", "b.txt", "c.env" gives exactly "a", "c", and "b" is not among them |
| Launcher.SplitCommandLine | src/main.rs:182-184 | the program is word 0 and the arguments are words 1.. in order, so program followed by arguments is the command line: nothing is dropped or reordered |
| EnvStore.InstalledFileName | src/main.rs:140 | the file that holds an environment decodes back to that environment's name |
| EnvStore.InstalledFileNameInjective | src/main.rs:140 | distinct names are kept in distinct files |
| EnvStore.Store.Load | src/main.rs:180 | an environment that loads appears in every listing of the directory; the body is the assumed behaviour of `fs::load_installed_env_file` (see "Left out") |
| EnvStore.Store.Install | src/main.rs:133-145 | a missing source fails with SourceNotFound first and changes nothing; then an unresolvable directory fails and changes nothing; otherwise the name's file is set to the source contents, overwriting, and every other name loads as before |
| EnvStore.Store.Remove | src/main.rs:147-156 | an unresolvable directory fails first, then a missing file fails with EnvironmentNotFound, and both change nothing; otherwise exactly that file is deleted, loading the name then fails, and every other name loads as before |
| EnvStore.Store.Exec | src/main.rs:176-187 | fails exactly when loading fails, with the same error; otherwise launches word 0 of the command line with words 1.. as arguments and the loaded environment |
| EnvStore.Store.ListEnvs | src/main.rs:123-131 | an unresolvable directory fails first; otherwise the result is the filtered listing |
| EnvStore.InstalledIsListed | src/main.rs:201-208 | an installed environment's name appears in every listing of the directory |
| EnvStore.InstalledIsListedEverywhere | src/main.rs:201-208 | an installed environment's name appears in all listings of the directory at once |
| EnvStore.ListedNameResolves | src/main.rs:201-208 | when every file of the directory ends in ".env", every listed name has an installed file |
| EnvStore.ListedNameWithoutFile | src/main.rs:189-208 | given a listing of every entry, a directory holding only "a.env.bak" lists "a", yet it has no file "a.env" |

## Left out

- Argument definitions and subcommand dispatch with clap (src/main.rs:17-101, 111-121): library-driven command-line plumbing. The clap guarantee that `exec` gets at least one command word becomes the `requires` of `Launcher.SplitCommandLine` and `EnvStore.Store.Exec`.
- Printing in `main`, `list_envs`, `print_env` and `show_env` (src/main.rs:103-108, 126-128, 163, 213-217): output only. `show_env` is otherwise its load, which `EnvStore.Store.Load` models.
- `edit_env` (src/main.rs:168-174): it only calls `fs::edit_installed_env_file`, which is not part of this model. It launches an external editor.
- The bodies of the `fs` and `os` modules are not part of this model. These are `fs::assert_file_exists`, `fs::get_installed_env_file`, `fs::load_installed_env_file`, `fs::list_env_files`, `fs::spawn_command` and `os::get_config_dir`. Their behaviour enters only through the assumptions stated above and the lines below.
- EnvStore.Store.Load: returns the raw file contents, not decoded variables. Decoding is done by the `java_properties` crate, which is not part of this model.
- EnvStore.Store.Load: its body is an assumption about `fs::load_installed_env_file`. The assumption is that the directory is resolved first (DirectoryUnavailable), then the file must exist (EnvironmentNotFound), then its contents are returned. The install-then-load and remove-then-load promises are stated on `Install` and `Remove` against this body.
- The error of `fs::assert_file_exists`: `install_env` and `remove_env` both call `fs::assert_file_exists` (src/main.rs:138, 151), which has one failure. The model names it SourceNotFound in `Install` and EnvironmentNotFound in `Remove`, so the two can be told apart. Its real error value is not visible.
- EnvStore.Store.Install: does not model a failure of `std::fs::copy` itself (permissions, a full disk) or its atomicity. A resolvable directory and an existing source always give a successful copy here.
- EnvStore.Store.Remove: does not model a failure of `std::fs::remove_file` after the existence check.
- EnvStore.Store.Exec: stops at what is handed to `fs::spawn_command`. Spawning, standard-stream wiring and exit status are process I/O.
- EnvStore.Store.ListEnvs: the listing is a parameter, so a failure of `try!(fs::list_env_files())` (src/main.rs:202) is not modelled. The listing's order, and whether `fs::list_env_files` pre-filters the directory, are not visible in src/main.rs.
