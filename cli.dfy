/**
 * The arguments of the populate command and their checks
 * (packages/cli-rs/src/cli.rs), with glob expansion and the file system as
 * inputs.
 */
module Cli {
  import opened Wrappers
  import opened Strings

  /** One item of a glob iterator: a matched path, or an entry it could not read. */
  datatype Entry = Path(path: string) | Unreadable

  /**
   * Glob expansion of a pattern against the paths that exist: `None` for a
   * pattern whose syntax is invalid, otherwise the iterator's items in order.
   */
  type Expand = (string, set<string>) -> Option<seq<Entry>>

  /** The readable files: path to contents. Directories are not in it. */
  type FileSystem = map<string, string>

  const DefaultEnv := ".env"

  const DefaultOutput := ["dist/**/*", ".next/**/*", ".nuxt/**/*", ".output/**/*", "build/**/*"]

  datatype Cli = Cli(env: string, example: string, output: seq<string>, disposable: bool)

  /**
   * The parsed arguments from the flags given: `--env` and `--output` fall
   * back to their defaults when absent, `--disposable` is a switch.
   */
  function FromFlags(env: Option<string>, example: string, output: Option<seq<string>>, disposable: bool): (c: Cli)
    ensures c.example == example && c.disposable == disposable
    ensures c.env == (if env.Some? then env.value else DefaultEnv)
    ensures c.output == (if output.Some? then output.value else DefaultOutput)
  {
    Cli(
      match env case Some(e) => e case None => DefaultEnv,
      example,
      match output case Some(o) => o case None => DefaultOutput,
      disposable)
  }

  /** With no optional flag given: `.env`, the five build directories, backups on. */
  lemma Defaults(example: string)
    ensures FromFlags(None, example, None, false)
         == Cli(".env", example, ["dist/**/*", ".next/**/*", ".nuxt/**/*", ".output/**/*", "build/**/*"], false)
  {
  }

  const GlobError := "Failed to read glob pattern"

  function ExampleError(example: string): string {
    "Failed to load example file: " + example
  }

  function OutputError(output: seq<string>): string {
    "Output file not found: " + Join(output, ", ")
  }

  /** `assert_example_arg`: the example file must be readable. */
  function AssertExampleArg(args: Cli, fs: FileSystem): (r: Result<(), string>)
    ensures r.Ok? <==> args.example in fs
    ensures r.Err? ==> r.error == ExampleError(args.example)
  {
    if args.example in fs then Ok(()) else Err(ExampleError(args.example))
  }

  /**
   * What `assert_output_arg` decides: an invalid pattern anywhere is fatal;
   * otherwise the patterns must match at least one item between them.
   */
  function OutputVerdict(output: seq<string>, paths: set<string>, expand: Expand): Result<(), string> {
    if exists g | g in output :: expand(g, paths).None? then Err(GlobError)
    else if forall g | g in output :: expand(g, paths).value == [] then Err(OutputError(output))
    else Ok(())
  }

  /** `assert_output_arg`: sums the match counts of the patterns and fails on zero. */
  method AssertOutputArg(args: Cli, fs: FileSystem, expand: Expand) returns (r: Result<(), string>)
    ensures r == OutputVerdict(args.output, fs.Keys, expand)
  {
    var matched: nat := 0;
    for i := 0 to |args.output|
      invariant forall j :: 0 <= j < i ==> expand(args.output[j], fs.Keys).Some?
      invariant matched == 0 <==> forall j :: 0 <= j < i ==> expand(args.output[j], fs.Keys).value == []
    {
      match expand(args.output[i], fs.Keys)
      case None =>
        return Err(GlobError);
      case Some(entries) =>
        matched := matched + |entries|;
    }
    if matched == 0 {
      return Err(OutputError(args.output));
    }
    return Ok(());
  }

  /** `assert_cli_arg`: the example check, then the output check. */
  method AssertCliArg(args: Cli, fs: FileSystem, expand: Expand) returns (r: Result<(), string>)
    ensures args.example !in fs ==> r == Err(ExampleError(args.example))
    ensures args.example in fs ==> r == OutputVerdict(args.output, fs.Keys, expand)
  {
    r := AssertExampleArg(args, fs);
    if r.Ok? {
      r := AssertOutputArg(args, fs, expand);
    }
  }

  /** The output check fails exactly when every pattern is valid and none matches anything. */
  lemma NotFoundIff(output: seq<string>, paths: set<string>, expand: Expand)
    ensures OutputVerdict(output, paths, expand) == Err(OutputError(output))
        <==> forall g | g in output :: expand(g, paths) == Some([])
  {
    assert GlobError != OutputError(output) by {
      assert GlobError[0] != OutputError(output)[0];
    }
  }

  // Two patterns matching nothing give the message the command prints.
  lemma NotFoundMessage()
    ensures OutputError(["foo/**", "bar/**"]) == "Output file not found: foo/**, bar/**"
  {
  }
}
