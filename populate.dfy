/**
 * The populate command (packages/cli-rs/src/main.rs): resolving the public
 * variables, serialising them, and the variant x pattern x path loop that
 * restores, backs up, rewrites and writes each output file.
 */
module Populate {
  import opened Wrappers
  import opened Strings
  import opened Json
  import opened Rewriter
  import opened Cli

  // ----- resolving the public variables -----

  /** The example keys that have a value in the environment, each with that value. */
  function PublicEnv(keys: seq<string>, environ: map<string, string>): (env: map<string, string>)
    ensures forall k :: k in env <==> k in keys && k in environ
    ensures forall k :: k in env ==> env[k] == environ[k]
  {
    map k | k in keys && k in environ :: environ[k]
  }

  /**
   * Collects the keys of the example file, then looks each one up in the
   * environment (after the env file was loaded into it); unset keys are
   * left out of the map.
   */
  method ResolvePublicEnv(example: seq<string>, environ: map<string, string>) returns (env: map<string, string>)
    ensures env == PublicEnv(example, environ)
  {
    var keys: seq<string> := [];
    for i := 0 to |example|
      invariant keys == example[..i]
    {
      keys := keys + [example[i]];
    }
    assert keys == example;
    env := map[];
    for i := 0 to |keys|
      invariant env == PublicEnv(keys[..i], environ)
    {
      assert keys[..i + 1] == keys[..i] + [keys[i]];
      if keys[i] in environ {
        env := env[keys[i] := environ[keys[i]]];
      }
    }
    assert keys[..|keys|] == keys;
  }

  /** With no example key set, the serialised map is `{}`. */
  lemma AllUnsetIsEmpty(keys: seq<string>, environ: map<string, string>, order: seq<string>)
    requires forall k :: k in keys ==> k !in environ
    requires ListsKeys(order, PublicEnv(keys, environ))
    ensures Serialize(PublicEnv(keys, environ), order) == "{}"
  {
    assert PublicEnv(keys, environ) == map[];
    SerializeEmpty(PublicEnv(keys, environ), order);
  }

  /** The resolved map written out and read back gives each set example key its value. */
  lemma ResolvedRoundTrip(keys: seq<string>, environ: map<string, string>, order: seq<string>)
    requires ListsKeys(order, PublicEnv(keys, environ))
    ensures var ps := ParseObject(Serialize(PublicEnv(keys, environ), order));
      && ps.Some?
      && (forall k :: k in ToMap(ps.value) <==> k in keys && k in environ)
      && (forall k :: k in ToMap(ps.value) ==> ToMap(ps.value)[k] == environ[k])
  {
    SerializeRoundTrip(PublicEnv(keys, environ), order);
  }

  // ----- one output path -----

  datatype Outcome = Done(fs: FileSystem) | Failed(fs: FileSystem, message: string)

  /** The backup companion of an output file. */
  function Bak(path: string): string {
    path + ".bak"
  }

  const ReadError := "Failed to read output file"

  /**
   * The restore step: unless disposable, a readable backup holding the
   * variant is copied over the output file. Copying onto a path that is not
   * a readable file (a directory) fails and is ignored.
   */
  function Restore(fs: FileSystem, path: string, p: string, disposable: bool): FileSystem {
    if !disposable && Bak(path) in fs && Contains(fs[Bak(path)], p) && path in fs then
      fs[path := fs[Bak(path)]]
    else fs
  }

  /** Everything the loop body does for one matched path and one variant. */
  function Step(fs: FileSystem, path: string, p: string, json: string, disposable: bool): Outcome
    requires |p| > 0 && NoDollar(json)
  {
    if EndsWith(path, ".bak") then Done(fs)
    else
      var fs1 := Restore(fs, path, p, disposable);
      if path !in fs1 then Failed(fs1, ReadError)
      else
        var contents := fs1[path];
        var fs2 := if !disposable && Contains(contents, p) then fs1[Bak(path) := contents] else fs1;
        Done(fs2[path := PopulateText(contents, p, json)])
  }

  /** The items of one glob iterator, in order; unreadable items are passed over. */
  function Entries(fs: FileSystem, es: seq<Entry>, p: string, json: string, disposable: bool): Outcome
    requires |p| > 0 && NoDollar(json)
    decreases |es|
  {
    if es == [] then Done(fs)
    else match es[0]
      case Unreadable => Entries(fs, es[1..], p, json, disposable)
      case Path(path) =>
        match Step(fs, path, p, json, disposable)
        case Failed(fs1, m) => Failed(fs1, m)
        case Done(fs1) => Entries(fs1, es[1..], p, json, disposable)
  }

  /** The output patterns for one variant, each expanded against the files as they are then. */
  function Globs(fs: FileSystem, globs: seq<string>, p: string, json: string, disposable: bool, expand: Expand): Outcome
    requires |p| > 0 && NoDollar(json)
    decreases |globs|
  {
    if globs == [] then Done(fs)
    else match expand(globs[0], fs.Keys)
      case None => Failed(fs, GlobError)
      case Some(es) =>
        match Entries(fs, es, p, json, disposable)
        case Failed(fs1, m) => Failed(fs1, m)
        case Done(fs1) => Globs(fs1, globs[1..], p, json, disposable, expand)
  }

  predicate NonEmpty(vs: seq<string>) {
    forall i :: 0 <= i < |vs| ==> |vs[i]| > 0
  }

  /** The variant loop, outermost. */
  function Passes(fs: FileSystem, vs: seq<string>, json: string, globs: seq<string>, disposable: bool, expand: Expand): Outcome
    requires NonEmpty(vs) && NoDollar(json)
    decreases |vs|
  {
    if vs == [] then Done(fs)
    else match Globs(fs, globs, vs[0], json, disposable, expand)
      case Failed(fs1, m) => Failed(fs1, m)
      case Done(fs1) => Passes(fs1, vs[1..], json, globs, disposable, expand)
  }

  /** The whole file loop: double-quoted variant first, then single-quoted. */
  function PopulateFiles(fs: FileSystem, json: string, globs: seq<string>, disposable: bool, expand: Expand): Outcome
    requires NoDollar(json)
  {
    Passes(fs, Variants, json, globs, disposable, expand)
  }

  // ----- the loop, with the file system as a mutable map -----

  class Populator {
    var files: FileSystem
    var failure: Option<string>
    const json: string
    const output: seq<string>
    const disposable: bool
    const expand: Expand

    constructor(files0: FileSystem, json: string, output: seq<string>, disposable: bool, expand: Expand)
      ensures files == files0 && failure.None?
      ensures this.json == json && this.output == output
      ensures this.disposable == disposable && this.expand == expand
    {
      files := files0;
      failure := None;
      this.json := json;
      this.output := output;
      this.disposable := disposable;
      this.expand := expand;
    }

    /** The files, and the message when the run stopped early. */
    function State(): Outcome
      reads this
    {
      if failure.None? then Done(files) else Failed(files, failure.value)
    }

    /** The loop body for one matched path. */
    method ProcessPath(path: string, p: string)
      requires failure.None? && |p| > 0 && NoDollar(json)
      modifies this
      ensures State() == Step(old(files), path, p, json, disposable)
    {
      if EndsWith(path, ".bak") {
        return;
      }
      var backupPath := path + ".bak";
      // restore
      if !disposable {
        if backupPath in files && Contains(files[backupPath], p) && path in files {
          files := files[path := files[backupPath]];
        }
      }
      // backup
      if path !in files {
        failure := Some(ReadError);
        return;
      }
      var contents := files[path];
      if !disposable && Contains(contents, p) {
        files := files[backupPath := contents];
      }
      // populate
      files := files[path := PopulateText(contents, p, json)];
    }

    /** One glob iterator's items. */
    method ProcessEntries(es: seq<Entry>, p: string)
      requires failure.None? && |p| > 0 && NoDollar(json)
      modifies this
      ensures State() == Entries(old(files), es, p, json, disposable)
    {
      var i := 0;
      while i < |es|
        invariant 0 <= i <= |es| && failure.None?
        invariant Entries(old(files), es, p, json, disposable) == Entries(files, es[i..], p, json, disposable)
      {
        assert es[i..][0] == es[i] && es[i..][1..] == es[i + 1..];
        match es[i] {
          case Unreadable =>
          case Path(path) =>
            ProcessPath(path, p);
            if failure.Some? {
              return;
            }
        }
        i := i + 1;
      }
    }

    /** Every output pattern for one variant. */
    method ProcessGlobs(p: string)
      requires failure.None? && |p| > 0 && NoDollar(json)
      modifies this
      ensures State() == Globs(old(files), output, p, json, disposable, expand)
    {
      var i := 0;
      while i < |output|
        invariant 0 <= i <= |output| && failure.None?
        invariant Globs(old(files), output, p, json, disposable, expand)
               == Globs(files, output[i..], p, json, disposable, expand)
      {
        assert output[i..][0] == output[i] && output[i..][1..] == output[i + 1..];
        match expand(output[i], files.Keys) {
          case None =>
            failure := Some(GlobError);
            return;
          case Some(es) =>
            ProcessEntries(es, p);
            if failure.Some? {
              return;
            }
        }
        i := i + 1;
      }
    }

    /** Both variants, double-quoted first. */
    method ProcessAll()
      requires failure.None? && NoDollar(json)
      modifies this
      ensures State() == PopulateFiles(old(files), json, output, disposable, expand)
    {
      var i := 0;
      while i < |Variants|
        invariant 0 <= i <= |Variants| && failure.None?
        invariant PopulateFiles(old(files), json, output, disposable, expand)
               == Passes(files, Variants[i..], json, output, disposable, expand)
      {
        assert Variants[i..][0] == Variants[i] && Variants[i..][1..] == Variants[i + 1..];
        ProcessGlobs(Variants[i]);
        if failure.Some? {
          return;
        }
        i := i + 1;
      }
    }
  }

  /** The key-value pairs of the map contain no `$` (template expansion is not modelled). */
  predicate DollarFree(env: map<string, string>) {
    forall k :: k in env ==> '$' !in k && '$' !in env[k]
  }

  /**
   * The command after argument parsing: the argument checks, then the
   * resolved map serialised in the map's iteration order `order`, then the
   * file loop. `example` is the list of keys read from the example file and
   * `environ` the environment after the env file was loaded.
   */
  method Run(args: Cli, fs: FileSystem, example: seq<string>, environ: map<string, string>,
             order: seq<string>, expand: Expand) returns (outcome: Outcome)
    requires ListsKeys(order, PublicEnv(example, environ)) && DollarFree(PublicEnv(example, environ))
    ensures args.example !in fs ==> outcome == Failed(fs, ExampleError(args.example))
    ensures args.example in fs && OutputVerdict(args.output, fs.Keys, expand).Err?
         ==> outcome == Failed(fs, OutputVerdict(args.output, fs.Keys, expand).error)
    ensures args.example in fs && OutputVerdict(args.output, fs.Keys, expand).Ok?
         ==> (&& NoDollar(Serialize(PublicEnv(example, environ), order))
              && outcome == PopulateFiles(fs, Serialize(PublicEnv(example, environ), order),
                                          args.output, args.disposable, expand))
  {
    var check := AssertCliArg(args, fs, expand);
    if check.Err? {
      return Failed(fs, check.error);
    }
    var env := ResolvePublicEnv(example, environ);
    SerializeDollar(env, order);
    var json := Serialize(env, order);
    var populator := new Populator(fs, json, args.output, args.disposable, expand);
    populator.ProcessAll();
    outcome := populator.State();
  }

  // ----- one path, one variant -----

  lemma BakDiffers(path: string)
    ensures Bak(path) != path
  {
    assert |Bak(path)| == |path| + 4;
  }

  /**
   * A backup holding the variant wins: the output is populated from the
   * backup, whatever it held, and the backup keeps its contents.
   */
  lemma StepRestores(fs: FileSystem, path: string, p: string, json: string)
    requires Quoted(p) && NoDollar(json) && !EndsWith(path, ".bak")
    requires path in fs && Bak(path) in fs && Contains(fs[Bak(path)], p)
    ensures Step(fs, path, p, json, false) == Done(fs[path := PopulateText(fs[Bak(path)], p, json)])
  {
    BakDiffers(path);
    var b := fs[Bak(path)];
    var fs1 := fs[path := b];
    assert Restore(fs, path, p, false) == fs1;
    assert fs1[Bak(path) := b] == fs1;
  }

  /**
   * Without a backup that holds the variant, a file holding it is copied to
   * its backup before it is populated.
   */
  lemma StepBacksUp(fs: FileSystem, path: string, p: string, json: string)
    requires Quoted(p) && NoDollar(json) && !EndsWith(path, ".bak")
    requires path in fs && Contains(fs[path], p)
    requires Bak(path) !in fs || !Contains(fs[Bak(path)], p)
    ensures Step(fs, path, p, json, false)
         == Done(fs[Bak(path) := fs[path]][path := PopulateText(fs[path], p, json)])
  {
    assert Restore(fs, path, p, false) == fs;
  }

  /**
   * A file without the variant, and without a backup that holds it, is left
   * byte for byte as it was, and no backup is made.
   */
  lemma StepLeavesPlain(fs: FileSystem, path: string, p: string, json: string, disposable: bool)
    requires Quoted(p) && NoDollar(json) && !EndsWith(path, ".bak")
    requires path in fs && !Contains(fs[path], p)
    requires disposable || Bak(path) !in fs || !Contains(fs[Bak(path)], p)
    ensures Step(fs, path, p, json, disposable) == Done(fs)
  {
    assert Restore(fs, path, p, disposable) == fs;
    PopulateUnchanged(fs[path], p, json);
  }

  // ----- what a whole run may change -----

  /**
   * What the file loop may do to the file system, failed or not: nothing is
   * deleted; only backups are created, never in disposable mode, and never
   * a backup of a backup; a backup is never changed in disposable mode, and
   * a backup of a backup never at all.
   */
  ghost predicate Frame(fs: FileSystem, fs': FileSystem, disposable: bool) {
    && (forall x :: x in fs ==> x in fs')
    && (forall x :: x in fs' && x !in fs ==> !disposable && EndsWith(x, ".bak") && !EndsWith(x, ".bak.bak"))
    && (forall x :: x in fs && EndsWith(x, ".bak") && (disposable || EndsWith(x, ".bak.bak")) ==> fs'[x] == fs[x])
  }

  lemma FrameTrans(a: FileSystem, b: FileSystem, c: FileSystem, disposable: bool)
    requires Frame(a, b, disposable) && Frame(b, c, disposable)
    ensures Frame(a, c, disposable)
  {
  }

  lemma BakSuffix(path: string)
    ensures EndsWith(Bak(path), ".bak")
    ensures EndsWith(Bak(path), ".bak.bak") <==> EndsWith(path, ".bak")
  {
    var b := Bak(path);
    assert b[|b| - 4..] == ".bak";
    if |path| >= 4 {
      assert b[|b| - 8..] == path[|path| - 4..] + ".bak";
    }
  }

  lemma StepFrame(fs: FileSystem, path: string, p: string, json: string, disposable: bool)
    requires |p| > 0 && NoDollar(json)
    ensures Frame(fs, Step(fs, path, p, json, disposable).fs, disposable)
  {
    if !EndsWith(path, ".bak") {
      BakSuffix(path);
    }
  }

  lemma {:induction false} EntriesFrame(fs: FileSystem, es: seq<Entry>, p: string, json: string, disposable: bool)
    requires |p| > 0 && NoDollar(json)
    ensures Frame(fs, Entries(fs, es, p, json, disposable).fs, disposable)
    decreases |es|
  {
    if es != [] {
      match es[0]
      case Unreadable =>
        EntriesFrame(fs, es[1..], p, json, disposable);
      case Path(path) =>
        StepFrame(fs, path, p, json, disposable);
        var fs1 := Step(fs, path, p, json, disposable).fs;
        EntriesFrame(fs1, es[1..], p, json, disposable);
        FrameTrans(fs, fs1, Entries(fs1, es[1..], p, json, disposable).fs, disposable);
    }
  }

  lemma {:induction false} GlobsFrame(fs: FileSystem, globs: seq<string>, p: string, json: string,
                                      disposable: bool, expand: Expand)
    requires |p| > 0 && NoDollar(json)
    ensures Frame(fs, Globs(fs, globs, p, json, disposable, expand).fs, disposable)
    decreases |globs|
  {
    if globs != [] && expand(globs[0], fs.Keys).Some? {
      var es := expand(globs[0], fs.Keys).value;
      EntriesFrame(fs, es, p, json, disposable);
      var fs1 := Entries(fs, es, p, json, disposable).fs;
      GlobsFrame(fs1, globs[1..], p, json, disposable, expand);
      FrameTrans(fs, fs1, Globs(fs1, globs[1..], p, json, disposable, expand).fs, disposable);
    }
  }

  lemma {:induction false} PassesFrame(fs: FileSystem, vs: seq<string>, json: string, globs: seq<string>,
                                       disposable: bool, expand: Expand)
    requires NonEmpty(vs) && NoDollar(json)
    ensures Frame(fs, Passes(fs, vs, json, globs, disposable, expand).fs, disposable)
    decreases |vs|
  {
    if vs != [] {
      GlobsFrame(fs, globs, vs[0], json, disposable, expand);
      var fs1 := Globs(fs, globs, vs[0], json, disposable, expand).fs;
      PassesFrame(fs1, vs[1..], json, globs, disposable, expand);
      FrameTrans(fs, fs1, Passes(fs1, vs[1..], json, globs, disposable, expand).fs, disposable);
    }
  }

  /**
   * Over a whole run, finished or stopped: in disposable mode no backup is
   * consulted into existence or changed; in either mode a `.bak.bak` file is
   * neither created nor changed.
   */
  lemma PopulateFrame(fs: FileSystem, json: string, globs: seq<string>, disposable: bool, expand: Expand)
    requires NoDollar(json)
    ensures Frame(fs, PopulateFiles(fs, json, globs, disposable, expand).fs, disposable)
  {
    PassesFrame(fs, Variants, json, globs, disposable, expand);
  }

  // ----- a run over one file -----

  /** An item the loop passes over without touching anything. */
  predicate Skipped(e: Entry) {
    e.Unreadable? || EndsWith(e.path, ".bak")
  }

  /** The iterator yields `path` once; every other item is unreadable or a backup. */
  ghost predicate OnlyTarget(es: seq<Entry>, path: string) {
    exists i :: 0 <= i < |es| && es[i] == Path(path) && (forall j :: 0 <= j < |es| && j != i ==> Skipped(es[j]))
  }

  lemma {:induction false} EntriesSkipped(fs: FileSystem, es: seq<Entry>, rest: seq<Entry>, p: string, json: string, disposable: bool)
    requires |p| > 0 && NoDollar(json)
    requires forall j :: 0 <= j < |es| ==> Skipped(es[j])
    ensures Entries(fs, es + rest, p, json, disposable) == Entries(fs, rest, p, json, disposable)
    decreases |es|
  {
    if es != [] {
      assert (es + rest)[0] == es[0];
      assert (es + rest)[1..] == es[1..] + rest;
      EntriesSkipped(fs, es[1..], rest, p, json, disposable);
    } else {
      assert es + rest == rest;
    }
  }

  lemma OnlyTargetStep(fs: FileSystem, es: seq<Entry>, path: string, p: string, json: string, disposable: bool)
    requires |p| > 0 && NoDollar(json) && OnlyTarget(es, path)
    ensures Entries(fs, es, p, json, disposable) == Step(fs, path, p, json, disposable)
  {
    var i :| 0 <= i < |es| && es[i] == Path(path) && (forall j :: 0 <= j < |es| && j != i ==> Skipped(es[j]));
    var pre, post := es[..i], es[i + 1..];
    assert es == pre + ([Path(path)] + post);
    EntriesSkipped(fs, pre, [Path(path)] + post, p, json, disposable);
    assert ([Path(path)] + post)[1..] == post;
    match Step(fs, path, p, json, disposable)
    case Failed(_, _) =>
    case Done(fs1) =>
      assert post + [] == post;
      EntriesSkipped(fs1, post, [], p, json, disposable);
  }

  /**
   * A pattern that reaches only backups and unreadable items leaves every
   * file as it was: a backup is not populated and gets no backup of its own.
   */
  lemma BackupsUntouched(fs: FileSystem, g: string, json: string, disposable: bool, expand: Expand)
    requires NoDollar(json)
    requires forall paths :: expand(g, paths).Some? && forall e | e in expand(g, paths).value :: Skipped(e)
    ensures PopulateFiles(fs, json, [g], disposable, expand) == Done(fs)
  {
    var es := expand(g, fs.Keys).value;
    assert forall j :: 0 <= j < |es| ==> Skipped(es[j]) by {
      assert forall j :: 0 <= j < |es| ==> es[j] in es;
    }
    assert es + [] == es;
    EntriesSkipped(fs, es, [], DoubleQuoted, json, disposable);
    EntriesSkipped(fs, es, [], SingleQuoted, json, disposable);
    assert [g][1..] == [];
    assert Variants[1..] == [SingleQuoted] && [SingleQuoted][1..] == [];
    assert Entries(fs, es, DoubleQuoted, json, disposable) == Done(fs);
    assert Globs(fs, [g], DoubleQuoted, json, disposable, expand) == Done(fs);
    assert Entries(fs, es, SingleQuoted, json, disposable) == Done(fs);
    assert Globs(fs, [g], SingleQuoted, json, disposable, expand) == Done(fs);
    assert Passes(fs, [SingleQuoted], json, [g], disposable, expand) == Done(fs);
  }

  /** The single pattern expands, whatever files exist, to `path` and backups. */
  ghost predicate Targets(expand: Expand, g: string, path: string) {
    forall paths :: expand(g, paths).Some? && OnlyTarget(expand(g, paths).value, path)
  }

  /** The loop over one file, when it is the only output the pattern reaches. */
  function BothPasses(fs: FileSystem, path: string, json: string, disposable: bool): Outcome
    requires NoDollar(json)
  {
    match Step(fs, path, DoubleQuoted, json, disposable)
    case Failed(fs1, m) => Failed(fs1, m)
    case Done(fs1) => Step(fs1, path, SingleQuoted, json, disposable)
  }

  /**
   * A run whose one pattern reaches one file (and maybe its backups) is the
   * double-quoted step on that file followed by the single-quoted step; the
   * backup created in between is matched and passed over.
   */
  lemma SingleFile(fs: FileSystem, g: string, path: string, json: string, disposable: bool, expand: Expand)
    requires NoDollar(json) && Targets(expand, g, path)
    ensures PopulateFiles(fs, json, [g], disposable, expand) == BothPasses(fs, path, json, disposable)
  {
    assert Variants[1..] == [SingleQuoted] && [SingleQuoted][1..] == [];
    assert [g][1..] == [];
    OnlyTargetStep(fs, expand(g, fs.Keys).value, path, DoubleQuoted, json, disposable);
    match Step(fs, path, DoubleQuoted, json, disposable)
    case Failed(_, _) =>
    case Done(fs1) =>
      assert Globs(fs, [g], DoubleQuoted, json, disposable, expand) == Done(fs1);
      OnlyTargetStep(fs1, expand(g, fs1.Keys).value, path, SingleQuoted, json, disposable);
      assert Globs(fs1, [g], SingleQuoted, json, disposable, expand) == Step(fs1, path, SingleQuoted, json, disposable);
      assert Passes(fs, Variants, json, [g], disposable, expand) == Passes(fs1, [SingleQuoted], json, [g], disposable, expand);
  }

  /** The serialised map is fit to be spliced in: braced, without `$`, without a placeholder. */
  predicate Spliceable(json: string) {
    Braced(json) && NoDollar(json) && !Contains(json, DoubleQuoted) && !Contains(json, SingleQuoted)
  }

  lemma BothSteps(fs: FileSystem, path: string, json: string, disposable: bool, fsA: FileSystem, fsB: FileSystem)
    requires NoDollar(json)
    requires Step(fs, path, DoubleQuoted, json, disposable) == Done(fsA)
    requires Step(fsA, path, SingleQuoted, json, disposable) == Done(fsB)
    ensures BothPasses(fs, path, json, disposable) == Done(fsB)
  {
  }

  lemma DistinctVariants()
    ensures Quoted(DoubleQuoted) && Quoted(SingleQuoted)
    ensures DoubleQuoted[0] !in SingleQuoted && SingleQuoted[0] !in DoubleQuoted
    ensures DoubleQuoted != SingleQuoted
  {
    assert DoubleQuoted[0] != SingleQuoted[0];
    VariantsDiffer(DoubleQuoted, SingleQuoted);
  }

  /**
   * Because the variant loop is outermost, a file holding both variants is
   * restored from its backup in the single-quoted pass, which undoes the
   * double-quoted population: the double-quoted placeholder stays in the
   * output.
   */
  lemma BothVariantsLeaveDouble(fs: FileSystem, path: string, json: string)
    requires Spliceable(json) && !EndsWith(path, ".bak") && path in fs
    requires Contains(fs[path], DoubleQuoted) && Contains(fs[path], SingleQuoted)
    requires Bak(path) !in fs || !Contains(fs[Bak(path)], DoubleQuoted)
    ensures BothPasses(fs, path, json, false)
         == Done(fs[Bak(path) := fs[path]][path := PopulateText(fs[path], SingleQuoted, json)])
    ensures Contains(PopulateText(fs[path], SingleQuoted, json), DoubleQuoted)
  {
    var c := fs[path];
    DistinctVariants();
    BakDiffers(path);
    StepBacksUp(fs, path, DoubleQuoted, json);
    var fs1 := fs[Bak(path) := c][path := PopulateText(c, DoubleQuoted, json)];
    StepRestores(fs1, path, SingleQuoted, json);
    var fs2 := fs[Bak(path) := c][path := PopulateText(c, SingleQuoted, json)];
    assert fs1[path := PopulateText(c, SingleQuoted, json)] == fs2;
    BothSteps(fs, path, json, false, fs1, fs2);
    PopulateKeepsPresent(c, SingleQuoted, DoubleQuoted, json);
  }

  /** In disposable mode no backup is consulted: the file is populated as it stands. */
  lemma StepDisposable(fs: FileSystem, path: string, p: string, json: string)
    requires Quoted(p) && NoDollar(json) && !EndsWith(path, ".bak") && path in fs
    ensures Step(fs, path, p, json, true) == Done(fs[path := PopulateText(fs[path], p, json)])
  {
    assert Restore(fs, path, p, true) == fs;
  }

  /** Both passes in turn leave neither variant behind. */
  lemma BothReplaced(c: string, json: string)
    requires Spliceable(json)
    ensures var out := PopulateText(PopulateText(c, DoubleQuoted, json), SingleQuoted, json);
      !Contains(out, DoubleQuoted) && !Contains(out, SingleQuoted)
  {
    DistinctVariants();
    var once := PopulateText(c, DoubleQuoted, json);
    PopulateRemoves(c, DoubleQuoted, json);
    PopulateKeepsAbsent(once, SingleQuoted, DoubleQuoted, json);
    PopulateRemoves(once, SingleQuoted, json);
  }

  /** In disposable mode the same file has both variants replaced. */
  lemma BothVariantsDisposable(fs: FileSystem, path: string, json: string)
    requires Spliceable(json) && !EndsWith(path, ".bak") && path in fs
    ensures var out := PopulateText(PopulateText(fs[path], DoubleQuoted, json), SingleQuoted, json);
      && BothPasses(fs, path, json, true) == Done(fs[path := out])
      && !Contains(out, DoubleQuoted) && !Contains(out, SingleQuoted)
  {
    var c := fs[path];
    DistinctVariants();
    var once := PopulateText(c, DoubleQuoted, json);
    var twice := PopulateText(once, SingleQuoted, json);
    StepDisposable(fs, path, DoubleQuoted, json);
    StepDisposable(fs[path := once], path, SingleQuoted, json);
    assert fs[path := once][path := twice] == fs[path := twice];
    BothSteps(fs, path, json, true, fs[path := once], fs[path := twice]);
    BothReplaced(c, json);
  }

  /** The variant other than `p`. */
  function Other(p: string): string
    requires p in Variants
  {
    if p == DoubleQuoted then SingleQuoted else DoubleQuoted
  }

  /** A template holding the single variant `p`, and no backup that holds a variant. */
  ghost predicate FreshTemplate(fs: FileSystem, path: string, p: string)
    requires p in Variants
  {
    && !EndsWith(path, ".bak") && path in fs
    && Contains(fs[path], p) && !Contains(fs[path], Other(p))
    && (Bak(path) !in fs || (!Contains(fs[Bak(path)], DoubleQuoted) && !Contains(fs[Bak(path)], SingleQuoted)))
  }

  lemma FirstRunDouble(fs: FileSystem, path: string, json: string)
    requires Spliceable(json) && FreshTemplate(fs, path, DoubleQuoted)
    ensures BothPasses(fs, path, json, false)
         == Done(fs[Bak(path) := fs[path]][path := PopulateText(fs[path], DoubleQuoted, json)])
  {
    var c := fs[path];
    DistinctVariants();
    var fs1 := fs[Bak(path) := c][path := PopulateText(c, DoubleQuoted, json)];
    StepBacksUp(fs, path, DoubleQuoted, json);
    PopulateKeepsAbsent(c, DoubleQuoted, SingleQuoted, json);
    BakDiffers(path);
    assert fs1[path] == PopulateText(c, DoubleQuoted, json) && fs1[Bak(path)] == c;
    StepLeavesPlain(fs1, path, SingleQuoted, json, false);
    BothSteps(fs, path, json, false, fs1, fs1);
  }

  lemma FirstRunSingle(fs: FileSystem, path: string, json: string)
    requires Spliceable(json) && FreshTemplate(fs, path, SingleQuoted)
    ensures BothPasses(fs, path, json, false)
         == Done(fs[Bak(path) := fs[path]][path := PopulateText(fs[path], SingleQuoted, json)])
  {
    var c := fs[path];
    DistinctVariants();
    StepLeavesPlain(fs, path, DoubleQuoted, json, false);
    StepBacksUp(fs, path, SingleQuoted, json);
    BothSteps(fs, path, json, false, fs, fs[Bak(path) := c][path := PopulateText(c, SingleQuoted, json)]);
  }

  /** A first run on a template backs it up and populates it. */
  lemma FirstRun(fs: FileSystem, path: string, p: string, json: string)
    requires p in Variants && Spliceable(json) && FreshTemplate(fs, path, p)
    ensures BothPasses(fs, path, json, false) == Done(fs[Bak(path) := fs[path]][path := PopulateText(fs[path], p, json)])
  {
    DistinctVariants();
    if p == DoubleQuoted {
      FirstRunDouble(fs, path, json);
    } else {
      FirstRunSingle(fs, path, json);
    }
  }

  lemma RestoredRunDouble(fs: FileSystem, path: string, json: string)
    requires Spliceable(json) && !EndsWith(path, ".bak") && path in fs && Bak(path) in fs
    requires Contains(fs[Bak(path)], DoubleQuoted) && !Contains(fs[Bak(path)], SingleQuoted)
    ensures BothPasses(fs, path, json, false) == Done(fs[path := PopulateText(fs[Bak(path)], DoubleQuoted, json)])
  {
    var b := fs[Bak(path)];
    DistinctVariants();
    BakDiffers(path);
    var fs1 := fs[path := PopulateText(b, DoubleQuoted, json)];
    StepRestores(fs, path, DoubleQuoted, json);
    PopulateKeepsAbsent(b, DoubleQuoted, SingleQuoted, json);
    assert fs1[path] == PopulateText(b, DoubleQuoted, json) && fs1[Bak(path)] == b;
    StepLeavesPlain(fs1, path, SingleQuoted, json, false);
    BothSteps(fs, path, json, false, fs1, fs1);
  }

  lemma RestoredRunSingle(fs: FileSystem, path: string, json: string)
    requires Spliceable(json) && !EndsWith(path, ".bak") && path in fs && Bak(path) in fs
    requires Contains(fs[Bak(path)], SingleQuoted) && !Contains(fs[Bak(path)], DoubleQuoted)
    requires !Contains(fs[path], DoubleQuoted)
    ensures BothPasses(fs, path, json, false) == Done(fs[path := PopulateText(fs[Bak(path)], SingleQuoted, json)])
  {
    DistinctVariants();
    StepLeavesPlain(fs, path, DoubleQuoted, json, false);
    StepRestores(fs, path, SingleQuoted, json);
    BothSteps(fs, path, json, false, fs, fs[path := PopulateText(fs[Bak(path)], SingleQuoted, json)]);
  }

  /**
   * A backup holding the single variant `p` decides the run: the output is
   * the backup populated, and the backup is unchanged.
   */
  lemma RestoredRun(fs: FileSystem, path: string, p: string, json: string)
    requires p in Variants && Spliceable(json)
    requires !EndsWith(path, ".bak") && path in fs && Bak(path) in fs
    requires Contains(fs[Bak(path)], p) && !Contains(fs[Bak(path)], Other(p)) && !Contains(fs[path], Other(p))
    ensures BothPasses(fs, path, json, false) == Done(fs[path := PopulateText(fs[Bak(path)], p, json)])
  {
    DistinctVariants();
    if p == DoubleQuoted {
      RestoredRunDouble(fs, path, json);
    } else {
      RestoredRunSingle(fs, path, json);
    }
  }

  /**
   * A second run, with the same or another serialised map, restores the
   * template first and so equals a first run with that map.
   */
  lemma Rerun(fs: FileSystem, path: string, p: string, json: string, json2: string)
    requires p in Variants && Spliceable(json) && Spliceable(json2) && FreshTemplate(fs, path, p)
    ensures BothPasses(BothPasses(fs, path, json, false).fs, path, json2, false)
         == BothPasses(fs, path, json2, false)
  {
    FirstRun(fs, path, p, json);
    FirstRun(fs, path, p, json2);
    RerunFromBackup(fs, path, p, json, json2);
  }
  /** The second run starts from the backup the first one wrote. */
  lemma RerunFromBackup(fs: FileSystem, path: string, p: string, json: string, json2: string)
    requires p in Variants && Spliceable(json) && Spliceable(json2) && FreshTemplate(fs, path, p)
    ensures BothPasses(fs[Bak(path) := fs[path]][path := PopulateText(fs[path], p, json)], path, json2, false)
         == Done(fs[Bak(path) := fs[path]][path := PopulateText(fs[path], p, json2)])
  {
    var c := fs[path];
    var fs1 := fs[Bak(path) := c][path := PopulateText(c, p, json)];
    FirstRunLeaves(fs, path, p, json);
    RestoredRun(fs1, path, p, json2);
    OverwriteTwice(fs[Bak(path) := c], path, PopulateText(c, p, json), PopulateText(c, p, json2));
  }
  /** After a first run the backup holds the template and the file no longer holds the other variant. */
  lemma FirstRunLeaves(fs: FileSystem, path: string, p: string, json: string)
    requires p in Variants && Spliceable(json) && FreshTemplate(fs, path, p)
    ensures var fs1 := fs[Bak(path) := fs[path]][path := PopulateText(fs[path], p, json)];
      && path in fs1 && Bak(path) in fs1 && fs1[Bak(path)] == fs[path]
      && !Contains(fs1[path], Other(p))
  {
    DistinctVariants();
    BakDiffers(path);
    PopulateKeepsAbsent(fs[path], p, Other(p), json);
  }
  lemma OverwriteTwice(fs: FileSystem, path: string, a: string, b: string)
    ensures fs[path := a][path := b] == fs[path := b]
  {
  }
  lemma RerunIdempotent(fs: FileSystem, path: string, p: string, json: string)
    requires p in Variants && Spliceable(json) && FreshTemplate(fs, path, p)
    ensures BothPasses(BothPasses(fs, path, json, false).fs, path, json, false)
         == BothPasses(fs, path, json, false)
  {
    Rerun(fs, path, p, json, json);
  }

  // ----- the command's own examples -----

  /** `FOO=bar` is written `{"FOO":"bar"}`. */
  lemma FooBarJson()
    ensures Serialize(map["FOO" := "bar"], ["FOO"]) == "{\"FOO\":\"bar\"}"
  {
    SerializeSingle("FOO", "bar");
  }

  /**
   * Any map without `$` in its text, `{"FOO":"bar"}` among them, fills
   * either variant of `const foo = <placeholder>.FOO;` alike.
   */
  lemma QuoteVariantsAgree(p: string, json: string)
    requires p in Variants && NoDollar(json)
    ensures PopulateText("const foo = " + p + ".FOO;", p, json) == "const foo = " + json + ".FOO;"
  {
    QuoteVariantsParts(p);
    PlainSubstitution("const foo = ", ".FOO;", p, json);
  }

  lemma QuoteVariantsParts(p: string)
    requires p in Variants
    ensures Quoted(p) && !EndsWithArrow("const foo = ")
    ensures p[0] !in "const foo = " && !Contains(".FOO;", p)
  {
    VariantShape(p);
    NoGtNoArrow("const foo = ");
    assert '_' in p;
    LacksChar(".FOO;", p, '_');
  }

  /**
   * A variant after `() =>` and blank lines is wrapped in parentheses, for
   * any map without `$` that does not hold the variant.
   */
  lemma ArrowExample(p: string, json: string)
    requires p in Variants && NoDollar(json) && !Contains(json, p)
    ensures PopulateText("() =>\n\n    " + p + ".FOO;", p, json) == "() =>\n\n    (" + json + ").FOO;"
  {
    ArrowExampleParts(p, json);
    ArrowPopulated("() ", "\n\n    ", ".FOO;", p, json);
  }

  /** The arrow case with `{"FOO":"foo"}`, for both variants: the map is parenthesised. */
  lemma ArrowFooJson(p: string)
    requires p in Variants
    ensures PopulateText("() =>\n\n    " + p + ".FOO;", p, "{\"FOO\":\"foo\"}")
         == "() =>\n\n    (" + "{\"FOO\":\"foo\"}" + ").FOO;"
  {
    FooFooLacks(p, "{\"FOO\":\"foo\"}");
    ArrowExample(p, "{\"FOO\":\"foo\"}");
  }

  lemma FooFooLacks(p: string, json: string)
    requires p in Variants && json == "{\"FOO\":\"foo\"}"
    ensures NoDollar(json) && !Contains(json, p)
  {
    assert '_' in p;
    LacksChar(json, p, '_');
  }

  lemma ArrowExampleParts(p: string, json: string)
    requires p in Variants
    ensures Quoted(p) && AllSpaces("\n\n    ") && p[0] !in "() " && p[0] !in ".FOO;"
    ensures "() " + "=>" + "\n\n    " + p + ".FOO;" == "() =>\n\n    " + p + ".FOO;"
    ensures "() " + "=>" + "\n\n    " + "(" + json + ")" + ".FOO;" == "() =>\n\n    (" + json + ").FOO;"
  {
    VariantShape(p);
    var w := "\n\n    ";
    assert AllSpaces(w) by {
      forall i | 0 <= i < |w|
        ensures IsSpace(w[i])
      {
      }
    }
  }

  // ----- one step per path over both variants -----

  /** The text holds either variant. */
  predicate HasVariant(s: string) {
    Contains(s, DoubleQuoted) || Contains(s, SingleQuoted)
  }

  /**
   * The loop body with the variant loop moved inside it: restore when the
   * backup holds either variant, back up when the file does, then populate
   * both variants, double-quoted first.
   */
  function StepBoth(fs: FileSystem, path: string, json: string, disposable: bool): Outcome
    requires NoDollar(json)
  {
    if EndsWith(path, ".bak") then Done(fs)
    else
      var fs1 := if !disposable && Bak(path) in fs && HasVariant(fs[Bak(path)]) && path in fs
                 then fs[path := fs[Bak(path)]] else fs;
      if path !in fs1 then Failed(fs1, ReadError)
      else
        var contents := fs1[path];
        var fs2 := if !disposable && HasVariant(contents) then fs1[Bak(path) := contents] else fs1;
        Done(fs2[path := PopulateText(PopulateText(contents, DoubleQuoted, json), SingleQuoted, json)])
  }

  /**
   * A file holding both variants, with no backup yet, comes out with
   * neither variant left and its template in the backup; a second run gives
   * the same files.
   */
  lemma StepBothReplacesAll(fs: FileSystem, path: string, json: string)
    requires Spliceable(json) && !EndsWith(path, ".bak") && path in fs && HasVariant(fs[path])
    requires Bak(path) !in fs || !HasVariant(fs[Bak(path)])
    ensures var out := StepBoth(fs, path, json, false);
      && out.Done?
      && path in out.fs && !HasVariant(out.fs[path])
      && Bak(path) in out.fs && out.fs[Bak(path)] == fs[path]
      && StepBoth(out.fs, path, json, false) == out
  {
    var c := fs[path];
    BakDiffers(path);
    BothReplaced(c, json);
    var pc := PopulateText(PopulateText(c, DoubleQuoted, json), SingleQuoted, json);
    var fs1 := fs[Bak(path) := c][path := pc];
    assert StepBoth(fs, path, json, false) == Done(fs1);
    assert fs1[path := c][Bak(path) := c][path := pc] == fs1;
  }
}
