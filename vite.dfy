/**
 * The text transforms of the Vite plugin (`packages/vite/src/index.ts`).
 *
 * In development the plugin replaces every `import.meta.env` of a module by
 * the JSON text of the resolved environment; in production it replaces it by
 * a 256-character sentinel identifier `unique`, imports `unique` from the
 * virtual module `import-meta-env`, and turns the sentinel back into
 * `import.meta.env` in the HTML entry. Six keys that Vite itself inlines
 * (`import.meta.env.MODE` and the like) are hidden behind `unique.<KEY>`
 * before the replacement and restored afterwards.
 *
 * The regular expressions are modelled by `Pattern`: `new RegExp(s, "g")`
 * with a source `s` whose only metacharacter is `.` is `Regex(s)`, and
 * `code.replace(re, r)` is `ReplaceAll`. The `.` of a source is the
 * wildcard, exactly as the plugin writes it.
 */
module VitePlugin {
  import opened Wrappers
  import opened Strings
  import opened Pattern

  /** The virtual module a production build imports `unique` from. */
  const VirtualFile := "import-meta-env"

  /** Rollup's id for the virtual module: a NUL character, then the name. */
  const VirtualId := "\0import-meta-env"

  /** What `load` assigns to the virtual module's export. */
  const Placeholder := "__import_meta_env_placeholder__"

  /** The `import.meta.env` keys Vite inlines itself, in the order the plugin visits them. */
  const InlineEnvKeys: seq<string> := ["BASE_URL", "MODE", "DEV", "PROD", "SSR", "LEGACY"]

  const UniqueId := "import_meta_env_unique_id_"

  /** The text both transforms look for. */
  const EnvRef := "import.meta.env"

  function Repeat(c: char, n: nat): (r: string)
    ensures |r| == n && forall i :: 0 <= i < n ==> r[i] == c
  {
    if n == 0 then [] else [c] + Repeat(c, n - 1)
  }

  /** The sentinel `unique`: `UniqueId` padded with `x` to 256 characters. */
  function Unique(): (u: string)
    ensures |u| == 256 && u[..|UniqueId|] == UniqueId
    ensures forall i :: |UniqueId| <= i < |u| ==> u[i] == 'x'
  {
    UniqueId + Repeat('x', 256 - |UniqueId|)
  }

  /** `unique + ".KEY"`: an inline key while it is hidden. */
  function Hidden(key: string): string {
    Unique() + "." + key
  }

  /** `import.meta.env.KEY`: an inline key as the module writes it. */
  function Exposed(key: string): string {
    EnvRef + "." + key
  }

  /** `new RegExp(`import.meta.env.${key}`, "g")` */
  function KeyPattern(key: string): Pattern {
    Regex(Exposed(key))
  }

  /** `new RegExp(unique + `.${key}`, "g")` */
  function RestorePattern(key: string): Pattern {
    Regex(Hidden(key))
  }

  // ----- the shared rewriting passes -----

  /** `preserveViteBuiltInEnv`: each key in turn is hidden behind `unique`. */
  function Preserve(code: string, keys: seq<string>): string
    decreases |keys|
  {
    if keys == [] then code
    else Preserve(ReplaceAll(code, KeyPattern(keys[0]), Hidden(keys[0])), keys[1..])
  }

  /** `restoreViteBuiltInEnv`: each key in turn is brought back as `import.meta.env.KEY`. */
  function Restore(code: string, keys: seq<string>): string
    decreases |keys|
  {
    if keys == [] then code
    else Restore(ReplaceAll(code, RestorePattern(keys[0]), Exposed(keys[0])), keys[1..])
  }

  /**
   * What both transforms do to a module they handle: hide the inline keys,
   * replace every remaining `import.meta.env` (the escaped regular
   * expression `/import\.meta\.env/g`, so a literal search) by `out`, and
   * bring the inline keys back.
   */
  function Rewrite(code: string, out: string): string {
    Restore(ReplaceText(Preserve(code, InlineEnvKeys), EnvRef, out), InlineEnvKeys)
  }

  method PreserveViteBuiltInEnv(code: string) returns (r: string)
    ensures r == Preserve(code, InlineEnvKeys)
  {
    r := code;
    for i := 0 to |InlineEnvKeys|
      invariant Preserve(r, InlineEnvKeys[i..]) == Preserve(code, InlineEnvKeys)
    {
      var key := InlineEnvKeys[i];
      assert InlineEnvKeys[i..][1..] == InlineEnvKeys[i + 1..];
      r := ReplaceAll(r, KeyPattern(key), Hidden(key));
    }
  }

  method RestoreViteBuiltInEnv(code: string) returns (r: string)
    ensures r == Restore(code, InlineEnvKeys)
  {
    r := code;
    for i := 0 to |InlineEnvKeys|
      invariant Restore(r, InlineEnvKeys[i..]) == Restore(code, InlineEnvKeys)
    {
      var key := InlineEnvKeys[i];
      assert InlineEnvKeys[i..][1..] == InlineEnvKeys[i + 1..];
      r := ReplaceAll(r, RestorePattern(key), Exposed(key));
    }
  }

  /** The modules neither transform touches: the virtual module and dependencies. */
  predicate Excluded(id: string) {
    id == VirtualId || Contains(id, "node_modules")
  }

  // ----- development -----

  /**
   * `development.transform`, with `json` the text of `JSON.stringify(env)`.
   * It is used as a `String.prototype.replace` replacement, where `$` would
   * start a substitution; without `$` it is inserted as it is.
   */
  function DevTransform(code: string, id: string, json: string): (r: string)
    requires '$' !in json
    ensures Excluded(id) ==> r == code
  {
    if Excluded(id) then code else Rewrite(code, json)
  }

  method DevelopmentTransform(code: string, id: string, json: string) returns (r: string)
    requires '$' !in json
    ensures r == DevTransform(code, id, json)
  {
    r := code;
    if id != VirtualId && !Contains(id, "node_modules") {
      r := PreserveViteBuiltInEnv(r);
      r := ReplaceText(r, EnvRef, json);
      r := RestoreViteBuiltInEnv(r);
    }
  }

  // ----- production -----

  /** `import ${unique} from '${virtualFile}';` */
  function ImportStatement(): string {
    "import " + Unique() + " from '" + VirtualFile + "';"
  }

  /** The line prepended to a script module. */
  function ImportLine(): string {
    ImportStatement() + "\n"
  }

  predicate IsTransformingJs(id: string) {
    && (EndsWith(id, ".js") || EndsWith(id, ".ts") || EndsWith(id, ".jsx") || EndsWith(id, ".tsx"))
    && !Contains(id, "?vue&type=template")
  }

  predicate IsTransformingVue(id: string) {
    EndsWith(id, ".vue")
  }

  /** The import line, in front of the code with the first copy it already held taken out. */
  function PrependImport(code: string): (r: string)
    ensures StartsWith(r, ImportLine())
  {
    ImportLine() + ReplaceFirst(code, ImportLine(), "")
  }

  /**
   * The first `>` at or after `k` on the line, the lazy `.*?\>` of the
   * regular expression: `.` stops at a line terminator.
   */
  function LineClose(s: string, k: nat): (r: Option<nat>)
    requires k <= |s|
    ensures r.Some? ==> k <= r.value < |s| && s[r.value] == '>'
    ensures r.Some? ==> forall j :: k <= j < r.value ==> s[j] != '>' && !IsLineTerminator(s[j])
    ensures r.None? ==> exists e :: LineEndsFirst(s, k, e)
    decreases |s| - k
  {
    if k == |s| || IsLineTerminator(s[k]) then
      assert LineEndsFirst(s, k, k);
      None
    else if s[k] == '>' then Some(k)
    else
      var r := LineClose(s, k + 1);
      if r.None? then
        var e :| LineEndsFirst(s, k + 1, e);
        assert LineEndsFirst(s, k, e);
        r
      else r
  }

  /** The line that goes on from `k` ends at `e`, with no `>` before it. */
  predicate LineEndsFirst(s: string, k: nat, e: nat) {
    k <= e <= |s| && (e == |s| || IsLineTerminator(s[e])) && forall j :: k <= j < e ==> s[j] != '>'
  }

  /**
   * The leftmost match of `/(\<script.*?\>)/` at or after `from`: where the
   * `<script` starts and where its `>` is.
   */
  function ScriptTag(s: string, from: nat): (r: Option<(nat, nat)>)
    requires from <= |s|
    ensures r.Some? ==> (from <= r.value.0 && OccursAt(s, "<script", r.value.0)
                         && LineClose(s, r.value.0 + 7) == Some(r.value.1))
    ensures forall i :: from <= i && (r.None? || i < r.value.0) && OccursAt(s, "<script", i)
                      ==> LineClose(s, i + 7).None?
    decreases |s| - from
  {
    if OccursAt(s, "<script", from) && LineClose(s, from + 7).Some? then
      Some((from, LineClose(s, from + 7).value))
    else if from == |s| then None
    else ScriptTag(s, from + 1)
  }

  /** `code.replace(/(\<script.*?\>)/, `$1\nimport ${unique} from '${virtualFile}';`)` */
  function VueInsert(code: string): string {
    AfterScriptTag(code, ImportStatement())
  }

  /** `line` on a line of its own just after the first `<script …>` tag, if there is one. */
  function AfterScriptTag(code: string, line: string): (r: string)
    ensures ScriptTag(code, 0).None? ==> r == code
  {
    AfterTag(code, ScriptTag(code, 0), line)
  }

  /** `line` on a line of its own just after the `>` of a tag found in `code`. */
  function AfterTag(code: string, tag: Option<(nat, nat)>, line: string): string
    requires tag.Some? ==> tag.value.1 < |code|
  {
    if tag.None? then code else code[..tag.value.1 + 1] + "\n" + line + code[tag.value.1 + 1..]
  }

  /** Where the tag is found, the line goes just after its `>`, and the code around it is kept. */
  lemma AfterScriptTagAt(code: string, line: string, i: nat, j: nat)
    requires ScriptTag(code, 0) == Some((i, j))
    ensures j < |code| && code[j] == '>'
    ensures AfterScriptTag(code, line) == code[..j + 1] + "\n" + line + code[j + 1..]
  {
    AfterTagAt(code, ScriptTag(code, 0), line, j);
  }

  lemma AfterTagAt(code: string, tag: Option<(nat, nat)>, line: string, j: nat)
    requires tag.Some? && tag.value.1 == j && j < |code|
    ensures AfterTag(code, tag, line) == code[..j + 1] + "\n" + line + code[j + 1..]
  {
  }

  /** The import that `production.transform` adds, by the kind of module. */
  function Inject(code: string, id: string): string {
    if IsTransformingJs(id) then PrependImport(code)
    else if IsTransformingVue(id) then VueInsert(code)
    else code
  }

  /** `production.transform` */
  function ProdTransform(code: string, id: string): (r: string)
    ensures Excluded(id) ==> r == code
  {
    if Excluded(id) then code else Rewrite(Inject(code, id), Unique())
  }

  method ProductionTransform(code: string, id: string) returns (r: string)
    ensures r == ProdTransform(code, id)
  {
    r := code;
    if id != VirtualId && !Contains(id, "node_modules") {
      if IsTransformingJs(id) {
        r := ImportLine() + ReplaceFirst(r, ImportLine(), "");
      } else if IsTransformingVue(id) {
        r := VueInsert(r);
      }
      r := PreserveViteBuiltInEnv(r);
      r := ReplaceText(r, EnvRef, Unique());
      r := RestoreViteBuiltInEnv(r);
    }
  }

  /** `transformIndexHtml`: every sentinel in the page becomes `import.meta.env` again. */
  function TransformIndexHtml(html: string): string {
    ReplaceText(html, Unique(), EnvRef)
  }

  /**
   * `resolveId`: server-side rendering is refused; the module name and the
   * virtual id both resolve to the virtual id; other ids are left to other
   * plugins.
   */
  function ResolveId(id: string, ssr: bool): (r: Result<Option<string>, string>)
    ensures r.Err? <==> ssr
    ensures r == Ok(Some(VirtualId)) <==> !ssr && (id == VirtualFile || id == VirtualId)
    ensures r.Ok? && r.value.Some? ==> r.value.value == VirtualId
  {
    if ssr then Err("[import-meta-env]: SSR is not supported.")
    else if id == VirtualFile then Ok(Some(VirtualId))
    else if id == VirtualId then Ok(Some(VirtualId))
    else Ok(None)
  }

  /** The first line of the virtual module checks the hash of the example file's keys. */
  function HashCheck(hashValue: string): string {
    "console.assert(\"" + hashValue + "\");"
  }

  const CacheComment := " // Invalidate the cache when the .env.example changes."
  const AssignLine := "const e = " + Placeholder + ";"
  const ExportLine := "export default e;"

  /**
   * `load`: the virtual module's source, three lines whose last two export
   * the placeholder the command-line tool later replaces. `hashValue` is
   * the `object-hash` of the example file's keys.
   */
  function Load(id: string, hashValue: string): (r: Option<string>)
    ensures r.Some? <==> id == VirtualId
    ensures r.Some? ==> StartsWith(r.value, HashCheck(hashValue))
    ensures r.Some? ==> EndsWith(r.value, "\n" + AssignLine + "\n" + ExportLine)
  {
    if id == VirtualId then
      ThreeLines(HashCheck(hashValue), CacheComment, AssignLine, ExportLine);
      Some(Join([HashCheck(hashValue) + CacheComment, AssignLine, ExportLine], "\n"))
    else None
  }

  /** The first of three joined lines starts the text, and the last two end it. */
  lemma ThreeLines(first: string, comment: string, second: string, third: string)
    ensures StartsWith(Join([first + comment, second, third], "\n"), first)
    ensures EndsWith(Join([first + comment, second, third], "\n"), "\n" + second + "\n" + third)
  {
    var lines := [first + comment, second, third];
    assert lines[1..] == [second, third];
    assert lines[1..][1..] == [third];
    assert Join(lines[1..][1..], "\n") == third;
    assert Join(lines[1..], "\n") == second + "\n" + third;
    var text := Join(lines, "\n");
    assert text == (first + comment) + "\n" + (second + "\n" + third);
    assert text == first + (comment + "\n" + second + "\n" + third);
    assert text[..|first|] == first;
    assert text == (first + comment) + ("\n" + second + "\n" + third);
  }
}
