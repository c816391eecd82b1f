/**
 * The module object of garnet.js: the three exported settings, the template
 * cache, and `compile` (garnet.js:54-140), which normalizes the path, answers
 * from the cache when it may, and otherwise reads the file, tokenizes it,
 * generates the body and caches the result. The file system is the `files`
 * map handed to each call, and `Math.random` is the `nonce` it draws.
 */
module Garnet {
  import opened Wrappers
  import opened Escape
  import opened Tokenizer
  import opened CodeGen
  import opened Paths

  /**
   * A compiled template: the normalized path it was read from and the body of
   * the function `new Function('sanitizeForHTML', 'render', 'locals', body)`
   * builds.
   */
  datatype Template = Template(path: string, body: string)

  /** Why `compile` throws: the file cannot be read, or the template is malformed. */
  datatype CompileError =
    | ReadFailed(path: string)
    | Syntax(path: string, error: SyntaxError)

  /**
   * Compiling the file stored at `key`: a read error when there is none, the
   * tokenizer's error if it throws, and otherwise the generated body.
   */
  function CompileSource(key: string, files: map<string, string>, nonce: nat): (r: Result<Template, CompileError>)
    requires nonce < 1000000000
    ensures r.Ok? ==> r.value.path == key && key in files && Scan(files[key], 0).Ok?
    ensures r.Err? ==> r.error.path == key
    ensures r.Err? && r.error.Syntax? ==> key in files && Scan(files[key], 0) == Err(r.error.error)
    ensures r.Ok? <==> key in files && Scan(files[key], 0).Ok?
    ensures (r.Err? && r.error.ReadFailed?) <==> key !in files
  {
    if key !in files then Err(ReadFailed(key))
    else
      var source := files[key];
      match Scan(source, 0)
      case Err(e) => Err(Syntax(key, e))
      case Ok(parts) =>
        ScanWellFormed(source, 0);
        Ok(Template(key, EmitAll(ResultName(nonce), Program(parts))))
  }

  /**
   * A template without `<%` or `%>` compiles to a body that declares the
   * accumulator with the whole text and returns it.
   */
  lemma TextOnlyTemplate(key: string, files: map<string, string>, nonce: nat)
    requires nonce < 1000000000
    requires key in files && Plain(files[key])
    ensures var t := files[key];
            var acc := ResultName(nonce);
            CompileSource(key, files, nonce)
            == Ok(Template(key, ("var " + acc + "='" + SanitizeForString(t) + "';") + ("return " + acc + ";")))
  {
    var t := files[key];
    var acc := ResultName(nonce);
    assert t[0..] == t;
    ScanPlain(t, 0);
    TextOnlyInstrs(t);
    EmitOne(acc, InitText(t));
    assert [InitText(t)] + [ReturnAcc] == [InitText(t), ReturnAcc];
    EmitAllSnoc(acc, [InitText(t)], [ReturnAcc]);
  }

  /**
   * In the body of a text-only template without a carriage return, the
   * literal after `var <acc>='` lexes back to exactly the template's text,
   * and what follows it is `;return <acc>;`.
   */
  lemma TextOnlyLiteral(key: string, files: map<string, string>, nonce: nat)
    requires nonce < 1000000000
    requires key in files && Plain(files[key]) && '\r' !in files[key]
    ensures CompileSource(key, files, nonce).Ok?
    ensures var acc := ResultName(nonce);
            var head := "var " + acc + "='";
            var body := CompileSource(key, files, nonce).value.body;
            |head| <= |body| && body[..|head|] == head
            && LexLiteral(body[|head|..]) == Some((files[key], ";return " + acc + ";"))
  {
    var t := files[key];
    var acc := ResultName(nonce);
    TextOnlyTemplate(key, files, nonce);
    LiteralAfterHead(acc, SanitizeForString(t));
    SanitizeForStringRoundTrip(t, ";return " + acc + ";");
  }

  /**
   * A text-only template saved with CRLF line endings compiles, but the
   * literal in its body does not lex: the raw carriage return ends it, so
   * `new Function` rejects the body.
   */
  lemma CarriageReturnTemplate(key: string, files: map<string, string>, nonce: nat)
    requires nonce < 1000000000
    requires key in files && files[key] == "a\r\nb"
    ensures CompileSource(key, files, nonce).Ok?
    ensures var acc := ResultName(nonce);
            var head := "var " + acc + "='";
            var body := CompileSource(key, files, nonce).value.body;
            |head| <= |body| && body[..|head|] == head && LexLiteral(body[|head|..]) == None
  {
    var t := files[key];
    var acc := ResultName(nonce);
    assert forall j :: 0 <= j < |t| ==> t[j] != '<' && t[j] != '%';
    TextOnlyTemplate(key, files, nonce);
    LiteralAfterHead(acc, SanitizeForString(t));
    CarriageReturnBreaksLiteral(t, ";return " + acc + ";");
  }

  /** The text-only body cut after `var <acc>='`: the escaped text, its closing quote, then the return. */
  lemma LiteralAfterHead(acc: string, lit: string)
    ensures var head := "var " + acc + "='";
            var body := ("var " + acc + "='" + lit + "';") + ("return " + acc + ";");
            |head| <= |body| && body[..|head|] == head && body[|head|..] == lit + "'" + (";return " + acc + ";")
  {
    var head := "var " + acc + "='";
    var body := ("var " + acc + "='" + lit + "';") + ("return " + acc + ";");
    assert body == head + (lit + "'" + (";return " + acc + ";"));
  }

  /** The instructions of a text-only template. */
  lemma TextOnlyInstrs(t: string)
    ensures Program([t]) == [InitText(t), ReturnAcc]
  {
    assert ProgramUpTo([t], 1) == [InitText(t)];
    assert [InitText(t)] + [ReturnAcc] == [InitText(t), ReturnAcc];
  }

  /** The instructions of a text-only template, which render the text itself when it holds no `\r`. */
  lemma TextOnlyProgram(t: string, eval: string -> string)
    requires NoCarriageReturn(t)
    ensures Program([t]) == [InitText(t), ReturnAcc]
    ensures Execute(Program([t]), eval) == Some(t)
  {
    TextOnlyInstrs(t);
    assert [InitText(t), ReturnAcc][..1] == [InitText(t)];
    assert [InitText(t)][..0] == [];
    TextValueExact(t);
    assert Execute([InitText(t)], eval) == Some(t);
  }

  /**
   * A compiled body always declares the accumulator first and returns it
   * last, whatever the template holds.
   */
  lemma CompiledBodyFrame(key: string, files: map<string, string>, nonce: nat)
    requires nonce < 1000000000
    requires CompileSource(key, files, nonce).Ok?
    ensures var body := CompileSource(key, files, nonce).value.body;
            var head := "var " + ResultName(nonce) + "='";
            var tail := "return " + ResultName(nonce) + ";";
            |head| + |tail| <= |body| && body[..|head|] == head && body[|body| - |tail|..] == tail
  {
    ScanWellFormed(files[key], 0);
    BodyFrame(Scan(files[key], 0).value, ResultName(nonce));
  }

  /**
   * The exported settings and the template cache. `readLog` records, for the
   * proofs only, every path `compile` has read from disk.
   */
  class Engine {
    var enableCaching: bool
    var templateDir: string
    var templateExt: string
    var templateCache: map<string, Template>
    ghost var readLog: seq<string>

    /** Every cached template sits under the path it was read from. */
    ghost predicate Valid()
      reads this
    {
      forall k :: k in templateCache ==> templateCache[k].path == k
    }

    /** The defaults of garnet.js:6-10, `process.cwd()` being `cwd`. */
    constructor(cwd: string)
      ensures enableCaching && templateDir == JoinPaths(cwd, "views") && templateExt == ".garnet"
      ensures templateCache == map[] && readLog == []
      ensures Valid()
    {
      enableCaching := true;
      templateDir := JoinPaths(cwd, "views");
      templateExt := ".garnet";
      templateCache := map[];
      readLog := [];
    }

    /**
     * The cache key `compile` uses for `templatePath`: with an absolute
     * `templateDir`, as the default `<cwd>/views` is, the key is absolute.
     */
    function Key(templatePath: string): (r: string)
      reads this
      ensures IsAbsolute(templateDir) ==> IsAbsolute(r)
    {
      NormalizeTemplatePath(templatePath, None, templateDir, templateExt)
    }

    /**
     * Assigning `exports.enableCaching`, `exports.templateDir` and
     * `exports.templateExt`: the cache is kept as it is.
     */
    method Configure(caching: bool, dir: string, ext: string)
      requires Valid()
      modifies this
      ensures enableCaching == caching && templateDir == dir && templateExt == ext
      ensures templateCache == old(templateCache) && readLog == old(readLog)
      ensures Valid()
    {
      enableCaching := caching;
      templateDir := dir;
      templateExt := ext;
    }

    /**
     * `exports.compile(templatePath)`. With caching on, a path already in the
     * cache is answered from it without reading the file. Otherwise the file
     * is read, and a template that compiles is cached when caching is on. A
     * failed compile leaves the cache alone.
     */
    method Compile(templatePath: string, files: map<string, string>, nonce: nat)
      returns (r: Result<Template, CompileError>)
      requires nonce < 1000000000
      requires Valid()
      modifies this
      ensures Valid()
      ensures enableCaching == old(enableCaching) && templateDir == old(templateDir) && templateExt == old(templateExt)
      ensures r.Ok? ==> r.value.path == old(Key(templatePath))
      ensures var key := old(Key(templatePath));
              if old(enableCaching) && key in old(templateCache) then
                && r == Ok(old(templateCache)[key])
                && templateCache == old(templateCache)
                && readLog == old(readLog)
              else
                && r == CompileSource(key, files, nonce)
                && readLog == old(readLog) + [key]
                && templateCache == (if enableCaching && r.Ok? then old(templateCache)[key := r.value] else old(templateCache))
    {
      var key := Key(templatePath);
      if enableCaching && key in templateCache {
        return Ok(templateCache[key]);
      }
      readLog := readLog + [key];
      r := Load(key, files, nonce);
      if enableCaching && r.Ok? {
        templateCache := templateCache[key := r.value];
      }
    }
  }

  /**
   * garnet.js:62-120 for the file at `key`: read it, run the tokenizer loop,
   * then the code generator loop with the accumulator named after `nonce`.
   */
  method Load(key: string, files: map<string, string>, nonce: nat) returns (r: Result<Template, CompileError>)
    requires nonce < 1000000000
    ensures r == CompileSource(key, files, nonce)
  {
    if key !in files {
      return Err(ReadFailed(key));
    }
    var source := files[key];
    var parts := Tokenize(source);
    if parts.Err? {
      return Err(Syntax(key, parts.error));
    }
    ScanWellFormed(source, 0);
    var acc := ResultName(nonce);
    var body := GenerateBody(parts.value, acc);
    return Ok(Template(key, body));
  }

  /**
   * With caching on, compiling the same path twice reads the file at most
   * once: the second call returns the first call's template, even when the
   * file has changed in between.
   */
  method CompileTwice(e: Engine, templatePath: string, files: map<string, string>, later: map<string, string>,
                      nonce: nat, laterNonce: nat)
    returns (first: Result<Template, CompileError>, second: Result<Template, CompileError>)
    requires nonce < 1000000000 && laterNonce < 1000000000
    requires e.Valid() && e.enableCaching
    modifies e
    ensures first.Ok? ==> second == first
    ensures first.Ok? ==> |e.readLog| <= |old(e.readLog)| + 1
    ensures first.Ok? ==> e.Key(templatePath) in e.templateCache && e.templateCache[e.Key(templatePath)] == first.value
  {
    first := e.Compile(templatePath, files, nonce);
    second := e.Compile(templatePath, later, laterNonce);
  }
}
