/**
  * `PipelineConfig.load` (`pipeline/config.py`): command-line values override
  * environment variables, which override built-in defaults; the page range is
  * validated, the OCR engine is checked, and every intermediate and final file
  * name is derived from the input file's stem.
  *
  * The process environment, the working directory, `Path.expanduser().resolve()`,
  * the existence test on the input and `float()` on an environment string are
  * parameters (`Environment`); `load_dotenv` and `mkdir` are not modelled.
  */
module Config {
  import opened Base
  import opened Text

  // ---------------------------------------------------------------------------
  // Page range
  // ---------------------------------------------------------------------------

  /** A 1-based inclusive page range, `(start, end)`. */
  datatype PageRange = PageRange(start: int, end: int)

  /** A range both of whose ends are at least 1, the end not before the start. */
  predicate ValidRange(range: Option<PageRange>) {
    range.Some? ==> 1 <= range.value.start <= range.value.end
  }

  /** `_validate_page_range`: no range passes, a valid range passes unchanged, anything else raises. */
  function ValidatePageRange(range: Option<PageRange>): (r: Result<Option<PageRange>>)
    ensures r.Ok? <==> ValidRange(range)
    ensures r.Ok? ==> r.value == range
    ensures r.Err? ==> r.error.ValueError?
  {
    match range
    case None => Ok(None)
    case Some(pr) =>
      if pr.start < 1 || pr.end < 1 then Err(ValueError("Page range values must be >= 1."))
      else if pr.end < pr.start then Err(ValueError("Page range end must be >= start."))
      else Ok(Some(pr))
  }

  /** Validating twice is validating once. */
  lemma ValidatePageRangeIdempotent(range: Option<PageRange>)
    requires ValidatePageRange(range).Ok?
    ensures ValidatePageRange(ValidatePageRange(range).value) == ValidatePageRange(range)
  {}

  // ---------------------------------------------------------------------------
  // Settings
  // ---------------------------------------------------------------------------

  /** The process environment and the file-system services `load` consults. */
  datatype Environment = Environment(
    vars: map<string, string>,
    cwd: string,
    resolve: string -> string,
    isFile: string -> bool,
    parseFloat: string -> Option<real>)

  /** `os.getenv(key, default)`: a variable that is set, even to "", wins over the default. */
  function GetEnv(env: Environment, key: string, otherwise: string): string {
    if key in env.vars then env.vars[key] else otherwise
  }

  /** Python's `value or fallback` on an optional string: `None` and `""` fall through. */
  function Or(value: Option<string>, fallback: string): string {
    if value.Some? && value.value != "" then value.value else fallback
  }

  /** `value or os.getenv(key, default)`: the resolution rule for every string setting. */
  function Setting(value: Option<string>, env: Environment, key: string, otherwise: string): (r: string)
    ensures value.Some? && value.value != "" ==> r == value.value
    ensures (value.None? || value.value == "") && key in env.vars ==> r == env.vars[key]
    ensures (value.None? || value.value == "") && key !in env.vars ==> r == otherwise
  {
    Or(value, GetEnv(env, key, otherwise))
  }

  /** A setting left out on the command line and in the environment takes its default, whatever the default is. */
  lemma SettingDefault(env: Environment, key: string, otherwise: string)
    requires key !in env.vars
    ensures Setting(None, env, key, otherwise) == otherwise
    ensures Setting(Some(""), env, key, otherwise) == otherwise
  {}

  /** Once a value is given on the command line, the environment no longer matters. */
  lemma SettingIgnoresEnvironment(value: string, env1: Environment, env2: Environment, key: string, otherwise: string)
    requires value != ""
    ensures Setting(Some(value), env1, key, otherwise) == Setting(Some(value), env2, key, otherwise)
  {}

  // ---------------------------------------------------------------------------
  // Numbers read from the environment
  // ---------------------------------------------------------------------------

  /** The digits of `int(s)` once a sign is taken off: non-empty ASCII digits. */
  predicate IsNumeral(s: string) {
    s != "" && AllDigits(s)
  }

  /** `int(s)` on a string: optional surrounding whitespace, an optional sign, ASCII digits. */
  function ParseInt(s: string): (r: Option<int>)
    ensures r.Some? ==> Strip(s) != ""
  {
    var t := Strip(s);
    if t != "" && (t[0] == '-' || t[0] == '+') then
      if IsNumeral(t[1..]) then
        var magnitude: int := DigitsValue(t[1..]);
        Some(if t[0] == '-' then -magnitude else magnitude)
      else None
    else if IsNumeral(t) then Some(DigitsValue(t))
    else None
  }

  /** `int(str(i))` is `i`. */
  lemma ParseIntOfIntToString(i: int)
    ensures ParseInt(IntToString(i)) == Some(i)
  {
    if i < 0 {
      var d := NatToString(-i);
      var s := "-" + d;
      StripNoop(s);
      assert s[1..] == d;
      DigitsValueOfNat(-i);
    } else {
      var d := NatToString(i);
      StripNoop(d);
      DigitsValueOfNat(i);
    }
  }

  /** `int(value or os.getenv(key, default))` for an integer setting; 0 on the command line falls through. */
  function IntSetting(value: Option<int>, env: Environment, key: string, otherwise: int): (r: Result<int>)
    ensures value.Some? && value.value != 0 ==> r == Ok(value.value)
    ensures (value.None? || value.value == 0) && key !in env.vars ==> r == Ok(otherwise)
  {
    if value.Some? && value.value != 0 then Ok(value.value)
    else if key in env.vars then
      match ParseInt(env.vars[key])
      case Some(n) => Ok(n)
      case None => Err(ValueError("invalid literal for int() with base 10: " + env.vars[key]))
    else Ok(otherwise)
  }

  /** `float(value or os.getenv(key, default))` for a real setting; 0.0 on the command line falls through. */
  function RealSetting(value: Option<real>, env: Environment, key: string, otherwise: real): (r: Result<real>)
    ensures value.Some? && value.value != 0.0 ==> r == Ok(value.value)
    ensures (value.None? || value.value == 0.0) && key !in env.vars ==> r == Ok(otherwise)
  {
    if value.Some? && value.value != 0.0 then Ok(value.value)
    else if key in env.vars then
      match env.parseFloat(env.vars[key])
      case Some(x) => Ok(x)
      case None => Err(ValueError("could not convert string to float: " + env.vars[key]))
    else Ok(otherwise)
  }

  // ---------------------------------------------------------------------------
  // Paths
  // ---------------------------------------------------------------------------

  /** `directory / name` for a relative name. */
  function JoinPath(directory: string, name: string): (r: string)
    ensures EndsWith(r, name)
  {
    var r := if |directory| > 0 && directory[|directory| - 1] == '/' then directory + name else directory + "/" + name;
    assert r[|r| - |name|..] == name;
    r
  }

  /** The position of the last `c` in `s`, if any. */
  function LastIndexOf(s: string, c: char): (r: Option<nat>)
    ensures r.Some? ==> r.value < |s| && s[r.value] == c && forall i :: r.value < i < |s| ==> s[i] != c
    ensures r.None? ==> forall i :: 0 <= i < |s| ==> s[i] != c
    decreases |s|
  {
    if |s| == 0 then None
    else if s[|s| - 1] == c then Some(|s| - 1)
    else LastIndexOf(s[..|s| - 1], c)
  }

  /** `PurePath.name`: the part after the last slash. */
  function FileName(path: string): (r: string)
    ensures forall i :: 0 <= i < |r| ==> r[i] != '/'
    ensures EndsWith(path, r)
  {
    match LastIndexOf(path, '/')
    case Some(k) => path[k + 1..]
    case None => path
  }

  /** `PurePath.stem`: the name without its last suffix; a leading or trailing dot is not a suffix. */
  function Stem(path: string): (r: string)
    ensures forall i :: 0 <= i < |r| ==> r[i] != '/'
  {
    var name := FileName(path);
    match LastIndexOf(name, '.')
    case Some(i) => if 0 < i < |name| - 1 then name[..i] else name
    case None => name
  }

  /** `_coerce_path`: an unset or empty value gives the default, anything else is resolved. */
  function CoercePath(value: Option<string>, otherwise: string, env: Environment): string {
    if value.None? || value.value == "" then otherwise else env.resolve(value.value)
  }

  // ---------------------------------------------------------------------------
  // Loading
  // ---------------------------------------------------------------------------

  /** The keyword arguments of `PipelineConfig.load`. */
  datatype Options = Options(
    inputPdf: string,
    outputDir: Option<string>,
    tempDir: Option<string>,
    forceOcr: bool,
    tesseractLang: Option<string>,
    ocrEngine: Option<string>,
    aiModel: Option<string>,
    maxPages: Option<int>,
    pageRange: Option<PageRange>,
    maxTokensPerChunk: Option<int>,
    maxCostLimit: Option<real>,
    confirmCost: bool,
    allowMissingInput: bool)

  /** `PipelineConfig`. */
  datatype PipelineConfig = PipelineConfig(
    inputPdf: string,
    tempDir: string,
    outputDir: string,
    ocrOutput: string,
    cleanText: string,
    refinedText: string,
    finalTxt: string,
    finalEpub: string,
    aiModel: string,
    maxPages: Option<int>,
    maxTokensPerChunk: int,
    maxCostLimit: real,
    confirmCost: bool,
    tesseractLang: string,
    forceOcr: bool,
    ocrEngine: string,
    pageRange: Option<PageRange>,
    openaiApiKey: Option<string>)

  const OcrSuffix := "_ocr.txt"
  const CleanSuffix := "_clean.txt"
  const RefinedSuffix := "_refined.txt"
  const FinalTextSuffix := "_final.txt"
  const EpubSuffix := ".epub"

  /** The OCR engines `load` accepts. */
  predicate KnownEngine(e: string) {
    e == "text" || e == "surya"
  }

  /** The engine setting, lower-cased and checked. */
  function ResolveEngine(value: Option<string>, env: Environment): (r: Result<string>)
    ensures r.Ok? <==> KnownEngine(Lower(Setting(value, env, "OCR_ENGINE", "text")))
    ensures r.Ok? ==> r.value == Lower(Setting(value, env, "OCR_ENGINE", "text"))
  {
    var e := Lower(Setting(value, env, "OCR_ENGINE", "text"));
    if KnownEngine(e) then Ok(e) else Err(ValueError("Unsupported OCR engine: " + e))
  }

  /** The engine names are matched without regard to ASCII case: any spelling that lower-cases to a known engine selects it. */
  lemma EngineCaseInsensitive(name: string, env: Environment)
    requires KnownEngine(Lower(name))
    ensures ResolveEngine(Some(name), env) == Ok(Lower(name))
  {}

  /** `PipelineConfig.load`. */
  function Load(opts: Options, env: Environment): (r: Result<PipelineConfig>)
    ensures !env.isFile(env.resolve(opts.inputPdf)) && !opts.allowMissingInput ==> r.Err? && r.error.FileNotFoundError?
    ensures r.Ok? ==> ValidRange(r.value.pageRange) && r.value.pageRange == opts.pageRange
    ensures r.Ok? ==> KnownEngine(r.value.ocrEngine)
  {
    var defaultOutput := CoercePath(if "OUTPUT_DIR" in env.vars then Some(env.vars["OUTPUT_DIR"]) else None,
                                    JoinPath(env.cwd, "output"), env);
    var defaultTemp := CoercePath(if "TEMP_DIR" in env.vars then Some(env.vars["TEMP_DIR"]) else None,
                                  JoinPath(env.cwd, "temp"), env);
    var output := CoercePath(opts.outputDir, defaultOutput, env);
    var temp := CoercePath(opts.tempDir, defaultTemp, env);
    var input := env.resolve(opts.inputPdf);
    if !env.isFile(input) && !opts.allowMissingInput then Err(FileNotFoundError("Input PDF not found: " + input))
    else
      var stem := Stem(input);
      match ResolveEngine(opts.ocrEngine, env)
      case Err(e) => Err(e)
      case Ok(engine) =>
        match ValidatePageRange(opts.pageRange)
        case Err(e) => Err(e)
        case Ok(range) =>
          match IntSetting(opts.maxTokensPerChunk, env, "MAX_TOKENS_PER_CHUNK", 2500)
          case Err(e) => Err(e)
          case Ok(chunk) =>
            match RealSetting(opts.maxCostLimit, env, "MAX_COST_LIMIT", 10.0)
            case Err(e) => Err(e)
            case Ok(limit) =>
              Ok(PipelineConfig(
                input, temp, output,
                JoinPath(temp, stem + OcrSuffix),
                JoinPath(temp, stem + CleanSuffix),
                JoinPath(temp, stem + RefinedSuffix),
                JoinPath(output, stem + FinalTextSuffix),
                JoinPath(output, stem + EpubSuffix),
                Setting(opts.aiModel, env, "AI_MODEL", "gpt-4.1"),
                opts.maxPages, chunk, limit, opts.confirmCost,
                Setting(opts.tesseractLang, env, "TESSERACT_LANG", "eng"),
                opts.forceOcr, engine, range,
                if "OPENAI_API_KEY" in env.vars then Some(env.vars["OPENAI_API_KEY"]) else None))
  }

  /** The files a run writes, in pipeline order. */
  function OutputFiles(c: PipelineConfig): seq<string> {
    [c.ocrOutput, c.cleanText, c.refinedText, c.finalTxt, c.finalEpub]
  }

  const OutputSuffixes := [OcrSuffix, CleanSuffix, RefinedSuffix, FinalTextSuffix, EpubSuffix]

  /** Where `load` puts each output: the input's stem with the file's ending, under the temporary or the output directory. */
  lemma LoadedPaths(opts: Options, env: Environment)
    requires Load(opts, env).Ok?
    ensures var c := Load(opts, env).value;
            forall i :: 0 <= i < 5 ==>
              OutputFiles(c)[i] == JoinPath(if i < 3 then c.tempDir else c.outputDir, Stem(c.inputPdf) + OutputSuffixes[i])
  {
    LoadedFiles(opts, env);
    FilesBySuffix(Load(opts, env).value);
  }

  /** A configuration whose five files are named by its input's stem lists them by ending. */
  lemma FilesBySuffix(c: PipelineConfig)
    requires c.ocrOutput == JoinPath(c.tempDir, Stem(c.inputPdf) + OcrSuffix)
    requires c.cleanText == JoinPath(c.tempDir, Stem(c.inputPdf) + CleanSuffix)
    requires c.refinedText == JoinPath(c.tempDir, Stem(c.inputPdf) + RefinedSuffix)
    requires c.finalTxt == JoinPath(c.outputDir, Stem(c.inputPdf) + FinalTextSuffix)
    requires c.finalEpub == JoinPath(c.outputDir, Stem(c.inputPdf) + EpubSuffix)
    ensures forall i :: 0 <= i < 5 ==>
              OutputFiles(c)[i] == JoinPath(if i < 3 then c.tempDir else c.outputDir, Stem(c.inputPdf) + OutputSuffixes[i])
  {
    var files := OutputFiles(c);
    var stem := Stem(c.inputPdf);
    forall i | 0 <= i < 5
      ensures files[i] == JoinPath(if i < 3 then c.tempDir else c.outputDir, stem + OutputSuffixes[i])
    {
      if i == 0 {
        assert files[0] == c.ocrOutput && OutputSuffixes[0] == OcrSuffix;
      } else if i == 1 {
        assert files[1] == c.cleanText && OutputSuffixes[1] == CleanSuffix;
      } else if i == 2 {
        assert files[2] == c.refinedText && OutputSuffixes[2] == RefinedSuffix;
      } else if i == 3 {
        assert files[3] == c.finalTxt && OutputSuffixes[3] == FinalTextSuffix;
      } else {
        assert files[4] == c.finalEpub && OutputSuffixes[4] == EpubSuffix;
      }
    }
  }

  /** The five file fields of a loaded configuration, each named by the input's stem. */
  lemma LoadedFiles(opts: Options, env: Environment)
    requires Load(opts, env).Ok?
    ensures var c := Load(opts, env).value;
            var stem := Stem(c.inputPdf);
            && c.ocrOutput == JoinPath(c.tempDir, stem + OcrSuffix)
            && c.cleanText == JoinPath(c.tempDir, stem + CleanSuffix)
            && c.refinedText == JoinPath(c.tempDir, stem + RefinedSuffix)
            && c.finalTxt == JoinPath(c.outputDir, stem + FinalTextSuffix)
            && c.finalEpub == JoinPath(c.outputDir, stem + EpubSuffix)
  {}

  /** The five file names built from one stem, under two directories. */
  function DerivedFiles(temp: string, output: string, stem: string): seq<string> {
    seq(5, i requires 0 <= i < 5 => JoinPath(if i < 3 then temp else output, stem + OutputSuffixes[i]))
  }

  /** The character five from the end of each ending, in stage order; no two are alike. */
  const SuffixMarks := "rndl."

  lemma SuffixMarksDiffer(i: nat, j: nat)
    requires i < j < 5
    ensures SuffixMarks[i] != SuffixMarks[j]
  {}

  /** A file named by a stem and an ending ends in that ending, and so in the ending's mark. */
  lemma JoinedEnding(directory: string, stem: string, suffix: string)
    requires |suffix| >= 5
    ensures var f := JoinPath(directory, stem + suffix);
            && EndsWith(f, suffix)
            && |f| >= 5 && f[|f| - 5] == suffix[|suffix| - 5]
  {
    var f := JoinPath(directory, stem + suffix);
    var s := stem + suffix;
    assert s[|s| - |suffix|..] == suffix;
    EndsWithTrans(f, s, suffix);
    assert f[|f| - 5] == f[|f| - |suffix|..][|suffix| - 5];
  }

  /** A derived file ends in its stage's ending, so five characters from its end is the stage's mark. */
  lemma DerivedFileEnding(temp: string, output: string, stem: string, i: nat)
    requires i < 5
    ensures var f := DerivedFiles(temp, output, stem)[i];
            && EndsWith(f, OutputSuffixes[i])
            && |f| >= 5 && f[|f| - 5] == SuffixMarks[i]
  {
    var dir := if i < 3 then temp else output;
    assert DerivedFiles(temp, output, stem)[i] == JoinPath(dir, stem + OutputSuffixes[i]);
    if i == 0 {
      assert OcrSuffix[|OcrSuffix| - 5] == SuffixMarks[0];
      JoinedEnding(dir, stem, OcrSuffix);
    } else if i == 1 {
      assert CleanSuffix[|CleanSuffix| - 5] == SuffixMarks[1];
      JoinedEnding(dir, stem, CleanSuffix);
    } else if i == 2 {
      assert RefinedSuffix[|RefinedSuffix| - 5] == SuffixMarks[2];
      JoinedEnding(dir, stem, RefinedSuffix);
    } else if i == 3 {
      assert FinalTextSuffix[|FinalTextSuffix| - 5] == SuffixMarks[3];
      JoinedEnding(dir, stem, FinalTextSuffix);
    } else {
      assert EpubSuffix[|EpubSuffix| - 5] == SuffixMarks[4];
      JoinedEnding(dir, stem, EpubSuffix);
    }
  }

  /** The five endings differ five characters from the end, so the five files differ whatever the directories. */
  lemma DerivedFilesDistinct(temp: string, output: string, stem: string)
    ensures forall i :: 0 <= i < 5 ==> EndsWith(DerivedFiles(temp, output, stem)[i], OutputSuffixes[i])
    ensures forall i, j :: 0 <= i < j < 5 ==> DerivedFiles(temp, output, stem)[i] != DerivedFiles(temp, output, stem)[j]
  {
    var names := DerivedFiles(temp, output, stem);
    forall i | 0 <= i < 5 ensures EndsWith(names[i], OutputSuffixes[i]) {
      DerivedFileEnding(temp, output, stem, i);
    }
    forall i, j | 0 <= i < j < 5 ensures names[i] != names[j] {
      DerivedFileEnding(temp, output, stem, i);
      DerivedFileEnding(temp, output, stem, j);
      SuffixMarksDiffer(i, j);
    }
  }

  /** No stage of a loaded configuration overwrites another stage's file. */
  lemma OutputFilesDistinct(opts: Options, env: Environment)
    requires Load(opts, env).Ok?
    ensures forall i, j :: 0 <= i < j < 5 ==> OutputFiles(Load(opts, env).value)[i] != OutputFiles(Load(opts, env).value)[j]
  {
    var c := Load(opts, env).value;
    LoadedPaths(opts, env);
    DerivedFilesDistinct(c.tempDir, c.outputDir, Stem(c.inputPdf));
    assert OutputFiles(c) == DerivedFiles(c.tempDir, c.outputDir, Stem(c.inputPdf));
  }

  lemma EndsWithTrans(x: string, y: string, z: string)
    requires EndsWith(x, y) && EndsWith(y, z)
    ensures EndsWith(x, z)
  {
    assert x[|x| - |z|..] == x[|x| - |y|..][|y| - |z|..];
  }

  /** A model, language or engine given on the command line is used as given (the engine lower-cased). */
  lemma CommandLineWins(opts: Options, env: Environment)
    requires Load(opts, env).Ok?
    requires opts.aiModel.Some? && opts.aiModel.value != ""
    requires opts.tesseractLang.Some? && opts.tesseractLang.value != ""
    requires opts.ocrEngine.Some? && opts.ocrEngine.value != ""
    ensures Load(opts, env).value.aiModel == opts.aiModel.value
    ensures Load(opts, env).value.tesseractLang == opts.tesseractLang.value
    ensures Load(opts, env).value.ocrEngine == Lower(opts.ocrEngine.value)
  {}

  /** With nothing on the command line and an empty environment, `load` uses the built-in defaults. */
  lemma BuiltInDefaults(opts: Options, env: Environment)
    requires env.vars == map[]
    requires opts.aiModel.None? && opts.tesseractLang.None? && opts.ocrEngine.None?
    requires opts.maxTokensPerChunk.None? && opts.maxCostLimit.None? && opts.pageRange.None?
    requires opts.outputDir.None? && opts.tempDir.None?
    requires env.isFile(env.resolve(opts.inputPdf))
    ensures Load(opts, env).Ok?
    ensures var c := Load(opts, env).value;
            && c.aiModel == "gpt-4.1" && c.tesseractLang == "eng" && c.ocrEngine == "text"
            && c.maxTokensPerChunk == 2500 && c.maxCostLimit == 10.0 && c.openaiApiKey.None?
            && c.outputDir == JoinPath(env.cwd, "output") && c.tempDir == JoinPath(env.cwd, "temp")
  {
    assert Lower("text") == "text";
  }
}
