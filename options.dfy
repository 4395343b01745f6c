/**
 * Option handling of `homeworks/homework-1/problem-1/code/src/options.c`:
 * the enum parsers, the line interpreter of the YAML subset, and the
 * two-pass `parse_options` in which the command line overrides the config
 * file and layout, algorithm and type are mandatory. A config file is the
 * sequence of lines `fgets` returns; the files that can be opened are the
 * map `fs` from path to lines.
 */
module OptionParsing {
  import opened Wrappers
  import opened OptionStrings

  datatype Layout = LayoutArray | LayoutList
  datatype Algorithm = AlgInsertion | AlgBubble | AlgMerge
  datatype ValueType = TypeInt | TypeDouble

  /** `parse_layout`: exactly the two names; anything else is status 1 with `*out` untouched (None). */
  function ParseLayout(s: string): Option<Layout> {
    if s == "array" then Some(LayoutArray) else if s == "list" then Some(LayoutList) else None
  }

  function LayoutName(l: Layout): string {
    match l
    case LayoutArray => "array"
    case LayoutList => "list"
  }

  /** `parse_alg`. */
  function ParseAlg(s: string): Option<Algorithm> {
    if s == "insertion" then Some(AlgInsertion)
    else if s == "bubble" then Some(AlgBubble)
    else if s == "merge" then Some(AlgMerge)
    else None
  }

  function AlgName(a: Algorithm): string {
    match a
    case AlgInsertion => "insertion"
    case AlgBubble => "bubble"
    case AlgMerge => "merge"
  }

  /** `parse_type`. */
  function ParseType(s: string): Option<ValueType> {
    if s == "int" then Some(TypeInt) else if s == "double" then Some(TypeDouble) else None
  }

  function TypeName(t: ValueType): string {
    match t
    case TypeInt => "int"
    case TypeDouble => "double"
  }

  /** Each parser accepts exactly the names of its values, and reads each name back as its value. */
  lemma ParsersExact(s: string, l: Layout, a: Algorithm, t: ValueType)
    ensures ParseLayout(LayoutName(l)) == Some(l) && ParseAlg(AlgName(a)) == Some(a) && ParseType(TypeName(t)) == Some(t)
    ensures ParseLayout(s).Some? ==> LayoutName(ParseLayout(s).value) == s
    ensures ParseAlg(s).Some? ==> AlgName(ParseAlg(s).value) == s
    ensures ParseType(s).Some? ==> TypeName(ParseType(s).value) == s
  {
  }

  /** The fields of `Options`; `verify` and `write_output` only ever hold 0 or 1. */
  datatype Settings = Settings(layout: Layout, alg: Algorithm, vtype: ValueType, filePath: string,
                               verify: bool, outPath: string, writeOutput: bool)

  /** `set_defaults`. */
  function Defaults(): Settings {
    Settings(LayoutArray, AlgInsertion, TypeInt, "list.txt", false, "output.txt", false)
  }

  /** `ConfigMask`: which settings a config line has set. */
  datatype Mask = Mask(hasLayout: bool, hasAlg: bool, hasType: bool, hasFile: bool, hasVerify: bool, hasOut: bool, hasWrite: bool)

  const NoMask: Mask := Mask(false, false, false, false, false, false, false)

  /** The settings and the mask, as `load_config_yaml` updates them. */
  datatype Config = Config(settings: Settings, mask: Mask)

  /** The text `fgets` left in the line buffer: everything before a NUL, if the line holds one. */
  function CText(line: string): string {
    CStr(line + [NUL])
  }

  /** The index of the first `c` in `t`, or `|t|` if there is none. */
  function Find(t: string, c: char): (r: nat)
    ensures r <= |t| && (r < |t| ==> t[r] == c) && forall k :: 0 <= k < r ==> t[k] != c
  {
    if t == [] || t[0] == c then 0 else 1 + Find(t[1..], c)
  }

  /**
   * The key and the value of a config line: comment stripped, trimmed;
   * blank lines, lines starting with `---` and lines without a colon are
   * skipped (None); otherwise the key is the trimmed text before the first
   * colon and the value the trimmed, unquoted text after it.
   */
  function Entry(text: string): Option<(string, string)> {
    Split(Trim(Strip(text)))
  }

  /** The key and the value of a line already stripped and trimmed. */
  function Split(t: string): Option<(string, string)> {
    if t == [] || Dashes(t) then None
    else
      var c := Find(t, ':');
      if c == |t| then None else Some((Trim(t[..c]), Unquote(Trim(t[c + 1..]))))
  }

  /** `strncmp(line, "---", 3) == 0`. */
  predicate Dashes(t: string) {
    |t| >= 3 && t[..3] == "---"
  }

  /**
   * The effect of one entry, given the lowercased key `kb` (at most 63
   * characters), the lowercased value `vb` (at most 255) and the value `v`:
   * a known key with a valid value sets its setting and its mask bit; an
   * invalid value or an unknown key changes nothing.
   */
  function KeyEffect(c: Config, kb: string, vb: string, v: string): Config {
    var s, m := c.settings, c.mask;
    if kb == "layout" then
      (match ParseLayout(vb) case Some(l) => Config(s.(layout := l), m.(hasLayout := true)) case None => c)
    else if kb == "alg" || kb == "algorithm" then
      (match ParseAlg(vb) case Some(a) => Config(s.(alg := a), m.(hasAlg := true)) case None => c)
    else if kb == "t" || kb == "type" then
      (match ParseType(vb) case Some(t) => Config(s.(vtype := t), m.(hasType := true)) case None => c)
    else OtherKey(c, kb, vb, v)
  }

  /** The keys other than layout, algorithm and type; they leave those three settings and their mask bits alone. */
  function OtherKey(c: Config, kb: string, vb: string, v: string): (r: Config)
    ensures r.settings.layout == c.settings.layout && r.settings.alg == c.settings.alg && r.settings.vtype == c.settings.vtype
    ensures r.mask.hasLayout == c.mask.hasLayout && r.mask.hasAlg == c.mask.hasAlg && r.mask.hasType == c.mask.hasType
  {
    var s, m := c.settings, c.mask;
    if kb == "file" || kb == "path" then
      Config(s.(filePath := v), m.(hasFile := true))
    else if kb == "verify" then
      (match BoolOf(vb) case Some(b) => Config(s.(verify := b), m.(hasVerify := true)) case None => c)
    else if kb == "output" || kb == "out" || kb == "output_path" then
      Config(s.(outPath := v), m.(hasOut := true))
    else if kb == "write_output" then
      (match BoolOf(vb) case Some(b) => Config(s.(writeOutput := b), m.(hasWrite := true)) case None => c)
    else c
  }

  /** One iteration of the `fgets` loop of `load_config_yaml`. */
  function ConfigLine(c: Config, line: string): Config {
    match Entry(CText(line))
    case None => c
    case Some((k, v)) => KeyEffect(c, LowerCopy(k, 64), LowerCopy(v, 256), v)
  }

  /** All lines of a config file, in order. */
  function ConfigLines(c: Config, lines: seq<string>): Config
    decreases |lines|
  {
    if lines == [] then c else ConfigLine(ConfigLines(c, lines[..|lines| - 1]), lines[|lines| - 1])
  }

  /** The three settings `parse_options` insists on. */
  datatype Mandatory = MLayout | MAlg | MType

  function Has(m: Mask, w: Mandatory): bool {
    match w
    case MLayout => m.hasLayout
    case MAlg => m.hasAlg
    case MType => m.hasType
  }

  /** The lowercased key names `w` and the lowercased value is valid for it. */
  predicate SetsKey(kb: string, vb: string, w: Mandatory) {
    match w
    case MLayout => kb == "layout" && ParseLayout(vb).Some?
    case MAlg => (kb == "alg" || kb == "algorithm") && ParseAlg(vb).Some?
    case MType => (kb == "t" || kb == "type") && ParseType(vb).Some?
  }

  /** The line sets setting `w`: a key for it (in any case, under any alias) with a valid value. */
  predicate Sets(line: string, w: Mandatory) {
    match Entry(CText(line))
    case None => false
    case Some((k, v)) => SetsKey(LowerCopy(k, 64), LowerCopy(v, 256), w)
  }

  /** One entry sets a mask bit exactly when it sets that setting. */
  lemma KeyMask(c: Config, kb: string, vb: string, v: string, w: Mandatory)
    ensures Has(KeyEffect(c, kb, vb, v).mask, w) <==> Has(c.mask, w) || SetsKey(kb, vb, w)
  {
  }

  lemma LineMask(c: Config, line: string, w: Mandatory)
    ensures Has(ConfigLine(c, line).mask, w) <==> Has(c.mask, w) || Sets(line, w)
  {
    match Entry(CText(line))
    case None =>
    case Some((k, v)) => KeyMask(c, LowerCopy(k, 64), LowerCopy(v, 256), v, w);
  }

  /** A mask bit is set after the file exactly when it was set before or some line sets that setting. */
  lemma {:induction false} MaskMeaning(c: Config, lines: seq<string>, w: Mandatory)
    ensures Has(ConfigLines(c, lines).mask, w) <==> Has(c.mask, w) || exists k :: 0 <= k < |lines| && Sets(lines[k], w)
    decreases |lines|
  {
    if lines != [] {
      var init, last := lines[..|lines| - 1], lines[|lines| - 1];
      MaskMeaning(c, init, w);
      LineMask(ConfigLines(c, init), last, w);
      SetsSnoc(init, last, lines, w);
    }
  }

  lemma SetsSnoc(init: seq<string>, last: string, lines: seq<string>, w: Mandatory)
    requires lines == init + [last]
    ensures (exists k :: 0 <= k < |lines| && Sets(lines[k], w)) <==> (exists k :: 0 <= k < |init| && Sets(init[k], w)) || Sets(last, w)
  {
    if exists k :: 0 <= k < |lines| && Sets(lines[k], w) {
      var k :| 0 <= k < |lines| && Sets(lines[k], w);
      if k < |init| {
        assert Sets(init[k], w);
      }
    }
    if exists k :: 0 <= k < |init| && Sets(init[k], w) {
      var k :| 0 <= k < |init| && Sets(init[k], w);
      assert lines[k] == init[k];
    }
    if Sets(last, w) {
      assert lines[|init|] == last;
    }
  }

  /** Skipped lines: blank after trimming, a `---` marker, or no colon. */
  lemma SkippedLines(c: Config, line: string)
    requires var t := Trim(Strip(CText(line))); t == [] || (|t| >= 3 && t[..3] == "---") || ':' !in t
    ensures ConfigLine(c, line) == c
  {
  }

  /** Keys are compared in lower case, so keys that differ only in case act alike. */
  lemma KeyCaseInsensitive(c: Config, k1: string, k2: string, vb: string, v: string)
    requires Lower(k1) == Lower(k2)
    ensures KeyEffect(c, LowerCopy(k1, 64), vb, v) == KeyEffect(c, LowerCopy(k2, 64), vb, v)
  {
    var n := Min(|k1|, 63);
    assert LowerCopy(k1, 64) == LowerCopy(k2, 64) by {
      assert forall i :: 0 <= i < n ==> Lower(k1[..n])[i] == Lower(k1)[i] == Lower(k2)[i] == Lower(k2[..n])[i];
    }
  }

  /** The aliases of a key act alike. */
  lemma KeyAliases(c: Config, vb: string, v: string)
    ensures KeyEffect(c, "alg", vb, v) == KeyEffect(c, "algorithm", vb, v)
    ensures KeyEffect(c, "t", vb, v) == KeyEffect(c, "type", vb, v)
    ensures KeyEffect(c, "file", vb, v) == KeyEffect(c, "path", vb, v)
    ensures KeyEffect(c, "output", vb, v) == KeyEffect(c, "out", vb, v) == KeyEffect(c, "output_path", vb, v)
  {
  }

  // ---------------------------------------------------------------------
  // The command line

  /** The first pass of `parse_options`: the argument after the first `-config` or `--config` that has one. */
  function FindConfig(argv: seq<string>, i: nat): Option<string>
    decreases |argv| - i
  {
    if i + 1 >= |argv| then None
    else if argv[i] == "-config" || argv[i] == "--config" then Some(argv[i + 1])
    else FindConfig(argv, i + 1)
  }

  /** What the command line assigns: None / false where it assigns nothing. */
  datatype Patch = Patch(layout: Option<Layout>, alg: Option<Algorithm>, vtype: Option<ValueType>, filePath: Option<string>,
                         verify: bool, outPath: Option<string>, writeOutput: bool)

  const NoPatch: Patch := Patch(None, None, None, None, false, None, false)

  /** The command line's assignments written over the settings. */
  function ApplyPatch(p: Patch, s: Settings): Settings {
    Settings(
      if p.layout.Some? then p.layout.value else s.layout,
      if p.alg.Some? then p.alg.value else s.alg,
      if p.vtype.Some? then p.vtype.value else s.vtype,
      if p.filePath.Some? then p.filePath.value else s.filePath,
      p.verify || s.verify,
      if p.outPath.Some? then p.outPath.value else s.outPath,
      p.writeOutput || s.writeOutput)
  }

  /** Whether the second pass ran to the end, and what it had assigned when it stopped. */
  datatype Pass = Pass(ok: bool, patch: Patch)

  /** One argument of the second pass: whether it was acceptable, where the next one is, the assignments so far. */
  datatype Step = Step(ok: bool, next: nat, patch: Patch)

  /**
   * Argument `i` of the second pass: a flag that takes a value and has one
   * consumes it; the values of `-layout`, `-alg` and `-t` are lowercased
   * into a 16-byte buffer and a bad one is an error; other arguments are
   * ignored.
   */
  function Flag(argv: seq<string>, i: nat, p: Patch): (r: Step)
    requires i < |argv|
    ensures i < r.next <= i + 2
  {
    var arg := argv[i];
    var more := i + 1 < |argv|;
    if arg == "-layout" && more then
      (match ParseLayout(LowerCopy(argv[i + 1], 16))
       case None => Step(false, i + 2, p)
       case Some(l) => Step(true, i + 2, p.(layout := Some(l))))
    else if arg == "-alg" && more then
      (match ParseAlg(LowerCopy(argv[i + 1], 16))
       case None => Step(false, i + 2, p)
       case Some(a) => Step(true, i + 2, p.(alg := Some(a))))
    else if (arg == "-t" || arg == "--type") && more then
      (match ParseType(LowerCopy(argv[i + 1], 16))
       case None => Step(false, i + 2, p)
       case Some(t) => Step(true, i + 2, p.(vtype := Some(t))))
    else if arg == "-file" && more then Step(true, i + 2, p.(filePath := Some(argv[i + 1])))
    else if arg == "--verify" then Step(true, i + 1, p.(verify := true))
    else if (arg == "-o" || arg == "--output") && more then Step(true, i + 2, p.(outPath := Some(argv[i + 1])))
    else if arg == "--write-output" then Step(true, i + 1, p.(writeOutput := true))
    else if (arg == "-config" || arg == "--config") && more then Step(true, i + 2, p)
    else Step(true, i + 1, p)
  }

  /** The second pass of `parse_options` from argument `i`, stopping at the first bad value. */
  function CliFrom(argv: seq<string>, i: nat, p: Patch): Pass
    decreases |argv| - i
  {
    if i >= |argv| then Pass(true, p)
    else
      var st := Flag(argv, i, p);
      if !st.ok then Pass(false, st.patch) else CliFrom(argv, st.next, st.patch)
  }

  /** The status `parse_options` returns and the `Options` it leaves. */
  datatype Outcome = Outcome(rc: int, settings: Settings)

  /** The settings and mask after the config file named on the command line, if one is named and opens. */
  function ConfigOf(argv: seq<string>, fs: map<string, seq<string>>): Config {
    var c0 := Config(Defaults(), NoMask);
    match FindConfig(argv, 1)
    case None => c0
    case Some(path) => if path in fs then ConfigLines(c0, fs[path]) else c0
  }

  /**
   * `parse_options`: defaults, then the config file, then the command line
   * over both; status 0 only if the command line is well formed and each of
   * layout, algorithm and type was set by the config or by a flag.
   */
  function ParseOptionsSpec(argv: seq<string>, fs: map<string, seq<string>>): Outcome {
    var c := ConfigOf(argv, fs);
    var r := CliFrom(argv, 1, NoPatch);
    var s := ApplyPatch(r.patch, c.settings);
    if !r.ok then Outcome(1, s)
    else if (c.mask.hasLayout || r.patch.layout.Some?) && (c.mask.hasAlg || r.patch.alg.Some?)
         && (c.mask.hasType || r.patch.vtype.Some?) then Outcome(0, s)
    else Outcome(1, s)
  }

  /** The flag that sets `w`, if the command line has one. */
  function FromCli(p: Patch, w: Mandatory): bool {
    match w
    case MLayout => p.layout.Some?
    case MAlg => p.alg.Some?
    case MType => p.vtype.Some?
  }

  /** Some line of the config file named on the command line sets `w`. */
  predicate FileSets(argv: seq<string>, fs: map<string, seq<string>>, w: Mandatory) {
    var path := FindConfig(argv, 1);
    path.Some? && path.value in fs && exists k :: 0 <= k < |fs[path.value]| && Sets(fs[path.value][k], w)
  }

  /** The mask `parse_options` starts its second pass with records exactly the settings the file sets. */
  lemma ConfigMaskOf(argv: seq<string>, fs: map<string, seq<string>>, w: Mandatory)
    ensures Has(ConfigOf(argv, fs).mask, w) <==> FileSets(argv, fs, w)
  {
    var path := FindConfig(argv, 1);
    if path.Some? && path.value in fs {
      MaskMeaning(Config(Defaults(), NoMask), fs[path.value], w);
    }
  }

  /**
   * `parse_options` succeeds exactly when the command line is well formed
   * and each mandatory setting comes from a flag or from a line of the
   * config file.
   */
  lemma MandatorySettings(argv: seq<string>, fs: map<string, seq<string>>)
    ensures var r := CliFrom(argv, 1, NoPatch);
      ParseOptionsSpec(argv, fs).rc == 0 <==>
        r.ok && (FromCli(r.patch, MLayout) || FileSets(argv, fs, MLayout))
        && (FromCli(r.patch, MAlg) || FileSets(argv, fs, MAlg))
        && (FromCli(r.patch, MType) || FileSets(argv, fs, MType))
  {
    ConfigMaskOf(argv, fs, MLayout);
    ConfigMaskOf(argv, fs, MAlg);
    ConfigMaskOf(argv, fs, MType);
  }

  /** A setting given on the command line wins over the config file, whatever the file holds. */
  lemma CliOverridesConfig(argv: seq<string>, fs1: map<string, seq<string>>, fs2: map<string, seq<string>>)
    ensures var p := CliFrom(argv, 1, NoPatch).patch; var s1 := ParseOptionsSpec(argv, fs1).settings; var s2 := ParseOptionsSpec(argv, fs2).settings;
      (p.layout.Some? ==> s1.layout == s2.layout == p.layout.value)
      && (p.alg.Some? ==> s1.alg == s2.alg == p.alg.value)
      && (p.vtype.Some? ==> s1.vtype == s2.vtype == p.vtype.value)
      && (p.filePath.Some? ==> s1.filePath == s2.filePath == p.filePath.value)
      && (p.outPath.Some? ==> s1.outPath == s2.outPath == p.outPath.value)
      && (p.verify ==> s1.verify && s2.verify)
      && (p.writeOutput ==> s1.writeOutput && s2.writeOutput)
  {
  }

  /**
   * A bad `-layout`, `-alg` or `-t` value reached by the pass makes it fail;
   * as the first argument it fails `parse_options`, whatever the config file says.
   */
  lemma BadFlagFails(argv: seq<string>, i: nat, p: Patch, fs: map<string, seq<string>>)
    requires i + 1 < |argv|
    requires (argv[i] == "-layout" && ParseLayout(LowerCopy(argv[i + 1], 16)).None?)
      || (argv[i] == "-alg" && ParseAlg(LowerCopy(argv[i + 1], 16)).None?)
      || ((argv[i] == "-t" || argv[i] == "--type") && ParseType(LowerCopy(argv[i + 1], 16)).None?)
    ensures !CliFrom(argv, i, p).ok
    ensures i == 1 ==> ParseOptionsSpec(argv, fs).rc == 1
  {
  }

  /** Flag values are taken in any case: `-layout ARRAY` is `-layout array`, and likewise for `-alg` and `-t`. */
  lemma FlagCaseInsensitive(v: string)
    requires |v| < 16
    ensures ParseLayout(LowerCopy(v, 16)) == ParseLayout(Lower(v))
    ensures ParseAlg(LowerCopy(v, 16)) == ParseAlg(Lower(v))
    ensures ParseType(LowerCopy(v, 16)) == ParseType(Lower(v))
  {
    assert v[..Min(|v|, 15)] == v;
  }

  // ---------------------------------------------------------------------
  // `Options`, updated in place

  class Options {
    var layout: Layout
    var alg: Algorithm
    var vtype: ValueType
    var filePath: string
    var verify: bool
    var outPath: string
    var writeOutput: bool

    function Get(): Settings
      reads this
    {
      Settings(layout, alg, vtype, filePath, verify, outPath, writeOutput)
    }

    /** The caller's `Options`, holding whatever it held before `parse_options`. */
    constructor (s: Settings)
      ensures Get() == s
    {
      layout, alg, vtype := s.layout, s.alg, s.vtype;
      filePath, verify, outPath, writeOutput := s.filePath, s.verify, s.outPath, s.writeOutput;
    }

    /** `set_defaults`. */
    method SetDefaults()
      modifies this
      ensures Get() == Defaults()
    {
      layout := LayoutArray;
      alg := AlgInsertion;
      vtype := TypeInt;
      filePath := "list.txt";
      verify := false;
      outPath := "output.txt";
      writeOutput := false;
    }

    /** The key dispatch of `load_config_yaml`, after `kbuf` and `vbuf` are filled. */
    method ApplyKey(kb: string, vb: string, v: string, mask: Mask) returns (m: Mask)
      modifies this
      ensures Config(Get(), m) == KeyEffect(Config(old(Get()), mask), kb, vb, v)
    {
      m := mask;
      if kb == "layout" {
        match ParseLayout(vb)
        case Some(l) => layout := l; m := m.(hasLayout := true);
        case None =>
      } else if kb == "alg" || kb == "algorithm" {
        match ParseAlg(vb)
        case Some(a) => alg := a; m := m.(hasAlg := true);
        case None =>
      } else if kb == "t" || kb == "type" {
        match ParseType(vb)
        case Some(t) => vtype := t; m := m.(hasType := true);
        case None =>
      } else if kb == "file" || kb == "path" {
        filePath := v;
        m := m.(hasFile := true);
      } else if kb == "verify" {
        var rc, b := ParseBool(vb, false);
        if rc == 0 {
          verify := b;
          m := m.(hasVerify := true);
        }
      } else if kb == "output" || kb == "out" || kb == "output_path" {
        outPath := v;
        m := m.(hasOut := true);
      } else if kb == "write_output" {
        var rc, b := ParseBool(vb, false);
        if rc == 0 {
          writeOutput := b;
          m := m.(hasWrite := true);
        }
      }
    }

    /**
     * One line of `load_config_yaml`, on a buffer holding it: strip the
     * comment, trim, skip, split at the first colon, trim both halves,
     * unquote the value, lowercase both into `kbuf[64]` and `vbuf[256]`.
     */
    method LoadLine(line: string, mask: Mask) returns (m: Mask)
      modifies this
      ensures Config(Get(), m) == ConfigLine(Config(old(Get()), mask), line)
    {
      var buf := CleanLine(line);
      ghost var t := CStr(buf[..]);
      assert Entry(CText(line)) == Split(t);
      if buf[0] == NUL {
        return mask;
      }
      var dashes := StartsWithDashes(buf);
      if dashes {
        return mask;
      }
      var found, colon := StrChr(buf, ':');
      if !found {
        return mask;
      }
      ghost var key, value := Trim(t[..colon]), Unquote(Trim(t[colon + 1..]));
      assert Split(t) == Some((key, value));
      var v := SplitAt(buf, t, colon);
      var kbuf := Lowered(buf, 64);
      var vbuf := Lowered(v, 256);
      m := ApplyKey(CStr(kbuf[..]), CStr(vbuf[..]), CStr(v[..]), mask);
    }

    /**
     * `load_config_yaml`: status 1 and nothing changed if the file cannot be
     * opened; otherwise every line in order, and status 0 even when lines
     * were invalid.
     */
    method LoadConfigYaml(path: string, fs: map<string, seq<string>>, mask: Mask) returns (rc: int, m: Mask)
      modifies this
      ensures rc == (if path in fs then 0 else 1)
      ensures Config(Get(), m) == if path in fs then ConfigLines(Config(old(Get()), mask), fs[path]) else Config(old(Get()), mask)
    {
      if path !in fs {
        return 1, mask;
      }
      var lines := fs[path];
      m := mask;
      var i := 0;
      while i < |lines|
        invariant 0 <= i <= |lines| && Config(Get(), m) == ConfigLines(Config(old(Get()), mask), lines[..i])
      {
        m := LoadLine(lines[i], m);
        assert lines[..i + 1][..i] == lines[..i];
        i := i + 1;
      }
      assert lines[..i] == lines;
      rc := 0;
    }

    /** `parse_options`, with the usage message and the warnings left out. */
    method ParseOptions(argv: seq<string>, fs: map<string, seq<string>>) returns (rc: int)
      modifies this
      ensures Outcome(rc, Get()) == ParseOptionsSpec(argv, fs)
    {
      SetDefaults();
      var configPath := FirstPass(argv);
      var mask := NoMask;
      if configPath.Some? {
        var _, m := LoadConfigYaml(configPath.value, fs, mask);
        mask := m;
      }
      assert Config(Get(), mask) == ConfigOf(argv, fs);
      rc := SecondPass(argv, mask);
    }

    /**
     * The second pass of `parse_options`: the command line over the
     * settings, then status 1 unless layout, algorithm and type were each
     * set by the config (`mask`) or by a flag.
     */
    method SecondPass(argv: seq<string>, mask: Mask) returns (rc: int)
      modifies this
      ensures var r := CliFrom(argv, 1, NoPatch);
        Get() == ApplyPatch(r.patch, old(Get()))
        && rc == if r.ok && (mask.hasLayout || r.patch.layout.Some?) && (mask.hasAlg || r.patch.alg.Some?)
                    && (mask.hasType || r.patch.vtype.Some?) then 0 else 1
    {
      var sawLayout, sawAlg, sawType := mask.hasLayout, mask.hasAlg, mask.hasType;
      ghost var s0 := Get();
      ghost var p := NoPatch;
      var i := 1;
      while i < |argv|
        invariant 1 <= i && CliFrom(argv, 1, NoPatch) == CliFrom(argv, i, p) && Get() == ApplyPatch(p, s0)
        invariant sawLayout == (mask.hasLayout || p.layout.Some?) && sawAlg == (mask.hasAlg || p.alg.Some?)
        invariant sawType == (mask.hasType || p.vtype.Some?)
        decreases |argv| - i
      {
        ghost var p0 := p;
        var ok: bool, next: nat;
        ok, next, p, sawLayout, sawAlg, sawType := CliStep(argv, i, p0, s0, mask, sawLayout, sawAlg, sawType);
        assert CliFrom(argv, i, p0) == if ok then CliFrom(argv, next, p) else Pass(false, p);
        if !ok {
          return 1;
        }
        i := next;
      }
      if !sawLayout || !sawAlg || !sawType {
        return 1;
      }
      return 0;
    }

    /** One iteration of the second pass, at argument `i`; `ok` is false where the C code returns 1. */
    method CliStep(argv: seq<string>, i: nat, ghost p: Patch, ghost s0: Settings, ghost mask: Mask,
                   sawLayout: bool, sawAlg: bool, sawType: bool)
      returns (ok: bool, next: nat, ghost p': Patch, sawLayout': bool, sawAlg': bool, sawType': bool)
      requires 1 <= i < |argv| && Get() == ApplyPatch(p, s0)
      requires sawLayout == (mask.hasLayout || p.layout.Some?) && sawAlg == (mask.hasAlg || p.alg.Some?)
      requires sawType == (mask.hasType || p.vtype.Some?)
      modifies this
      ensures Get() == ApplyPatch(p', s0)
      ensures sawLayout' == (mask.hasLayout || p'.layout.Some?) && sawAlg' == (mask.hasAlg || p'.alg.Some?)
      ensures sawType' == (mask.hasType || p'.vtype.Some?)
      ensures Flag(argv, i, p) == Step(ok, next, p')
    {
      var arg := argv[i];
      if (arg == "-layout" || arg == "-alg" || arg == "-t" || arg == "--type") && i + 1 < |argv| {
        ok, p', sawLayout', sawAlg', sawType' := EnumFlag(argv, i, p, s0, mask, sawLayout, sawAlg, sawType);
        next := i + 2;
      } else {
        ok := true;
        next, p' := PlainFlag(argv, i, p, s0);
        sawLayout', sawAlg', sawType' := sawLayout, sawAlg, sawType;
      }
    }

    /** The flags whose value is lowercased into a 16-byte buffer and must be valid. */
    method EnumFlag(argv: seq<string>, i: nat, ghost p: Patch, ghost s0: Settings, ghost mask: Mask,
                    sawLayout: bool, sawAlg: bool, sawType: bool)
      returns (ok: bool, ghost p': Patch, sawLayout': bool, sawAlg': bool, sawType': bool)
      requires 1 <= i && i + 1 < |argv| && Get() == ApplyPatch(p, s0)
      requires argv[i] == "-layout" || argv[i] == "-alg" || argv[i] == "-t" || argv[i] == "--type"
      requires sawLayout == (mask.hasLayout || p.layout.Some?) && sawAlg == (mask.hasAlg || p.alg.Some?)
      requires sawType == (mask.hasType || p.vtype.Some?)
      modifies this
      ensures Get() == ApplyPatch(p', s0)
      ensures sawLayout' == (mask.hasLayout || p'.layout.Some?) && sawAlg' == (mask.hasAlg || p'.alg.Some?)
      ensures sawType' == (mask.hasType || p'.vtype.Some?)
      ensures Flag(argv, i, p) == Step(ok, i + 2, p')
    {
      sawLayout', sawAlg', sawType' := sawLayout, sawAlg, sawType;
      var arg := argv[i];
      var buf := LowerCopy(argv[i + 1], 16);
      if arg == "-layout" {
        ok, p' := LayoutFlag(buf, p, s0);
        sawLayout' := sawLayout || ok;
      } else if arg == "-alg" {
        ok, p' := AlgFlag(buf, p, s0);
        sawAlg' := sawAlg || ok;
      } else {
        ok, p' := TypeFlag(buf, p, s0);
        sawType' := sawType || ok;
      }
    }

    /** `parse_layout` into the field. */
    method LayoutFlag(buf: string, ghost p: Patch, ghost s0: Settings) returns (ok: bool, ghost p': Patch)
      requires Get() == ApplyPatch(p, s0)
      modifies this
      ensures Get() == ApplyPatch(p', s0)
      ensures ok == ParseLayout(buf).Some? && p' == if ok then p.(layout := ParseLayout(buf)) else p
    {
      ok, p' := false, p;
      match ParseLayout(buf)
      case None =>
      case Some(l) =>
        layout := l;
        ok, p' := true, p.(layout := Some(l));
    }

    /** `parse_alg` into the field. */
    method AlgFlag(buf: string, ghost p: Patch, ghost s0: Settings) returns (ok: bool, ghost p': Patch)
      requires Get() == ApplyPatch(p, s0)
      modifies this
      ensures Get() == ApplyPatch(p', s0)
      ensures ok == ParseAlg(buf).Some? && p' == if ok then p.(alg := ParseAlg(buf)) else p
    {
      ok, p' := false, p;
      match ParseAlg(buf)
      case None =>
      case Some(a) =>
        alg := a;
        ok, p' := true, p.(alg := Some(a));
    }

    /** `parse_type` into the field. */
    method TypeFlag(buf: string, ghost p: Patch, ghost s0: Settings) returns (ok: bool, ghost p': Patch)
      requires Get() == ApplyPatch(p, s0)
      modifies this
      ensures Get() == ApplyPatch(p', s0)
      ensures ok == ParseType(buf).Some? && p' == if ok then p.(vtype := ParseType(buf)) else p
    {
      ok, p' := false, p;
      match ParseType(buf)
      case None =>
      case Some(t) =>
        vtype := t;
        ok, p' := true, p.(vtype := Some(t));
    }

    /** The other arguments: `-file`, `--verify`, `-o`, `--write-output`, `-config` and anything ignored. */
    method PlainFlag(argv: seq<string>, i: nat, ghost p: Patch, ghost s0: Settings) returns (next: nat, ghost p': Patch)
      requires 1 <= i < |argv| && Get() == ApplyPatch(p, s0)
      requires !((argv[i] == "-layout" || argv[i] == "-alg" || argv[i] == "-t" || argv[i] == "--type") && i + 1 < |argv|)
      modifies this
      ensures Get() == ApplyPatch(p', s0)
      ensures p'.layout == p.layout && p'.alg == p.alg && p'.vtype == p.vtype
      ensures Flag(argv, i, p) == Step(true, next, p')
    {
      next, p' := i + 1, p;
      var arg := argv[i];
      if arg == "-file" && i + 1 < |argv| {
        next := i + 2;
        filePath := argv[i + 1];
        p' := p.(filePath := Some(argv[i + 1]));
      } else if arg == "--verify" {
        verify := true;
        p' := p.(verify := true);
      } else if (arg == "-o" || arg == "--output") && i + 1 < |argv| {
        next := i + 2;
        outPath := argv[i + 1];
        p' := p.(outPath := Some(argv[i + 1]));
      } else if arg == "--write-output" {
        writeOutput := true;
        p' := p.(writeOutput := true);
      } else if (arg == "-config" || arg == "--config") && i + 1 < |argv| {
        next := i + 2;
      }
    }
  }

  /** The first pass of `parse_options`: the path after the first `-config` or `--config` that has one. */
  method FirstPass(argv: seq<string>) returns (configPath: Option<string>)
    ensures configPath == FindConfig(argv, 1)
  {
    configPath := None;
    var i := 1;
    while i < |argv|
      invariant 1 <= i && FindConfig(argv, 1) == FindConfig(argv, i)
      decreases |argv| - i
    {
      if (argv[i] == "-config" || argv[i] == "--config") && i + 1 < |argv| {
        configPath := Some(argv[i + 1]);
        break;
      }
      i := i + 1;
    }
  }

  /** The line buffer `fgets` fills: the line and a terminating NUL. */
  method Buffer(line: string) returns (buf: array<char>)
    ensures fresh(buf) && buf[..] == line + [NUL]
    ensures Terminated(buf[..]) && CStr(buf[..]) == CText(line)
  {
    buf := new char[|line| + 1](k requires 0 <= k <= |line| => if k < |line| then line[k] else NUL);
    assert buf[..] == line + [NUL];
    assert buf[..][|line|] == NUL;
  }

  /** The line buffer after `strip_inline_comment` and `trim_inplace`. */
  method CleanLine(line: string) returns (buf: array<char>)
    ensures fresh(buf) && Terminated(buf[..]) && CStr(buf[..]) == Trim(Strip(CText(line)))
  {
    buf := Buffer(line);
    StripInlineComment(buf);
    TrimInPlace(buf);
  }

  /** `strncmp(s, "---", 3) == 0` on a non-empty string. */
  method StartsWithDashes(s: array<char>) returns (b: bool)
    requires Terminated(s[..]) && s[0] != NUL
    ensures b <==> Dashes(CStr(s[..]))
  {
    ghost var t := CStr(s[..]);
    b := s[0] == '-' && s[1] == '-' && s[2] == '-';
    if b {
      assert t[..3] == "---";
    }
  }

  /** `strchr`: whether `c` occurs in the string, and the index of its first occurrence. */
  method StrChr(s: array<char>, c: char) returns (found: bool, r: nat)
    requires Terminated(s[..]) && c != NUL
    ensures found <==> r < CLen(s[..])
    ensures r == Find(CStr(s[..]), c)
  {
    ghost var t := CStr(s[..]);
    r := 0;
    while s[r] != NUL && s[r] != c
      invariant r <= |t| && Find(t[r..], c) == Find(t, c) - r && Find(t, c) >= r
      decreases |t| - r
    {
      assert t[r..][1..] == t[r + 1..];
      r := r + 1;
    }
    found := s[r] != NUL;
  }

  /**
   * The split at the colon: a NUL over it ends the key in `buf`, the value
   * is the text after it; the key is trimmed in place, the value trimmed and
   * unquoted. The value is worked on in a copy of the bytes after the colon,
   * taken after the key is trimmed: trimming the key writes nothing from the
   * colon on, and the value's own edits stay within the value, so the copy
   * ends as `v` does in the shared buffer.
   */
  method SplitAt(buf: array<char>, ghost t: string, colon: nat) returns (v: array<char>)
    requires Terminated(buf[..]) && t == CStr(buf[..]) && colon < |t|
    modifies buf
    ensures fresh(v) && Terminated(buf[..]) && Terminated(v[..])
    ensures CStr(buf[..]) == Trim(t[..colon]) && CStr(v[..]) == Unquote(Trim(t[colon + 1..]))
  {
    assert buf[..][..|t|] == t && buf[|t|] == NUL;
    buf[colon] := NUL;
    Cut(buf[..], t, colon);
    ghost var cut := buf[..];
    TrimInPlace(buf);
    assert buf[colon + 1..] == cut[colon + 1..];
    v := CopyFrom(buf, colon + 1);
    TrimInPlace(v);
    UnquoteInPlace(v);
  }

  /** `lc_copy` into a fresh buffer of `size` bytes. */
  method Lowered(src: array<char>, size: nat) returns (dst: array<char>)
    requires 1 <= size && Terminated(src[..])
    ensures fresh(dst) && CStr(dst[..]) == LowerCopy(CStr(src[..]), size)
  {
    dst := new char[size];
    LcCopy(dst, src);
  }

  /** A copy of the buffer from position `from` on: the text after the colon. */
  method CopyFrom(s: array<char>, from: nat) returns (d: array<char>)
    requires from <= s.Length && Terminated(s[from..])
    ensures fresh(d) && Terminated(d[..]) && CStr(d[..]) == CStr(s[from..])
  {
    d := new char[s.Length - from](k requires 0 <= k < s.Length - from reads s => s[from + k]);
    assert d[..] == s[from..];
  }

  /** Writing a NUL over the colon at `c` ends the string there, and the value still follows it. */
  lemma Cut(s: seq<char>, t: string, c: nat)
    requires c < |t| < |s| && s[..c] == t[..c] && s[c] == NUL && s[c + 1..|t|] == t[c + 1..] && s[|t|] == NUL
    requires forall k :: 0 <= k < |t| ==> t[k] != NUL
    ensures Terminated(s) && CStr(s) == t[..c]
    ensures Terminated(s[c + 1..]) && CStr(s[c + 1..]) == t[c + 1..]
  {
    CLenOf(t[..c], s[c + 1..]);
    assert s == t[..c] + [NUL] + s[c + 1..];
    CLenOf(t[c + 1..], s[|t| + 1..]);
    assert s[c + 1..] == t[c + 1..] + [NUL] + s[|t| + 1..];
  }
}
