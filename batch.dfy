/** The driver of crop_scanned_photos/main.py: `parse_args` (command-line
    options whose defaults come from environment variables),
    `process_images` (the scans of the input folder whose name ends with an
    allowed extension) and `main` (crop every selected scan). The
    environment, the command line, the folder listing and the decoding of
    each scan are parameters. */
module Batch {
  import opened Wrappers
  import opened Text
  import opened Paths
  import opened Boxes
  import opened Crop

  // ---------------------------------------------------------------------
  // parse_args
  // ---------------------------------------------------------------------

  /** The parsed options, after `allowed_extensions` has been split. */
  datatype Settings = Settings(
    inputFolder: string,
    outputFolder: string,
    threads: int,
    thresholdValue: int,
    thresholdMax: int,
    minContourWidth: int,
    minContourHeight: int,
    allowedExtensions: seq<string>)

  /** `os.getenv(name, fallback)`. */
  function GetEnv(env: map<string, string>, name: string, fallback: string): string {
    if name in env then env[name] else fallback
  }

  /** A string option: the command-line value if the flag was given,
      otherwise its default `os.getenv(variable, fallback)`. */
  function StringOption(flags: map<string, string>, flag: string,
                        env: map<string, string>, variable: string, fallback: string): string
  {
    if flag in flags then flags[flag] else GetEnv(env, variable, fallback)
  }

  /** An integer option declared with `type=int` and the default
      `int(os.getenv(variable, fallback))`. The default is converted when the
      option is declared, so a malformed environment value fails even when
      the flag is given; a given flag value is converted by `int` as well. */
  function IntOption(flags: map<string, string>, flag: string,
                     env: map<string, string>, variable: string, fallback: string): (r: Option<int>)
    ensures r.Some? <==> ParseInt(GetEnv(env, variable, fallback)).Some?
                         && (flag in flags ==> ParseInt(flags[flag]).Some?)
    ensures r.Some? && flag in flags ==> ParseInt(flags[flag]) == Some(r.value)
    ensures r.Some? && flag !in flags ==> ParseInt(GetEnv(env, variable, fallback)) == Some(r.value)
  {
    var default := ParseInt(GetEnv(env, variable, fallback));
    if default.None? then None
    else if flag in flags then ParseInt(flags[flag])
    else default
  }

  /** The default of `--allowed-extensions`. */
  const DefaultExtensions: string := ".png,.jpg,.jpeg"

  /** `parse_args()` for the given options (`flags`, keyed by option name)
      and environment; `None` when a value is not an integer where one is
      needed (`int` raising `ValueError`, or argparse exiting). */
  function ParseArgs(flags: map<string, string>, env: map<string, string>): Option<Settings> {
    var threads := IntOption(flags, "--threads", env, "THREADS", "1");
    var thresholdValue := IntOption(flags, "--threshold-value", env, "THRESHOLD_VALUE", "240");
    var thresholdMax := IntOption(flags, "--threshold-max", env, "THRESHOLD_MAX", "255");
    var minWidth := IntOption(flags, "--min-contour-width", env, "MIN_CONTOUR_WIDTH", "50");
    var minHeight := IntOption(flags, "--min-contour-height", env, "MIN_CONTOUR_HEIGHT", "50");
    if threads.None? || thresholdValue.None? || thresholdMax.None? || minWidth.None? || minHeight.None? then None
    else
      Some(Settings(
        StringOption(flags, "--input-folder", env, "INPUT_FOLDER", "raw"),
        StringOption(flags, "--output-folder", env, "OUTPUT_FOLDER", "output_images"),
        threads.value, thresholdValue.value, thresholdMax.value, minWidth.value, minHeight.value,
        SplitCommas(StringOption(flags, "--allowed-extensions", env, "ALLOWED_EXTENSIONS", DefaultExtensions))))
  }

  /** With no option and no environment variable, the settings are the
      documented defaults. */
  lemma ParseArgsDefaults()
    ensures ParseArgs(map[], map[])
         == Some(Settings("raw", "output_images", 1, 240, 255, 50, 50, [".png", ".jpg", ".jpeg"]))
  {
    DefaultExtensionsSplit();
    DecimalLiterals();
  }

  /** The default extension list splits into three extensions. */
  lemma DefaultExtensionsSplit()
    ensures SplitCommas(DefaultExtensions) == [".png", ".jpg", ".jpeg"]
  {
    var tail := ".jpg" + "," + ".jpeg";
    DefaultExtensionsShape();
    SplitNoComma(".jpeg");
    SplitPrefix(".jpg", ".jpeg");
    SplitPrefix(".png", tail);
  }

  lemma DefaultExtensionsShape()
    ensures DefaultExtensions == ".png" + "," + (".jpg" + "," + ".jpeg")
  {
  }

  /** The numerals used as defaults read as the numbers they show. */
  lemma DecimalLiterals()
    ensures ParseInt("1") == Some(1) && ParseInt("4") == Some(4)
    ensures ParseInt("50") == Some(50) && ParseInt("240") == Some(240) && ParseInt("255") == Some(255)
  {
    ParseIntToString(1);
    ParseIntToString(4);
    ParseIntToString(50);
    ParseIntToString(240);
    ParseIntToString(255);
    assert IntToString(50) == "50";
    assert IntToString(240) == "240";
    assert IntToString(255) == "255";
  }

  /** The environment supplies the defaults: `INPUT_FOLDER=custom_input` and
      `THREADS=4` with no option given. */
  lemma ParseArgsFromEnvironment()
    ensures var s := ParseArgs(map[], map["INPUT_FOLDER" := "custom_input", "THREADS" := "4"]);
            s.Some? && s.value.inputFolder == "custom_input" && s.value.threads == 4
  {
    DecimalLiterals();
  }

  /** A flag on the command line wins over the environment, and the
      environment wins over the built-in default: the string options. */
  lemma FlagOverridesEnvironment(flags: map<string, string>, env: map<string, string>)
    requires ParseArgs(flags, env).Some?
    ensures var s := ParseArgs(flags, env).value;
            ("--input-folder" in flags ==> s.inputFolder == flags["--input-folder"]) &&
            ("--input-folder" !in flags && "INPUT_FOLDER" in env ==> s.inputFolder == env["INPUT_FOLDER"]) &&
            ("--output-folder" in flags ==> s.outputFolder == flags["--output-folder"]) &&
            ("--output-folder" !in flags && "OUTPUT_FOLDER" in env ==> s.outputFolder == env["OUTPUT_FOLDER"]) &&
            ("--allowed-extensions" in flags ==>
               s.allowedExtensions == SplitCommas(flags["--allowed-extensions"])) &&
            ("--allowed-extensions" !in flags && "ALLOWED_EXTENSIONS" in env ==>
               s.allowedExtensions == SplitCommas(env["ALLOWED_EXTENSIONS"]))
  {
  }

  /** The same precedence for the integer options: each takes `int` of the
      flag when it is given, and otherwise `int` of the environment value. */
  lemma IntFlagsOverrideEnvironment(flags: map<string, string>, env: map<string, string>)
    requires ParseArgs(flags, env).Some?
    ensures var s := ParseArgs(flags, env).value;
            IntTaken(flags, "--threads", env, "THREADS", s.threads) &&
            IntTaken(flags, "--threshold-value", env, "THRESHOLD_VALUE", s.thresholdValue) &&
            IntTaken(flags, "--threshold-max", env, "THRESHOLD_MAX", s.thresholdMax) &&
            IntTaken(flags, "--min-contour-width", env, "MIN_CONTOUR_WIDTH", s.minContourWidth) &&
            IntTaken(flags, "--min-contour-height", env, "MIN_CONTOUR_HEIGHT", s.minContourHeight)
  {
  }

  /** `value` is `int` of the flag when the flag is given, and otherwise
      `int` of the environment variable when that is set. */
  predicate IntTaken(flags: map<string, string>, flag: string,
                     env: map<string, string>, variable: string, value: int) {
    (flag in flags ==> ParseInt(flags[flag]) == Some(value)) &&
    (flag !in flags && variable in env ==> ParseInt(env[variable]) == Some(value))
  }

  /** A malformed integer in the environment makes parsing fail even when
      the corresponding option is given on the command line. */
  lemma MalformedEnvironmentFails(flags: map<string, string>, env: map<string, string>)
    requires "THREADS" in env && ParseInt(env["THREADS"]).None?
    ensures ParseArgs(flags, env).None?
  {
  }

  /** `args.allowed_extensions` holds the comma-separated pieces of the
      option: joining them with commas gives the option back, and none of
      them holds a comma. */
  lemma ExtensionsSplitAtCommas(flags: map<string, string>, env: map<string, string>)
    requires ParseArgs(flags, env).Some?
    ensures var ext := ParseArgs(flags, env).value.allowedExtensions;
            JoinCommas(ext) == StringOption(flags, "--allowed-extensions", env, "ALLOWED_EXTENSIONS", DefaultExtensions) &&
            forall k :: 0 <= k < |ext| ==> ',' !in ext[k]
  {
    var option := StringOption(flags, "--allowed-extensions", env, "ALLOWED_EXTENSIONS", DefaultExtensions);
    JoinSplitCommas(option);
    SplitCommasSpec(option);
  }

  // ---------------------------------------------------------------------
  // process_images
  // ---------------------------------------------------------------------

  /** The list comprehension `[f(x) for x in s if keep(x)]`. */
  function FilterMap<T, U>(s: seq<T>, keep: T -> bool, f: T -> U): (r: seq<U>)
    ensures |r| <= |s|
  {
    if s == [] then []
    else (if keep(s[0]) then [f(s[0])] else []) + FilterMap(s[1..], keep, f)
  }

  /** The comprehension over two sequences one after the other is the
      comprehension over each in turn. */
  lemma {:induction false} FilterMapAppend<T, U>(a: seq<T>, b: seq<T>, keep: T -> bool, f: T -> U)
    ensures FilterMap(a + b, keep, f) == FilterMap(a, keep, f) + FilterMap(b, keep, f)
  {
    if a == [] {
      assert a + b == b;
    } else {
      FilterMapAppend(a[1..], b, keep, f);
      var head := if keep(a[0]) then [f(a[0])] else [];
      var ab := a + b;
      assert ab[0] == a[0];
      assert ab[1..] == a[1..] + b;
      calc {
        FilterMap(ab, keep, f);
        head + FilterMap(a[1..] + b, keep, f);
        head + (FilterMap(a[1..], keep, f) + FilterMap(b, keep, f));
        (head + FilterMap(a[1..], keep, f)) + FilterMap(b, keep, f);
      }
    }
  }

  /** A value is produced iff it is the image of a kept element. */
  lemma {:induction false} FilterMapMember<T, U>(s: seq<T>, keep: T -> bool, f: T -> U, y: U)
    ensures y in FilterMap(s, keep, f) <==> exists x :: x in s && keep(x) && y == f(x)
  {
    if s != [] {
      FilterMapMember(s[1..], keep, f, y);
      if exists x :: x in s && keep(x) && y == f(x) {
        var x :| x in s && keep(x) && y == f(x);
        if x != s[0] {
          assert x in s[1..];
        }
      }
      if keep(s[0]) && y == f(s[0]) {
        assert s[0] in s;
      }
      forall x | x in s[1..] ensures x in s {
      }
    }
  }

  /** Nothing kept, nothing produced. */
  lemma {:induction false} FilterMapNone<T, U>(s: seq<T>, keep: T -> bool, f: T -> U)
    requires forall x :: x in s ==> !keep(x)
    ensures FilterMap(s, keep, f) == []
  {
    if s != [] {
      assert s[0] in s;
      FilterMapNone(s[1..], keep, f);
    }
  }

  /** Everything kept, one value per element. */
  lemma {:induction false} FilterMapAll<T, U>(s: seq<T>, keep: T -> bool, f: T -> U)
    requires forall x :: x in s ==> keep(x)
    ensures |FilterMap(s, keep, f)| == |s|
  {
    if s != [] {
      assert s[0] in s;
      FilterMapAll(s[1..], keep, f);
    }
  }

  /** The file name ends, once lowered, with one of the allowed extensions. */
  predicate IsImageName(name: string, allowed: seq<string>) {
    EndsWithAny(Lower(name), allowed)
  }

  /** `process_images`: the entries of the input folder's listing whose
      lowered name ends with an allowed extension, joined to the folder, in
      listing order. */
  function SelectImages(inputFolder: string, listing: seq<string>, allowed: seq<string>): seq<string> {
    FilterMap(listing, name => IsImageName(name, allowed), name => Join(inputFolder, name))
  }

  /** Selecting from two listings one after the other selects from each in
      turn: the listing order is kept. */
  lemma SelectImagesAppend(inputFolder: string, a: seq<string>, b: seq<string>, allowed: seq<string>)
    ensures SelectImages(inputFolder, a + b, allowed)
         == SelectImages(inputFolder, a, allowed) + SelectImages(inputFolder, b, allowed)
  {
    FilterMapAppend(a, b, name => IsImageName(name, allowed), name => Join(inputFolder, name));
  }

  /** A path is selected iff it is the folder joined with a listed name
      that ends with an allowed extension; at most one path per entry. */
  lemma SelectImagesMember(inputFolder: string, listing: seq<string>, allowed: seq<string>, p: string)
    ensures |SelectImages(inputFolder, listing, allowed)| <= |listing|
    ensures p in SelectImages(inputFolder, listing, allowed)
        <==> exists f :: f in listing && IsImageName(f, allowed) && p == Join(inputFolder, f)
  {
    FilterMapMember(listing, name => IsImageName(name, allowed), name => Join(inputFolder, name), p);
  }

  /** An empty tuple of extensions selects nothing. */
  lemma NoExtensionSelectsNothing(inputFolder: string, listing: seq<string>)
    ensures SelectImages(inputFolder, listing, []) == []
  {
    FilterMapNone(listing, name => IsImageName(name, []), name => Join(inputFolder, name));
  }

  predicate HasCapital(e: string) {
    exists i :: 0 <= i < |e| && IsUpper(e[i])
  }

  /** Extensions written with a capital letter (say ".JPG") never match,
      because only the file name is lowered: with such extensions alone no
      file is selected. */
  lemma CapitalExtensionsSelectNothing(inputFolder: string, listing: seq<string>, allowed: seq<string>)
    requires forall k :: 0 <= k < |allowed| ==> HasCapital(allowed[k])
    ensures SelectImages(inputFolder, listing, allowed) == []
  {
    forall name | name in listing ensures !IsImageName(name, allowed) {
      forall k | 0 <= k < |allowed| ensures !EndsWith(Lower(name), allowed[k]) {
        var i :| 0 <= i < |allowed[k]| && IsUpper(allowed[k][i]);
        UpperSuffixNeverEndsLowered(name, allowed[k], i);
      }
    }
    FilterMapNone(listing, name => IsImageName(name, allowed), name => Join(inputFolder, name));
  }

  /** An empty extension (for instance from a trailing comma in the option)
      matches every file, so every listed entry is selected. */
  lemma EmptyExtensionSelectsAll(inputFolder: string, listing: seq<string>, allowed: seq<string>)
    requires "" in allowed
    ensures |SelectImages(inputFolder, listing, allowed)| == |listing|
  {
    var k :| 0 <= k < |allowed| && allowed[k] == "";
    forall name | name in listing ensures IsImageName(name, allowed) {
      var l := Lower(name);
      assert l[|l|..] == "";
      assert EndsWith(l, allowed[k]);
    }
    FilterMapAll(listing, name => IsImageName(name, allowed), name => Join(inputFolder, name));
  }

  /** A name without capitals that ends with one of the extensions is an
      image name. */
  lemma ImageNameWithExtension(name: string, allowed: seq<string>, k: nat)
    requires k < |allowed| && !HasCapital(name) && EndsWith(name, allowed[k])
    ensures IsImageName(name, allowed)
  {
    var l := Lower(name);
    assert forall i :: 0 <= i < |name| ==> l[i] == name[i];
    assert l == name;
  }

  /** A name whose last character, lowered, ends none of the extensions is
      not an image name. */
  lemma NotImageName(name: string, allowed: seq<string>)
    requires name != []
    requires forall k :: 0 <= k < |allowed| ==>
               allowed[k] != [] && allowed[k][|allowed[k]| - 1] != LowerChar(name[|name| - 1])
    ensures !IsImageName(name, allowed)
  {
    var l := Lower(name);
    forall k | 0 <= k < |allowed| ensures !EndsWith(l, allowed[k]) {
      var e := allowed[k];
      if |e| <= |l| {
        assert l[|l| - |e|..][|e| - 1] == l[|l| - 1];
      }
    }
  }

  /** Two JPEG scans and a text file, with the extensions ".jpg", ".jpeg"
      and ".png": the two scans are selected, in listing order. */
  lemma SelectsTheTwoScans(inputFolder: string)
    ensures SelectImages(inputFolder, ["test1.jpg", "test2.jpg", "not_an_image.txt"], [".jpg", ".jpeg", ".png"])
         == [Join(inputFolder, "test1.jpg"), Join(inputFolder, "test2.jpg")]
  {
    var allowed := [".jpg", ".jpeg", ".png"];
    var listing := ["test1.jpg", "test2.jpg", "not_an_image.txt"];
    assert !HasCapital("test1.jpg") && !HasCapital("test2.jpg");
    assert "test1.jpg"[5..] == allowed[0] == "test2.jpg"[5..];
    ImageNameWithExtension("test1.jpg", allowed, 0);
    ImageNameWithExtension("test2.jpg", allowed, 0);
    NotImageName("not_an_image.txt", allowed);
    FilterMapKeepsTwo(listing, name => IsImageName(name, allowed), name => Join(inputFolder, name));
  }

  /** A three-element comprehension that keeps the first two elements. */
  lemma FilterMapKeepsTwo<T, U>(s: seq<T>, keep: T -> bool, f: T -> U)
    requires |s| == 3 && keep(s[0]) && keep(s[1]) && !keep(s[2])
    ensures FilterMap(s, keep, f) == [f(s[0]), f(s[1])]
  {
    assert s[1..][1..][1..] == [];
    assert FilterMap(s[1..][1..], keep, f) == [];
    assert FilterMap(s[1..], keep, f) == [f(s[1])];
  }

  // ---------------------------------------------------------------------
  // main
  // ---------------------------------------------------------------------

  /** `main()`: parse the options, select the scans of the input folder and
      crop each of them with the parsed settings. `listDir`, `decode` and
      `detect` stand for `os.listdir`, `cv2.imread` and the contour boxes
      OpenCV finds in a scan. `None` when the options do not parse, or when
      the thread pool refuses a worker count below one. */
  function Run<P>(flags: map<string, string>, env: map<string, string>,
                  listDir: string -> seq<string>,
                  decode: string -> Option<seq<seq<P>>>,
                  detect: string -> seq<Box>): (r: Option<seq<Outcome<P>>>)
    ensures r.Some? <==> ParseArgs(flags, env).Some? && ParseArgs(flags, env).value.threads >= 1
  {
    var parsed := ParseArgs(flags, env);
    if parsed.None? then None
    else
      var s := parsed.value;
      var files := SelectImages(s.inputFolder, listDir(s.inputFolder), s.allowedExtensions);
      if s.threads < 1 then None
      else
        Some(seq(|files|, i requires 0 <= i < |files| =>
          Expected(files[i], s.outputFolder, decode(files[i]), detect(files[i]),
                   s.minContourWidth, s.minContourHeight)))
  }

  /** Every selected scan is cropped once, with the parsed output folder and
      minimum sizes: its `k`-th file is `<output_folder>/<stem>_<k>.jpg`, and
      for a readable scan the boxes written are the detected boxes of at
      least the parsed minimum width and height. */
  lemma RunCropsEachScan<P>(flags: map<string, string>, env: map<string, string>,
                            listDir: string -> seq<string>,
                            decode: string -> Option<seq<seq<P>>>,
                            detect: string -> seq<Box>, i: nat, k: nat)
    requires Run(flags, env, listDir, decode, detect).Some?
    ensures var s := ParseArgs(flags, env).value;
            var files := SelectImages(s.inputFolder, listDir(s.inputFolder), s.allowedExtensions);
            var outs := Run(flags, env, listDir, decode, detect).value;
            |outs| == |files| &&
            (i < |files| && k < |Written(outs[i])| ==>
              Written(outs[i])[k].path == Join(s.outputFolder, OutputName(Stem(files[i]), k))) &&
            (i < |files| && decode(files[i]).Some? ==>
              multiset(WrittenBoxes(outs[i]))
              == multiset(Accepted(detect(files[i]), s.minContourWidth, s.minContourHeight)))
  {
    var s := ParseArgs(flags, env).value;
    var files := SelectImages(s.inputFolder, listDir(s.inputFolder), s.allowedExtensions);
    var outs := Run(flags, env, listDir, decode, detect).value;
    if i < |files| && k < |Written(outs[i])| {
      WrittenPath(files[i], s.outputFolder, decode(files[i]), detect(files[i]),
                  s.minContourWidth, s.minContourHeight, k);
    }
    if i < |files| && decode(files[i]).Some? {
      WrittenAreAccepted(files[i], s.outputFolder, decode(files[i]).value, detect(files[i]),
                         s.minContourWidth, s.minContourHeight, Box(0, 0, 0, 0));
    }
  }

  /** A worker count below one gives no run at all. */
  lemma NoWorkersNoRun<P>(flags: map<string, string>, env: map<string, string>,
                          listDir: string -> seq<string>,
                          decode: string -> Option<seq<seq<P>>>,
                          detect: string -> seq<Box>)
    requires ParseArgs(flags, env).Some? && ParseArgs(flags, env).value.threads < 1
    ensures Run(flags, env, listDir, decode, detect).None?
  {
  }

  /** Scans with different stems never write to the same path, whatever
      their indices: the files of one scan cannot overwrite those of
      another. */
  lemma DifferentStemsDoNotCollide(outputFolder: string, stem1: string, i: nat, stem2: string, j: nat)
    requires '/' !in stem1 && '/' !in stem2
    requires stem1 != stem2 || i != j
    ensures Join(outputFolder, OutputName(stem1, i)) != Join(outputFolder, OutputName(stem2, j))
  {
    var a, b := OutputName(stem1, i), OutputName(stem2, j);
    OutputNameDecodes(stem1, i, stem2, j);
    assert a[0] != '/' by {
      if stem1 != [] { assert a[0] == stem1[0]; }
    }
    assert b[0] != '/' by {
      if stem2 != [] { assert b[0] == stem2[0]; }
    }
    JoinInjective(outputFolder, a, b);
  }
}
