/** `convert.py`: the command-line dispatch that decides, from `sys.argv`,
    whether to print usage, convert an image, convert a video or reject the
    input's file type. Printing, exiting and the converters themselves are
    effects of the source; here they are the parts of an `Action` value. */
module Convert {
  import opened Text
  import opened OsPath
  import Utilities

  /** The extensions that select `image_to_midi`. */
  const ImageExts: set<string> := {".png", ".jpg", ".jpeg", ".bmp", ".gif"}
  /** The extensions that select `video_to_midi`. */
  const VideoExts: set<string> := {".mp4", ".mov", ".avi", ".mkv", ".webm"}
  /** The optional flag whose presence sets `long_mode`. */
  const LongFlag: string := "--long"

  /** The text `print_usage` writes, one string per line. */
  const UsageLines: seq<string> := [
    "Usage:",
    "  python convert.py <input_file> <output_midi> [--long]",
    "    <input_file>: Path to image or video file",
    "    <output_midi>: Path to output MIDI file",
    "    --long: (optional) For images, output a long MIDI reel (horizontal scroll)"
  ]

  datatype Converter = ImageToMidi | VideoToMidi

  datatype Option<T> = None | Some(value: T)

  /** What one run of the script does. */
  datatype Action =
    | Usage                                                       // too few arguments
    | Convert(converter: Converter, input: string, output: string) // one converter call
    | Unsupported(ext: string)                                    // unknown extension

  /** The input file's extension, lowered: the text from the last '.' of
      its base name on, or empty when it has none. */
  function InputExtension(inputFile: string): (e: string)
    ensures EndsWith(ToLower(inputFile), e)
    ensures e == [] <==> Ext(inputFile) == []
    ensures e != [] ==> e[0] == '.' && |inputFile| - |e| == LastIndexOf(inputFile, '.')
    ensures forall k :: 0 <= k < |e| ==> !('A' <= e[k] <= 'Z')
  {
    var x := Ext(inputFile);
    LoweredSuffix(inputFile, x);
    ToLower(x)
  }

  /** Lowering a suffix of `p` gives a suffix of the lowered `p` of the same
      length, empty exactly when the suffix is, with no capital letter, and
      starting with '.' when the suffix does. */
  lemma LoweredSuffix(p: string, x: string)
    requires EndsWith(p, x)
    ensures EndsWith(ToLower(p), ToLower(x))
    ensures |ToLower(x)| == |x|
    ensures x != [] && x[0] == '.' ==> ToLower(x)[0] == '.'
    ensures forall k :: 0 <= k < |x| ==> !('A' <= ToLower(x)[k] <= 'Z')
  {
    var d := |p| - |x|;
    assert p[d..] == x;
    ToLowerSuffix(p, d);
    EndsWithTail(ToLower(p), d);
  }

  /** Whether the long-reel flag occurs at any position of the argument
      list, the script name and both paths included. The source computes
      this and never reads it. */
  function LongMode(argv: seq<string>): (b: bool)
    ensures b <==> exists i :: 0 <= i < |argv| && argv[i] == LongFlag
  {
    LongFlag in argv
  }

  /** The converter, if any, that an extension selects: the image set is
      tested first, then the video set. */
  function Classify(ext: string): (c: Option<Converter>)
    ensures c == Some(ImageToMidi) <==> ext in ImageExts
    ensures c == Some(VideoToMidi) <==> ext in VideoExts
    ensures c == None <==> ext !in ImageExts + VideoExts
  {
    ExtensionSetsDisjoint();
    if ext in ImageExts then Some(ImageToMidi)
    else if ext in VideoExts then Some(VideoToMidi)
    else None
  }

  /** The decision once both paths are known: convert with the converter the
      lowered extension selects, or reject that extension. */
  function Decide(inputFile: string, outputFile: string): (a: Action)
    ensures a != Usage
    ensures a.Convert? ==> (a.input == inputFile && a.output == outputFile &&
      Classify(InputExtension(inputFile)) == Some(a.converter))
    ensures a.Unsupported? ==> (a.ext == InputExtension(inputFile) &&
      a.ext !in ImageExts + VideoExts)
  {
    var ext := InputExtension(inputFile);
    match Classify(ext)
    case Some(converter) => Convert(converter, inputFile, outputFile)
    case None => Unsupported(ext)
  }

  /** The `__main__` block's decision: usage when fewer than three arguments
      are given (script name, input, output), otherwise a conversion of
      `argv[1]` into `argv[2]` or a rejection of the input's extension. */
  function Dispatch(argv: seq<string>): (a: Action)
    ensures a == Usage <==> |argv| < 3
    ensures a.Convert? ==> a.input == argv[1] && a.output == argv[2]
    ensures a.Unsupported? ==> a.ext == InputExtension(argv[1])
  {
    if |argv| < 3 then Usage else Decide(argv[1], argv[2])
  }

  /** The lines the script prints for an action. A conversion prints its
      confirmation after the converter returns, naming the kind of input and
      both paths; the usage path prints the usage text alone; an unsupported
      extension is named on one line before the usage text. */
  function Printed(a: Action): (lines: seq<string>)
    ensures a == Usage ==> lines == UsageLines
    ensures a.Unsupported? ==>
      lines == ["Unsupported file type: " + a.ext] + UsageLines
    ensures a.Convert? ==> |lines| == 1
    ensures a.Convert? && a.converter == ImageToMidi ==>
      lines[0] == "Converted image '" + a.input + "' to MIDI '" + a.output + "'"
    ensures a.Convert? && a.converter == VideoToMidi ==>
      lines[0] == "Converted video '" + a.input + "' to MIDI '" + a.output + "'"
  {
    match a
    case Usage => UsageLines
    case Convert(ImageToMidi, i, o) => ["Converted image '" + i + "' to MIDI '" + o + "'"]
    case Convert(VideoToMidi, i, o) => ["Converted video '" + i + "' to MIDI '" + o + "'"]
    case Unsupported(ext) => ["Unsupported file type: " + ext] + UsageLines
  }

  /** The process exit status: `sys.exit(1)` on both failure paths, 0 when a
      conversion returns normally. */
  function ExitStatus(a: Action): (code: int)
    ensures code == 0 <==> a.Convert?
    ensures code == 0 || code == 1
  {
    if a.Convert? then 0 else 1
  }

  /** The two extension sets share no member. */
  lemma ExtensionSetsDisjoint()
    ensures ImageExts * VideoExts == {}
  {
  }

  /** The image converter runs exactly for an image extension, the video
      converter exactly for a video extension; since no extension is both,
      at most one of them runs. */
  lemma ConverterChoice(argv: seq<string>)
    ensures Dispatch(argv).Convert? && Dispatch(argv).converter == ImageToMidi <==>
      |argv| >= 3 && InputExtension(argv[1]) in ImageExts
    ensures Dispatch(argv).Convert? && Dispatch(argv).converter == VideoToMidi <==>
      |argv| >= 3 && InputExtension(argv[1]) in VideoExts
  {
    ExtensionSetsDisjoint();
  }

  /** Any other extension, the empty one included, is rejected with exit
      status 1. */
  lemma UnsupportedIff(argv: seq<string>)
    ensures Dispatch(argv).Unsupported? <==>
      |argv| >= 3 && InputExtension(argv[1]) !in ImageExts + VideoExts
    ensures Dispatch(argv).Unsupported? ==>
      Dispatch(argv).ext == InputExtension(argv[1]) && ExitStatus(Dispatch(argv)) == 1
  {
  }

  /** A path with no extension (no '.' in its base name, or only leading
      dots before the last one, as in ".png") is unsupported. */
  lemma NoExtensionUnsupported(argv: seq<string>)
    requires |argv| >= 3 && !DotAfterStem(argv[1])
    ensures Dispatch(argv) == Unsupported("")
  {
    ExtNonEmptyIff(argv[1]);
  }

  /** Paths that lower to the same text have the same lowered extension. */
  lemma InputExtensionCaseInsensitive(p: string, q: string)
    requires ToLower(p) == ToLower(q)
    ensures InputExtension(p) == InputExtension(q)
  {
    ExtToLower(p);
    ExtToLower(q);
  }

  /** Extension matching ignores case: changing the input path to one that
      lowers to the same text changes the input argument and nothing else. */
  lemma CaseInsensitive(argv: seq<string>, p: string)
    requires |argv| >= 3 && ToLower(p) == ToLower(argv[1])
    ensures Dispatch(argv).Convert? ==> Dispatch(argv[1 := p]) == Dispatch(argv).(input := p)
    ensures !Dispatch(argv).Convert? ==> Dispatch(argv[1 := p]) == Dispatch(argv)
  {
    var q := argv[1 := p];
    assert Dispatch(q) == Decide(p, argv[2]);
    InputExtensionCaseInsensitive(p, argv[1]);
  }

  /** Arguments after the output path, `--long` among them, never change the
      decision or the converter's arguments. */
  lemma TrailingArgumentsIgnored(argv: seq<string>, extra: seq<string>)
    requires |argv| >= 3
    ensures Dispatch(argv + extra) == Dispatch(argv)
  {
    assert (argv + extra)[1] == argv[1] && (argv + extra)[2] == argv[2];
  }

  /** Putting `--long` anywhere after the output path sets `long_mode` and
      leaves the decision as it was. */
  lemma LongFlagNeverSteers(argv: seq<string>, i: nat)
    requires 3 <= i < |argv|
    ensures LongMode(argv[i := LongFlag])
    ensures Dispatch(argv[i := LongFlag]) == Dispatch(argv)
  {
    assert argv[i := LongFlag][i] == LongFlag;
  }

  /** The extension of "clip.mp4" is ".mp4". */
  lemma ClipExtension()
    ensures InputExtension("clip.mp4") == ".mp4"
  {
    var p := "clip.mp4";
    assert forall j :: 0 <= j < |p| ==> p[j] != '/';
    LastIndexOfIs(p, '.', 4);
    assert HasNonDot(p, 0, 4) by { assert p[0] != '.'; }
    assert Ext(p) == ".mp4";
    assert ToLower(".mp4") == ".mp4";
  }

  /** With only two arguments, `--long` is taken as the output path. */
  lemma LongFlagAsOutputPath()
    ensures var argv := ["convert.py", "clip.mp4", LongFlag];
      LongMode(argv) && Dispatch(argv) == Convert(VideoToMidi, "clip.mp4", LongFlag)
  {
    var argv := ["convert.py", "clip.mp4", LongFlag];
    ClipExtension();
    assert argv[2] == LongFlag;
    assert Classify(".mp4") == Some(VideoToMidi);
    assert Dispatch(argv) == Decide("clip.mp4", LongFlag);
  }

  /** Every extension that makes `convert.py` call the image converter also
      passes `load_images`' name test. */
  lemma ImageExtensionIsImageName(p: string)
    requires InputExtension(p) in ImageExts
    ensures Utilities.IsImageName(p)
  {
    var i := SuffixIndex(InputExtension(p));
    assert EndsWith(ToLower(p), Utilities.ImageSuffixes[i]);
  }

  /** Where an image extension stands in `load_images`' suffix list: both
      name the same five extensions. */
  function SuffixIndex(x: string): (i: nat)
    requires x in ImageExts
    ensures i < |Utilities.ImageSuffixes| && Utilities.ImageSuffixes[i] == x
  {
    if x == ".png" then 0 else if x == ".jpg" then 1 else if x == ".jpeg" then 2
    else if x == ".bmp" then 3 else 4
  }

  /** The converse fails. A dot-file named ".png" passes `load_images`' name
      test ... */
  lemma DotFileIsImageName()
    ensures Utilities.IsImageName(".png")
  {
    var p := ".png";
    assert ToLower(p) == p;
    assert EndsWith(ToLower(p), Utilities.ImageSuffixes[0]);
  }

  /** ... but `convert.py` finds no extension in it and rejects it. */
  lemma DotFileUnsupported()
    ensures Dispatch(["convert.py", ".png", "out.mid"]) == Unsupported("")
  {
    var p := ".png";
    assert forall j :: 0 <= j < |p| ==> p[j] != '/';
    LastIndexOfIs(p, '.', 0);
    assert !HasNonDot(p, 0, 0);
    assert Ext(p) == [];
    assert InputExtension(p) == [];
  }
}
