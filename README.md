# midi-animation: threshold mask, image listing and CLI dispatch

This project models three pieces of midi-animation. The
program turns an image or a video into a MIDI file that shows the picture
when viewed as a piano roll. The modelled pieces are:

- `get_filter` in `utilities.py`. It turns a decoded H×W×C pixel array into
  an H×W boolean mask. A pixel is on when the smallest of its first three
  channels is strictly below the threshold.
- The name filter of `load_images` in `utilities.py`. It walks a directory
  listing and opens, in listing order, every file whose lowercased name ends
  with an image extension.
- The `__main__` block of `convert.py`. From `sys.argv` it decides whether to
  print usage, call the image converter, call the video converter, or reject
  the file type.

Modules:

- `Text` (`text.dfy`): the Python string methods the code uses: `str.lower`,
  `str.endswith` and `str.rfind`.
- `OsPath` (`os_path.dfy`): POSIX `os.path.splitext` and two-argument
  `os.path.join`.
- `Utilities` (`utilities.dfy`): `get_filter` as functions over
  `seq<seq<seq<int>>>`, and `load_images` as a method with a loop.
  `os.listdir(directory)` is an input sequence. `Image.open` is a function
  parameter `open: string -> T`.
- `Convert` (`convert.dfy`): the dispatch as a function from `argv` to an
  `Action`. An `Action` is `Usage`, `Convert(converter, input, output)` or
  `Unsupported(ext)`. The printed lines and the exit status are functions of
  the `Action`.

Two properties of `get_filter` are easy to get wrong:

- `get_filter` does not reject pixels with fewer than three channels.
  `M[:,:,0:3]` keeps all channels of a one- or two-channel pixel, and the
  minimum is taken over the channels that exist (utilities.py:18). So the
  model accepts any pixel with at least one channel.
- `get_filter` has no inversion option: a pixel is on only when it is darker
  than the threshold (utilities.py:19).

The code has two name tests that do not agree. `load_images` tests the
suffix of the lowercased name. `convert.py` uses `os.path.splitext`, which
finds no extension in a dot-file. So `.png` is an image name for
`load_images` but unsupported for `convert.py` (`Convert.DotFileIsImageName`,
`Convert.DotFileUnsupported`). In the other direction, every path that
`convert.py` sends to the image converter passes the `load_images` test
(`Convert.ImageExtensionIsImageName`).

## Model

| member | source | states |
|---|---|---|
| `Utilities.GetFilter` | utilities.py:16-20 | the mask has the image's height and each row its width; a cell is on iff one of the pixel's first min(C,3) channels is strictly below the threshold |
| `Utilities.Rgb` | utilities.py:18 | the channels `0:3` keeps: the first min(C,3) channels of the pixel, unchanged |
| `Utilities.MinRgb` | utilities.py:18 | the darkest kept channel: equal to one of the kept channels and no larger than any of them |
| `Utilities.SeqMin` | utilities.py:18 | `np.min` along an axis: the result is an element of the sequence and no larger than any element |
| `Utilities.MinRgbBelow` | utilities.py:18-19 | the minimum of the kept channels is below the threshold iff some kept channel is |
| `Utilities.CellIsMinBelowThreshold` | utilities.py:18-19 | cell (r,c) is on iff min(M[r][c][0:3]) < threshold |
| `Utilities.StrictAtThreshold` | utilities.py:19 | a pixel whose minimum kept channel equals the threshold is off |
| `Utilities.AlphaIgnored` | utilities.py:18 | images whose pixels agree on their first three channels give the same mask, whatever their other channels or channel counts |
| `Utilities.CellDependsOnPixelOnly` | utilities.py:18-19 | a cell depends only on the pixel at the same position |
| `Utilities.MonotoneInThreshold` | utilities.py:19 | if t1 ≤ t2, every cell on under t1 is on under t2 |
| `Utilities.ZeroThresholdAllOff` | utilities.py:19 | on an image with non-negative values, threshold 0 gives an all-off mask |
| `Utilities.HighThresholdAllOn` | utilities.py:19 | on an 8-bit image, a threshold above 255 gives an all-on mask |
| `Utilities.ImageNamesAppend` | utilities.py:9-13 | filtering a concatenated listing filters each part in turn, so the listing order is kept |
| `Utilities.IsImageName` | utilities.py:10 | a name that passes the lowercased suffix test has at least four characters and contains a '.' |
| `Utilities.ImageNames` | utilities.py:9-13 | the kept names are no more than the listed ones, and every kept name passes the suffix test |
| `Utilities.ImageNamesMembership` | utilities.py:9-10 | a name is kept iff it is listed and its lowercased form ends with .png, .jpg, .jpeg, .bmp or .gif |
| `Utilities.ImageNamesMultiplicity` | utilities.py:9-13 | an image name is kept exactly as often as it is listed; any other name, never |
| `Utilities.LoadImages` | utilities.py:7-14 | returns, in listing order, one opened image per kept name, opened at `os.path.join(directory, name)` |
| `Utilities.OpenAll` | utilities.py:11-13 | opening a list of names gives one image per name, in the same order, each opened at `os.path.join(directory, name)` |
| `Text.LastIndexOfToLower` | convert.py:22 | lowering a path moves no '.' and no '/' |
| `Text.LowerChar` | utilities.py:10 | `str.lower` on one character: an ASCII capital becomes the matching small letter; every other character is unchanged; no capital remains |
| `Text.ToLower` | convert.py:22 | ASCII `str.lower`: keeps the length and lowers each character in place |
| `Text.EndsWith` | utilities.py:10 | `str.endswith`: the suffix is no longer than the text and matches its last characters one by one |
| `Text.LastIndexOf` | convert.py:22 | `str.rfind` of one character: -1 or an index holding that character, with no occurrence after it |
| `OsPath.SplitExt` | convert.py:22 | `splitext`: root + ext is the path; a non-empty ext starts at the last '.' and holds no other '.' and no '/' |
| `OsPath.ExtNonEmptyIff` | convert.py:22 | a path has an extension iff, after its last '/', some character other than '.' is followed later by a '.' |
| `OsPath.Ext` | convert.py:22 | the extension is a suffix of the path, and when non-empty it starts with the last '.' |
| `OsPath.NoDotNoExt` | convert.py:22 | a path with no '.' has an empty extension |
| `OsPath.ExtToLower` | convert.py:22 | taking the extension commutes with lowering the path |
| `OsPath.Join` | utilities.py:11 | `os.path.join(a, b)` is b when b is absolute; otherwise it starts with a and ends with b, and holds exactly one '/' between them unless a is empty or already ends with '/' |
| `Convert.ExtensionSetsDisjoint` | convert.py:23-24 | no extension is both an image and a video extension |
| `Convert.InputExtension` | convert.py:22 | the lowered extension is a suffix of the lowered path, is empty iff splitext finds none, otherwise starts at the path's last '.', and holds no capital letter |
| `Convert.LongMode` | convert.py:19 | long_mode is set iff `--long` occurs at some position of argv |
| `Convert.Classify` | convert.py:23-32 | an extension selects the image converter iff it is an image extension, the video converter iff it is a video extension, and none iff it is in neither set |
| `Convert.Decide` | convert.py:17-35 | with both paths given the script never shows usage; a conversion passes both paths through with the converter the extension selects; a rejection names the extension, which is in neither set |
| `Convert.Dispatch` | convert.py:12-35 | usage iff argv has fewer than 3 entries; a conversion receives argv[1] and argv[2] unchanged; a rejection names the lowered extension of argv[1] |
| `Convert.ConverterChoice` | convert.py:23-31 | the image converter runs iff the lowered extension is an image extension; the video converter runs iff it is a video extension |
| `Convert.UnsupportedIff` | convert.py:32-35 | the unsupported path is taken iff the lowered extension is in neither set; it reports that extension and exits with 1 |
| `Convert.NoExtensionUnsupported` | convert.py:22-35 | a path with no extension (no dot in its base name, or a dot-file such as `.png`) is unsupported with the empty extension |
| `Convert.InputExtensionCaseInsensitive` | convert.py:22 | input paths that lower to the same text have the same lowered extension, so `.PNG` and `.png` dispatch alike |
| `Convert.CaseInsensitive` | convert.py:22 | replacing the input path by one that lowers to the same text changes only the input argument passed on |
| `Convert.TrailingArgumentsIgnored` | convert.py:17-19 | arguments after argv[2] never change the action |
| `Convert.LongFlagNeverSteers` | convert.py:19 | `--long` after the output path sets long_mode and leaves the action unchanged |
| `Convert.ClipExtension` | convert.py:22 | the extension of `clip.mp4` is `.mp4` |
| `Convert.LongFlagAsOutputPath` | convert.py:13-19 | with only two arguments after the script, `--long` becomes the output path |
| `Convert.Printed` | convert.py:5-34 | usage prints exactly the usage text; an unsupported extension prints "Unsupported file type: " and the extension, then the usage text; a conversion prints one line that names the image or video kind and both paths |
| `Convert.ExitStatus` | convert.py:13-35 | exit status 0 iff a converter was called, otherwise 1 |
| `Convert.SuffixIndex` | convert.py:23 | every member of `image_exts` is one of the suffixes `load_images` accepts |
| `Convert.ImageExtensionIsImageName` | convert.py:22-27 | every input that `convert.py` sends to the image converter passes the `load_images` name test |
| `Convert.DotFileIsImageName` | utilities.py:10 | `.png` passes the `load_images` name test |
| `Convert.DotFileUnsupported` | convert.py:22-35 | `convert.py .png out.mid` is rejected with the empty extension |

## Left out

- `image_to_midi` and `video_to_midi` are imported by every caller but are not defined in `utilities.py`. So band segmentation, the column majority vote, note emission, frame compositing and the horizontal-resolution file are not part of this model. The converters appear only as the `Converter` that an `Action` names. With `utilities.py` as it stands, `from utilities import image_to_midi, video_to_midi` (convert.py:3) raises `ImportError` before line 13 runs. `Convert.Dispatch` models the script as if that import succeeds.
- `streamlit_app.py` (web UI, temporary files, the floating-point 60-second duration check), `scroll.py` (mouse control and sleeping) and `conversion.py` (a one-line call) are I/O and UI. They are not modelled.
- PIL decoding and `np.array(image)` are out of scope. The image is given as a rectangular integer grid whose pixels all have the same channel count, at least one. 2-D (grayscale or palette) arrays make `M[:,:,0:3]` raise, so they are outside the precondition.
- Pixel values are unbounded integers. The mask compares them with the threshold exactly, treating `G < threshold` as an exact comparison. The 0-threshold lemma assumes only non-negative values, and the high-threshold lemma assumes 8-bit values.
- `os.listdir` is an input sequence, so its order is arbitrary. `Image.open` is a total function parameter. `Utilities.LoadImages` does not model a file that fails to open: `Image.open` raising is not represented.
- `Text.LowerChar` lowers only ASCII `A`–`Z`. Python's Unicode lowering of other characters is not modelled, for example the Kelvin sign, which lowers to `k`. Python can also change a string's length when lowering: 'İ' (U+0130) becomes two characters. `Text.ToLower` always keeps the length.
- `OsPath.SplitExt` and `OsPath.Join` follow POSIX `posixpath`. Windows `ntpath`, with backslashes and drive letters, is not modelled.
- `print` and `sys.exit` are not effects here. They are the values `Convert.Printed` and `Convert.ExitStatus`. A converter that raises, which would leave the confirmation line unprinted, is not modelled.
- `long_mode` is computed by the program and never read again. It is modelled as `Convert.LongMode`, and lemmas show that it never influences `Convert.Dispatch`.
