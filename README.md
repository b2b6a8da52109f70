# Video splitter and resizer — verified model of the planning core

The program takes a long `.mp4` file, cuts it into five-minute parts with
`ffmpeg` (stream copy), extracts an MP3 of each part, and then writes a
centred 9:16 vertical crop of each part. This project models, in Dafny, the
logic of that pipeline that is not external I/O:

- **Segment planning** (`split_video`): a probed duration `d` becomes
  `PartCount(d)`, i.e. `max(0, ceil(d/300))`, windows; window `i` runs from `i*300` to
  `min((i+1)*300, d)`. `Segmenter.SplitVideo` is the loop itself, building
  the ordered list of part paths and, as data, the ordered list of transcoder
  invocations (cut, then audio extraction, per part).
- **File naming**: `part{i+1}.mp4` under the split directory and
  `audio{i+1}.mp3` under its `mp3s` sub-directory; `os.path.join`,
  `os.path.basename` and `os.path.splitext` are modelled on strings with `/`
  as the separator (module `PosixPath`), and `str` of an integer by module
  `DecimalText`.
- **Crop geometry** (`crop_video`): crop width `h*9/16`, box
  `x1 = (w - cw) // 2`, `x2 = (w + cw) // 2`, `y1 = 0`, `y2 = h`, and the
  output name `<basename without extension>-resized.mp4` under the resized
  directory, which the model takes as a parameter instead of reading the
  module-level `resized_dir`.

Files: `posix_path.dfy`, `decimal_text.dfy`, `segmenter.dfy`, `cropper.dfy`.

The crop coordinates are floored (`//`): a 1920x1080 frame gives `x1 = 656`,
`x2 = 1263`. A frame narrower than 9:16 is not rejected; the box then leaves
the frame (`Cropper.NarrowFrameOverflows`).

## Model

| member | source | states |
|---|---|---|
| Segmenter.Ceil | SplitAndResize.py:11 | `math.ceil`: the result is the least integer at or above its argument |
| Segmenter.PartCount | SplitAndResize.py:11 | the number of parts is zero for a non-positive duration, otherwise the least `n` with `(n-1)*300 < d <= n*300` |
| Segmenter.SegmentWindow | SplitAndResize.py:20-21 | a window ends no later than the duration and lasts at most 300 s, and it is non-empty whenever it starts before the duration |
| Segmenter.Windows | SplitAndResize.py:19-21 | there is one window per part, `PartCount(d)`, i.e. `max(0, ceil(d/300))`, of them |
| Segmenter.WindowsPartition | SplitAndResize.py:19-21 | the windows start at 0, each ends where the next starts, each is non-empty, at most 300 s long and ends at or before `d`, and for `d > 0` the last ends exactly at `d`; `d <= 0` gives no windows |
| Segmenter.SplitVideo | SplitAndResize.py:9-53 | returns exactly `PartCount(d)`, i.e. `max(0, ceil(d/300))`, paths, the `i`-th being `output_dir` joined with `part{i+1}.mp4`; issues per part, in order, a stream-copy cut of that part's window into its path and then an MP3 extraction from that path into `mp3s/audio{i+1}.mp3`, and nothing else |
| Segmenter.PartFileName | SplitAndResize.py:23 | the part's file name is a plain name with no separator (its index reads back by `SegmentFileNames`) |
| Segmenter.AudioFileName | SplitAndResize.py:27 | the audio file name is a plain name with no separator (its index reads back by `SegmentFileNames`) |
| Segmenter.SegmentDirectories | SplitAndResize.py:16-29 | a part's video sits directly under the output directory and its audio under the output directory's `mp3s` sub-directory |
| Segmenter.SegmentFileNames | SplitAndResize.py:23-29 | the base names are `part{i+1}.mp4` and `audio{i+1}.mp3`, and reading the index back from either name gives the same segment `i` |
| Segmenter.SegmentOfIndexedName | SplitAndResize.py:23-27 | the 1-based number written into a file name reads back as the segment index it came from |
| Segmenter.PathsDistinct | SplitAndResize.py:23-29 | different segments never write the same video or the same audio file |
| Segmenter.Example650 | SplitAndResize.py:19-21 | a 650 s input yields the windows [0,300], [300,600], [600,650] |
| Segmenter.Example600 | SplitAndResize.py:11-27 | a 600 s input yields two parts named `part1.mp4`, `part2.mp4` with audio `audio1.mp3`, `audio2.mp3` |
| DecimalText.NatToString | SplitAndResize.py:23 | `str(i+1)` is a non-empty run of digits that starts with `0` exactly when the number is 0 |
| DecimalText.ParseNatToString | SplitAndResize.py:23 | the decimal text written into a name reads back as the same number |
| DecimalText.NatToStringInjective | SplitAndResize.py:23 | different part numbers have different decimal texts |
| DecimalText.DecimalHasNoSeparators | SplitAndResize.py:23 | a part number never contains `/` or `.`, so it cannot change how a name is split |
| PosixPath.RFind | SplitAndResize.py:68 | the last occurrence of a character, or -1 when there is none (the search `basename` and `splitext` rely on) |
| PosixPath.DirPrefix | SplitAndResize.py:24 | what `os.path.join` puts in front of a relative name is empty or ends in a separator |
| PosixPath.JoinRelative | SplitAndResize.py:24 | `os.path.join` of a directory and a relative name is the directory, then one separator unless the directory is empty or already ends in one, then the name |
| PosixPath.JoinInjective | SplitAndResize.py:24 | under one directory, different relative names give different joined paths |
| PosixPath.Basename | SplitAndResize.py:68 | the basename is the longest separator-free suffix of the path |
| PosixPath.BasenameOfJoin | SplitAndResize.py:68-69 | the basename of a directory joined with a separator-free name is that name |
| PosixPath.ExtIndex | SplitAndResize.py:68 | there is a split point exactly when the final component holds a dot preceded somewhere in that component by a non-dot character; the split point is then the last dot, with no dot or separator after it |
| PosixPath.SplitExt | SplitAndResize.py:68 | root and extension concatenate to the path; the extension is non-empty exactly when the final component has a dot preceded in it by a non-dot character, and it is then a dot followed by text with no dot or separator |
| PosixPath.SplitCondition | SplitAndResize.py:68 | `splitext`'s test (the last dot follows the last separator and some non-dot character lies between them) holds exactly when the final component has an extension |
| PosixPath.SplitExtAfterLeadingDots | SplitAndResize.py:68 | leading dots do not hide a later extension: `..a.b` splits into `..a` and `.b` |
| PosixPath.SplitExtHiddenFile | SplitAndResize.py:68 | a component whose only dot is its first character has no extension: `d/.profile` stays whole |
| PosixPath.StripExt | SplitAndResize.py:68 | `splitext(p)[0]` is a prefix of `p`, strictly shorter exactly when `p` has an extension |
| PosixPath.SplitExtOfJoin | SplitAndResize.py:68 | splitting `dir/stem.ext` gives `dir/stem` and `.ext` |
| Cropper.CropWidth | SplitAndResize.py:64 | the crop width is 9/16 of the frame height |
| Cropper.CropBoxFor | SplitAndResize.py:65-66 | the box spans the full height, `x1 <= x2`, and the right margin equals the left one or exceeds it by one pixel |
| Cropper.CropBoxCentred | SplitAndResize.py:63-66 | the box spans the full height, `x1 <= x2`, the right margin equals the left one or exceeds it by one pixel, and the box width is within one pixel of `h*9/16` |
| Cropper.CropBoxInFrame | SplitAndResize.py:63-66 | the box lies within the frame (`0 <= x1` and `x2 <= w`) if and only if `16 w >= 9 h` |
| Cropper.NarrowFrameOverflows | SplitAndResize.py:64-65 | for a frame narrower than 9:16, `x1` is negative and `x2` reaches at least `w` |
| Cropper.Example1920x1080 | SplitAndResize.py:63-66 | a 1920x1080 frame gives crop width 607.5 and the box (656, 0, 1263, 1080) |
| Cropper.ResizedFileName | SplitAndResize.py:68 | the resized file name is a plain name with no separator ending in `-resized.mp4` |
| Cropper.ResizedFilePathShape | SplitAndResize.py:68-69 | the resized file sits directly under the resized directory and its basename is the input's base name without extension plus `-resized.mp4` |
| Cropper.CropVideo | SplitAndResize.py:61-71 | the crop job's box is full height, centred to within one pixel, within one pixel of the 9:16 width `h*9/16`, and inside the frame exactly when `16 w >= 9 h`; the output path is the resized directory's join prefix followed by the resized file name, which is also its basename |
| Cropper.ResizedNameOfPart | SplitAndResize.py:68-69 | part `i`'s resized output is `part{i+1}-resized.mp4` under the resized directory |
| Cropper.ResizedPathsDistinct | SplitAndResize.py:68-69 | the crop jobs of different parts never write the same output file |

## Left out

- Running `ffmpeg` and `ffprobe` (SplitAndResize.py:31-51, 55-59): the invocations are values of `Segmenter.Invocation`, not processes; their exit status, which the program ignores, is not modelled.
- The text of the command lines: `str(start_time)` and `str(end_time)` are float formatting, so the model keeps the times as numbers inside the invocation.
- `get_video_duration` parsing `ffprobe` output with `float(...)`: the duration is an exact `real` parameter of `SplitVideo`; NaN and infinite durations (for which `math.ceil` raises) are not representable.
- IEEE floating point: `duration / 300`, `h * 9 / 16` and the float `//` are computed exactly over `real`; rounding of very large values is not modelled.
- `os.makedirs` (SplitAndResize.py:13, 17, 85): directory creation is filesystem I/O.
- The console line printed for each part (SplitAndResize.py:28).
- Opening, cropping, encoding and closing the clip with moviepy (SplitAndResize.py:62, 67, 70-71): the frame size `(w, h)` is a parameter of `CropVideo`; only the geometry and the output path are modelled.
- The one-argument `os.path.join` on SplitAndResize.py:68 returns its argument unchanged and is omitted.
- The `__main__` block (SplitAndResize.py:73-95): the Tk file dialog, the derivation of the `split` and `Resized` directories from the input's directory, the thread pool and the printing of per-job errors. `crop_video`'s `resized_dir` is an explicit parameter instead.
- Paths are POSIX paths with `/` as the only separator; Windows path rules are not modelled.
- PosixPath.Join, Segmenter.PartPath, Segmenter.AudioPath and Cropper.ResizedFilePath carry no `ensures` of their own, to keep the proof of `SplitVideo` small; what they compute is stated by `PosixPath.JoinRelative`, `Segmenter.SegmentDirectories`, `Segmenter.SegmentFileNames` and `Cropper.ResizedFilePathShape`.
