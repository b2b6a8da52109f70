/** The planning part of `split_video`: how a video of a given duration is cut
    into five-minute windows, what each window's files are called, and the
    ordered list of transcoder invocations the loop issues. */
module Segmenter {
  import opened PosixPath
  import opened DecimalText

  /** Length of one segment in seconds. */
  const SegmentSeconds: int := 300

  /** Sub-directory of the split directory that receives the audio files. */
  const AudioSubdir: string := "mp3s"

  function Min(a: real, b: real): real {
    if a <= b then a else b
  }

  /** `math.ceil`: the least integer not below `x`. */
  function Ceil(x: real): (c: int)
    ensures x <= c as real < x + 1.0
  {
    -((-x).Floor)
  }

  /** The number of iterations of `for i in range(math.ceil(duration / 300))`:
      the least number of 300-second windows covering the duration, and none
      for a duration that is not positive. */
  function PartCount(duration: real): (n: nat)
    ensures duration <= 0.0 ==> n == 0
    ensures duration > 0.0 ==> (n - 1) as real * 300.0 < duration <= n as real * 300.0
  {
    var k := Ceil(duration / SegmentSeconds as real);
    if k > 0 then k else 0
  }

  /** One cut, from `start` to `end` seconds. */
  datatype Window = Window(start: real, end: real)

  /** The window of segment `i`: from `i*300` to `(i+1)*300`, clamped to the
      duration. */
  function SegmentWindow(i: nat, duration: real): (w: Window)
    ensures w.end <= duration && w.end - w.start <= 300.0
    ensures w.start < duration ==> w.start < w.end
  {
    Window((i * SegmentSeconds) as real, Min(((i + 1) * SegmentSeconds) as real, duration))
  }

  /** All windows of a duration, in order. */
  function Windows(duration: real): (ws: seq<Window>)
    ensures |ws| == PartCount(duration)
  {
    seq(PartCount(duration), (i: int) requires 0 <= i => SegmentWindow(i, duration))
  }

  /** The windows partition `[0, duration]`: the first starts at 0, each ends
      where the next starts, none is empty or longer than 300 seconds or
      reaches past the duration, and the last ends exactly at the duration. */
  lemma WindowsPartition(duration: real)
    ensures duration <= 0.0 ==> Windows(duration) == []
    ensures duration > 0.0 ==> |Windows(duration)| > 0 && Windows(duration)[0].start == 0.0
    ensures duration > 0.0 ==> Windows(duration)[|Windows(duration)| - 1].end == duration
    ensures forall i :: 0 <= i < |Windows(duration)| - 1 ==>
              Windows(duration)[i].end == Windows(duration)[i + 1].start
    ensures forall i :: 0 <= i < |Windows(duration)| ==>
              Windows(duration)[i].start < Windows(duration)[i].end <= duration &&
              Windows(duration)[i].end - Windows(duration)[i].start <= 300.0
  {
    var ws := Windows(duration);
    var n := |ws|;
    forall i | 0 <= i < n - 1 ensures ws[i].end == ws[i + 1].start {
      assert (i + 1) as real * 300.0 <= (n - 1) as real * 300.0;
    }
    forall i | 0 <= i < n
      ensures ws[i].start < ws[i].end <= duration && ws[i].end - ws[i].start <= 300.0
    {
      assert i as real * 300.0 <= (n - 1) as real * 300.0;
    }
    if duration > 0.0 {
      assert n as real * 300.0 >= duration;
    }
  }

  /** `f"part{i+1}.mp4"`: a plain file name, with no separator (the index
      reads back from it by SegmentFileNames). */
  function PartFileName(i: nat): (name: string)
    ensures Sep !in name
  {
    DecimalHasNoSeparators(i + 1);
    "part" + NatToString(i + 1) + ".mp4"
  }

  /** `f"audio{i+1}.mp3"`: a plain file name, with no separator (the index
      reads back from it by SegmentFileNames). */
  function AudioFileName(i: nat): (name: string)
    ensures Sep !in name
  {
    DecimalHasNoSeparators(i + 1);
    "audio" + NatToString(i + 1) + ".mp3"
  }

  /** Where the video of segment `i` is written; SegmentDirectories and
      SegmentFileNames state its directory and its final component. */
  function PartPath(outputDir: string, i: nat): string {
    Join(outputDir, PartFileName(i))
  }

  /** Where the audio of segment `i` is written; SegmentDirectories and
      SegmentFileNames state its directory and its final component. */
  function AudioPath(outputDir: string, i: nat): string {
    Join(Join(outputDir, AudioSubdir), AudioFileName(i))
  }

  /** One external transcoder run, as the argument list describes it. */
  datatype Invocation =
      /** `ffmpeg -i input -ss start -to end -c copy -avoid_negative_ts 1 output` */
    | CutCopy(input: string, start: real, end: real, output: string)
      /** `ffmpeg -i input -vn -acodec libmp3lame output` */
    | ExtractMp3(input: string, output: string)

  /** The planning loop of `split_video` for a probed `duration`: it returns
      the video paths in segment order and, in the order they are run, the
      transcoder invocations (per segment, the cut and then the audio
      extraction from the freshly cut file). */
  method SplitVideo(videoPath: string, outputDir: string, duration: real)
    returns (outputPaths: seq<string>, invocations: seq<Invocation>)
    ensures |outputPaths| == PartCount(duration) && |invocations| == 2 * |outputPaths|
    ensures forall i :: 0 <= i < |outputPaths| ==> outputPaths[i] == PartPath(outputDir, i)
    ensures forall i :: 0 <= i < |outputPaths| ==>
              invocations[2 * i] == CutCopy(videoPath, SegmentWindow(i, duration).start,
                                            SegmentWindow(i, duration).end, outputPaths[i])
    ensures forall i :: 0 <= i < |outputPaths| ==>
              invocations[2 * i + 1] == ExtractMp3(outputPaths[i], AudioPath(outputDir, i))
  {
    var numParts := Ceil(duration / SegmentSeconds as real);
    outputPaths := [];
    invocations := [];
    var audioOutputDir := Join(outputDir, AudioSubdir);
    var i: nat := 0;
    while i < numParts
      invariant i <= PartCount(duration)
      invariant |outputPaths| == i && |invocations| == 2 * i
      invariant forall k :: 0 <= k < i ==> outputPaths[k] == PartPath(outputDir, k)
      invariant forall k :: 0 <= k < i ==>
                  invocations[2 * k] == CutCopy(videoPath, SegmentWindow(k, duration).start,
                                                SegmentWindow(k, duration).end, outputPaths[k])
      invariant forall k :: 0 <= k < i ==>
                  invocations[2 * k + 1] == ExtractMp3(outputPaths[k], AudioPath(outputDir, k))
    {
      var startTime := (i * SegmentSeconds) as real;
      var endTime := Min(((i + 1) * SegmentSeconds) as real, duration);

      var outputFile := PartFileName(i);
      var outputPath := Join(outputDir, outputFile);
      assert outputPath == PartPath(outputDir, i);
      outputPaths := outputPaths + [outputPath];

      var audioFile := AudioFileName(i);
      var audioOutputPath := Join(audioOutputDir, audioFile);
      assert audioOutputPath == AudioPath(outputDir, i);

      invocations := invocations + [CutCopy(videoPath, startTime, endTime, outputPath),
                                    ExtractMp3(outputPath, audioOutputPath)];
      i := i + 1;
    }
  }

  datatype Option<T> = None | Some(value: T)

  /** A name `prefix + str(k) + suffix` with `k >= 1` written without leading
      zeros names segment `k - 1`; anything else names no segment. */
  function SegmentOfName(prefix: string, suffix: string, name: string): Option<nat> {
    if |name| >= |prefix| + |suffix| && name[..|prefix|] == prefix
       && name[|name| - |suffix|..] == suffix then
      var digits := name[|prefix|..|name| - |suffix|];
      if |digits| > 0 && AllDigits(digits) && digits[0] != '0' && ParseDigits(digits) >= 1 then
        Some(ParseDigits(digits) - 1)
      else None
    else None
  }

  /** Reading the index back out of `prefix + str(i+1) + suffix` gives `i`. */
  lemma SegmentOfIndexedName(prefix: string, suffix: string, i: nat)
    ensures SegmentOfName(prefix, suffix, prefix + NatToString(i + 1) + suffix) == Some(i)
  {
    var digits := NatToString(i + 1);
    var name := prefix + digits + suffix;
    ParseNatToString(i + 1);
    assert name[..|prefix|] == prefix;
    assert name[|name| - |suffix|..] == suffix;
    assert name[|prefix|..|name| - |suffix|] == digits;
  }

  /** Segment `i` writes `part{i+1}.mp4` directly under the output directory
      and `audio{i+1}.mp3` under its `mp3s` sub-directory. */
  lemma SegmentDirectories(outputDir: string, i: nat)
    ensures PartPath(outputDir, i) == DirPrefix(outputDir) + PartFileName(i)
    ensures AudioPath(outputDir, i) == DirPrefix(outputDir) + "mp3s/" + AudioFileName(i)
  {
    var audioDir := Join(outputDir, AudioSubdir);
    JoinRelative(outputDir, PartFileName(i));
    JoinRelative(outputDir, AudioSubdir);
    assert audioDir == DirPrefix(outputDir) + "mp3s";
    assert DirPrefix(audioDir) == DirPrefix(outputDir) + "mp3s/";
    JoinRelative(audioDir, AudioFileName(i));
  }

  /** The base names of segment `i`'s files are `part{i+1}.mp4` and
      `audio{i+1}.mp3`, and the index written in both names is the same and
      names segment `i`. */
  lemma SegmentFileNames(outputDir: string, i: nat)
    ensures Basename(PartPath(outputDir, i)) == PartFileName(i)
    ensures Basename(AudioPath(outputDir, i)) == AudioFileName(i)
    ensures SegmentOfName("part", ".mp4", PartFileName(i)) == Some(i)
    ensures SegmentOfName("audio", ".mp3", AudioFileName(i)) == Some(i)
  {
    DecimalHasNoSeparators(i + 1);
    assert Sep !in PartFileName(i);
    assert Sep !in AudioFileName(i);
    BasenameOfJoin(outputDir, PartFileName(i));
    BasenameOfJoin(Join(outputDir, AudioSubdir), AudioFileName(i));
    SegmentOfIndexedName("part", ".mp4", i);
    SegmentOfIndexedName("audio", ".mp3", i);
  }

  /** No two segments write the same video file or the same audio file. */
  lemma PathsDistinct(outputDir: string, i: nat, j: nat)
    requires i != j
    ensures PartPath(outputDir, i) != PartPath(outputDir, j)
    ensures AudioPath(outputDir, i) != AudioPath(outputDir, j)
  {
    SegmentFileNames(outputDir, i);
    SegmentFileNames(outputDir, j);
  }

  /** The worked example of a 650-second input: three windows, the last one
      50 seconds long. */
  lemma Example650()
    ensures Windows(650.0) == [Window(0.0, 300.0), Window(300.0, 600.0), Window(600.0, 650.0)]
  {
    assert PartCount(650.0) == 3;
  }

  /** A ten-minute input gives exactly two parts, `part1.mp4` and
      `part2.mp4`, with audio `audio1.mp3` and `audio2.mp3`. */
  lemma Example600()
    ensures PartCount(600.0) == 2
    ensures PartFileName(0) == "part1.mp4" && PartFileName(1) == "part2.mp4"
    ensures AudioFileName(0) == "audio1.mp3" && AudioFileName(1) == "audio2.mp3"
  {
  }
}
