/** The geometry and naming of `crop_video`: the centred 9:16 crop box taken
    from a frame of width `w` and height `h`, and the path the cropped clip is
    written to. Reading and encoding the clip are not modelled. */
module Cropper {
  import opened PosixPath
  import opened DecimalText
  import Segmenter

  /** Suffix that replaces a segment's extension in its resized file name. */
  const ResizedSuffix: string := "-resized.mp4"

  /** A crop rectangle, as passed to the clip's `crop(x1=, y1=, x2=, y2=)`. */
  datatype CropBox = CropBox(x1: int, y1: int, x2: int, y2: int)

  /** `h * 9 / 16`: the width of a 9:16 box as tall as the frame. */
  function CropWidth(h: nat): (cw: real)
    ensures 16.0 * cw == 9.0 * h as real
  {
    (h * 9) as real / 16.0
  }

  /** `(w - crop_width) // 2` and `(w + crop_width) // 2`, full height: a
      box that spans the frame's height and whose right margin equals its
      left margin or exceeds it by one pixel. */
  function CropBoxFor(w: nat, h: nat): (b: CropBox)
    ensures b.y1 == 0 && b.y2 == h
    ensures b.x1 <= b.x2 && 0 <= (w - b.x2) - b.x1 <= 1
  {
    var cw := CropWidth(h);
    var lo := (w as real - cw) / 2.0;
    var hi := (w as real + cw) / 2.0;
    assert lo + hi == w as real && lo <= hi;
    CropBox(lo.Floor, 0, hi.Floor, h)
  }

  /** The box is full height and horizontally centred: the margin right of it
      equals the margin left of it or exceeds it by one pixel, and its width
      is the 9:16 width to within one pixel. */
  lemma CropBoxCentred(w: nat, h: nat)
    ensures CropBoxFor(w, h).y1 == 0 && CropBoxFor(w, h).y2 == h
    ensures var b := CropBoxFor(w, h);
            b.x1 <= b.x2 && 0 <= (w - b.x2) - b.x1 <= 1
    ensures var b := CropBoxFor(w, h);
            CropWidth(h) - 1.0 < (b.x2 - b.x1) as real < CropWidth(h) + 1.0
  {
    var b := CropBoxFor(w, h);
    var cw := CropWidth(h);
    var lo := (w as real - cw) / 2.0;
    var hi := (w as real + cw) / 2.0;
    assert lo + hi == w as real;
    assert b.x1 as real <= lo < b.x1 as real + 1.0;
    assert b.x2 as real <= hi < b.x2 as real + 1.0;
  }

  /** The box lies inside the frame exactly when the frame is at least as
      wide as 9:16 (`16 w >= 9 h`). */
  lemma CropBoxInFrame(w: nat, h: nat)
    ensures var b := CropBoxFor(w, h);
            (0 <= b.x1 && b.x2 <= w) <==> 16 * w >= 9 * h
  {
    var b := CropBoxFor(w, h);
    var cw := CropWidth(h);
    if 16 * w >= 9 * h {
      assert cw <= w as real;
      assert (w as real - cw) / 2.0 >= 0.0;
      assert (w as real + cw) / 2.0 <= w as real;
    } else {
      assert cw > w as real;
      assert (w as real - cw) / 2.0 < 0.0;
    }
  }

  /** A frame narrower than 9:16 is not guarded against: the box then starts
      left of the frame and reaches at least to its right edge. */
  lemma NarrowFrameOverflows(w: nat, h: nat)
    requires 16 * w < 9 * h
    ensures CropBoxFor(w, h).x1 < 0 && CropBoxFor(w, h).x2 >= w
  {
    var cw := CropWidth(h);
    assert cw > w as real;
    assert (w as real - cw) / 2.0 < 0.0;
    assert (w as real + cw) / 2.0 > w as real;
  }

  /** A 1920x1080 frame gives a 607.5-pixel crop width and the box from 656
      to 1263. */
  lemma Example1920x1080()
    ensures CropWidth(1080) == 607.5
    ensures CropBoxFor(1920, 1080) == CropBox(656, 0, 1263, 1080)
  {
  }

  /** `basename(splitext(output_path)[0]) + "-resized.mp4"`: a plain file
      name ending in "-resized.mp4". */
  function ResizedFileName(outputPath: string): (name: string)
    ensures Sep !in name
    ensures |name| >= |ResizedSuffix| && name[|name| - |ResizedSuffix|..] == ResizedSuffix
  {
    assert Sep !in ResizedSuffix;
    Basename(StripExt(outputPath)) + ResizedSuffix
  }

  /** `os.path.join(resized_dir, resized_filename)`. */
  function ResizedFilePath(resizedDir: string, outputPath: string): string {
    Join(resizedDir, ResizedFileName(outputPath))
  }

  /** The resized file of a segment is a plain name under the resized
      directory: its basename is the segment's base name without extension
      followed by "-resized.mp4". */
  lemma ResizedFilePathShape(resizedDir: string, outputPath: string)
    ensures Basename(ResizedFilePath(resizedDir, outputPath)) == ResizedFileName(outputPath)
    ensures ResizedFilePath(resizedDir, outputPath) == DirPrefix(resizedDir) + ResizedFileName(outputPath)
  {
    var name := ResizedFileName(outputPath);
    assert Sep !in ResizedSuffix;
    assert Sep !in name;
    BasenameOfJoin(resizedDir, name);
    JoinRelative(resizedDir, name);
  }

  /** What `crop_video(output_path, output_path)` computes for a segment whose
      frames are `w` by `h`: the crop box and the path written. */
  datatype CropJob = CropJob(box: CropBox, resizedPath: string)

  /** `crop_video`, with the module-level `resized_dir` as a parameter. */
  function CropVideo(w: nat, h: nat, outputPath: string, resizedDir: string): (job: CropJob)
    ensures job.box.y1 == 0 && job.box.y2 == h
    ensures job.box.x1 <= job.box.x2 && 0 <= (w - job.box.x2) - job.box.x1 <= 1
    ensures CropWidth(h) - 1.0 < (job.box.x2 - job.box.x1) as real < CropWidth(h) + 1.0
    ensures (0 <= job.box.x1 && job.box.x2 <= w) <==> 16 * w >= 9 * h
    ensures job.resizedPath == DirPrefix(resizedDir) + ResizedFileName(outputPath)
    ensures Basename(job.resizedPath) == ResizedFileName(outputPath)
  {
    CropBoxCentred(w, h);
    CropBoxInFrame(w, h);
    ResizedFilePathShape(resizedDir, outputPath);
    CropJob(CropBoxFor(w, h), ResizedFilePath(resizedDir, outputPath))
  }

  /** The segment `part{i+1}.mp4` is resized into `part{i+1}-resized.mp4`
      under the resized directory. */
  lemma ResizedNameOfPart(resizedDir: string, outputDir: string, i: nat)
    ensures ResizedFilePath(resizedDir, Segmenter.PartPath(outputDir, i))
            == Join(resizedDir, "part" + NatToString(i + 1) + ResizedSuffix)
  {
    var stem := "part" + NatToString(i + 1);
    DecimalHasNoSeparators(i + 1);
    assert Sep !in stem && ExtSep !in stem;
    assert ".mp4"[1..] == "mp4";
    assert Segmenter.PartFileName(i) == stem + ".mp4";
    SplitExtOfJoin(outputDir, stem, ".mp4");
    BasenameOfJoin(outputDir, stem);
  }

  /** Concurrent crop jobs of different segments never write the same file. */
  lemma ResizedPathsDistinct(resizedDir: string, outputDir: string, i: nat, j: nat)
    requires i != j
    ensures ResizedFilePath(resizedDir, Segmenter.PartPath(outputDir, i))
            != ResizedFilePath(resizedDir, Segmenter.PartPath(outputDir, j))
  {
    ResizedNameOfPart(resizedDir, outputDir, i);
    ResizedNameOfPart(resizedDir, outputDir, j);
    var ni := "part" + NatToString(i + 1) + ResizedSuffix;
    var nj := "part" + NatToString(j + 1) + ResizedSuffix;
    if ni == nj {
      Segmenter.SegmentOfIndexedName("part", ResizedSuffix, i);
      Segmenter.SegmentOfIndexedName("part", ResizedSuffix, j);
    } else {
      if Join(resizedDir, ni) == Join(resizedDir, nj) {
        JoinInjective(resizedDir, ni, nj);
      }
    }
  }
}
