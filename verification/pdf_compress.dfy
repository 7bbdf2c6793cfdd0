/**
 * Compression through Ghostscript in the Rust backend: the quality word
 * chooses a Ghostscript preset, a missing input is refused before anything
 * runs, and the compression ratio refuses an empty original. Whether the
 * bundled Ghostscript exists, how the process ends, and the sizes the file
 * system reports are inputs.
 */
module PdfCompress {
  import opened Wrappers

  /** The Ghostscript `-dPDFSETTINGS` preset for a quality word; anything
      unrecognised gets the medium preset. */
  function QualitySetting(quality: string): (preset: string)
    ensures quality == "low" ==> preset == "/screen"
    ensures quality == "high" ==> preset == "/printer"
    ensures quality != "low" && quality != "high" ==> preset == "/ebook"
  {
    match quality
    case "low" => "/screen"
    case "medium" => "/ebook"
    case "high" => "/printer"
    case _ => "/ebook"
  }

  /** How the Ghostscript process ended: it could not be started, or it
      exited with or without success and some error output. */
  datatype GsOutcome = GsNotStarted | GsExited(success: bool, stderr: string)

  /** The command line Ghostscript is started with. */
  datatype Invocation = Invocation(command: string, args: seq<string>)

  /** The result of one compression and the process it started, if any. */
  datatype CompressRun = CompressRun(invocation: Option<Invocation>, result: Result<string, string>)

  /** The Ghostscript executable: the bundled one when it exists, otherwise
      the platform's command name. */
  function GsCommand(bundled: Option<string>, windows: bool): (command: string)
    ensures bundled.Some? ==> command == bundled.value
    ensures bundled.None? ==> command == (if windows then "gswin64c" else "gs")
  {
    if bundled.Some? then bundled.value else if windows then "gswin64c" else "gs"
  }

  function GsArgs(preset: string, inputPath: string, outputPath: string): seq<string> {
    ["-sDEVICE=pdfwrite", "-dCompatibilityLevel=1.4", "-dPDFSETTINGS=" + preset,
     "-dNOPAUSE", "-dQUIET", "-dBATCH", "-sOutputFile=" + outputPath, inputPath]
  }

  /** `compress_pdf`. */
  function CompressPdf(inputExists: bool, inputPath: string, outputPath: string, quality: string,
                       bundled: Option<string>, windows: bool, gs: GsOutcome): (run: CompressRun)
    ensures !inputExists ==> run == CompressRun(None, Err("Input file not found: " + inputPath))
    ensures inputExists ==> run.invocation == Some(Invocation(GsCommand(bundled, windows), GsArgs(QualitySetting(quality), inputPath, outputPath)))
    ensures run.result.Ok? <==> inputExists && gs.GsExited? && gs.success
  {
    if !inputExists then CompressRun(None, Err("Input file not found: " + inputPath))
    else
      var call := Invocation(GsCommand(bundled, windows), GsArgs(QualitySetting(quality), inputPath, outputPath));
      var result := match gs
        case GsNotStarted => Err("Ghostscript not found. Using Python fallback.")
        case GsExited(ok, stderr) =>
          if ok then Ok("PDF compressed successfully: " + outputPath)
          else Err("Ghostscript compression failed: " + stderr);
      CompressRun(Some(call), result)
  }

  /** Ghostscript is always asked for PDF output of the chosen preset,
      written to the output path, from the input path given last. */
  lemma InvocationCarriesPreset(inputPath: string, outputPath: string, quality: string,
                                bundled: Option<string>, windows: bool, gs: GsOutcome)
    ensures var run := CompressPdf(true, inputPath, outputPath, quality, bundled, windows, gs);
      var args := run.invocation.value.args;
      && |args| == 8
      && args[2] == "-dPDFSETTINGS=" + QualitySetting(quality)
      && args[6] == "-sOutputFile=" + outputPath
      && args[7] == inputPath
  {
  }

  /** Only `low` and `high` leave the medium preset. */
  lemma PresetOfWords(quality: string)
    ensures QualitySetting("medium") == QualitySetting(quality) <==> quality != "low" && quality != "high"
  {
  }

  /** `calculate_compression_ratio` on the sizes the file system reports:
      the percentage saved, refused for an empty original. The original's
      size is asked for first, so its error wins. */
  function CompressionRatio(originalSize: Result<nat, string>, compressedSize: Result<nat, string>): (r: Result<real, string>)
    ensures originalSize.Err? ==> r == Err("Failed to get file size: " + originalSize.error)
    ensures originalSize.Ok? && compressedSize.Err? ==> r == Err("Failed to get file size: " + compressedSize.error)
    ensures originalSize.Ok? && compressedSize.Ok? && originalSize.value == 0 ==> r == Err("Original file is empty")
  {
    match originalSize
    case Err(e) => Err("Failed to get file size: " + e)
    case Ok(original) =>
      match compressedSize
      case Err(e) => Err("Failed to get file size: " + e)
      case Ok(compressed) =>
        if original == 0 then Err("Original file is empty")
        else Ok((1.0 - (compressed as real) / (original as real)) * 100.0)
  }

  /** With both sizes known and a non-empty original the ratio is at most
      100, positive exactly when the file shrank, zero exactly when the size
      stayed, and 100 minus the new size as a percentage of the old. */
  lemma RatioMeaning(original: nat, compressed: nat)
    requires original > 0
    ensures var r := CompressionRatio(Ok(original), Ok(compressed));
      && r.Ok?
      && r.value <= 100.0
      && (r.value > 0.0 <==> compressed < original)
      && (r.value == 0.0 <==> compressed == original)
      && r.value * (original as real) == 100.0 * ((original - compressed) as real)
  {
    var o, c := original as real, compressed as real;
    var r := (1.0 - c / o) * 100.0;
    assert r * o == 100.0 * (o - c);
  }
}
