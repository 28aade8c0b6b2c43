/**
 * The save-file framing of the planet extension orchestrator: a format
 * version, the loaded flag, and then, only when loaded, the registry's
 * container payload. The stream is modelled as a sequence of tokens, one per
 * `BinaryWriter.Write` / `BinaryReader.Read...` call.
 */
module SaveFormat {
  import opened Wrappers

  newtype int32 = x: int | -0x8000_0000 <= x < 0x8000_0000

  datatype Token =
    | I32(v: int32)   // Write(int) / ReadInt32()
    | Bool(b: bool)   // Write(bool) / ReadBoolean()
    | Container       // whatever registry.ExportContainer writes

  /** The version the exporter writes (`w.Write(0)`). */
  const FormatVersion: int32 := 0

  /** `EndOfStream` is the reader running out; `Mismatch` a token of the wrong shape. */
  datatype ReadError = EndOfStream | Mismatch

  /** The header an importer reads, and the stream left for the registry. */
  datatype Frame = Frame(version: int32, wasLoaded: bool, rest: seq<Token>)

  /** What `Export` writes when the subsystem's loaded flag is `loaded`. */
  function ExportStream(loaded: bool): (s: seq<Token>)
    ensures |s| >= 2 && s[0] == I32(FormatVersion) && s[1] == Bool(loaded)
    ensures Container in s <==> loaded
  {
    [I32(FormatVersion), Bool(loaded)] + (if loaded then [Container] else [])
  }

  function ReadInt32(s: seq<Token>): (r: Result<(int32, seq<Token>), ReadError>)
    ensures r.Ok? <==> |s| > 0 && s[0].I32?
    ensures r.Ok? ==> s == [I32(r.value.0)] + r.value.1
    ensures r == Err(EndOfStream) <==> s == []
  {
    if s == [] then Err(EndOfStream)
    else if s[0].I32? then Ok((s[0].v, s[1..]))
    else Err(Mismatch)
  }

  function ReadBoolean(s: seq<Token>): (r: Result<(bool, seq<Token>), ReadError>)
    ensures r.Ok? <==> |s| > 0 && s[0].Bool?
    ensures r.Ok? ==> s == [Bool(r.value.0)] + r.value.1
    ensures r == Err(EndOfStream) <==> s == []
  {
    if s == [] then Err(EndOfStream)
    else if s[0].Bool? then Ok((s[0].b, s[1..]))
    else Err(Mismatch)
  }

  /** The two reads `Import` performs before deciding whether to delegate. */
  function ReadFrame(s: seq<Token>): (r: Result<Frame, ReadError>)
    ensures r.Ok? <==> |s| >= 2 && s[0].I32? && s[1].Bool?
    ensures r.Ok? ==> s == [I32(r.value.version), Bool(r.value.wasLoaded)] + r.value.rest
  {
    match ReadInt32(s)
    case Err(e) => Err(e)
    case Ok((version, afterVersion)) =>
      match ReadBoolean(afterVersion)
      case Err(e) => Err(e)
      case Ok((wasLoaded, rest)) => Ok(Frame(version, wasLoaded, rest))
  }

  /**
   * Reading back what `Export` wrote recovers the loaded flag, and leaves the
   * container payload at the head of what is handed to the registry exactly
   * when the exporter was loaded. The header is read whatever follows it.
   */
  lemma ExportThenRead(loaded: bool, tail: seq<Token>)
    ensures ReadFrame(ExportStream(loaded) + tail).Ok?
    ensures ReadFrame(ExportStream(loaded) + tail).value
         == Frame(FormatVersion, loaded, (if loaded then [Container] else []) + tail)
  {
    var s := ExportStream(loaded) + tail;
    assert s[2..] == (if loaded then [Container] else []) + tail;
  }
}
