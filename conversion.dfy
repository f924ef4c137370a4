/**
 * `makeGif`: derive the output path, open a reader on the source, read its
 * frame rate, open a writer at that rate, copy every frame, close the writer.
 * Decoding and encoding belong to imageio; here a video is its finite
 * sequence of opaque frames and its metadata, and the writer is a buffer.
 */
module Conversion {
  import opened Wrappers
  import opened Text
  import opened Paths

  /** What a reader yields: the decoded frames in order, and the metadata dictionary. */
  datatype Video<F> = Video(frames: seq<F>, meta: map<string, real>)

  /**
   * The file system as `makeGif` sees it: how `os.path.abspath` resolves a
   * path, which absolute paths imageio can open for reading, and which it
   * can open for writing.
   */
  datatype Disk<F> = Disk(absPath: string -> string, videos: map<string, Video<F>>, writable: set<string>)

  /**
   * Why `makeGif` raises: `get_reader` cannot open the source, the metadata
   * has no 'fps' entry (KeyError), or `get_writer` cannot open the output.
   */
  datatype ConvertError = ReadFailed | MissingFps | WriteFailed

  /** The file a conversion leaves behind: where, at which rate, which frames. */
  datatype Artifact<F> = Artifact(path: string, fps: real, frames: seq<F>)

  /** One call made on a writer, in the order made. */
  datatype WriterCall<F> = AppendCall(frame: F) | CloseCall

  const FpsKey: string := "fps"

  /** The calls of appending every frame of `frames`, in order. */
  function Appends<F>(frames: seq<F>): seq<WriterCall<F>>
  {
    seq(|frames|, i requires 0 <= i < |frames| => AppendCall(frames[i]))
  }

  /**
   * What converting `clip` to `targetFormat` produces: a file at the
   * derived output path, at the source's frame rate, holding the source's
   * frames; or the first error on the way.
   */
  function Converted<F>(disk: Disk<F>, clip: string, targetFormat: string): Result<Artifact<F>, ConvertError>
  {
    var inputPath := disk.absPath(clip);
    var outputPath := OutputPath(inputPath, targetFormat);
    if inputPath !in disk.videos then Err(ReadFailed)
    else if FpsKey !in disk.videos[inputPath].meta then Err(MissingFps)
    else if outputPath !in disk.writable then Err(WriteFailed)
    else Ok(Artifact(outputPath, disk.videos[inputPath].meta[FpsKey], disk.videos[inputPath].frames))
  }

  /**
   * A successful conversion leaves a file that ends with the target format
   * next to the source (same directory, so for a target format without '/'
   * the last '/' is where the source's is), at the source's rate, with the
   * source's frames: same frames, same order, same count.
   */
  lemma ConvertedCopiesSource<F>(disk: Disk<F>, clip: string, targetFormat: string)
    requires Converted(disk, clip, targetFormat).Ok?
    ensures var a := Converted(disk, clip, targetFormat).value;
            var p := disk.absPath(clip);
            && p in disk.videos
            && a.frames == disk.videos[p].frames
            && |a.frames| == |disk.videos[p].frames|
            && FpsKey in disk.videos[p].meta && a.fps == disk.videos[p].meta[FpsKey]
            && a.path[|a.path| - |targetFormat|..] == targetFormat
            && p[..LastIndexOf(p, '/') + 1] <= a.path
            && ('/' !in targetFormat ==> LastIndexOf(a.path, '/') == LastIndexOf(p, '/'))
  {
    var p := disk.absPath(clip);
    var (root, ext) := SplitExt(p);
    LastIndexOfConcat(root, ext, '/');
    LastIndexOfConcat(root, targetFormat, '/');
  }

  /** Which error a conversion fails with, in the order `makeGif` meets them. */
  lemma ConvertedFailures<F>(disk: Disk<F>, clip: string, targetFormat: string)
    ensures var p := disk.absPath(clip);
            && (Converted(disk, clip, targetFormat) == Err(ReadFailed) <==> p !in disk.videos)
            && (Converted(disk, clip, targetFormat) == Err(MissingFps) <==> p in disk.videos && FpsKey !in disk.videos[p].meta)
            && (Converted(disk, clip, targetFormat) == Err(WriteFailed) <==>
                  p in disk.videos && FpsKey in disk.videos[p].meta && OutputPath(p, targetFormat) !in disk.writable)
  {
  }

  /**
   * imageio's writer: opened on a path with a frame rate, it buffers the
   * frames appended to it until it is closed. The ghost field `calls`
   * records every call made on it, for the proofs.
   */
  class Writer<F> {
    const path: string
    const fps: real
    var frames: seq<F>
    var closed: bool
    ghost var calls: seq<WriterCall<F>>

    /** `imageio.get_writer(path, fps=fps)`. */
    constructor (path: string, fps: real)
      ensures this.path == path && this.fps == fps
      ensures frames == [] && !closed && calls == []
    {
      this.path := path;
      this.fps := fps;
      frames := [];
      closed := false;
      calls := [];
    }

    /** The file this writer stands for. */
    function Output(): Artifact<F>
      reads this
    {
      Artifact(path, fps, frames)
    }

    /** `writer.append_data(frame)`; imageio refuses it on a closed writer. */
    method AppendData(frame: F)
      requires !closed
      modifies this
      ensures frames == old(frames) + [frame]
      ensures !closed && calls == old(calls) + [AppendCall(frame)]
    {
      frames := frames + [frame];
      calls := calls + [AppendCall(frame)];
    }

    /** `writer.close()`; closing again is allowed and changes nothing more. */
    method Close()
      modifies this
      ensures frames == old(frames)
      ensures closed && calls == old(calls) + [CloseCall]
    {
      closed := true;
      calls := calls + [CloseCall];
    }
  }

  /**
   * `makeGif(clip, targetFormat)`. On success the returned writer holds
   * exactly the file `Converted` describes, and was driven by one append per
   * source frame, in order, followed by a single close.
   */
  method MakeGif<F>(disk: Disk<F>, clip: string, targetFormat: string) returns (res: Result<Writer<F>, ConvertError>)
    ensures res.Err? ==> Converted(disk, clip, targetFormat) == Err(res.error)
    ensures res.Ok? ==> fresh(res.value)
                        && Converted(disk, clip, targetFormat) == Ok(res.value.Output())
                        && res.value.closed
                        && res.value.calls == Appends(res.value.frames) + [CloseCall]
  {
    var inputPath := disk.absPath(clip);
    var outputPath := OutputPath(inputPath, targetFormat);
    if inputPath !in disk.videos {
      return Err(ReadFailed);
    }
    var reader := disk.videos[inputPath];
    if FpsKey !in reader.meta {
      return Err(MissingFps);
    }
    var fps := reader.meta[FpsKey];
    if outputPath !in disk.writable {
      return Err(WriteFailed);
    }
    var writer := new Writer(outputPath, fps);
    for i := 0 to |reader.frames|
      invariant writer.path == outputPath && writer.fps == fps
      invariant writer.frames == reader.frames[..i]
      invariant !writer.closed && writer.calls == Appends(writer.frames)
    {
      writer.AppendData(reader.frames[i]);
    }
    assert reader.frames[..|reader.frames|] == reader.frames;
    writer.Close();
    return Ok(writer);
  }
}
