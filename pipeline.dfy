/**
  The basic_cleaning step as a whole: clean the input table, write it to a
  file named after the clock, and register that file as a new artifact.
  The local directory and the tracking run are one object whose fields the
  step updates; fetching and parsing the input artifact happen before the
  modelled part and the input table is a parameter.
 */
module BasicCleaning {
  import opened Wrappers
  import opened Frames
  import opened Cleaning
  import opened Naming

  /** The command-line arguments of the step. */
  datatype Config = Config(
    inputArtifact: string,
    outputArtifact: string,
    outputType: string,
    outputDescription: string,
    minPrice: real,
    maxPrice: real)

  /** An artifact as registered with the tracking run: its name, type, description and files. */
  datatype Artifact = Artifact(name: string, kind: string, description: string, files: seq<string>)

  /** add_file: attach one more file to an artifact that is being built. */
  function AddFile(a: Artifact, path: string): (b: Artifact)
    ensures b.name == a.name && b.kind == a.kind && b.description == a.description
    ensures |b.files| == |a.files| + 1 && b.files[..|a.files|] == a.files && b.files[|a.files|] == path
  {
    Artifact(a.name, a.kind, a.description, a.files + [path])
  }

  /** What the step leaves behind: the files it wrote and the artifacts it logged, in order. */
  class Workspace {
    var files: map<string, Frame>
    var logged: seq<Artifact>

    constructor ()
      ensures files == map[] && logged == []
    {
      files := map[];
      logged := [];
    }

    /** to_csv: (over)write the named file with the frame. */
    method WriteCsv(name: string, f: Frame)
      modifies this
      ensures files == old(files)[name := f] && logged == old(logged)
    {
      files := files[name := f];
    }

    /** log_artifact: record the artifact with the run. */
    method LogArtifact(a: Artifact)
      modifies this
      ensures logged == old(logged) + [a] && files == old(files)
    {
      logged := logged + [a];
    }
  }

  /**
    The cleaning part of the step as it runs: the mask selection builds a
    new frame, whose rows are then compacted in place by dropna.
   */
  method CleanFrame(input: Frame, lo: real, hi: real) returns (res: Result<Frame, Error>)
    ensures res == Clean(input, lo, hi)
  {
    // stage one: select the rows the price mask marks
    var stage := DropOutliers(input, lo, hi);
    if stage.Failure? {
      return Failure(stage.error);
    }
    var df := stage.value;

    // stage two: compact the complete rows to the front, in place
    var a := new Row[|df.rows|](i requires 0 <= i < |df.rows| => df.rows[i]);
    assert a[..] == df.rows;
    var n := DropNaInPlace(a, df.columns);
    res := Success(Frame(df.columns, a[..n]));
  }

  /**
    The step. On success it returns the output name; the cleaned table is
    written under that name and an artifact of that same name, carrying
    that one file, is logged. On failure nothing is written or logged.
   */
  method Go(args: Config, input: Frame, now: Timestamp, ws: Workspace) returns (res: Result<string, Error>)
    requires ValidTimestamp(now)
    modifies ws
    ensures res.Failure? <==> Clean(input, args.minPrice, args.maxPrice).Failure?
    ensures res.Failure? ==> res.error == Clean(input, args.minPrice, args.maxPrice).error
    ensures res.Failure? ==> ws.files == old(ws.files) && ws.logged == old(ws.logged)
    ensures res.Success? ==> res.value == OutputFilename(now)
    ensures res.Success? ==>
      ws.files == old(ws.files)[res.value := Clean(input, args.minPrice, args.maxPrice).value]
    ensures res.Success? ==>
      ws.logged == old(ws.logged) + [Artifact(res.value, args.outputType, args.outputDescription, [res.value])]
  {
    var cleaned := CleanFrame(input, args.minPrice, args.maxPrice);
    if cleaned.Failure? {
      return Failure(cleaned.error);
    }
    var df := cleaned.value;

    // write the cleaned frame under the clock-derived name
    var outputFilename := OutputFilename(now);
    ws.WriteCsv(outputFilename, df);

    // register an artifact of that same name carrying that one file
    var artifact := Artifact(outputFilename, args.outputType, args.outputDescription, []);
    artifact := AddFile(artifact, outputFilename);
    assert artifact.files == [outputFilename];
    ws.LogArtifact(artifact);
    res := Success(outputFilename);
  }
}
