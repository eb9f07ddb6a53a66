/** The main block of the tool: choose the output directory, create it when
    it is missing, locate the annotation file of the dataset and hand it to
    the converter together with the dataset's `images` directory. */
module Cutter {
  import opened Wrappers
  import opened FileSystem
  import opened Paths
  import opened Annotations

  /** The parsed command line (`parse_args`), after `os.path.abspath` has been
      applied to the path options. */
  datatype Args = Args(
    sourceDirectory: string,
    classes: Option<string>,
    output: Option<string>,
    threads: int)

  /** What the main block does: the output directory, whether it creates it,
      and the two arguments of `convert_dataset`. */
  datatype Plan = Plan(outputDir: string, createOutputDir: bool, xmlFile: string, imagesDir: string)

  /** `os.makedirs` refuses a path that exists but is not a directory. */
  datatype RunError = OutputDirExists(path: string)

  /** The main block, with the working directory, the file system and the
      walk over the dataset directory given. */
  method PlanRun(args: Args, cwd: string, fs: Files, walk: seq<WalkEntry>)
      returns (r: Result<Plan, RunError>)
    ensures var out := OutputDir(args.output, cwd);
      r.Err? <==> out in fs && !IsDir(fs, out)
    ensures r.Err? ==> r.error == OutputDirExists(OutputDir(args.output, cwd))
    ensures r.Ok? ==> r.value.outputDir == OutputDir(args.output, cwd)
    ensures r.Ok? ==> (r.value.createOutputDir <==> r.value.outputDir !in fs)
    ensures r.Ok? ==> r.value.xmlFile == LastOrEmpty(XmlPaths(WalkFiles(walk)))
    ensures r.Ok? ==> r.value.imagesDir == args.sourceDirectory + "/images"
  {
    var outputDir;
    if args.output.Some? && args.output.value != "" {
      outputDir := args.output.value;
    } else {
      outputDir := PathJoin(cwd, "ObjectCutter_output");
    }
    var create := false;
    if !IsDir(fs, outputDir) {
      if outputDir in fs {
        return Err(OutputDirExists(outputDir));
      }
      create := true;
    }
    var xmlFile := SelectAnnotationFile(walk);
    r := Ok(Plan(outputDir, create, xmlFile, args.sourceDirectory + "/images"));
  }
}
