/** The batch watermarking tool as found under `elvis/`: no alpha option,
    and a loop that schedules one independent task per accepted file, all at
    once. Each task waits for the watermark, the source and the destination
    directory together, then draws the watermark at full opacity and saves. */
module ElvisWatermark {
  import opened Wrappers
  import opened Geometry
  import opened Paths
  import opened ImageFiles
  import Watermark

  /** The options the command line supplied; there is no alpha option. */
  datatype Options = Options(
    watermark: Option<string>,
    width: Option<real>, height: Option<real>,
    hpos: Option<real>, vpos: Option<real>,
    output: Option<Path>)

  datatype Config = Config(
    watermark: string,
    width: real, height: real,
    hpos: real, vpos: real,
    output: Path)

  function BuildConfig(o: Options): (r: Result<Config, Watermark.ConfigError>)
    ensures r.Err? <==> o.watermark.None?
    ensures r.Err? ==> r.error == Watermark.MissingWatermark
    ensures r.Ok? ==> r.value.watermark == o.watermark.value
  {
    if o.watermark.None? then Err(Watermark.MissingWatermark)
    else Ok(Config(
      o.watermark.value,
      Watermark.Pick(o.width, 100.0), Watermark.Pick(o.height, 100.0),
      Watermark.Pick(o.hpos, 50.0), Watermark.Pick(o.vpos, 50.0),
      Watermark.Pick(o.output, ["watermarked"])))
  }

  /** With only the watermark given: 100 % width and height, centred, into
      `watermarked`; supplied options override these. */
  lemma Defaults(o: Options)
    requires o.watermark.Some?
    ensures var c := BuildConfig(o).value;
      && c.width == (if o.width.Some? then o.width.value else 100.0)
      && c.height == (if o.height.Some? then o.height.value else 100.0)
      && c.hpos == (if o.hpos.Some? then o.hpos.value else 50.0)
      && c.vpos == (if o.vpos.Some? then o.vpos.value else 50.0)
      && c.output == (if o.output.Some? then o.output.value else ["watermarked"])
  {
  }

  /** One task. `RSVP.all` over watermark, source and `mkdirp` rejects when
      the source or the directory fails (the load failure is reported here
      when both fail; in the tool it is whichever settles first); a watermark
      that failed to load yields an undefined size, which fails the drawing;
      an encoder error is logged by its own handler, while a destination
      that cannot be written throws uncaught and ends the process. Otherwise the source is
      drawn unchanged and the watermark over it at full opacity. */
  function ProcessFile(cfg: Config, wm: Option<WatermarkSize>, task: FileTask, env: Env): (r: Outcome)
    ensures r.task == task
    ensures r.Written? <==>
      env.load(task.source).Some? && env.mkdir(Dirname(task.dest)) && wm.Some?
      && env.write(task.dest) && env.encode(task.dest)
    ensures r.Crashed? <==>
      env.load(task.source).Some? && env.mkdir(Dirname(task.dest)) && wm.Some? && !env.write(task.dest)
    ensures r.Written? ==> r.image.alpha == 1.0
  {
    if env.load(task.source).None? then Failed(task, LoadFailed)
    else if !env.mkdir(Dirname(task.dest)) then Failed(task, MkdirFailed)
    else if wm.None? then Failed(task, NoWatermark)
    else if !env.write(task.dest) then Crashed(task)
    else if !env.encode(task.dest) then Failed(task, EncodeFailed)
    else Written(task, Composite(env.load(task.source).value, wm.value,
                                 Percents(cfg.width, cfg.height, cfg.hpos, cfg.vpos), 1.0, GetStream(task.dest)))
  }

  /** The tasks the loop schedules for one root, in walk order. */
  function RootTasks(cwd: Path, output: Path, root: Path, files: seq<Path>): seq<FileTask>
  {
    if |files| == 0 then []
    else
      var last := files[|files| - 1];
      RootTasks(cwd, output, root, files[..|files| - 1])
        + (if IsImageFile(last) then [TaskFor(cwd, output, root, last)] else [])
  }

  lemma {:induction false} OneTaskPerAcceptedFile(cwd: Path, output: Path, root: Path, files: seq<Path>)
    ensures var ts, acc := RootTasks(cwd, output, root, files), Accepted(files);
      && |ts| == |acc|
      && forall i :: 0 <= i < |ts| ==> ts[i] == TaskFor(cwd, output, root, acc[i])
  {
    if |files| > 0 {
      OneTaskPerAcceptedFile(cwd, output, root, files[..|files| - 1]);
    }
  }

  /** The scheduling loop: non-images are skipped with `continue`; every
      accepted file gets its own task, all started without waiting for one
      another, so a failing task cannot hold back or cancel any other. */
  method ScheduleRoot(cfg: Config, cwd: Path, root: Path, files: seq<Path>) returns (tasks: seq<FileTask>)
    ensures tasks == RootTasks(cwd, cfg.output, root, files)
    ensures |tasks| == |Accepted(files)|
    ensures forall i :: 0 <= i < |tasks| ==>
      tasks[i] == FileTask(Accepted(files)[i], OutputPath(cwd, cfg.output, root, Accepted(files)[i]))
  {
    tasks := [];
    for i := 0 to |files|
      invariant tasks == RootTasks(cwd, cfg.output, root, files[..i])
    {
      assert files[..i + 1][..i] == files[..i];
      var file := files[i];
      if !IsImageFile(file) {
        continue;
      }
      tasks := tasks + [TaskFor(cwd, cfg.output, root, file)];
    }
    assert files[..|files|] == files;
    OneTaskPerAcceptedFile(cwd, cfg.output, root, files);
  }

  /** The two versions agree on every file, given the same geometry options
      and the default opacity, except in one case: the source loads, the
      watermark did not, and the directory cannot be made. The `app/` version
      never tries the directory then and reports the watermark; this one
      makes the directory alongside the load and reports that failure. */
  lemma VersionsAgree(app: Watermark.Config, cfg: Config, wm: Option<WatermarkSize>, task: FileTask, env: Env)
    requires app.width == cfg.width && app.height == cfg.height
    requires app.hpos == cfg.hpos && app.vpos == cfg.vpos
    requires app.alpha == 100.0
    ensures var a, e := Watermark.ProcessFile(app, wm, task, env), ProcessFile(cfg, wm, task, env);
      a == e || (env.load(task.source).Some? && wm.None? && !env.mkdir(Dirname(task.dest))
                 && a == Failed(task, NoWatermark) && e == Failed(task, MkdirFailed))
  {
  }
}
