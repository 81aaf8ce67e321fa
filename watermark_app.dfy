/** The batch watermarking tool as found under `app/`: configuration with
    defaults, the per-file pipeline (load, place, composite with alpha, make
    the directory, save), and the per-root chain that processes the accepted
    files one after another in walk order, catching each file's error. */
module Watermark {
  import opened Wrappers
  import opened Geometry
  import opened Paths
  import opened ImageFiles

  /** The options the command line supplied; `None` means not given. */
  datatype Options = Options(
    watermark: Option<string>,
    width: Option<real>, height: Option<real>,
    hpos: Option<real>, vpos: Option<real>,
    alpha: Option<real>,
    output: Option<Path>)

  /** The merged configuration; percentages as numbers (50 means half). */
  datatype Config = Config(
    watermark: string,
    width: real, height: real,
    hpos: real, vpos: real,
    alpha: real,
    output: Path)

  datatype ConfigError = MissingWatermark

  function PercentsOf(cfg: Config): Percents
  {
    Percents(cfg.width, cfg.height, cfg.hpos, cfg.vpos)
  }

  /** `Object.assign(defaults, options)` for one key: a supplied option wins. */
  function Pick<T>(given: Option<T>, default: T): T
  {
    if given.Some? then given.value else default
  }

  /** The defaults merged with the supplied options; a missing watermark is
      the one error. */
  function BuildConfig(o: Options): (r: Result<Config, ConfigError>)
    ensures r.Err? <==> o.watermark.None?
    ensures r.Err? ==> r.error == MissingWatermark
    ensures r.Ok? ==> r.value.watermark == o.watermark.value
  {
    if o.watermark.None? then Err(MissingWatermark)
    else Ok(Config(
      o.watermark.value,
      Pick(o.width, 100.0), Pick(o.height, 100.0),
      Pick(o.hpos, 50.0), Pick(o.vpos, 50.0),
      Pick(o.alpha, 100.0),
      Pick(o.output, ["watermarked"])))
  }

  /** Every key the user leaves out takes its default, whatever else is
      given: 100 % width and height, centred, fully opaque, into
      `watermarked`. */
  lemma Defaults(o: Options)
    requires o.watermark.Some?
    ensures var c := BuildConfig(o).value;
      && (o.width.None? ==> c.width == 100.0)
      && (o.height.None? ==> c.height == 100.0)
      && (o.hpos.None? ==> c.hpos == 50.0)
      && (o.vpos.None? ==> c.vpos == 50.0)
      && (o.alpha.None? ==> c.alpha == 100.0)
      && (o.output.None? ==> c.output == ["watermarked"])
  {
  }

  /** Every supplied option overrides its default. */
  lemma OptionsOverride(o: Options)
    requires o.watermark.Some?
    ensures var c := BuildConfig(o).value;
      && (o.width.Some? ==> c.width == o.width.value)
      && (o.height.Some? ==> c.height == o.height.value)
      && (o.hpos.Some? ==> c.hpos == o.hpos.value)
      && (o.vpos.Some? ==> c.vpos == o.vpos.value)
      && (o.alpha.Some? ==> c.alpha == o.alpha.value)
      && (o.output.Some? ==> c.output == o.output.value)
  {
  }

  /** One link of the chain: load the source, place and composite the
      watermark, make the destination directory, save. A failed load, a
      missing watermark (its size is undefined, so using it fails for every
      file that loads), a failed `mkdirp` and an encoder error are caught and
      end this file only; a destination that cannot be written ends the
      whole process. */
  function ProcessFile(cfg: Config, wm: Option<WatermarkSize>, task: FileTask, env: Env): (r: Outcome)
    ensures r.task == task
    ensures r.Written? <==>
      env.load(task.source).Some? && wm.Some? && env.mkdir(Dirname(task.dest))
      && env.write(task.dest) && env.encode(task.dest)
    ensures r.Crashed? <==>
      env.load(task.source).Some? && wm.Some? && env.mkdir(Dirname(task.dest)) && !env.write(task.dest)
  {
    match env.load(task.source)
    case None => Failed(task, LoadFailed)
    case Some(img) =>
      match wm
      case None => Failed(task, NoWatermark)
      case Some(w) =>
        if !env.mkdir(Dirname(task.dest)) then Failed(task, MkdirFailed)
        else if !env.write(task.dest) then Crashed(task)
        else if !env.encode(task.dest) then Failed(task, EncodeFailed)
        else Written(task, Composite(img, w, PercentsOf(cfg), ParsePercent(cfg.alpha), GetStream(task.dest)))
  }

  /** What a written file holds: the placement of the configured percentages
      and the configured opacity. */
  lemma WrittenImage(cfg: Config, wm: Option<WatermarkSize>, task: FileTask, env: Env)
    requires ProcessFile(cfg, wm, task, env).Written?
    ensures var c := ProcessFile(cfg, wm, task, env).image;
      && c.size == env.load(task.source).value
      && c.Where() == PlaceByPercent(c.size, wm.value, cfg.width, cfg.height, cfg.hpos, cfg.vpos)
      && c.alpha == cfg.alpha / 100.0
      && c.encoder == GetStream(task.dest)
  {
  }

  /** Whether a log ends with a crash, after which nothing more happens. */
  predicate Halted(log: seq<Outcome>)
  {
    |log| > 0 && log[|log| - 1].Crashed?
  }

  /** The outcomes of one root's chain, file by file in walk order, up to
      the first file whose destination cannot be written. */
  function RootOutcomes(cfg: Config, wm: Option<WatermarkSize>, root: Path, files: seq<Path>, env: Env): seq<Outcome>
  {
    if |files| == 0 then []
    else
      var prev := RootOutcomes(cfg, wm, root, files[..|files| - 1], env);
      var last := files[|files| - 1];
      if Halted(prev) || !IsImageFile(last) then prev
      else prev + [ProcessFile(cfg, wm, TaskFor(env.cwd, cfg.output, root, last), env)]
  }

  /** The chain yields one outcome per accepted file, in walk order, each
      what processing that file on its own yields; only a crash cuts the log
      short, and then the crash is its last entry. So an earlier file's
      caught failure neither stops nor changes a later file. */
  lemma {:induction false} OneOutcomePerAcceptedFile(cfg: Config, wm: Option<WatermarkSize>, root: Path, files: seq<Path>, env: Env)
    ensures var log, acc := RootOutcomes(cfg, wm, root, files, env), Accepted(files);
      && |log| <= |acc|
      && (forall i :: 0 <= i < |log| ==> log[i] == ProcessFile(cfg, wm, TaskFor(env.cwd, cfg.output, root, acc[i]), env))
      && (forall i :: 0 <= i < |log| - 1 ==> !log[i].Crashed?)
      && (|log| < |acc| ==> Halted(log))
  {
    if |files| > 0 {
      var front, last := files[..|files| - 1], files[|files| - 1];
      OneOutcomePerAcceptedFile(cfg, wm, root, front, env);
      var prev, acc := RootOutcomes(cfg, wm, root, front, env), Accepted(front);
      assert Accepted(files) == acc + (if IsImageFile(last) then [last] else []);
      if !Halted(prev) && IsImageFile(last) {
        assert |prev| == |acc|;
        var o := ProcessFile(cfg, wm, TaskFor(env.cwd, cfg.output, root, last), env);
        assert RootOutcomes(cfg, wm, root, files, env) == prev + [o];
        assert Accepted(files) == acc + [last];
        AppendOutcome(cfg, wm, root, env, prev, acc, last);
      }
    }
  }

  /** One step of the chain: an outcome for the next accepted file extends a
      log that matches the earlier files and has not crashed. */
  lemma AppendOutcome(cfg: Config, wm: Option<WatermarkSize>, root: Path, env: Env,
                      prev: seq<Outcome>, acc: seq<Path>, last: Path)
    requires |prev| == |acc| && !Halted(prev)
    requires forall i :: 0 <= i < |prev| ==> prev[i] == ProcessFile(cfg, wm, TaskFor(env.cwd, cfg.output, root, acc[i]), env)
    requires forall i :: 0 <= i < |prev| - 1 ==> !prev[i].Crashed?
    ensures var log, acc' := prev + [ProcessFile(cfg, wm, TaskFor(env.cwd, cfg.output, root, last), env)], acc + [last];
      && (forall i :: 0 <= i < |log| ==> log[i] == ProcessFile(cfg, wm, TaskFor(env.cwd, cfg.output, root, acc'[i]), env))
      && (forall i :: 0 <= i < |log| - 1 ==> !log[i].Crashed?)
  {
  }

  /** When no accepted file's destination is unwritable, every accepted
      file gets its outcome. */
  lemma EveryFileWithoutCrash(cfg: Config, wm: Option<WatermarkSize>, root: Path, files: seq<Path>, env: Env)
    requires forall i :: 0 <= i < |Accepted(files)| ==>
      !ProcessFile(cfg, wm, TaskFor(env.cwd, cfg.output, root, Accepted(files)[i]), env).Crashed?
    ensures |RootOutcomes(cfg, wm, root, files, env)| == |Accepted(files)|
  {
    OneOutcomePerAcceptedFile(cfg, wm, root, files, env);
  }

  /** Once the log ends in a crash, later files add nothing. */
  lemma {:induction false} HaltedStays(cfg: Config, wm: Option<WatermarkSize>, root: Path, files: seq<Path>, env: Env, i: nat)
    requires i <= |files| && Halted(RootOutcomes(cfg, wm, root, files[..i], env))
    ensures RootOutcomes(cfg, wm, root, files, env) == RootOutcomes(cfg, wm, root, files[..i], env)
    decreases |files| - i
  {
    if i < |files| {
      assert files[..i + 1][..i] == files[..i];
      HaltedStays(cfg, wm, root, files, env, i + 1);
    } else {
      assert files[..i] == files;
    }
  }

  /** The per-root loop: `prev = prev.then(...)` for each accepted file, so the
      files run strictly one after another in walk order; the chain's result
      is the log of outcomes. A crash ends the process, and with it the loop. */
  method ProcessRoot(cfg: Config, wm: Option<WatermarkSize>, root: Path, files: seq<Path>, env: Env)
    returns (log: seq<Outcome>)
    ensures log == RootOutcomes(cfg, wm, root, files, env)
    ensures |log| <= |Accepted(files)|
    ensures forall i :: 0 <= i < |log| ==>
      log[i] == ProcessFile(cfg, wm, TaskFor(env.cwd, cfg.output, root, Accepted(files)[i]), env)
    ensures |log| < |Accepted(files)| ==> Halted(log)
  {
    log := [];
    var i := 0;
    while i < |files|
      invariant i <= |files|
      invariant log == RootOutcomes(cfg, wm, root, files[..i], env)
    {
      if Halted(log) {
        HaltedStays(cfg, wm, root, files, env, i);
        break;
      }
      assert files[..i + 1][..i] == files[..i];
      var file := files[i];
      i := i + 1;
      if !IsImageFile(file) {
        continue;
      }
      log := log + [ProcessFile(cfg, wm, TaskFor(env.cwd, cfg.output, root, file), env)];
    }
    if i == |files| {
      assert files[..|files|] == files;
    }
    OneOutcomePerAcceptedFile(cfg, wm, root, files, env);
  }

  /** Three accepted files where only the second cannot be read: the first
      and third are written and the second is reported once as a load failure. */
  lemma PartialFailure(cfg: Config, w: WatermarkSize, root: Path, a: Path, b: Path, c: Path, env: Env)
    requires IsImageFile(a) && IsImageFile(b) && IsImageFile(c)
    requires env.load(a).Some? && env.load(b).None? && env.load(c).Some?
    requires var d := OutputPath(env.cwd, cfg.output, root, a); env.mkdir(Dirname(d)) && env.write(d) && env.encode(d)
    requires var d := OutputPath(env.cwd, cfg.output, root, c); env.mkdir(Dirname(d)) && env.write(d) && env.encode(d)
    ensures var log := RootOutcomes(cfg, Some(w), root, [a, b, c], env);
      && |log| == 3
      && log[0].Written? && log[0].task.source == a
      && log[1] == Failed(TaskFor(env.cwd, cfg.output, root, b), LoadFailed)
      && log[2].Written? && log[2].task.source == c
  {
    AcceptedOfImages([a, b, c]);
    EveryFileWithoutCrash(cfg, Some(w), root, [a, b, c], env);
    OneOutcomePerAcceptedFile(cfg, Some(w), root, [a, b, c], env);
  }

  /** A walk that failed (`None`) schedules nothing for its root. */
  function WalkOutcomes(cfg: Config, wm: Option<WatermarkSize>, root: Path, walk: Option<seq<Path>>, env: Env): seq<Outcome>
  {
    if walk.None? then [] else RootOutcomes(cfg, wm, root, walk.value, env)
  }

  /** The whole run: a missing watermark option stops it before anything
      happens; otherwise the watermark is loaded once (its failure is logged
      and the run goes on) and every root's chain runs. Roots run
      concurrently in the tool; here each root's log is kept separately. */
  method Run(opts: Options, wmLoad: Option<WatermarkSize>, roots: seq<Path>, walks: seq<Option<seq<Path>>>, env: Env)
    returns (r: Result<seq<seq<Outcome>>, ConfigError>)
    requires |walks| == |roots|
    ensures r.Err? <==> opts.watermark.None?
    ensures r.Ok? ==> |r.value| == |roots| && forall k :: 0 <= k < |roots| ==>
      r.value[k] == WalkOutcomes(BuildConfig(opts).value, wmLoad, roots[k], walks[k], env)
  {
    var cfg := BuildConfig(opts);
    if cfg.Err? {
      return Err(cfg.error);
    }
    var logs: seq<seq<Outcome>> := [];
    for k := 0 to |roots|
      invariant |logs| == k
      invariant forall j :: 0 <= j < k ==> logs[j] == WalkOutcomes(cfg.value, wmLoad, roots[j], walks[j], env)
    {
      var log: seq<Outcome> := [];
      if walks[k].Some? {
        log := ProcessRoot(cfg.value, wmLoad, roots[k], walks[k].value, env);
      }
      logs := logs + [log];
    }
    return Ok(logs);
  }

  /** A watermark that fails to load does not stop the run: every accepted
      file still gets its own outcome, a failure that names the cause. */
  lemma NoFailFastOnWatermark(cfg: Config, root: Path, files: seq<Path>, env: Env)
    ensures var log := RootOutcomes(cfg, None, root, files, env);
      && |log| == |Accepted(files)|
      && forall i :: 0 <= i < |log| ==>
           log[i].Failed? && log[i].task.source == Accepted(files)[i]
           && log[i].failure == (if env.load(Accepted(files)[i]).Some? then NoWatermark else LoadFailed)
  {
    EveryFileWithoutCrash(cfg, None, root, files, env);
    OneOutcomePerAcceptedFile(cfg, None, root, files, env);
  }
}
