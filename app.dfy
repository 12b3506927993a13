/**
 * app.py: the background worker that takes upload tasks off the processing queue and records
 * their progress, the registry of processed files, file deletion and the extension check.
 *
 * Files on disk are the set of existing paths; `socketio.emit` appends to an event log; what the
 * video pipeline does for a task (its progress calls, its verdict, whether it left an output
 * file, and whether saving the registry raised) is a `Run` passed in.
 */
module App {

  import opened Wrappers
  import opened PyText
  import Arith

  /** `ALLOWED_EXTENSIONS` (`config.ALLOWED_EXTENSIONS`). */
  const AllowedExtensions: set<string> := {"mp4", "avi", "mov", "mkv", "wmv", "flv", "webm"}

  /** `PROCESSED_FOLDER` with no environment override. */
  const ProcessedFolder: string := "processed"

  // ---------------------------------------------------------------------------------------
  // allowed_file and paths

  /** `allowed_file`: `'.' in filename and filename.rsplit('.', 1)[1].lower() in ALLOWED_EXTENSIONS`. */
  function AllowedFile(filename: string): (ok: bool)
    ensures ok ==> '.' in filename
  {
    '.' in filename && Lower(AfterLast(filename, '.')) in AllowedExtensions
  }

  /** A name is allowed exactly when the text after its last dot lowers to an allowed extension. */
  lemma AllowedFileMeans(filename: string)
    ensures AllowedFile(filename) <==> exists k | 0 <= k < |filename| ::
      filename[k] == '.' && '.' !in filename[k + 1..] && Lower(filename[k + 1..]) in AllowedExtensions
  {
    LastExtensionIn(filename, AllowedExtensions);
  }

  /** The lowered text after the last dot is in `exts` iff some dot with no dot after it is followed by such a text. */
  lemma LastExtensionIn(filename: string, exts: set<string>)
    ensures ('.' in filename && Lower(AfterLast(filename, '.')) in exts) <==> exists k | 0 <= k < |filename| ::
      filename[k] == '.' && '.' !in filename[k + 1..] && Lower(filename[k + 1..]) in exts
  {
    if '.' in filename {
      var r := AfterLast(filename, '.');
      var k := |filename| - |r| - 1;
      assert filename[k] == '.' && filename[k + 1..] == r && '.' !in r;
      if Lower(r) !in exts {
        forall j | 0 <= j < |filename| && filename[j] == '.' && '.' !in filename[j + 1..]
          ensures Lower(filename[j + 1..]) !in exts
        {
          LastDotUnique(filename, j, k);
        }
      }
    } else {
      forall j | 0 <= j < |filename|
        ensures filename[j] != '.'
      {
        assert filename[j] in filename;
      }
    }
  }

  /** Two dots with no dot after either are the same dot. */
  lemma LastDotUnique(s: string, j: nat, k: nat)
    requires j < |s| && k < |s| && s[j] == '.' && s[k] == '.'
    requires '.' !in s[j + 1..] && '.' !in s[k + 1..]
    ensures j == k
  {
    assert forall i | j < i < |s| :: s[i] == s[j + 1..][i - j - 1];
    assert forall i | k < i < |s| :: s[i] == s[k + 1..][i - k - 1];
  }

  /** Only the text after the last dot matters, in any case: "clip.MKV" is allowed, "clip.mkv.exe" is not. */
  lemma AllowedByExtension(stem: string, ext: string)
    requires '.' !in ext
    ensures AllowedFile(stem + "." + ext) <==> Lower(ext) in AllowedExtensions
  {
    var f := stem + "." + ext;
    assert f[|stem|] == '.' && f[|stem| + 1..] == ext;
  }

  /** `os.path.basename`: what follows the last '/'. */
  function Basename(path: string): (name: string)
    ensures '/' !in name && |name| <= |path| && name == path[|path| - |name|..]
    ensures |name| < |path| ==> path[|path| - |name| - 1] == '/'
  {
    AfterLast(path, '/')
  }

  /** `os.path.join(folder, name)` for a relative folder and a name without '/'. */
  function Join(folder: string, name: string): string {
    folder + "/" + name
  }

  /** The processed file `delete_file` removes is the output the worker wrote. */
  lemma JoinBasename(folder: string, name: string)
    requires '/' !in name
    ensures Basename(Join(folder, name)) == name
    ensures Join(folder, Basename(Join(folder, name))) == Join(folder, name)
  {
    var p := Join(folder, name);
    var b := Basename(p);
    assert p[|folder|] == '/' && p[|folder| + 1..] == name;
  }

  // ---------------------------------------------------------------------------------------
  // Records

  /** One entry of the queue: the dict `upload_file` puts. */
  datatype Task = Task(id: string, inputPath: string, outputPath: string, text: string,
                       strength: real, originalFilename: string)

  datatype State = Queued | Processing | Completed | Error

  /** The `message` field; the progress message's text is left as its numbers. */
  datatype Message = QueuedForProcessing | Initializing | FrameProgress(frame: int, total: int)
                   | CompletedSuccessfully | ProcessingFailed | Crashed(reason: string)

  /** A `processing_status` record. */
  datatype Status = Status(taskId: string, state: State, progress: int, message: Message)

  /** A `file_registry` entry; `processed_date` (the clock) is left out. */
  datatype FileInfo = FileInfo(id: string, originalFilename: string, processedFilename: string,
                               text: string, strength: real, size: int)

  /**
   * What `embed_watermark_in_video` did for a task: the progress calls (frame, total), its
   * verdict, whether it left a file at the output path, that file's size, and what
   * `save_file_registry` raised, if anything.
   */
  datatype Run = Run(calls: seq<(int, int)>, success: bool, outputWritten: bool, outputSize: int,
                     saveError: Option<string>)

  /** The pipeline never reports a total of 0 frames, and reports success only with an output file. */
  predicate WellFormedRun(run: Run) {
    (forall i | 0 <= i < |run.calls| :: run.calls[i].1 != 0) && (run.success ==> run.outputWritten)
  }

  /** `int(x)` on a float: truncation toward zero. */
  function Trunc(x: real): (n: int)
    ensures x >= 0.0 ==> n as real <= x < n as real + 1.0
    ensures x < 0.0 ==> n as real - 1.0 < x <= n as real
  {
    if x >= 0.0 then x.Floor else -((-x).Floor)
  }

  /** `int((frame_num / total_frames) * 100)`, on exact reals. */
  function Percent(frame: int, total: int): int
    requires total != 0
  {
    Trunc((frame as real / total as real) * 100.0)
  }

  /** For 0 <= frame <= total the percentage lies in [0, 100], grows with the frame and ends at 100. */
  lemma PercentBounds(frame: int, frame': int, total: int)
    requires 0 <= frame <= frame' <= total && total > 0
    ensures 0 <= Percent(frame, total) <= Percent(frame', total) <= 100
    ensures Percent(total, total) == 100
  {
    var t := total as real;
    var a, b := frame as real / t, frame' as real / t;
    FractionMono(frame as real, frame' as real, t);
    FractionMono(frame' as real, t, t);
    SelfRatio(t);
    assert 0.0 <= a * 100.0 <= b * 100.0 <= 100.0;
    TruncMono(a * 100.0, b * 100.0);
    TruncMono(b * 100.0, 100.0);
  }

  /** Dividing by a positive number keeps the order. */
  lemma FractionMono(x: real, y: real, t: real)
    requires 0.0 <= x <= y && t > 0.0
    ensures 0.0 <= x / t <= y / t
  {
    var p, q := x / t, y / t;
    assert p * t == x && (q - p) * t == y - x;
  }

  /** A positive number divided by itself is 1. */
  lemma SelfRatio(t: real)
    requires t > 0.0
    ensures t / t == 1.0
  {
    var p := t / t;
    assert p * t == t;
    assert (p - 1.0) * t == 0.0;
  }

  /** `int()` keeps the order of non-negative values. */
  lemma TruncMono(x: real, y: real)
    requires 0.0 <= x <= y
    ensures 0 <= Trunc(x) <= Trunc(y)
  {
  }

  /** The record a progress call writes. */
  function ProgressStatus(id: string, call: (int, int)): Status
    requires call.1 != 0
  {
    Status(id, Processing, Percent(call.0, call.1), FrameProgress(call.0, call.1))
  }

  /** The record the task ends with. */
  function FinalStatus(t: Task, run: Run): (s: Status)
    ensures s.taskId == t.id && s.state in {Completed, Error}
    ensures s.state == Completed <==> run.success && run.saveError.None?
    ensures s.progress == if s.state == Completed then 100 else 0
  {
    if !run.success then Status(t.id, Error, 0, ProcessingFailed)
    else if run.saveError.Some? then Status(t.id, Error, 0, Crashed(run.saveError.value))
    else Status(t.id, Completed, 100, CompletedSuccessfully)
  }

  /** The registry entry of a completed task. */
  function Info(t: Task, run: Run): (info: FileInfo)
    ensures info.id == t.id && info.processedFilename == Basename(t.outputPath)
  {
    FileInfo(t.id, t.originalFilename, Basename(t.outputPath), t.text, t.strength, run.outputSize)
  }

  /** The records the progress calls emit, in order. */
  function ProgressEvents(id: string, calls: seq<(int, int)>): (events: seq<Status>)
    requires forall i | 0 <= i < |calls| :: calls[i].1 != 0
    ensures |events| == |calls|
    ensures forall i | 0 <= i < |events| :: events[i] == ProgressStatus(id, calls[i])
  {
    if calls == [] then []
    else ProgressEvents(id, calls[..|calls| - 1]) + [ProgressStatus(id, calls[|calls| - 1])]
  }

  /** The records emitted for a task: the initial one, one per progress call, and the last one. */
  function Emitted(t: Task, run: Run): (events: seq<Status>)
    requires WellFormedRun(run)
    ensures |events| == |run.calls| + 2
    ensures forall i | 0 <= i < |events| :: events[i].taskId == t.id
    ensures events[0] == Status(t.id, Processing, 0, Initializing)
    ensures events[|events| - 1] == FinalStatus(t, run)
  {
    [Status(t.id, Processing, 0, Initializing)] + ProgressEvents(t.id, run.calls) + [FinalStatus(t, run)]
  }

  /** The files left on disk after a task: input removed, output removed too when the task crashed. */
  function FilesAfter(files: set<string>, t: Task, run: Run): (r: set<string>)
    requires WellFormedRun(run)
    ensures t.inputPath !in r
    ensures run.success && run.saveError.None? && t.outputPath != t.inputPath ==> t.outputPath in r
    ensures run.success && run.saveError.Some? ==> t.outputPath !in r
    ensures r <= files + {t.outputPath}
  {
    var written := if run.outputWritten then files + {t.outputPath} else files;
    if run.success && run.saveError.Some? then written - {t.inputPath, t.outputPath}
    else written - {t.inputPath}
  }

  /**
   * The tasks the worker takes from `queue`, in order: every entry up to the first `None`
   * sentinel, which ends the loop.
   */
  function Taken(queue: seq<Option<Task>>): (ts: seq<Task>)
    ensures |ts| <= |queue|
    ensures None in queue <==> |ts| < |queue|
  {
    if queue == [] || queue[0].None? then []
    else
      var rest := Taken(queue[1..]);
      assert None in queue[1..] ==> None in queue;
      assert None in queue ==> None in queue[1..] by {
        if None in queue { var i :| 0 <= i < |queue| && queue[i] == None; assert queue[1..][i - 1] == None; }
      }
      [queue[0].value] + rest
  }

  /** The tasks taken are the entries before the first sentinel, which is where they stop. */
  lemma {:induction false} TakenMeans(queue: seq<Option<Task>>)
    ensures forall i | 0 <= i < |Taken(queue)| :: queue[i] == Some(Taken(queue)[i])
    ensures |Taken(queue)| < |queue| ==> queue[|Taken(queue)|] == None
  {
    if queue != [] && queue[0].Some? {
      TakenMeans(queue[1..]);
    }
  }

  /** The ids of the tasks, in order. */
  function Ids(ts: seq<Task>): (ids: seq<string>)
    ensures |ids| == |ts| && forall i | 0 <= i < |ts| :: ids[i] == ts[i].id
  {
    seq(|ts|, i requires 0 <= i < |ts| => ts[i].id)
  }

  /** Ids of the tasks before the first `None` sentinel. */
  function TaskIds(queue: seq<Option<Task>>): seq<string> {
    Ids(Taken(queue))
  }

  /** The status map once every task of `ts` has finished, one after the other. */
  function Statuses(status: map<string, Status>, ts: seq<Task>, outcome: Task -> Run): map<string, Status> {
    if ts == [] then status
    else
      var t := ts[|ts| - 1];
      Statuses(status, ts[..|ts| - 1], outcome)[t.id := FinalStatus(t, outcome(t))]
  }

  /** The registry once every task of `ts` has finished: one entry per successful task. */
  function Registered(registry: map<string, FileInfo>, ts: seq<Task>, outcome: Task -> Run): map<string, FileInfo> {
    if ts == [] then registry
    else
      var t := ts[|ts| - 1];
      var r := Registered(registry, ts[..|ts| - 1], outcome);
      if outcome(t).success then r[t.id := Info(t, outcome(t))] else r
  }

  /** The files on disk once every task of `ts` has finished. */
  function FilesAfterAll(files: set<string>, ts: seq<Task>, outcome: Task -> Run): set<string>
    requires forall t: Task :: WellFormedRun(outcome(t))
  {
    if ts == [] then files
    else
      var t := ts[|ts| - 1];
      FilesAfter(FilesAfterAll(files, ts[..|ts| - 1], outcome), t, outcome(t))
  }

  /** The records emitted for the tasks of `ts`: each task's records in turn, in queue order. */
  function EventsOf(ts: seq<Task>, outcome: Task -> Run): seq<Status>
    requires forall t: Task :: WellFormedRun(outcome(t))
  {
    if ts == [] then []
    else
      var t := ts[|ts| - 1];
      EventsOf(ts[..|ts| - 1], outcome) + Emitted(t, outcome(t))
  }

  /** Each task's final record is the last one filed under its id, so with distinct ids every task keeps its own. */
  lemma {:induction false} StatusesAt(status: map<string, Status>, ts: seq<Task>, outcome: Task -> Run, i: nat)
    requires i < |ts| && forall j, k | 0 <= j < k < |ts| :: ts[j].id != ts[k].id
    ensures ts[i].id in Statuses(status, ts, outcome)
    ensures Statuses(status, ts, outcome)[ts[i].id] == FinalStatus(ts[i], outcome(ts[i]))
    decreases |ts|
  {
    if i < |ts| - 1 {
      StatusesAt(status, ts[..|ts| - 1], outcome, i);
    }
  }

  /** Ids of no task taken keep their record. */
  lemma {:induction false} StatusesElsewhere(status: map<string, Status>, ts: seq<Task>, outcome: Task -> Run, k: string)
    requires k !in Ids(ts)
    ensures k in Statuses(status, ts, outcome) <==> k in status
    ensures k in status ==> Statuses(status, ts, outcome)[k] == status[k]
    decreases |ts|
  {
    if ts != [] {
      var front := ts[..|ts| - 1];
      assert Ids(front) == Ids(ts)[..|ts| - 1];
      assert k != Ids(ts)[|ts| - 1];
      StatusesElsewhere(status, front, outcome, k);
    }
  }

  // ---------------------------------------------------------------------------------------
  // The worker

  class Worker {
    var queue: seq<Option<Task>>
    var status: map<string, Status>
    var registry: map<string, FileInfo>
    var files: set<string>
    /** `socketio.emit('processing_update', ...)` calls, in order. */
    var events: seq<Status>
    /** Ids of the tasks the worker took, in the order it took them. */
    var started: seq<string>
    /** `processing_queue.task_done()` calls. */
    var tasksDone: nat
    /** The loop has met the `None` sentinel. */
    var stopped: bool

    /** Every record is filed under its own task id. */
    predicate Valid()
      reads this
    {
      (forall k | k in status :: status[k].taskId == k) && (forall k | k in registry :: registry[k].id == k)
    }

    /** Start-up: an empty queue and status map, the registry loaded from disk. */
    constructor(loaded: map<string, FileInfo>, existing: set<string>)
      requires forall k | k in loaded :: loaded[k].id == k
      ensures Valid()
      ensures queue == [] && status == map[] && registry == loaded && files == existing
      ensures events == [] && started == [] && tasksDone == 0 && !stopped
    {
      queue, status, registry, files := [], map[], loaded, existing;
      events, started, tasksDone, stopped := [], [], 0, false;
    }

    /**
     * The effect of `upload_file` for one accepted file, taken as one step: the input is on
     * disk, the task is queued and its status is 'queued'.
     */
    method Submit(t: Task)
      requires Valid()
      modifies this
      ensures Valid()
      ensures queue == old(queue) + [Some(t)]
      ensures status == old(status)[t.id := Status(t.id, Queued, 0, QueuedForProcessing)]
      ensures files == old(files) + {t.inputPath}
      ensures registry == old(registry) && events == old(events) && started == old(started)
      ensures tasksDone == old(tasksDone) && stopped == old(stopped)
    {
      files := files + {t.inputPath};
      queue := queue + [Some(t)];
      status := status[t.id := Status(t.id, Queued, 0, QueuedForProcessing)];
    }

    /** `processing_queue.put(None)`: the sentinel that ends the worker loop. */
    method Shutdown()
      modifies this
      ensures queue == old(queue) + [None]
      ensures status == old(status) && registry == old(registry) && files == old(files)
      ensures events == old(events) && started == old(started) && tasksDone == old(tasksDone) && stopped == old(stopped)
    {
      queue := queue + [None];
    }

    /** Sets the status record of `id` and emits it. */
    method Report(s: Status)
      modifies this
      ensures status == old(status)[s.taskId := s] && events == old(events) + [s]
      ensures queue == old(queue) && registry == old(registry) && files == old(files)
      ensures started == old(started) && tasksDone == old(tasksDone) && stopped == old(stopped)
    {
      status := status[s.taskId := s];
      events := events + [s];
    }

    /**
     * The body of the worker's `try` for one task: report 'processing', relay the progress
     * calls, then record success (registry entry, 'completed') or failure ('error'), and remove
     * the input; when saving the registry raises, the handler reports the error and removes the
     * input and the output, while the registry entry stays.
     */
    method Process(t: Task, run: Run)
      requires Valid() && WellFormedRun(run)
      modifies this
      ensures Valid()
      ensures status == old(status)[t.id := FinalStatus(t, run)]
      ensures registry == if run.success then old(registry)[t.id := Info(t, run)] else old(registry)
      ensures files == FilesAfter(old(files), t, run)
      ensures events == old(events) + Emitted(t, run)
      ensures queue == old(queue) && started == old(started) && tasksDone == old(tasksDone) && stopped == old(stopped)
    {
      Report(Status(t.id, Processing, 0, Initializing));
      Relay(t.id, run.calls);
      Conclude(t, run);
    }

    /** `progress_callback` for each call, in order: each one sets and emits a 'processing' record. */
    method Relay(id: string, calls: seq<(int, int)>)
      requires forall i | 0 <= i < |calls| :: calls[i].1 != 0
      requires id in status
      modifies this
      ensures id in status && status == old(status)[id := status[id]]
      ensures events == old(events) + ProgressEvents(id, calls)
      ensures queue == old(queue) && registry == old(registry) && files == old(files)
      ensures started == old(started) && tasksDone == old(tasksDone) && stopped == old(stopped)
    {
      var i := 0;
      while i < |calls|
        invariant 0 <= i <= |calls|
        invariant id in status && status == old(status)[id := status[id]]
        invariant events == old(events) + ProgressEvents(id, calls[..i])
        invariant queue == old(queue) && registry == old(registry) && files == old(files)
        invariant started == old(started) && tasksDone == old(tasksDone) && stopped == old(stopped)
      {
        Report(ProgressStatus(id, calls[i]));
        assert calls[..i + 1][..i] == calls[..i];
        i := i + 1;
      }
      assert calls[..i] == calls;
    }

    /** What follows the pipeline's verdict: registry, final record, and file removal. */
    method Conclude(t: Task, run: Run)
      requires WellFormedRun(run)
      modifies this
      ensures status == old(status)[t.id := FinalStatus(t, run)]
      ensures registry == if run.success then old(registry)[t.id := Info(t, run)] else old(registry)
      ensures files == FilesAfter(old(files), t, run)
      ensures events == old(events) + [FinalStatus(t, run)]
      ensures queue == old(queue) && started == old(started) && tasksDone == old(tasksDone) && stopped == old(stopped)
    {
      if run.outputWritten {
        files := files + {t.outputPath};
      }
      if run.success {
        registry := registry[t.id := Info(t, run)];
      }
      // the outcome record, or the handler's record when saving the registry raised
      Report(FinalStatus(t, run));
      if run.success && run.saveError.Some? {
        files := files - {t.inputPath, t.outputPath};
      } else {
        files := files - {t.inputPath};
      }
    }

    /**
     * One pass of the `while True` loop of `process_video_worker`: take the next entry; stop on
     * the sentinel; otherwise process the task. `task_done` runs either way.
     */
    method Step(run: Run)
      requires Valid() && !stopped && queue != [] && WellFormedRun(run)
      modifies this
      ensures Valid()
      ensures queue == old(queue[1..]) && tasksDone == old(tasksDone) + 1
      ensures old(queue[0]).None? ==>
        stopped && status == old(status) && registry == old(registry) && files == old(files) &&
        events == old(events) && started == old(started)
      ensures old(queue[0]).Some? ==>
        var t := old(queue[0]).value;
        !stopped && started == old(started) + [t.id] &&
        status == old(status)[t.id := FinalStatus(t, run)] &&
        registry == (if run.success then old(registry)[t.id := Info(t, run)] else old(registry)) &&
        files == FilesAfter(old(files), t, run) &&
        events == old(events) + Emitted(t, run)
    {
      var task := queue[0];
      queue := queue[1..];
      if task.None? {
        stopped := true;
      } else {
        started := started + [task.value.id];
        Process(task.value, run);
      }
      tasksDone := tasksDone + 1;
    }

    /**
     * `process_video_worker`: steps until the sentinel or until the queue is empty (where the
     * real worker would block). Tasks are taken strictly in queue order, each reaching its final
     * record before the next starts; the sentinel is consumed and whatever follows it stays queued.
     */
    method Run(outcome: Task -> Run)
      requires forall t: Task :: WellFormedRun(outcome(t))
      requires Valid() && !stopped
      modifies this
      ensures Valid()
      ensures started == old(started) + TaskIds(old(queue))
      ensures status == Statuses(old(status), Taken(old(queue)), outcome)
      ensures registry == Registered(old(registry), Taken(old(queue)), outcome)
      ensures files == FilesAfterAll(old(files), Taken(old(queue)), outcome)
      ensures events == old(events) + EventsOf(Taken(old(queue)), outcome)
      ensures None in old(queue) ==> stopped && queue == old(queue)[|Taken(old(queue))| + 1..]
      ensures None !in old(queue) ==> !stopped && queue == []
      ensures tasksDone == old(tasksDone) + (|old(queue)| - |queue|)
    {
      ghost var q0 := queue;
      ghost var ts, consumed := RunLoop(outcome);
      TakenWhenStopped(q0, consumed, stopped, ts);
    }

    /** The loop of `Run`: after it, `ts` are the tasks of the first `consumed` entries taken. */
    method RunLoop(outcome: Task -> Run) returns (ghost ts: seq<Task>, ghost consumed: nat)
      requires forall t: Task :: WellFormedRun(outcome(t))
      requires Valid() && !stopped
      modifies this
      ensures Valid() && (stopped || consumed == |old(queue)|)
      ensures TakenSoFar(old(queue), consumed, stopped, ts)
      ensures queue == old(queue)[consumed..] && tasksDone == old(tasksDone) + consumed
      ensures Reached(ts, old(status), old(registry), old(files), old(events), old(started), outcome)
    {
      ghost var q0 := queue;
      ghost var st0, reg0, files0, ev0, started0 := status, registry, files, events, started;
      consumed := 0;
      ts := [];
      while !stopped && queue != []
        invariant Valid()
        invariant 0 <= consumed <= |q0| && queue == q0[consumed..]
        invariant tasksDone == old(tasksDone) + consumed
        invariant Reached(ts, st0, reg0, files0, ev0, started0, outcome)
        invariant TakenSoFar(q0, consumed, stopped, ts)
        decreases |queue|, if stopped then 0 else 1
      {
        var next := queue[0];
        TakenStep(q0, consumed, ts);
        StepTracked(outcome, ts, st0, reg0, files0, ev0, started0);
        if next.Some? {
          ts := ts + [next.value];
        }
        consumed := consumed + 1;
      }
    }

    /** `Step` on the task `outcome` describes, seen as extending the tasks finished so far. */
    method StepTracked(outcome: Task -> Run, ghost ts: seq<Task>, ghost status0: map<string, Status>,
                       ghost registry0: map<string, FileInfo>, ghost files0: set<string>,
                       ghost events0: seq<Status>, ghost started0: seq<string>)
      requires forall t: Task :: WellFormedRun(outcome(t))
      requires Valid() && !stopped && queue != []
        requires Reached(ts, status0, registry0, files0, events0, started0, outcome)
      modifies this
      ensures Valid() && queue == old(queue[1..]) && tasksDone == old(tasksDone) + 1
      ensures old(queue[0]).None? ==> stopped && Reached(ts, status0, registry0, files0, events0, started0, outcome)
      ensures old(queue[0]).Some? ==>
        !stopped && Reached(ts + [old(queue[0]).value], status0, registry0, files0, events0, started0, outcome)
    {
      var next := queue[0];
      var t := if next.Some? then next.value else Task("", "", "", "", 0.0, "");
      RunExtend(status0, registry0, files0, ts, t, outcome);
      Arith.AppendAssociative(events0, EventsOf(ts, outcome), Emitted(t, outcome(t)));
      Arith.AppendAssociative(started0, Ids(ts), [t.id]);
      Step(outcome(t));
    }

    /** The worker's state after the tasks `ts` have finished, from the given starting state. */
    ghost predicate Reached(ts: seq<Task>, status0: map<string, Status>, registry0: map<string, FileInfo>,
                            files0: set<string>, events0: seq<Status>, started0: seq<string>, outcome: Task -> Run)
      requires forall t: Task :: WellFormedRun(outcome(t))
        reads this
    {
      status == Statuses(status0, ts, outcome) && registry == Registered(registry0, ts, outcome) &&
      files == FilesAfterAll(files0, ts, outcome) && events == events0 + EventsOf(ts, outcome) &&
      started == started0 + Ids(ts)
    }

    /**
     * `delete_file`: 404 and no change for an unknown id; otherwise the processed file and the
     * registry entry go, and every other entry stays.
     */
    method DeleteFile(fileId: string) returns (code: int)
      requires Valid()
      modifies this
      ensures Valid()
      ensures old(fileId !in registry) ==> code == 404 && registry == old(registry) && files == old(files)
      ensures old(fileId in registry) ==>
        code == 200 && old(registry[fileId]).id == fileId && registry == old(registry) - {fileId} &&
        files == old(files) - {Join(ProcessedFolder, old(registry[fileId]).processedFilename)}
      ensures queue == old(queue) && status == old(status) && events == old(events)
      ensures started == old(started) && tasksDone == old(tasksDone) && stopped == old(stopped)
    {
      if fileId !in registry {
        return 404;
      }
      var info := registry[fileId];
      var path := Join(ProcessedFolder, info.processedFilename);
      if path in files {
        files := files - {path};
      }
      registry := registry - {fileId};
      code := 200;
    }
  }

  /** Before any sentinel, one more entry adds its task, if it holds one, to the tasks taken. */
  lemma {:induction false} TakenAppend(q: seq<Option<Task>>, x: Option<Task>)
    requires None !in q
    ensures Taken(q + [x]) == Taken(q) + (if x.Some? then [x.value] else [])
  {
    if q == [] {
      assert [x][1..] == [];
    } else {
      assert (q + [x])[1..] == q[1..] + [x];
      assert None !in q[1..] by { assert forall y | y in q[1..] :: y in q; }
      TakenAppend(q[1..], x);
    }
  }

  /** A sentinel at `n` with none before it ends the tasks taken at `n`. */
  lemma TakenAtSentinel(q: seq<Option<Task>>, n: nat)
    requires n < |q| && q[n].None? && None !in q[..n]
    ensures Taken(q) == Taken(q[..n]) && |Taken(q)| == n
  {
    var ts, ps := Taken(q), Taken(q[..n]);
    TakenMeans(q);
    TakenMeans(q[..n]);
    assert forall i | 0 <= i < n :: q[..n][i] == q[i];
    assert |ts| == n;
    assert |ps| == n;
  }

  /**
   * The loop of `process_video_worker` after `consumed` entries of `q`: before the sentinel, `ts`
   * are the tasks of those entries; once it has met the sentinel, `ts` are all the tasks taken.
   */
  ghost predicate TakenSoFar(q: seq<Option<Task>>, consumed: nat, stopped: bool, ts: seq<Task>) {
    consumed <= |q| &&
    (!stopped ==> None !in q[..consumed] && ts == Taken(q[..consumed])) &&
    (stopped ==> None in q && consumed == |Taken(q)| + 1 && ts == Taken(q))
  }

  /** Taking entry `consumed`: a task joins `ts`; the sentinel stops the loop with `ts` complete. */
  lemma TakenStep(q: seq<Option<Task>>, consumed: nat, ts: seq<Task>)
    requires consumed < |q| && TakenSoFar(q, consumed, false, ts)
    ensures q[consumed].None? ==> TakenSoFar(q, consumed + 1, true, ts)
    ensures q[consumed].Some? ==> TakenSoFar(q, consumed + 1, false, ts + [q[consumed].value])
  {
    assert q[..consumed + 1] == q[..consumed] + [q[consumed]];
    TakenAppend(q[..consumed], q[consumed]);
    if q[consumed].None? {
      TakenAtSentinel(q, consumed);
    }
  }

  /** When the loop ends, on the sentinel or on an empty queue, `ts` are all the tasks taken. */
  lemma TakenWhenStopped(q: seq<Option<Task>>, consumed: nat, stopped: bool, ts: seq<Task>)
    requires TakenSoFar(q, consumed, stopped, ts) && (stopped || consumed == |q|)
    ensures ts == Taken(q) && (None in q <==> stopped)
    ensures stopped ==> consumed == |Taken(q)| + 1
  {
    if !stopped {
      assert q[..consumed] == q;
    }
  }

  /** One more finished task extends each part of the worker's state by that task's effect. */
  lemma RunExtend(status: map<string, Status>, registry: map<string, FileInfo>, files: set<string>,
                  ts: seq<Task>, t: Task, outcome: Task -> Run)
    requires forall u: Task :: WellFormedRun(outcome(u))
    ensures Statuses(status, ts + [t], outcome) == Statuses(status, ts, outcome)[t.id := FinalStatus(t, outcome(t))]
    ensures Registered(registry, ts + [t], outcome) ==
      if outcome(t).success then Registered(registry, ts, outcome)[t.id := Info(t, outcome(t))]
      else Registered(registry, ts, outcome)
    ensures FilesAfterAll(files, ts + [t], outcome) == FilesAfter(FilesAfterAll(files, ts, outcome), t, outcome(t))
    ensures EventsOf(ts + [t], outcome) == EventsOf(ts, outcome) + Emitted(t, outcome(t))
    ensures Ids(ts + [t]) == Ids(ts) + [t.id]
  {
    assert (ts + [t])[..|ts|] == ts;
    StatusesExtend(status, ts, t, outcome);
    RegisteredExtend(registry, ts, t, outcome);
    FilesExtend(files, ts, t, outcome);
    EventsExtend(ts, t, outcome);
  }

  lemma StatusesExtend(status: map<string, Status>, ts: seq<Task>, t: Task, outcome: Task -> Run)
    ensures Statuses(status, ts + [t], outcome) == Statuses(status, ts, outcome)[t.id := FinalStatus(t, outcome(t))]
  {
    assert (ts + [t])[..|ts|] == ts;
  }

  lemma RegisteredExtend(registry: map<string, FileInfo>, ts: seq<Task>, t: Task, outcome: Task -> Run)
    ensures Registered(registry, ts + [t], outcome) ==
      if outcome(t).success then Registered(registry, ts, outcome)[t.id := Info(t, outcome(t))]
      else Registered(registry, ts, outcome)
  {
    assert (ts + [t])[..|ts|] == ts;
  }

  lemma FilesExtend(files: set<string>, ts: seq<Task>, t: Task, outcome: Task -> Run)
    requires forall u: Task :: WellFormedRun(outcome(u))
    ensures FilesAfterAll(files, ts + [t], outcome) == FilesAfter(FilesAfterAll(files, ts, outcome), t, outcome(t))
  {
    assert (ts + [t])[..|ts|] == ts;
  }

  lemma EventsExtend(ts: seq<Task>, t: Task, outcome: Task -> Run)
    requires forall u: Task :: WellFormedRun(outcome(u))
    ensures EventsOf(ts + [t], outcome) == EventsOf(ts, outcome) + Emitted(t, outcome(t))
  {
    assert (ts + [t])[..|ts|] == ts;
  }

  /** A task's records never touch another task's status or registry entry. */
  lemma TaskIsolation(status: map<string, Status>, registry: map<string, FileInfo>, t: Task, run: Run, other: string)
    requires other != t.id
    ensures var s := status[t.id := FinalStatus(t, run)];
      (other in s <==> other in status) && (other in status ==> s[other] == status[other])
    ensures var r := if run.success then registry[t.id := Info(t, run)] else registry;
      (other in r <==> other in registry) && (other in registry ==> r[other] == registry[other])
  {
  }

  /** Deleting a completed task's file removes exactly the output the worker wrote. */
  lemma DeleteRemovesOutput(t: Task, run: Run, name: string)
    requires t.outputPath == Join(ProcessedFolder, name) && '/' !in name
    ensures Join(ProcessedFolder, Info(t, run).processedFilename) == t.outputPath
  {
    JoinBasename(ProcessedFolder, name);
  }
}
