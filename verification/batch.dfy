/**
 * The batch download of one forecast run (download_gfs): the directories of
 * the run, the forecast hours start, start + step, ... that do not pass the
 * end hour, and one acquisition task per hour.
 */
module Batch {
  import opened Optional
  import opened Decimal
  import opened Naming

  /** The arguments of one batch: the run's date and cycle, and the forecast hours. */
  datatype RunSpec = RunSpec(year: int, month: int, day: int, cycle: int, start: int, end: int, step: int)

  /** What a batch sets up: both directories of the run and the task of every hour. */
  datatype Plan = Plan(remoteDir: string, localDir: string, tasks: seq<Task>)

  /** Python's `int()` on a float: the integer part, truncated toward zero. */
  function Truncate(x: real): int
  {
    if x >= 0.0 then x.Floor else -((-x).Floor)
  }

  /** The truncated value brackets the float from below, or from above when it is negative. */
  lemma TruncateBracket(x: real)
    ensures x >= 0.0 ==> 0 <= Truncate(x) && Truncate(x) as real <= x < Truncate(x) as real + 1.0
    ensures x < 0.0 ==> Truncate(x) <= 0 && Truncate(x) as real - 1.0 < x <= Truncate(x) as real
  {
  }

  /**
   * The number of tasks: `int((end - start) / step + 1)` with true division;
   * `range` of a count below one is empty.
   */
  function HourCount(run: RunSpec): nat
    requires run.step != 0
  {
    var n := Truncate((run.end - run.start) as real / run.step as real + 1.0);
    if n < 0 then 0 else n
  }

  /** The k-th forecast hour of the batch. */
  function Hour(run: RunSpec, k: int): int
  {
    run.start + k * run.step
  }

  function TaskAt(run: RunSpec, k: int): Task
  {
    MakeTask(RemoteDir(run.year, run.month, run.day, run.cycle),
             LocalDir(run.year, run.month, run.day, run.cycle),
             run.cycle, Hour(run, k))
  }

  /** The tasks of the batch, in the order they are started. */
  function Tasks(run: RunSpec): seq<Task>
    requires run.step != 0
  {
    seq(HourCount(run), k => TaskAt(run, k))
  }

  /** Floor division and multiplication agree on which multiples fit. */
  lemma MultipleFits(k: int, a: int, s: int)
    requires s > 0
    ensures k <= a / s <==> k * s <= a
  {
    var q, r := a / s, a % s;
    assert a == q * s + r && 0 <= r < s;
    if k <= q {
      assert k * s <= q * s;
    } else {
      assert k * s >= (q + 1) * s;
    }
  }

  /** Real division brackets the floor division of Dafny's integers. */
  lemma DivBracket(a: int, s: int)
    requires s > 0
    ensures var x := a as real / s as real;
      (a / s) as real <= x < (a / s) as real + 1.0
  {
    var q, r := a / s, a % s;
    var x := a as real / s as real;
    assert a == q * s + r && 0 <= r < s;
    assert a as real == q as real * s as real + r as real;
    assert x - q as real == r as real / s as real;
    assert 0.0 <= r as real / s as real < 1.0;
  }

  /**
   * For a positive step the real-valued count agrees with floor division:
   * `(end - start) / step + 1` tasks when `end >= start`, none otherwise.
   */
  lemma HourCountFloor(run: RunSpec)
    requires run.step > 0
    ensures HourCount(run) == if run.end >= run.start then (run.end - run.start) / run.step + 1 else 0
  {
    var a, s := run.end - run.start, run.step;
    DivBracket(a, s);
    MultipleFits(0, a, s);
    var q := a / s;
    var x := a as real / s as real + 1.0;
    assert (q + 1) as real <= x < (q + 2) as real;
    TruncateBracket(x);
    if q + 1 >= 0 {
      assert Truncate(x) == q + 1;
    }
  }

  /** The batch with the hours negated, so that a negative step becomes positive. */
  function Mirror(run: RunSpec): RunSpec
  {
    run.(start := -run.start, end := -run.end, step := -run.step)
  }

  lemma MirrorCount(run: RunSpec)
    requires run.step != 0
    ensures HourCount(Mirror(run)) == HourCount(run)
    ensures forall k :: Hour(Mirror(run), k) == -Hour(run, k)
  {
    var a, s := (run.end - run.start) as real, run.step as real;
    assert (-a) / (-s) == a / s;
  }

  /**
   * The batch holds exactly the hours that do not pass the end hour: for a
   * positive step, the k-th hour is scheduled if and only if it is at most
   * `end`; for a negative step, if and only if it is at least `end`.
   */
  lemma {:induction false} HoursUpToEnd(run: RunSpec, k: nat)
    requires run.step != 0
    decreases if run.step > 0 then 0 else 1
    ensures run.step > 0 ==> (k < HourCount(run) <==> Hour(run, k) <= run.end)
    ensures run.step < 0 ==> (k < HourCount(run) <==> Hour(run, k) >= run.end)
  {
    if run.step > 0 {
      HourCountFloor(run);
      MultipleFits(k, run.end - run.start, run.step);
      if run.end < run.start {
        assert k * run.step >= 0;
      }
    } else {
      MirrorCount(run);
      HoursUpToEnd(Mirror(run), k);
    }
  }

  /**
   * Every scheduled hour lies between the start and the end hour, and the
   * hours move strictly away from the start in the direction of the step.
   */
  lemma HoursInOrder(run: RunSpec, i: nat, j: nat)
    requires run.step != 0 && i < j < HourCount(run)
    ensures run.step > 0 ==> run.start <= Hour(run, i) < Hour(run, j) <= run.end
    ensures run.step < 0 ==> run.start >= Hour(run, i) > Hour(run, j) >= run.end
  {
    HoursUpToEnd(run, j);
    var d := (j - i) * run.step;
    assert Hour(run, j) == Hour(run, i) + d;
    if run.step > 0 {
      assert i * run.step >= 0 && d > 0;
    } else {
      assert i * run.step <= 0 && d < 0;
    }
  }

  /**
   * The tasks of a batch all store their file directly in the run's local
   * directory, each under a different path, and they fetch different URLs.
   */
  lemma TasksDisjoint(run: RunSpec, i: nat, j: nat)
    requires run.step != 0 && i < |Tasks(run)| && j < |Tasks(run)|
    ensures var dir, t := LocalDir(run.year, run.month, run.day, run.cycle), Tasks(run)[i];
      && t.localFile[..|dir|] == dir
      && forall p :: |dir| <= p < |t.localFile| ==> t.localFile[p] != '/'
    ensures i != j ==> Tasks(run)[i].localFile != Tasks(run)[j].localFile
    ensures i != j ==> Tasks(run)[i].remoteFile != Tasks(run)[j].remoteFile
  {
    var remote, local := RemoteDir(run.year, run.month, run.day, run.cycle),
                         LocalDir(run.year, run.month, run.day, run.cycle);
    LocalDirShape(run.year, run.month, run.day, run.cycle);
    TaskPaths(remote, local, run.cycle, Hour(run, i));
    if i != j {
      if i < j { HoursInOrder(run, i, j); } else { HoursInOrder(run, j, i); }
      TaskPathsDistinct(remote, local, run.cycle, Hour(run, i), Hour(run, j));
    }
  }

  /** A sequence holding the task of every hour, in order, is the batch's task list. */
  lemma TasksByIndex(run: RunSpec, tasks: seq<Task>)
    requires run.step != 0 && |tasks| == HourCount(run)
    requires forall k :: 0 <= k < |tasks| ==> tasks[k] == TaskAt(run, k)
    ensures tasks == Tasks(run)
  {
  }

  /**
   * download_gfs: derives both directories, computes the number of forecast
   * hours (dividing by zero raises, giving no plan) and appends one task per
   * hour, in order.
   */
  method DownloadGfs(run: RunSpec) returns (r: Option<Plan>)
    ensures r.None? <==> run.step == 0
    ensures r.Some? ==> r.value.remoteDir == RemoteDir(run.year, run.month, run.day, run.cycle)
    ensures r.Some? ==> r.value.localDir == LocalDir(run.year, run.month, run.day, run.cycle)
    ensures r.Some? ==> r.value.tasks == Tasks(run)
  {
    var remoteDir := RemoteDir(run.year, run.month, run.day, run.cycle);
    var localDir := LocalDir(run.year, run.month, run.day, run.cycle);
    if run.step == 0 {
      return None;
    }
    var nTimes := HourCount(run);
    var processes: seq<Task> := [];
    for t := 0 to nTimes
      invariant |processes| == t
      invariant forall k :: 0 <= k < t ==> processes[k] == TaskAt(run, k)
    {
      var time := run.start + t * run.step;
      processes := processes + [MakeTask(remoteDir, localDir, run.cycle, time)];
    }
    TasksByIndex(run, processes);
    r := Some(Plan(remoteDir, localDir, processes));
  }

  /** The padded fields of the reference batch. */
  lemma ReferenceFields()
    ensures ZeroPad(2016, 4) == "2016" && ZeroPad(6, 2) == "06" && ZeroPad(20, 2) == "20"
    ensures ZeroPad(0, 2) == "00" && ZeroPad(0, 3) == "000" && ZeroPad(24, 3) == "024"
  {
    assert Digits(2016) == "2016";
    assert Digits(24) == "24";
    assert Digits(20) == "20";
    assert Digits(6) == "6";
    assert Digits(0) == "0";
    assert Zeros(1) == "0";
    assert Zeros(2) == "00";
  }

  lemma ReferenceLocalDir()
    ensures LocalDir(2016, 6, 20, 0) == "gfs_data/2016_06_20_c00/"
  {
    ReferenceFields();
  }

  lemma ReferenceRemoteDir()
    ensures RemoteDir(2016, 6, 20, 0) == "http://nomads.ncep.noaa.gov/pub/data/nccf/com/gfs/prod/gfs.2016062000/"
  {
    ReferenceFields();
  }

  lemma ReferenceFileNames()
    ensures FilePrefix(0) == "gfs.t00z.pgrb2.0p25.f"
    ensures FileName(0, 0) == "gfs.t00z.pgrb2.0p25.f000"
    ensures FileName(0, 24) == "gfs.t00z.pgrb2.0p25.f024"
  {
    ReferenceFields();
  }

  predicate IsReference(run: RunSpec)
  {
    run == RunSpec(2016, 6, 20, 0, 0, 24, 3)
  }

  lemma ReferenceCount(run: RunSpec)
    requires IsReference(run)
    ensures HourCount(run) == 9
  {
    HourCountFloor(run);
  }

  /**
   * The reference batch (2016-06-20, cycle 00, hours 0 to 24 every 3 hours)
   * has nine tasks, f000, f003, ..., f024, fetched from the run's directory
   * on the server and stored under gfs_data/2016_06_20_c00/.
   */
  lemma ReferenceRun(run: RunSpec)
    requires IsReference(run)
    ensures |Tasks(run)| == 9
    ensures forall k :: 0 <= k < 9 ==>
      && Tasks(run)[k].fileName == "gfs.t00z.pgrb2.0p25.f" + ZeroPad(3 * k, 3)
      && Tasks(run)[k].localFile == "gfs_data/2016_06_20_c00/" + Tasks(run)[k].fileName
      && Tasks(run)[k].remoteFile
         == "http://nomads.ncep.noaa.gov/pub/data/nccf/com/gfs/prod/gfs.2016062000/" + Tasks(run)[k].fileName
    ensures Tasks(run)[0].fileName == "gfs.t00z.pgrb2.0p25.f000"
    ensures Tasks(run)[8].fileName == "gfs.t00z.pgrb2.0p25.f024"
  {
    ReferenceCount(run);
    ReferenceLocalDir();
    ReferenceRemoteDir();
    ReferenceFileNames();
    forall k | 0 <= k < 9
      ensures Tasks(run)[k] == MakeTask(RemoteDir(2016, 6, 20, 0), LocalDir(2016, 6, 20, 0), 0, 3 * k)
    {
      assert Tasks(run)[k] == TaskAt(run, k);
    }
  }
}
