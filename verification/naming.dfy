/**
 * The naming templates of the batch download: the remote directory of a
 * forecast run on the NOMADS server, the local directory it is stored in,
 * the name of one forecast-hour file and the two full paths of a task.
 */
module Naming {
  import opened Optional
  import opened Decimal

  const RemoteRoot := "http://nomads.ncep.noaa.gov/pub/data/nccf/com/gfs/prod/gfs."
  const LocalRoot := "gfs_data/"

  /** One file to acquire: its name, its URL and the path it is stored at. */
  datatype Task = Task(fileName: string, remoteFile: string, localFile: string)

  /** `gfs.YYYYMMDDCC/` under the production root of the server. */
  function RemoteDir(year: int, month: int, day: int, cycle: int): string
  {
    RemoteRoot + ZeroPad(year, 4) + ZeroPad(month, 2) + ZeroPad(day, 2) + ZeroPad(cycle, 2) + "/"
  }

  /** `gfs_data/YYYY_MM_DD_cCC/`, relative to the working directory. */
  function LocalDir(year: int, month: int, day: int, cycle: int): string
  {
    LocalRoot + ZeroPad(year, 4) + "_" + ZeroPad(month, 2) + "_" + ZeroPad(day, 2)
      + "_c" + ZeroPad(cycle, 2) + "/"
  }

  /** The remote directory of a run is under the server's root and ends in '/'. */
  lemma RemoteDirShape(year: int, month: int, day: int, cycle: int)
    ensures var d := RemoteDir(year, month, day, cycle);
      |d| > |RemoteRoot| && d[..|RemoteRoot|] == RemoteRoot && d[|d| - 1] == '/'
  {
    var y, m, dd, c := ZeroPad(year, 4), ZeroPad(month, 2), ZeroPad(day, 2), ZeroPad(cycle, 2);
    assert RemoteDir(year, month, day, cycle) == RemoteRoot + (y + m + dd + c) + "/";
    UnderRoot(RemoteRoot, y + m + dd + c);
  }

  /** The local directory of a run is under gfs_data/ and ends in '/'. */
  lemma LocalDirShape(year: int, month: int, day: int, cycle: int)
    ensures var d := LocalDir(year, month, day, cycle);
      |d| > |LocalRoot| && d[..|LocalRoot|] == LocalRoot && d[|d| - 1] == '/'
  {
    var y, m, dd, c := ZeroPad(year, 4), ZeroPad(month, 2), ZeroPad(day, 2), ZeroPad(cycle, 2);
    assert LocalDir(year, month, day, cycle) == LocalRoot + (y + "_" + m + "_" + dd + "_c" + c) + "/";
    UnderRoot(LocalRoot, y + "_" + m + "_" + dd + "_c" + c);
  }

  lemma UnderRoot(root: string, stamp: string)
    ensures var d := root + stamp + "/";
      |d| > |root| && d[..|root|] == root && d[|d| - 1] == '/'
  {
    var d := root + stamp + "/";
    assert d[..|root|] == root;
  }

  /** The part of a file name in front of the forecast hour. */
  function FilePrefix(cycle: int): string
  {
    "gfs.t" + ZeroPad(cycle, 2) + "z.pgrb2.0p25.f"
  }

  /** `gfs.tCCz.pgrb2.0p25.fFFF`: the 0.25 degree GRIB2 file of one forecast hour. */
  function FileName(cycle: int, hour: int): string
  {
    FilePrefix(cycle) + ZeroPad(hour, 3)
  }

  /** A file name holds no '/', so it names a file directly inside a directory. */
  lemma FileNameHasNoSlash(cycle: int, hour: int)
    ensures forall i :: 0 <= i < |FileName(cycle, hour)| ==> FileName(cycle, hour)[i] != '/'
  {
    ZeroPadChars(cycle, 2);
    ZeroPadChars(hour, 3);
    var c, h := ZeroPad(cycle, 2), ZeroPad(hour, 3);
    assert forall i :: 0 <= i < |c| ==> c[i] != '/' by {
      if cycle < 0 {
        assert forall i :: 1 <= i < |c| ==> c[i] == c[1..][i - 1];
      }
    }
    assert forall i :: 0 <= i < |h| ==> h[i] != '/' by {
      if hour < 0 {
        assert forall i :: 1 <= i < |h| ==> h[i] == h[1..][i - 1];
      }
    }
  }

  /** The task of one forecast hour: the file name appended to both directories. */
  function MakeTask(remoteDir: string, localDir: string, cycle: int, hour: int): Task
  {
    var name := FileName(cycle, hour);
    Task(name, remoteDir + name, localDir + name)
  }

  /**
   * The forecast hour can be read back from a file name: it follows the
   * cycle-dependent prefix, and for hours 0 to 999 it is exactly three
   * digits wide, so that for cycles 0 to 99 every name has 24 characters.
   */
  lemma FileNameHour(cycle: int, hour: int)
    ensures var name, p := FileName(cycle, hour), FilePrefix(cycle);
      |p| <= |name| && name[..|p|] == p && ParseInt(name[|p|..]) == Some(hour)
    ensures 0 <= hour < 1000 ==> |FileName(cycle, hour)| == |FilePrefix(cycle)| + 3
    ensures 0 <= cycle < 100 && 0 <= hour < 1000 ==> |FileName(cycle, hour)| == 24
  {
    var name, p := FileName(cycle, hour), FilePrefix(cycle);
    assert name[|p|..] == ZeroPad(hour, 3);
    ParseZeroPad(hour, 3);
    if 0 <= hour < 1000 {
      ZeroPadWidth(hour, 3);
    }
    if 0 <= cycle < 100 {
      ZeroPadWidth(cycle, 2);
    }
  }

  /** Different forecast hours of one cycle give different file names. */
  lemma FileNamesDistinct(cycle: int, h1: int, h2: int)
    requires h1 != h2
    ensures FileName(cycle, h1) != FileName(cycle, h2)
  {
    FileNameHour(cycle, h1);
    FileNameHour(cycle, h2);
  }

  /**
   * Both paths of a task end in its file name, and since a file name holds
   * no '/', a local directory ending in '/' is exactly the directory the
   * local file is stored in.
   */
  lemma TaskPaths(remoteDir: string, localDir: string, cycle: int, hour: int)
    requires |localDir| > 0 && localDir[|localDir| - 1] == '/'
    ensures var t := MakeTask(remoteDir, localDir, cycle, hour);
      && t.fileName == FileName(cycle, hour)
      && |t.remoteFile| == |remoteDir| + |t.fileName|
      && |t.localFile| == |localDir| + |t.fileName|
      && t.remoteFile[|remoteDir|..] == t.localFile[|localDir|..] == t.fileName
      && t.localFile[..|localDir|] == localDir
      && t.localFile[|localDir| - 1] == '/'
      && forall i :: |localDir| <= i < |t.localFile| ==> t.localFile[i] != '/'
  {
    var t := MakeTask(remoteDir, localDir, cycle, hour);
    FileNameHasNoSlash(cycle, hour);
    assert t.remoteFile[|remoteDir|..] == t.fileName;
    assert t.localFile[|localDir|..] == t.fileName;
    assert forall i :: |localDir| <= i < |t.localFile| ==> t.localFile[i] == t.fileName[i - |localDir|];
  }

  /** Different forecast hours are stored at different local paths (and URLs). */
  lemma TaskPathsDistinct(remoteDir: string, localDir: string, cycle: int, h1: int, h2: int)
    requires h1 != h2
    ensures MakeTask(remoteDir, localDir, cycle, h1).localFile != MakeTask(remoteDir, localDir, cycle, h2).localFile
    ensures MakeTask(remoteDir, localDir, cycle, h1).remoteFile != MakeTask(remoteDir, localDir, cycle, h2).remoteFile
  {
    var t1, t2 := MakeTask(remoteDir, localDir, cycle, h1), MakeTask(remoteDir, localDir, cycle, h2);
    FileNamesDistinct(cycle, h1, h2);
    assert t1.localFile[|localDir|..] == t1.fileName;
    assert t2.localFile[|localDir|..] == t2.fileName;
    assert t1.remoteFile[|remoteDir|..] == t1.fileName;
    assert t2.remoteFile[|remoteDir|..] == t2.fileName;
  }

  /** Fields of a calendar date and cycle that fit their template widths. */
  predicate InRange(year: int, month: int, day: int, cycle: int)
  {
    0 <= year < 10000 && 0 <= month < 100 && 0 <= day < 100 && 0 <= cycle < 100
  }

  lemma FieldWidths(year: int, month: int, day: int, cycle: int)
    requires InRange(year, month, day, cycle)
    ensures |ZeroPad(year, 4)| == 4 && |ZeroPad(month, 2)| == 2
    ensures |ZeroPad(day, 2)| == 2 && |ZeroPad(cycle, 2)| == 2
  {
    ZeroPadWidth(year, 4);
    ZeroPadWidth(month, 2);
    ZeroPadWidth(day, 2);
    ZeroPadWidth(cycle, 2);
  }

  /** Where each field sits in a local directory name of the template widths. */
  lemma LocalDirFields(year: int, month: int, day: int, cycle: int)
    requires InRange(year, month, day, cycle)
    ensures var d := LocalDir(year, month, day, cycle);
      && |d| == 24
      && d[9..13] == ZeroPad(year, 4) && d[14..16] == ZeroPad(month, 2)
      && d[17..19] == ZeroPad(day, 2) && d[21..23] == ZeroPad(cycle, 2)
  {
    FieldWidths(year, month, day, cycle);
    LocalLayout(ZeroPad(year, 4), ZeroPad(month, 2), ZeroPad(day, 2), ZeroPad(cycle, 2));
  }

  lemma LocalLayout(y: string, m: string, d: string, c: string)
    requires |y| == 4 && |m| == 2 && |d| == 2 && |c| == 2
    ensures var s := LocalRoot + y + "_" + m + "_" + d + "_c" + c + "/";
      && |s| == 24 && s[9..13] == y && s[14..16] == m && s[17..19] == d && s[21..23] == c
  {
  }

  /** Where each field sits in a remote directory name of the template widths. */
  lemma RemoteDirFields(year: int, month: int, day: int, cycle: int)
    requires InRange(year, month, day, cycle)
    ensures var d, n := RemoteDir(year, month, day, cycle), |RemoteRoot|;
      && |d| == n + 11
      && d[n..n + 4] == ZeroPad(year, 4) && d[n + 4..n + 6] == ZeroPad(month, 2)
      && d[n + 6..n + 8] == ZeroPad(day, 2) && d[n + 8..n + 10] == ZeroPad(cycle, 2)
  {
    FieldWidths(year, month, day, cycle);
    RemoteLayout(ZeroPad(year, 4), ZeroPad(month, 2), ZeroPad(day, 2), ZeroPad(cycle, 2));
  }

  lemma RemoteLayout(y: string, m: string, d: string, c: string)
    requires |y| == 4 && |m| == 2 && |d| == 2 && |c| == 2
    ensures var s, n := RemoteRoot + y + m + d + c + "/", |RemoteRoot|;
      && |s| == n + 11
      && s[n..n + 4] == y && s[n + 4..n + 6] == m && s[n + 6..n + 8] == d && s[n + 8..n + 10] == c
  {
  }

  /**
   * Within the template widths, the local directory names one forecast run:
   * two runs that share a local directory are the same run.
   */
  lemma LocalDirIdentifiesRun(y1: int, m1: int, d1: int, c1: int, y2: int, m2: int, d2: int, c2: int)
    requires InRange(y1, m1, d1, c1) && InRange(y2, m2, d2, c2)
    requires LocalDir(y1, m1, d1, c1) == LocalDir(y2, m2, d2, c2)
    ensures y1 == y2 && m1 == m2 && d1 == d2 && c1 == c2
  {
    LocalDirFields(y1, m1, d1, c1);
    LocalDirFields(y2, m2, d2, c2);
    ZeroPadInjective(y1, y2, 4);
    ZeroPadInjective(m1, m2, 2);
    ZeroPadInjective(d1, d2, 2);
    ZeroPadInjective(c1, c2, 2);
  }

  /** Within the template widths, the remote directory names one forecast run. */
  lemma RemoteDirIdentifiesRun(y1: int, m1: int, d1: int, c1: int, y2: int, m2: int, d2: int, c2: int)
    requires InRange(y1, m1, d1, c1) && InRange(y2, m2, d2, c2)
    requires RemoteDir(y1, m1, d1, c1) == RemoteDir(y2, m2, d2, c2)
    ensures y1 == y2 && m1 == m2 && d1 == d2 && c1 == c2
  {
    RemoteDirFields(y1, m1, d1, c1);
    RemoteDirFields(y2, m2, d2, c2);
    ZeroPadInjective(y1, y2, 4);
    ZeroPadInjective(m1, m2, 2);
    ZeroPadInjective(d1, d2, 2);
    ZeroPadInjective(c1, c2, 2);
  }
}
