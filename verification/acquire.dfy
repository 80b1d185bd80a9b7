/**
 * The acquisition of one file (download_gfs_file): a loop that, pass after
 * pass, checks a local copy against the server, downloads when the file is
 * missing or differs, and waits when the server does not have it yet or
 * when anything raised. The server, the file system and the clock are
 * replaced by one observation per pass.
 */
module Acquire {
  import opened Optional
  import opened Decimal

  /** Seconds slept when the server does not have the file yet. */
  const NotYetDelay := 300
  /** Seconds slept after any exception. */
  const FaultDelay := 30

  /**
   * How the Content-Length header becomes the size compared with the local
   * file. The first two are the source's two interpreter branches; the
   * third is the reading the Python 3 branch evidently intended.
   */
  datatype SizeRule =
    | Python2List       // `meta.getheaders(...)[0]`: the first header value
    | Python3FirstChar  // `remote.getheader(...)[0]`: the first character
    | Python3Whole      // `remote.getheader(...)`: the whole header value

  /** The rule the source uses, chosen by whether the Python 3 imports succeeded. */
  function RuleFor(python3: bool): SizeRule
  {
    if python3 then Python3FirstChar else Python2List
  }

  /** One `urlopen`: the response's status and its Content-Length values, or an exception. */
  datatype Probe = Response(code: int, contentLength: seq<string>) | Raised

  /** The local file: absent, present with its byte length, or present but unreadable. */
  datatype LocalFile = Missing | Present(length: nat) | Unreadable

  /**
   * What one pass of the loop observes: the local file, the first probe
   * (made only when the file exists), the second probe (made only when the
   * pass is not resolved yet) and whether `urlretrieve` completes.
   */
  datatype Observation = Observation(local: LocalFile, check: Probe, recheck: Probe, retrieved: bool)

  /** What one pass does. */
  datatype Action =
    | Resolve                             // success becomes true: the loop ends
    | Download                            // the file was retrieved: check it again
    | WaitForRemote                       // sleep NotYetDelay seconds
    | WaitAfterFault(inRetrieve: bool)    // sleep FaultDelay seconds

  function Delay(a: Action): nat
  {
    match a
    case WaitForRemote => NotYetDelay
    case WaitAfterFault(_) => FaultDelay
    case _ => 0
  }

  /** `getheader`: the values of the header joined by ", " (absent when there are none). */
  function JoinHeader(values: seq<string>): string
    requires |values| > 0
  {
    if |values| == 1 then values[0] else values[0] + ", " + JoinHeader(values[1..])
  }

  /**
   * The remote size that is compared with the local length, or `None` where
   * the source raises (indexing None or an empty string, or `int()` failing).
   */
  function ComparedSize(rule: SizeRule, values: seq<string>): Option<int>
  {
    if values == [] then None
    else
      match rule
      case Python2List => ParseInt(values[0])
      case Python3FirstChar =>
        var header := JoinHeader(values);
        if header == [] then None else ParseInt([header[0]])
      case Python3Whole => ParseInt(JoinHeader(values))
  }

  /** Outcome of the local check, the first half of a pass. */
  datatype Check = Resolved | Unresolved | CheckRaised

  /** The local check: retired remote or equal sizes resolve, a size mismatch does not. */
  function LocalCheck(rule: SizeRule, local: LocalFile, check: Probe): Check
  {
    if local.Missing? then Unresolved
    else
      match check
      case Raised => CheckRaised
      case Response(code, values) =>
        if code != 200 then Resolved
        else
          match ComparedSize(rule, values)
          case None => CheckRaised
          case Some(size) =>
            match local
            case Present(n) => if size == n then Resolved else Unresolved
            case Unreadable => CheckRaised
  }

  /** True when the size read from the header equals the local file's length. */
  predicate SizesMatch(rule: SizeRule, local: LocalFile, values: seq<string>)
  {
    local.Present? && ComparedSize(rule, values) == Some(local.length)
  }

  /** The pass is not resolved by the local check: no file, or sizes that differ. */
  predicate NeedsFetch(rule: SizeRule, o: Observation)
  {
    || o.local.Missing?
    || (&& o.local.Present? && o.check.Response? && o.check.code == 200
        && ComparedSize(rule, o.check.contentLength).Some?
        && !SizesMatch(rule, o.local, o.check.contentLength))
  }

  /** One pass of the loop: the action the observed pass leads to. */
  function Step(rule: SizeRule, o: Observation): Action
  {
    match LocalCheck(rule, o.local, o.check)
    case Resolved => Resolve
    case CheckRaised => WaitAfterFault(false)
    case Unresolved =>
      match o.recheck
      case Raised => WaitAfterFault(false)
      case Response(code, _) =>
        if code != 200 then WaitForRemote
        else if o.retrieved then Download
        else WaitAfterFault(true)
  }


  /**
   * What decides a pass. It resolves exactly when a local file exists and
   * the server either no longer serves it or reports its length; it
   * downloads exactly when the pass needs the file and the server has it;
   * it waits long exactly when the pass needs the file and the server does
   * not have it; and every exception leads to the short wait.
   */
  lemma StepDecision(rule: SizeRule, o: Observation)
    ensures Step(rule, o) == Resolve <==>
      && !o.local.Missing? && o.check.Response?
      && (o.check.code != 200 || SizesMatch(rule, o.local, o.check.contentLength))
    ensures Step(rule, o) == Download <==>
      NeedsFetch(rule, o) && o.recheck.Response? && o.recheck.code == 200 && o.retrieved
    ensures Step(rule, o) == WaitForRemote <==>
      NeedsFetch(rule, o) && o.recheck.Response? && o.recheck.code != 200
    ensures Step(rule, o) == WaitAfterFault(true) <==>
      NeedsFetch(rule, o) && o.recheck.Response? && o.recheck.code == 200 && !o.retrieved
    ensures Step(rule, o) == WaitAfterFault(false) <==>
      || (!o.local.Missing? && o.check.Raised?)
      || (&& !o.local.Missing? && o.check.Response? && o.check.code == 200
          && !SizesMatch(rule, o.local, o.check.contentLength)
          && (ComparedSize(rule, o.check.contentLength).None? || o.local.Unreadable?))
      || (NeedsFetch(rule, o) && o.recheck.Raised?)
  {
  }

  /** The passes the loop makes on a sequence of observations, up to the first that resolves. */
  function Trace(rule: SizeRule, obs: seq<Observation>): seq<Action>
    decreases |obs|
  {
    if obs == [] then []
    else
      var a := Step(rule, obs[0]);
      if a == Resolve then [a] else [a] + Trace(rule, obs[1..])
  }

  /**
   * The loop makes one pass per observation, each deciding as `Step` does,
   * up to and including the first pass that resolves. It never stops on
   * anything but a resolution, except by running out of observations (the
   * process being killed from outside): a wait after an exception, a wait
   * for the server and a download are always followed by another pass.
   */
  lemma {:induction false} TraceShape(rule: SizeRule, obs: seq<Observation>)
    ensures var t := Trace(rule, obs);
      && |t| <= |obs|
      && (forall i :: 0 <= i < |t| ==> t[i] == Step(rule, obs[i]))
      && (forall i :: 0 <= i < |t| - 1 ==> t[i] != Resolve)
      && (|t| < |obs| ==> |t| > 0 && t[|t| - 1] == Resolve)
    decreases |obs|
  {
    if obs != [] && Step(rule, obs[0]) != Resolve {
      TraceShape(rule, obs[1..]);
      var t, rest := Trace(rule, obs), Trace(rule, obs[1..]);
      assert forall i :: 1 <= i < |t| ==> t[i] == rest[i - 1] && obs[i] == obs[1..][i - 1];
    }
  }

  /**
   * Conversely, a sequence of actions of that shape is the trace: one action
   * per observation as `Step` decides, none resolving but possibly the
   * last, and stopping early only on a resolution.
   */
  lemma {:induction false} TraceUnique(rule: SizeRule, obs: seq<Observation>, t: seq<Action>)
    requires |t| <= |obs|
    requires forall i :: 0 <= i < |t| ==> t[i] == Step(rule, obs[i])
    requires forall i :: 0 <= i < |t| - 1 ==> t[i] != Resolve
    requires |t| < |obs| ==> |t| > 0 && t[|t| - 1] == Resolve
    ensures t == Trace(rule, obs)
    decreases |obs|
  {
    if obs != [] && t != [] && t[0] != Resolve {
      var rest := t[1..];
      assert forall i :: 0 <= i < |rest| ==> rest[i] == t[i + 1] && obs[1..][i] == obs[i + 1];
      TraceUnique(rule, obs[1..], rest);
      assert t == [t[0]] + rest;
    }
  }

  /**
   * The body of the loop of download_gfs_file: the local check, then, when
   * the pass is not resolved, the second probe and the download. An
   * exception anywhere skips the rest of the pass.
   */
  method Pass(rule: SizeRule, o: Observation) returns (success: bool, action: Action)
    ensures action == Step(rule, o)
    ensures success <==> action == Resolve
  {
    success := false;
    var raised := false;
    // the local copy is checked against the server
    if !o.local.Missing? {
      match o.check {
        case Raised =>
          raised := true;
        case Response(code, values) =>
          if code == 200 {
            var size := ComparedSize(rule, values);
            if size.None? || o.local.Unreadable? {
              raised := true;
            } else {
              success := size.value == o.local.length;
            }
          } else {
            success := true;
          }
      }
    }
    // not resolved: ask the server again, then download or wait
    if raised {
      action := WaitAfterFault(false);
    } else if success {
      action := Resolve;
    } else {
      match o.recheck {
        case Raised =>
          action := WaitAfterFault(false);
        case Response(code, _) =>
          if code == 200 {
            action := if o.retrieved then Download else WaitAfterFault(true);
          } else {
            action := WaitForRemote;
          }
      }
    }
  }

  /**
   * download_gfs_file: `while success == False`, one pass per observation.
   * It reports success exactly when some pass resolved, and its passes are
   * those of `Trace`.
   */
  method DownloadGfsFile(rule: SizeRule, obs: seq<Observation>) returns (success: bool, actions: seq<Action>)
    ensures actions == Trace(rule, obs)
    ensures success <==> |actions| > 0 && actions[|actions| - 1] == Resolve
    ensures !success ==> |actions| == |obs|
  {
    success := false;
    actions := [];
    var pass := 0;
    while !success && pass < |obs|
      invariant 0 <= pass <= |obs| && |actions| == pass
      invariant forall i :: 0 <= i < pass ==> actions[i] == Step(rule, obs[i])
      invariant forall i :: 0 <= i < pass - 1 ==> actions[i] != Resolve
      invariant success <==> pass > 0 && actions[pass - 1] == Resolve
      decreases |obs| - pass
    {
      var action;
      success, action := Pass(rule, obs[pass]);
      actions := actions + [action];
      pass := pass + 1;
    }
    TraceUnique(rule, obs, actions);
  }

  /** A loop whose passes never resolve runs through every observation. */
  lemma NeverResolving(rule: SizeRule, obs: seq<Observation>)
    requires forall i :: 0 <= i < |obs| ==> Step(rule, obs[i]) != Resolve
    ensures |Trace(rule, obs)| == |obs|
    ensures forall i :: 0 <= i < |obs| ==> Trace(rule, obs)[i] == Step(rule, obs[i])
  {
    TraceShape(rule, obs);
  }

  /** A local copy whose length the server confirms is accepted at once, without a download. */
  lemma MatchingCopyResolves(rule: SizeRule, o: Observation, rest: seq<Observation>)
    requires o.check.Response? && o.check.code == 200
    requires SizesMatch(rule, o.local, o.check.contentLength)
    ensures Trace(rule, [o] + rest) == [Resolve]
  {
  }

  /** A local copy the server no longer serves (a non-200 status) is accepted at once. */
  lemma RetiredRemoteResolves(rule: SizeRule, o: Observation, rest: seq<Observation>)
    requires !o.local.Missing? && o.check.Response? && o.check.code != 200
    ensures Trace(rule, [o] + rest) == [Resolve]
  {
  }

  /**
   * A missing or differing local file is downloaded once; when the next pass
   * finds the lengths equal, the loop ends there.
   */
  lemma DownloadThenResolve(rule: SizeRule, o1: Observation, o2: Observation, rest: seq<Observation>)
    requires NeedsFetch(rule, o1) && o1.recheck.Response? && o1.recheck.code == 200 && o1.retrieved
    requires o2.check.Response? && o2.check.code == 200 && SizesMatch(rule, o2.local, o2.check.contentLength)
    ensures Trace(rule, [o1, o2] + rest) == [Download, Resolve]
  {
    StepDecision(rule, o1);
    assert ([o1, o2] + rest)[1..] == [o2] + rest;
  }

  /**
   * While there is no local file and the server answers with a status other
   * than 200, every pass sleeps 300 seconds and none resolves.
   */
  lemma NotYetPublishedWaits(rule: SizeRule, obs: seq<Observation>)
    requires forall i :: 0 <= i < |obs| ==>
      obs[i].local.Missing? && obs[i].recheck.Response? && obs[i].recheck.code != 200
    ensures Trace(rule, obs) == seq(|obs|, _ => WaitForRemote)
    ensures forall i :: 0 <= i < |obs| ==> Delay(Trace(rule, obs)[i]) == NotYetDelay
  {
    NeverResolving(rule, obs);
  }

  /**
   * When every probe raises (as Python 3's urlopen does on a 404), every pass
   * sleeps 30 seconds and none resolves, whether or not a local copy exists:
   * a run removed from the server is then never treated as retired.
   */
  lemma RaisingProbesNeverResolve(rule: SizeRule, obs: seq<Observation>)
    requires forall i :: 0 <= i < |obs| ==> obs[i].check.Raised? && obs[i].recheck.Raised?
    ensures Trace(rule, obs) == seq(|obs|, _ => WaitAfterFault(false))
    ensures forall i :: 0 <= i < |obs| ==> Delay(Trace(rule, obs)[i]) == FaultDelay
  {
    NeverResolving(rule, obs);
  }

  /**
   * The size read back from a Content-Length header holding the decimal
   * length `n`: the whole value gives `n`, the first character gives `n`
   * only for files shorter than ten bytes.
   */
  lemma ComparedSizeOfLength(n: nat)
    ensures ComparedSize(Python2List, [Digits(n)]) == Some(n)
    ensures ComparedSize(Python3Whole, [Digits(n)]) == Some(n)
    ensures ComparedSize(Python3FirstChar, [Digits(n)]) == Some(n) <==> n < 10
  {
    ParseZeroPad(n, 0);
    assert ZeroPad(n, 0) == Digits(n);
    var d := Digits(n);
    ParseChar(d[0]);
    if n < 10 {
      assert [d[0]] == d;
    }
  }

  /**
   * The first character of the header is a single digit, so on Python 3 as
   * written a local file of ten bytes or more never matches: while the
   * server keeps serving it, the loop never resolves. The rule is the one
   * the source picks when the Python 3 imports succeed.
   */
  lemma FirstCharacterNeverMatches(obs: seq<Observation>)
    requires forall i :: 0 <= i < |obs| ==>
      obs[i].local.Present? && obs[i].local.length >= 10 && obs[i].check.Response? && obs[i].check.code == 200
    ensures |Trace(RuleFor(true), obs)| == |obs|
    ensures Resolve !in Trace(RuleFor(true), obs)
  {
    assert RuleFor(true) == Python3FirstChar;
    forall i | 0 <= i < |obs|
      ensures Step(Python3FirstChar, obs[i]) != Resolve
    {
      var values := obs[i].check.contentLength;
      if values != [] {
        var h := JoinHeader(values);
        if h != [] {
          ParseChar(h[0]);
        }
      }
    }
    NeverResolving(Python3FirstChar, obs);
  }

  /**
   * A 1234-byte local copy whose header says "1234": the Python 3 branch as
   * written compares 1 with 1234 and downloads again; the whole header
   * value, as in the Python 2 branch, accepts the copy.
   */
  lemma FirstCharacterCounterexample(o: Observation)
    requires o == Observation(Present(1234), Response(200, ["1234"]), Response(200, ["1234"]), true)
    ensures Step(Python3FirstChar, o) == Download
    ensures Step(Python3Whole, o) == Resolve
    ensures Step(Python2List, o) == Resolve
  {
    ComparedSizeOfLength(1234);
    assert Digits(1234) == "1234";
  }

  /**
   * The opposite error of the same reading: a truncated 1-byte copy of a
   * 1234-byte file has the header's first digit as its length, so on
   * Python 3 as written it is accepted and the loop ends with an incomplete
   * file; the whole header value, as in the Python 2 branch, downloads it
   * again.
   */
  lemma FirstCharacterAcceptsTruncated(o: Observation)
    requires o == Observation(Present(1), Response(200, ["1234"]), Response(200, ["1234"]), true)
    ensures Step(RuleFor(true), o) == Resolve
    ensures Step(Python3Whole, o) == Download
    ensures Step(RuleFor(false), o) == Download
  {
    ComparedSizeOfLength(1234);
    assert Digits(1234) == "1234";
    assert JoinHeader(["1234"])[0] == '1';
    ParseChar('1');
  }

  /**
   * With the whole header value read (the Python 2 branch, and the intended
   * Python 3 reading), a local copy whose length equals the announced
   * Content-Length is accepted at once, whatever its size.
   */
  lemma WholeHeaderMatchResolves(rule: SizeRule, o: Observation, rest: seq<Observation>)
    requires rule == Python2List || rule == Python3Whole
    requires o.local.Present? && o.check == Response(200, [Digits(o.local.length)])
    ensures Trace(rule, [o] + rest) == [Resolve]
  {
    ComparedSizeOfLength(o.local.length);
  }
}
