/**
 * The field monitor: the camera is started and stopped, a timer asks the
 * detection service about the current frame, and a reply that raises an alert
 * is logged (newest first, at most ten) and shown in the status line. The
 * component's state is a record and every handler a transition on it; the
 * camera, the frame, the service's reply, ids and clock readings are
 * parameters.
 */
module CCTVMonitor {
  import opened Text
  import opened Remote

  /** The alert log keeps this many entries. */
  const MaxAlerts: nat := 10

  /** A reply raises an alert when it contains this tag anywhere. */
  const AlertTag: string := "ALERT:"
  /** The two literal ends of the name pattern `ALERT: (.*) detected!`. */
  const NameOpen: string := "ALERT: "
  const NameClose: string := " detected!"
  const UnknownAnimal: string := "Unidentified Animal"
  const DefaultDescription: string := "Unusual movement detected in crop field."

  const IdleStatus: string := "System Idle"
  const ActiveStatus: string := "Monitoring active..."
  const OfflineStatus: string := "System Offline"
  const ClearStatus: string := "Field Clear - No threats detected"
  const RetryStatus: string := "Service Unavailable - Retrying..."
  const FailedStatus: string := "Error: Connection Failed"
  const DeniedError: string := "Permission Denied: Please allow camera access."
  const HardwareError: string := "Hardware Error: Could not connect to camera."

  /** The status line after an alert: the name upper-cased. */
  function WarningStatus(animal: string): string {
    "WARNING: " + ToUpper(animal) + " DETECTED!"
  }

  function Min(a: int, b: int): int {
    if a <= b then a else b
  }

  /** One entry of the alert log; id, time and image are opaque texts. */
  datatype Alert = Alert(id: string, animal: string, time: string, img: string)

  /** What the alert callback of the parent receives: the name, the whole
      reply (not the description), and the image. */
  datatype Notice = Notice(animal: string, report: string, img: string)

  /** The component's state: the monitoring, loading, status, error,
      alert-log and last-scan state variables, plus whether a timer handle is
      held and whether a camera stream is attached to the video element. */
  datatype Monitor = Monitor(
    monitoring: bool, loading: bool, status: string, error: Option<string>,
    alerts: seq<Alert>, lastScan: Option<string>, timer: bool, stream: bool)

  /** The state on mount. */
  const Idle: Monitor := Monitor(false, false, IdleStatus, None, [], None, false, false)

  /** What every reachable state satisfies: the log is capped, a timer runs
      exactly while monitoring, monitoring has a stream, and a scan is only in
      flight while monitoring. */
  predicate Consistent(m: Monitor) {
    && |m.alerts| <= MaxAlerts
    && m.monitoring == m.timer
    && (m.monitoring ==> m.stream)
    && (m.loading ==> m.monitoring)
  }

  // ---------------------------------------------------------------------------
  // the alert name: the regex `ALERT: (.*) detected!`

  /** A capture that starts at `from` may end at `e`: ` detected!` follows at
      `e`, and no line terminator lies in between (`.` does not match one). */
  predicate Ends(s: string, from: nat, e: nat) {
    && from <= e
    && OccursAt(s, NameClose, e)
    && forall k :: from <= k < e ==> !IsLineTerminator(s[k])
  }

  /** The pattern matches at `i`: `ALERT: ` occurs there and some capture
      starting after it can end. */
  ghost predicate Matches(s: string, i: nat) {
    OccursAt(s, NameOpen, i) && CanEnd(s, i + |NameOpen|)
  }

  /** Some capture starting at `from` can end. */
  ghost predicate CanEnd(s: string, from: nat) {
    exists e: nat :: Ends(s, from, e)
  }

  /** `e` is the last end a capture starting at `from` can have. */
  ghost predicate Longest(s: string, from: nat, e: nat) {
    Ends(s, from, e) && forall e': nat :: Ends(s, from, e') ==> e' <= e
  }

  /** The greedy `(.*)`: the last end at or after `j` reachable from `from`
      without crossing a line terminator. */
  function GreedyEnd(s: string, from: nat, j: nat): (r: Option<nat>)
    requires from <= j <= |s|
    requires forall k :: from <= k < j ==> !IsLineTerminator(s[k])
    ensures r.Some? ==> j <= r.value && Ends(s, from, r.value)
    ensures forall e :: j <= e && Ends(s, from, e) ==> r.Some? && e <= r.value
    decreases |s| - j
  {
    var later := if j < |s| && !IsLineTerminator(s[j]) then GreedyEnd(s, from, j + 1) else None;
    if later.Some? then later
    else if OccursAt(s, NameClose, j) then Some(j)
    else None
  }

  /** The leftmost offset at or after `i` where the pattern matches. */
  function FirstMatch(s: string, i: nat): (r: Option<nat>)
    ensures r.Some? ==> i <= r.value && Matches(s, r.value)
    ensures forall k :: i <= k && (r.None? || k < r.value) ==> !Matches(s, k)
    decreases |s| - i
  {
    if i + |NameOpen| > |s| then None
    else
      var from := i + |NameOpen|;
      var g := GreedyEnd(s, from, from);
      if OccursAt(s, NameOpen, i) && g.Some? then
        assert Ends(s, from, g.value);
        assert CanEnd(s, from);
        Some(i)
      else FirstMatch(s, i + 1)
  }

  /** `animalMatch ? animalMatch[1] : "Unidentified Animal"`: the capture of
      the leftmost match, as long as it can be. */
  function AlertName(s: string): (name: string)
    ensures (forall i :: !Matches(s, i)) ==> name == UnknownAnimal
  {
    match FirstMatch(s, 0)
    case None => UnknownAnimal
    case Some(i) =>
      var from := i + |NameOpen|;
      s[from..GreedyEnd(s, from, from).value]
  }

  /** The regex semantics: given the leftmost match and its longest capture,
      the name is that capture. */
  lemma AlertNameIsLeftmostLongest(s: string, i: nat, e: nat)
    requires Matches(s, i) && forall k :: 0 <= k < i ==> !Matches(s, k)
    requires Longest(s, i + |NameOpen|, e)
    ensures AlertName(s) == s[i + |NameOpen|..e]
  {
    var from := i + |NameOpen|;
    var r := FirstMatch(s, 0);
    assert r == Some(i);
    var g := GreedyEnd(s, from, from);
    assert g.Some? && e <= g.value;
    assert Ends(s, from, g.value);
  }

  /** No character of ` detected!` after its first is white space. */
  lemma CloseTail(k: nat)
    requires 0 < k < |NameClose|
    ensures NameClose[k] != ' ' && !IsLineTerminator(NameClose[k])
  {
  }

  /** A capture cannot reach past the end of its line. */
  lemma NoEndPastLine(s: string, from: nat, eol: nat, rest: string, e: nat)
    requires from <= eol <= |s| && s[eol..] == rest
    requires rest == [] || IsLineTerminator(rest[0])
    requires eol <= e
    ensures !Ends(s, from, e)
  {
    if e + |NameClose| <= |s| {
      assert s[e..e + |NameClose|][0] == s[e];
      assert rest != [] && s[eol] == rest[0];
    }
  }

  /** The line the detection prompt asks for gives back its name: for
      `ALERT: <name> detected!` ending its line, the name is recovered
      exactly, even when it contains ` detected!` itself. */
  lemma AlertNameOfReport(name: string, rest: string)
    requires forall k :: 0 <= k < |name| ==> !IsLineTerminator(name[k])
    requires rest == [] || IsLineTerminator(rest[0])
    ensures AlertName(NameOpen + name + NameClose + rest) == name
  {
    var s := NameOpen + name + NameClose + rest;
    var m := |NameOpen| + |name|;
    ReportEnds(name, rest);
    ReportNoLaterEnd(name, rest);
    assert Longest(s, |NameOpen|, m);
    AlertNameIsLeftmostLongest(s, 0, m);
  }

  /** In a report line the opening tag sits at the start and the capture
      can end at the closing text. */
  lemma ReportEnds(name: string, rest: string)
    requires forall k :: 0 <= k < |name| ==> !IsLineTerminator(name[k])
    ensures OccursAt(NameOpen + name + NameClose + rest, NameOpen, 0)
    ensures Ends(NameOpen + name + NameClose + rest, |NameOpen|, |NameOpen| + |name|)
  {
    var s := NameOpen + name + NameClose + rest;
    var from := |NameOpen|;
    var m := from + |name|;
    assert s[..from] == NameOpen;
    assert s[m..m + |NameClose|] == NameClose;
    forall k | from <= k < m
      ensures !IsLineTerminator(s[k])
    {
      assert s[k] == name[k - from];
    }
  }

  /** In a report line no capture ends after the closing text. */
  lemma ReportNoLaterEnd(name: string, rest: string)
    requires forall k :: 0 <= k < |name| ==> !IsLineTerminator(name[k])
    requires rest == [] || IsLineTerminator(rest[0])
    ensures forall e': nat :: |NameOpen| + |name| < e' ==> !Ends(NameOpen + name + NameClose + rest, |NameOpen|, e')
  {
    var s := NameOpen + name + NameClose + rest;
    var from := |NameOpen|;
    var m := from + |name|;
    assert s[m..m + |NameClose|] == NameClose;
    forall e': nat | m < e' < m + |NameClose|
      ensures !Ends(s, from, e')
    {
      assert s[e'] == s[m..m + |NameClose|][e' - m];
      CloseTail(e' - m);
      if e' + |NameClose| <= |s| {
        assert s[e'..e' + |NameClose|][0] == s[e'];
      }
    }
    assert s[m + |NameClose|..] == rest;
    forall e': nat | m + |NameClose| <= e'
      ensures !Ends(s, from, e')
    {
      NoEndPastLine(s, from, m + |NameClose|, rest, e');
    }
  }

  /** The capture is greedy: with two ` detected!` on the line it runs to
      the second, so `ALERT: Boar detected! Deer detected!` names
      `Boar detected! Deer`. */
  lemma GreedyCapture(a: string, b: string)
    requires forall k :: 0 <= k < |a| ==> !IsLineTerminator(a[k])
    requires forall k :: 0 <= k < |b| ==> !IsLineTerminator(b[k])
    ensures AlertName(NameOpen + a + NameClose + b + NameClose) == a + NameClose + b
  {
    var name := a + NameClose + b;
    forall k | 0 <= k < |name|
      ensures !IsLineTerminator(name[k])
    {
      if k < |a| {
        assert name[k] == a[k];
      } else if k < |a| + |NameClose| {
        assert name[k] == NameClose[k - |a|];
      } else {
        assert name[k] == b[k - |a| - |NameClose|];
      }
    }
    AlertNameOfReport(name, "");
    assert NameOpen + name + NameClose + "" == NameOpen + a + NameClose + b + NameClose;
  }

  // ---------------------------------------------------------------------------
  // the description

  /** `result.split('\n')[1] || "Unusual movement ..."`: the second line, or
      the fixed text when there is none or it is empty. */
  function Description(s: string): (d: string)
    ensures d != []
  {
    var lines := Split(s, '\n');
    if |lines| > 1 && lines[1] != [] then lines[1] else DefaultDescription
  }

  /** For a reply made of lines, the description is its second line when
      that is non-empty, and the fixed text otherwise. */
  lemma DescriptionOfLines(lines: seq<string>)
    requires |lines| >= 1
    requires forall i :: 0 <= i < |lines| ==> '\n' !in lines[i]
    ensures Description(Join(lines, '\n')) == if |lines| > 1 && lines[1] != [] then lines[1] else DefaultDescription
  {
    SplitJoin(lines, '\n');
  }

  // ---------------------------------------------------------------------------
  // the alert log

  /** `[newAlert, ...prev].slice(0, 10)`. */
  function PushAlert(log: seq<Alert>, a: Alert): (r: seq<Alert>)
    ensures |r| == Min(|log| + 1, MaxAlerts)
    ensures r[0] == a
    ensures r[1..] == log[..|r| - 1]
  {
    var r := ([a] + log)[..Min(|log| + 1, MaxAlerts)];
    assert r[1..] == log[..|r| - 1];
    r
  }

  /** The alerts of `xs` pushed one after another, first to last. */
  function PushAll(log: seq<Alert>, xs: seq<Alert>): seq<Alert> {
    if xs == [] then log else PushAlert(PushAll(log, xs[..|xs| - 1]), xs[|xs| - 1])
  }

  function Reversed(xs: seq<Alert>): (r: seq<Alert>)
    ensures |r| == |xs|
  {
    if xs == [] then [] else [xs[|xs| - 1]] + Reversed(xs[..|xs| - 1])
  }

  /** After any run of alerts, the log is the newest ten of them followed by
      the old log, newest first. */
  lemma {:induction false} PushAllKeepsNewest(log: seq<Alert>, xs: seq<Alert>)
    requires |log| <= MaxAlerts
    ensures PushAll(log, xs) == (Reversed(xs) + log)[..Min(|xs| + |log|, MaxAlerts)]
    decreases |xs|
  {
    if xs == [] {
      assert Reversed(xs) + log == log;
    } else {
      var init := xs[..|xs| - 1];
      var a := xs[|xs| - 1];
      PushAllKeepsNewest(log, init);
      var whole := Reversed(init) + log;
      PushOntoPrefix(whole, Min(|init| + |log|, MaxAlerts), a);
      assert Reversed(xs) + log == [a] + whole;
    }
  }

  /** Pushing onto a prefix of a list is taking a prefix of the longer
      list. */
  lemma PushOntoPrefix(whole: seq<Alert>, m: nat, a: Alert)
    requires m <= |whole|
    ensures PushAlert(whole[..m], a) == ([a] + whole)[..Min(m + 1, MaxAlerts)]
  {
    var r := PushAlert(whole[..m], a);
    forall k | 0 <= k < |r|
      ensures r[k] == ([a] + whole)[k]
    {
      if k > 0 {
        assert r[k] == r[1..][k - 1];
      }
    }
  }

  // ---------------------------------------------------------------------------
  // processing a reply

  /** The new state and, for an alert, what goes to the parent. */
  datatype Outcome = Outcome(monitor: Monitor, notice: Option<Notice>)

  /** `processAIDetection(result, image)`, with the id and the clock reading
      as parameters (an undefined result is ""). */
  function ProcessDetection(m: Monitor, result: string, img: string, id: string, time: string): (o: Outcome)
    ensures !Contains(result, AlertTag) ==> o.monitor == m.(status := ClearStatus) && o.notice.None?
    ensures Contains(result, AlertTag) ==>
      && |o.monitor.alerts| == Min(|m.alerts| + 1, MaxAlerts)
      && o.monitor.alerts[0] == Alert(id, AlertName(result), time, img)
      && o.monitor.alerts[1..] == m.alerts[..|o.monitor.alerts| - 1]
      && o.monitor.status == WarningStatus(AlertName(result))
      && o.notice == Some(Notice(AlertName(result), result, img))
    ensures o.monitor.monitoring == m.monitoring && o.monitor.loading == m.loading
    ensures o.monitor.error == m.error && o.monitor.lastScan == m.lastScan
    ensures o.monitor.timer == m.timer && o.monitor.stream == m.stream
  {
    if Contains(result, AlertTag) then
      var name := AlertName(result);
      var m' := m.(alerts := PushAlert(m.alerts, Alert(id, name, time, img)), status := WarningStatus(name));
      Outcome(m', Some(Notice(name, result, img)))
    else
      Outcome(m.(status := ClearStatus), None)
  }

  /** A reply with the tag but not the full pattern still raises an alert,
      under the fixed name. */
  lemma BareTagIsUnidentified(m: Monitor, img: string, id: string, time: string)
    ensures var o := ProcessDetection(m, AlertTag, img, id, time);
      && o.monitor.alerts[0].animal == UnknownAnimal
      && o.monitor.status == WarningStatus(UnknownAnimal)
  {
    assert StartsWith(AlertTag, AlertTag);
    assert FirstMatch(AlertTag, 0) == None;
  }

  // ---------------------------------------------------------------------------
  // scanning

  /** What `captureAndAnalyze` finds on the page when the timer fires: the
      video and canvas elements, the video's ready state and width, and
      whether a 2D context is available. */
  datatype Frame = Frame(video: bool, canvas: bool, readyState: int, videoWidth: int, context: bool)

  /** The three early returns of `captureAndAnalyze` all fail to fire. */
  predicate ScanStarts(m: Monitor, f: Frame) {
    && f.video && f.canvas && !m.loading && m.monitoring
    && f.readyState >= 2 && f.videoWidth != 0
    && f.context
  }

  /** The synchronous part of `captureAndAnalyze`: unless a guard returns
      early, the scan is marked in flight and its time recorded. */
  function BeginScan(m: Monitor, f: Frame, time: string): (m': Monitor)
    ensures !ScanStarts(m, f) ==> m' == m
    ensures ScanStarts(m, f) ==> m' == m.(loading := true, lastScan := Some(time))
  {
    if ScanStarts(m, f) then m.(loading := true, lastScan := Some(time)) else m
  }

  /** The part of `captureAndAnalyze` after the service answers: the reply
      is processed, or a failure shows the retry status; `finally` clears
      the busy flag either way. */
  function FinishScan(m: Monitor, reply: Reply, img: string, id: string, time: string): (o: Outcome)
    ensures !o.monitor.loading
    ensures o.monitor.monitoring == m.monitoring && o.monitor.timer == m.timer
    ensures o.monitor.stream == m.stream && o.monitor.error == m.error
    ensures o.monitor.lastScan == m.lastScan
    ensures reply.Failed? ==> o == Outcome(m.(status := RetryStatus, loading := false), None)
    ensures reply.Answered? ==> o == Outcome(ProcessDetection(m, reply.text, img, id, time).monitor.(loading := false), ProcessDetection(m, reply.text, img, id, time).notice)
  {
    match reply
    case Failed => Outcome(m.(status := RetryStatus, loading := false), None)
    case Answered(t) =>
      var o := ProcessDetection(m, t, img, id, time);
      Outcome(o.monitor.(loading := false), o.notice)
  }

  /** A scan that starts and then fails leaves monitoring, the alert log and
      the error as they were, shows the retry status, and is no longer
      busy. */
  lemma FailedScanOnlySetsStatus(m: Monitor, f: Frame, img: string, id: string, time: string)
    requires ScanStarts(m, f)
    ensures var o := FinishScan(BeginScan(m, f, time), Failed, img, id, time);
      o.monitor == m.(status := RetryStatus, lastScan := Some(time)) && o.notice.None?
  {
  }

  /** A scan that starts and completes is busy in between and not after. */
  lemma ScanClearsLoading(m: Monitor, f: Frame, reply: Reply, img: string, id: string, t1: string, t2: string)
    requires ScanStarts(m, f)
    ensures BeginScan(m, f, t1).loading
    ensures !FinishScan(BeginScan(m, f, t1), reply, img, id, t2).monitor.loading
    ensures FinishScan(BeginScan(m, f, t1), reply, img, id, t2).monitor.monitoring == m.monitoring
  {
  }

  // ---------------------------------------------------------------------------
  // starting and stopping

  /** What asking for the camera gives: the stream, or an error with its
      `name`. */
  datatype Camera = Granted | Refused(name: string)

  /** `startStream`, with the camera's answer as a parameter and the
      metadata callback run at once. The stream is only attached when the
      video element is mounted; without it nothing but the error changes. */
  function Start(m: Monitor, camera: Camera, videoMounted: bool): (m': Monitor)
    ensures camera.Refused? ==> m' == m.(error := Some(if camera.name == "NotAllowedError" then DeniedError else HardwareError), status := FailedStatus)
    ensures camera.Granted? && videoMounted ==> m'.monitoring && m'.timer && m'.stream && m'.status == ActiveStatus && m'.error.None?
    ensures camera.Granted? && !videoMounted ==> m' == m.(error := None)
    ensures m'.alerts == m.alerts && m'.loading == m.loading && m'.lastScan == m.lastScan
    ensures camera.Refused? || !videoMounted ==> m'.monitoring == m.monitoring && m'.timer == m.timer
  {
    var cleared := m.(error := None);
    match camera
    case Refused(name) =>
      cleared.(error := Some(if name == "NotAllowedError" then DeniedError else HardwareError), status := FailedStatus)
    case Granted =>
      if videoMounted then
        cleared.(stream := true, monitoring := true, status := ActiveStatus, timer := true)
      else cleared
  }

  /** A refused camera leaves an idle monitor off, and only a refusal named
      `NotAllowedError` reads as a permission problem. */
  lemma RefusalKeepsMonitorOff(m: Monitor, name: string)
    requires !m.monitoring
    ensures !Start(m, Refused(name), true).monitoring
    ensures Start(m, Refused(name), true).error == Some(DeniedError) <==> name == "NotAllowedError"
  {
  }

  /** `stopStream` (also run on unmount): the stream and the timer are
      released, and the monitor is off, idle and offline. */
  function Stop(m: Monitor): (m': Monitor)
    ensures !m'.monitoring && !m'.loading && !m'.timer && !m'.stream && m'.status == OfflineStatus
    ensures m'.alerts == m.alerts && m'.error == m.error && m'.lastScan == m.lastScan
  {
    m.(stream := false, timer := false, monitoring := false, loading := false, status := OfflineStatus)
  }

  lemma StopIdempotent(m: Monitor)
    ensures Stop(Stop(m)) == Stop(m)
  {
  }

  /** Once stopped, a timer tick changes nothing. */
  lemma NoScanAfterStop(m: Monitor, f: Frame, time: string)
    ensures BeginScan(Stop(m), f, time) == Stop(m)
  {
  }

  /** A reply that arrives after the monitor was stopped is still applied:
      its alert is logged and its status replaces "System Offline", though
      monitoring stays off. */
  lemma LateReplyAfterStop(m: Monitor, f: Frame, result: string, img: string, id: string, t1: string, t2: string)
    requires ScanStarts(m, f) && Contains(result, AlertTag)
    ensures var o := FinishScan(Stop(BeginScan(m, f, t1)), Answered(result), img, id, t2);
      && !o.monitor.monitoring
      && o.monitor.status == WarningStatus(AlertName(result))
      && o.monitor.alerts[0].animal == AlertName(result)
  {
  }

  /** The finish step as the late reply above suggests it was meant: once the
      monitor is off, the reply is dropped (no alert, no notice, no new
      status) and only the busy flag is cleared; while monitoring it is
      `FinishScan`. */
  function FinishScanIfActive(m: Monitor, reply: Reply, img: string, id: string, time: string): (o: Outcome)
    ensures !o.monitor.loading && o.monitor.monitoring == m.monitoring
    ensures !m.monitoring ==> o.notice.None? && o.monitor == m.(loading := false)
    ensures m.monitoring ==> o == FinishScan(m, reply, img, id, time)
  {
    if m.monitoring then FinishScan(m, reply, img, id, time)
    else Outcome(m.(loading := false), None)
  }

  /** With the guarded finish step, whatever reply arrives after stopping,
      the stopped monitor stays exactly as `Stop` left it and the parent is
      not told. */
  lemma LateReplyDiscarded(m: Monitor, reply: Reply, img: string, id: string, time: string)
    ensures FinishScanIfActive(Stop(m), reply, img, id, time) == Outcome(Stop(m), None)
  {
  }

  /** The "Clear Logs" button. */
  function ClearAlerts(m: Monitor): (m': Monitor)
    ensures m'.alerts == []
    ensures m' == m.(alerts := [])
  {
    m.(alerts := [])
  }

  // ---------------------------------------------------------------------------
  // the monitor as a whole

  /** Everything that can happen to the monitor. */
  datatype Event =
    | StartEvent(camera: Camera, videoMounted: bool)
    | StopEvent
    | Tick(frame: Frame, time: string)
    | ReplyEvent(reply: Reply, img: string, id: string, time: string)
    | ClearEvent

  function Next(m: Monitor, e: Event): Monitor {
    match e
    case StartEvent(camera, mounted) => Start(m, camera, mounted)
    case StopEvent => Stop(m)
    case Tick(f, t) => BeginScan(m, f, t)
    case ReplyEvent(r, img, id, t) => FinishScan(m, r, img, id, t).monitor
    case ClearEvent => ClearAlerts(m)
  }

  function RunEvents(m: Monitor, es: seq<Event>): Monitor
    decreases |es|
  {
    if es == [] then m else RunEvents(Next(m, es[0]), es[1..])
  }

  /** Every handler keeps the monitor consistent. */
  lemma NextKeepsConsistent(m: Monitor, e: Event)
    requires Consistent(m)
    ensures Consistent(Next(m, e))
  {
    match e
    case ReplyEvent(r, img, id, t) => FinishKeepsConsistent(m, r, img, id, t);
    case _ =>
  }

  /** The finish step keeps the monitor consistent. */
  lemma FinishKeepsConsistent(m: Monitor, reply: Reply, img: string, id: string, time: string)
    requires Consistent(m)
    ensures Consistent(FinishScan(m, reply, img, id, time).monitor)
  {
    if reply.Answered? {
      var o := ProcessDetection(m, reply.text, img, id, time);
      assert |o.monitor.alerts| <= MaxAlerts;
    }
  }

  /** From mount on, whatever happens, the log holds at most ten alerts and a
      timer runs exactly while monitoring. */
  lemma {:induction false} RunKeepsConsistent(m: Monitor, es: seq<Event>)
    requires Consistent(m)
    ensures Consistent(RunEvents(m, es))
    ensures |RunEvents(m, es).alerts| <= MaxAlerts
    decreases |es|
  {
    if es != [] {
      NextKeepsConsistent(m, es[0]);
      RunKeepsConsistent(Next(m, es[0]), es[1..]);
    }
  }

  /** A run in which every start finds the video element exactly when the
      monitor is on, as the view renders `<video>` only while monitoring. */
  predicate Respects(m: Monitor, es: seq<Event>)
    decreases |es|
  {
    es == [] ||
    ((es[0].StartEvent? ==> es[0].videoMounted == m.monitoring) && Respects(Next(m, es[0]), es[1..]))
  }

  /** As rendered, the monitor never starts: from a stopped state, a run in
      which the video element is mounted only while monitoring never turns
      monitoring on, and never attaches a stream when none was attached. */
  lemma {:induction false} NeverMonitors(m: Monitor, es: seq<Event>)
    requires !m.monitoring && Respects(m, es)
    ensures !RunEvents(m, es).monitoring
    ensures !m.stream ==> !RunEvents(m, es).stream
    decreases |es|
  {
    if es != [] {
      NeverMonitors(Next(m, es[0]), es[1..]);
    }
  }

  lemma IdleConsistent()
    ensures Consistent(Idle)
  {
  }
}
