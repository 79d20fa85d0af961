/**
 * Quixote/quixote.c and Quixote/quixote-console.c: the commands of the management socket, what the
 * orchestrator sends for each and what the console reads for each.
 */
module ConsoleProtocol {
  import opened Bytes
  import opened Codec
  import opened Wrappers

  type Record = seq<Byte>

  type Line = seq<Byte>

  const EXPORT_EVENT: nat := 1
  const AGGREGATE_EVENT: nat := 2
  const SEAL_EVENT: nat := 3
  const LOG_EVENT: nat := 4
  const SANCHO_LOAD: nat := 5
  const SHOW_MEASUREMENT: nat := 6
  const SHOW_STATE: nat := 7
  const SHOW_TRAJECTORY: nat := 8
  const SHOW_COUNTS: nat := 9
  const SHOW_COEFFICIENTS: nat := 10
  const SHOW_FORENSICS_COUNTS: nat := 11
  const SHOW_FORENSICS_COEFFICIENTS: nat := 12
  const SHOW_FORENSICS: nat := 13
  const SHOW_EVENTS: nat := 14
  const SHOW_MAP: nat := 15
  const ENABLE_CELL: nat := 16
  const SANCHO_RESET: nat := 17
  const COMMANDS_MAX: nat := 18

  /** Sancho_cmd_list: the text of command `i + 1`. */
  const SYNTAX: seq<string> := [
    "export ", "aggregate ", "seal", "log", "load ", "show measurement", "show state", "show trajectory",
    "show counts", "show coefficients", "show forensics_counts", "show forensics_coefficients",
    "show forensics", "show events", "show map", "enable cellular", "reset"
  ]

  /** The files of the security namespace that commands read. */
  datatype Name = Measurement | State | Aggregate | Trajectory | Counts | Coefficients
                | Forensics | ForensicsCounts | ForensicsCoefficients

  // --- The orchestrator's side ---

  /** What a command makes the orchestrator do. */
  datatype Job = One(file: Name) | List(file: Name) | Map | Seal | NoJob

  function JobOf(cmd: nat): Job {
    if cmd == SHOW_MEASUREMENT then One(Measurement)
    else if cmd == SHOW_STATE then One(State)
    else if cmd == SHOW_TRAJECTORY then List(Trajectory)
    else if cmd == SHOW_COUNTS then List(Counts)
    else if cmd == SHOW_COEFFICIENTS then List(Coefficients)
    else if cmd == SHOW_FORENSICS then List(Forensics)
    else if cmd == SHOW_FORENSICS_COUNTS then List(ForensicsCounts)
    else if cmd == SHOW_FORENSICS_COEFFICIENTS then List(ForensicsCoefficients)
    else if cmd == SEAL_EVENT then Seal
    else if cmd == SHOW_MAP then Map
    else NoJob
  }

  /** The list a job sends. */
  function ListFile(job: Job): Name {
    if job.List? then job.file else Coefficients
  }

  predicate SendsList(job: Job) {
    job.List? || job.Map?
  }

  function Request(cmd: nat): Record {
    ToLE(cmd, 4)
  }

  /** The command of a request, if it is the size of an `int` and in range. */
  function Requested(r: Record): Option<nat> {
    if |r| == 4 && 1 <= FromLE(r) <= COMMANDS_MAX then Some(FromLE(r)) else None
  }

  lemma RequestedRequest(cmd: nat)
    requires 1 <= cmd <= COMMANDS_MAX
    ensures Requested(Request(cmd)) == Some(cmd)
  {
    Pow256Widths();
    FromToLE(cmd, 4);
  }

  /** A line as a C string. */
  function Terminated(line: Line): Record {
    line + [0]
  }

  function Points(lines: seq<Line>): (rs: seq<Record>)
    ensures |rs| == |lines|
  {
    seq(|lines|, i requires 0 <= i < |lines| => Terminated(lines[i]))
  }

  function Chars(line: Line): string {
    seq(|line|, i requires 0 <= i < |line| => line[i] as char)
  }

  const OK: Record := [79, 75, 0]

  /** A `size_t` count, and the lines sent after it so far. */
  function ListRecords(count: nat, lines: seq<Line>): seq<Record> {
    [ToLE(count, 8)] + Points(lines)
  }

  /** A line of hexadecimal as bytes; an empty one is refused like a malformed one. */
  function Digest(line: Line): (b: Option<Record>)
    ensures b.Some? ==> b.value != []
  {
    if line == [] then None
    else
      HexBytesLength(Chars(line));
      HexBytes(Chars(line))
  }

  /** What precedes the list. */
  function Opening(job: Job, head: Record): seq<Record> {
    if job.Map? then [head] else []
  }

  /**
   * One command's readings of a list file: the lines its first pass counts, and what each read of the second
   * pass returns, if the file opens again. The file may change at any time.
   */
  datatype Passes = Passes(counted: seq<Line>, again: Option<nat -> Option<Line>>)

  /** Everything a command may read. `None` is a file that cannot be opened, or holds no line. */
  datatype Store = Store(first: Name -> Option<Line>, lists: Name -> Option<Passes>, sealed: bool, seals: bool)

  /** The lines the second pass sends: a failed read leaves the string empty. */
  function Reread(n: nat, again: nat -> Option<Line>): (lines: seq<Line>)
    ensures |lines| == n
  {
    seq(n, i requires 0 <= i < n => if again(i).Some? then again(i).value else [])
  }

  function ListReply(f: Option<Passes>): (seq<Record>, bool) {
    if f.None? then ([], false)
    else if f.value.again.None? then (ListRecords(|f.value.counted|, []), false)
    else (ListRecords(|f.value.counted|, Reread(|f.value.counted|, f.value.again.value)), true)
  }

  function FirstDigest(w: Store, file: Name): Option<Record> {
    if w.first(file).None? then None else Digest(w.first(file).value)
  }

  /** The records sent for a request, and whether the orchestrator goes on to another command. */
  function Serve(request: Record, w: Store): (seq<Record>, bool) {
    match Requested(request)
    case None => ([], false)
    case Some(cmd) =>
      match JobOf(cmd)
      case NoJob => ([], false)
      case Seal => if w.sealed || w.seals then ([OK], true) else ([], false)
      case List(file) => ListReply(w.lists(file))
      case Map =>
        var head := FirstDigest(w, Aggregate);
        if head.None? then ([], false)
        else
          var (rs, ok) := ListReply(w.lists(Coefficients));
          ([head.value] + rs, ok)
      case One(file) =>
        var head := FirstDigest(w, file);
        if head.None? then ([], false) else ([head.value], true)
  }

  // --- The console's side ---

  /** What is written to standard output, a line at a time. */
  datatype Out = Plain(text: string) | Text(prefix: string, line: seq<Byte>) | Hex(prefix: string, bytes: seq<Byte>)

  datatype Phase = Idle | Failed | AwaitText | AwaitHex | AwaitAggregate
                 | AwaitCount(isMap: bool) | AwaitPoints(isMap: bool, left: nat)

  datatype Console = Console(phase: Phase, out: seq<Out>)

  /** What the console waits for after sending a command. */
  function StartOf(cmd: nat): Phase {
    if cmd == SEAL_EVENT || cmd == ENABLE_CELL then AwaitText
    else if cmd == SHOW_MEASUREMENT || cmd == SHOW_STATE then AwaitHex
    else if cmd == SHOW_TRAJECTORY || cmd == SHOW_COUNTS || cmd == SHOW_FORENSICS_COUNTS || cmd == SHOW_FORENSICS
            || cmd == SHOW_COEFFICIENTS || cmd == SHOW_FORENSICS_COEFFICIENTS || cmd == SHOW_EVENTS
    then AwaitCount(false)
    else if cmd == SHOW_MAP then AwaitAggregate
    else Failed
  }

  function Asked(cmd: nat): Console {
    Console(StartOf(cmd), [])
  }

  /** `%s`: up to the first NUL. */
  function CString(r: Record): seq<Byte> {
    if r == [] || r[0] == 0 then [] else [r[0]] + CString(r[1..])
  }

  /** The count is read as an `unsigned int` from the start of the record. */
  function CountOf(r: Record): nat {
    FromLE(if |r| >= 4 then r[..4] else r)
  }

  function Prefix(isMap: bool): string {
    if isMap then "state " else ""
  }

  /** What follows the last point. */
  function Closing(isMap: bool): seq<Out> {
    if isMap then [Plain("seal"), Plain("end")] else []
  }

  /** Points still to come, or the end of the list. */
  function Settle(isMap: bool, left: nat, out: seq<Out>): Console {
    if left == 0 then Console(Idle, out + Closing(isMap)) else Console(AwaitPoints(isMap, left), out)
  }

  predicate Listening(c: Console) {
    c.phase != Idle && c.phase != Failed && (c.phase.AwaitPoints? ==> c.phase.left > 0)
  }

  /** One record received. */
  function Take(c: Console, r: Record): Console
    requires Listening(c)
  {
    match c.phase
    case AwaitText => Console(Idle, c.out + [Text("", CString(r))])
    case AwaitHex => Console(Idle, c.out + [Hex("", r)])
    case AwaitAggregate => Console(AwaitCount(true), c.out + [Hex("aggregate ", r)])
    case AwaitCount(isMap) => Settle(isMap, CountOf(r), c.out)
    case AwaitPoints(isMap, left) => Settle(isMap, left - 1, c.out + [Text(Prefix(isMap), CString(r))])
  }

  /** The console after everything sent to it, and the records it does not read. */
  function Feed(c: Console, rs: seq<Record>): (Console, seq<Record>)
    decreases |rs|
  {
    if rs == [] || !Listening(c) then (c, rs) else Feed(Take(c, rs[0]), rs[1..])
  }

  /** What the console shows for a list. */
  function Shown(isMap: bool, lines: seq<Line>): (out: seq<Out>)
    ensures |out| == |lines|
  {
    seq(|lines|, i requires 0 <= i < |lines| => Text(Prefix(isMap), CString(Terminated(lines[i]))))
  }

  /** A line without a NUL is shown whole. */
  lemma {:induction false} CStringTerminated(line: Line)
    requires 0 !in line
    ensures CString(Terminated(line)) == line
  {
    if line != [] {
      assert Terminated(line)[0] == line[0] && Terminated(line)[1..] == Terminated(line[1..]);
      assert 0 !in line[1..];
      CStringTerminated(line[1..]);
    }
  }

  /** Eight bytes are written and four are read. */
  lemma CountIsModulo(count: nat)
    requires count < U64
    ensures CountOf(ToLE(count, 8)) == count % U32
  {
    hide ToLE, FromLE, Pow256;
    var r := ToLE(count, 8);
    Pow256Widths();
    FromToLE(count, 8);
    FromLESplit(r[..4], r[4..]);
    FromLEBound(r[..4]);
    assert r == r[..4] + r[4..];
    assert count == FromLE(r[..4]) + U32 * FromLE(r[4..]);
  }

  /** One record more. */
  lemma {:induction false} FeedMore(c: Console, rs: seq<Record>, r: Record)
    ensures Feed(c, rs + [r]) ==
            (var (after, over) := Feed(c, rs);
             if Listening(after) then (Take(after, r), []) else (after, over + [r]))
    ensures Listening(Feed(c, rs).0) ==> Feed(c, rs).1 == []
    decreases |rs|
  {
    hide Take, Listening;
    if rs != [] {
      assert (rs + [r])[0] == rs[0] && (rs + [r])[1..] == rs[1..] + [r];
      if Listening(c) {
        FeedMore(Take(c, rs[0]), rs[1..], r);
      }
    } else {
      assert rs + [r] == [r] && [r][1..] == [];
      if Listening(c) {
        assert Feed(Take(c, r), []) == (Take(c, r), []);
      }
    }
  }

  lemma FeedOne(c: Console, r: Record)
    requires Listening(c)
    ensures Feed(c, [r]) == (Take(c, r), [])
  {
    hide Take, Listening;
    assert [r][1..] == [] && Feed(Take(c, r), []) == (Take(c, r), []);
  }

  /** Feeding twice. */
  lemma {:induction false} FeedConcat(c: Console, xs: seq<Record>, ys: seq<Record>)
    requires Listening(Feed(c, xs).0)
    ensures Feed(c, xs + ys) == Feed(Feed(c, xs).0, ys)
    decreases |xs|
  {
    hide Take, Listening;
    if xs == [] {
      assert xs + ys == ys;
    } else {
      assert (xs + ys)[0] == xs[0] && (xs + ys)[1..] == xs[1..] + ys;
      if Listening(c) {
        FeedConcat(Take(c, xs[0]), xs[1..], ys);
      }
    }
  }

  /** Points: the console takes as many as it waits for and leaves the rest. */
  lemma {:induction false} FeedPoints(isMap: bool, want: nat, out: seq<Out>, lines: seq<Line>)
    ensures |lines| < want ==>
              Feed(Settle(isMap, want, out), Points(lines)) == (Settle(isMap, want - |lines|, out + Shown(isMap, lines)), [])
    ensures |lines| >= want ==>
              Feed(Settle(isMap, want, out), Points(lines)) ==
              (Console(Idle, out + Shown(isMap, lines[..want]) + Closing(isMap)), Points(lines[want..]))
    decreases |lines|
  {
    hide CString, Terminated;
    var c := Settle(isMap, want, out);
    var rs := Points(lines);
    if lines == [] || want == 0 {
      assert lines[..0] == [] && lines[0..] == lines;
      assert out + Shown(isMap, []) == out;
    } else {
      var shown := Text(Prefix(isMap), CString(rs[0]));
      assert rs[0] == Terminated(lines[0]) && rs[1..] == Points(lines[1..]);
      assert Take(c, rs[0]) == Settle(isMap, want - 1, out + [shown]);
      FeedPoints(isMap, want - 1, out + [shown], lines[1..]);
      if |lines| < want {
        assert out + [shown] + Shown(isMap, lines[1..]) == out + Shown(isMap, lines);
      } else {
        assert lines[1..][..want - 1] == lines[..want][1..] && lines[1..][want - 1..] == lines[want..];
        assert out + [shown] + Shown(isMap, lines[1..][..want - 1]) == out + Shown(isMap, lines[..want]);
      }
    }
  }

  /** What the console has printed once the count is in. */
  function Opened(job: Job, head: Record): seq<Out> {
    if job.Map? then [Hex("aggregate ", head)] else []
  }

  lemma FeedOpening(cmd: nat, head: Record)
    requires SendsList(JobOf(cmd))
    ensures Feed(Asked(cmd), Opening(JobOf(cmd), head)) ==
            (Console(AwaitCount(JobOf(cmd).Map?), Opened(JobOf(cmd), head)), [])
  {
    if JobOf(cmd).Map? {
      FeedOne(Asked(cmd), head);
      assert Asked(cmd).out + Opened(Map, head) == Opened(Map, head);
    }
  }

  /**
   * A list as far as it has been sent, for every count: the console is done exactly when the lines sent reach
   * the count modulo 2^32; it has printed those lines and leaves the others unread.
   */
  lemma FeedList(cmd: nat, head: Record, count: nat, lines: seq<Line>, rs: seq<Record>)
    requires SendsList(JobOf(cmd)) && count < U64
    requires rs == Opening(JobOf(cmd), head) + ListRecords(count, lines)
    ensures var isMap := JobOf(cmd).Map?;
            var before := Opened(JobOf(cmd), head);
            var want := count % U32;
            Feed(Asked(cmd), rs) ==
            if |lines| < want then (Settle(isMap, want - |lines|, before + Shown(isMap, lines)), [])
            else (Console(Idle, before + Shown(isMap, lines[..want]) + Closing(isMap)), Points(lines[want..]))
  {
    hide JobOf, StartOf, Shown, CString, ToLE, Points;
    var isMap, before := JobOf(cmd).Map?, Opened(JobOf(cmd), head);
    var c := Console(AwaitCount(isMap), before);
    var list := ListRecords(count, lines);
    FeedOpening(cmd, head);
    FeedConcat(Asked(cmd), Opening(JobOf(cmd), head), list);
    assert list[0] == ToLE(count, 8) && list[1..] == Points(lines);
    CountIsModulo(count);
    assert Take(c, list[0]) == Settle(isMap, count % U32, before);
    FeedPoints(isMap, count % U32, before, lines);
  }

  /** What the console reports for a completed command: the whole of what was sent. */
  function Report(job: Job, head: Record, lines: seq<Line>): seq<Out> {
    match job
    case Seal => [Text("", CString(head))]
    case One(_) => [Hex("", head)]
    case NoJob => []
    case _ => Opened(job, head) + Shown(job.Map?, lines) + Closing(job.Map?)
  }

  /**
   * Every command the orchestrator answers: the console reads exactly the records sent, and reports all of
   * them, if and only if the list it counted is shorter than 2^32.
   */
  lemma AnswerIsReadWhole(cmd: nat, w: Store, passes: Option<Passes>)
    requires 1 <= cmd <= COMMANDS_MAX && Serve(Request(cmd), w).1
    requires passes == if SendsList(JobOf(cmd)) then w.lists(ListFile(JobOf(cmd))) else None
    requires passes.Some? ==> |passes.value.counted| < U64
    ensures Feed(Asked(cmd), Serve(Request(cmd), w).0).0.phase == Idle
    ensures Feed(Asked(cmd), Serve(Request(cmd), w).0).1 == [] <==>
            (passes.Some? ==> |passes.value.counted| < U32)
  {
    hide Digest, CString, ToLE, FromLE;
    RequestedRequest(cmd);
    var rs := Serve(Request(cmd), w).0;
    if passes.Some? {
      var n := |passes.value.counted|;
      var lines := Reread(n, passes.value.again.value);
      var head := if JobOf(cmd).Map? then rs[0] else [];
      assert rs == Opening(JobOf(cmd), head) + ListRecords(n, lines);
      FeedList(cmd, head, n, lines, rs);
    } else {
      assert |rs| == 1 && Listening(Asked(cmd));
      FeedOne(Asked(cmd), rs[0]);
    }
  }

  // --- The code ---

  /** A socket: records in flight, first sent first. */
  class Duct {
    var queue: seq<Record>

    constructor ()
      ensures queue == []
    {
      queue := [];
    }

    method SendBuffer(r: Record)
      modifies this
      ensures queue == old(queue) + [r]
    {
      queue := queue + [r];
    }

    /** Nothing to receive is a peer that has closed the socket. */
    method ReceiveBuffer() returns (r: Option<Record>)
      modifies this
      ensures old(queue) == [] ==> r.None? && queue == []
      ensures old(queue) != [] ==> r == Some(old(queue)[0]) && queue == old(queue)[1..]
    {
      if queue == [] {
        return None;
      }
      r, queue := Some(queue[0]), queue[1..];
    }
  }

  /** `send_trajectory`, `send_counts`, `send_coefficients`, `send_forensics`. */
  method SendList(mgmt: Duct, f: Option<Passes>) returns (ok: bool)
    modifies mgmt
    ensures mgmt.queue == old(mgmt.queue) + ListReply(f).0 && ok == ListReply(f).1
  {
    if f.None? {
      return false;
    }
    var cnt: nat := 0;
    while cnt < |f.value.counted|
      invariant cnt <= |f.value.counted|
    {
      cnt := cnt + 1;
    }
    mgmt.SendBuffer(ToLE(cnt, 8));
    if f.value.again.None? {
      return false;
    }
    ghost var lines := Reread(cnt, f.value.again.value);
    var at := 0;
    while cnt != 0
      invariant at + cnt == |lines|
      invariant mgmt.queue == old(mgmt.queue) + ListRecords(|lines|, lines[..at])
    {
      cnt := cnt - 1;
      var es: Line := [];
      var got := f.value.again.value(at);
      if got.Some? {
        es := got.value;
      }
      mgmt.SendBuffer(Terminated(es));
      assert Points(lines[..at + 1]) == Points(lines[..at]) + [Terminated(es)];
      at := at + 1;
    }
    assert lines[..at] == lines;
    return true;
  }

  /** `seal_domain`. */
  method SealDomain(mgmt: Duct, w: Store) returns (ok: bool)
    modifies mgmt
    ensures ok <==> w.sealed || w.seals
    ensures mgmt.queue == old(mgmt.queue) + if ok then [OK] else []
  {
    if !w.sealed {
      if !w.seals {
        return false;
      }
    }
    mgmt.SendBuffer(OK);
    return true;
  }

  /** `send_map`. */
  method SendMap(mgmt: Duct, w: Store) returns (ok: bool)
    modifies mgmt
    ensures (mgmt.queue, ok) ==
            if FirstDigest(w, Aggregate).None? then (old(mgmt.queue), false)
            else (old(mgmt.queue) + ([FirstDigest(w, Aggregate).value] + ListReply(w.lists(Coefficients)).0),
                  ListReply(w.lists(Coefficients)).1)
  {
    var line := w.first(Aggregate);
    if line.None? {
      return false;
    }
    var head := Digest(line.value);
    if head.None? {
      return false;
    }
    mgmt.SendBuffer(head.value);
    ok := SendList(mgmt, w.lists(Coefficients));
    assert mgmt.queue == old(mgmt.queue) + ([head.value] + ListReply(w.lists(Coefficients)).0);
  }

  /** `process_command` of the orchestrator. */
  method ServeCommand(mgmt: Duct, request: Record, w: Store) returns (ok: bool)
    modifies mgmt
    ensures mgmt.queue == old(mgmt.queue) + Serve(request, w).0 && ok == Serve(request, w).1
  {
    hide ListReply, Digest, FromLE;
    if |request| != 4 {
      return false;
    }
    var cp := FromLE(request);
    if cp < 1 || cp > COMMANDS_MAX {
      return false;
    }
    match JobOf(cp)
    case One(file) =>
      var line := w.first(file);
      if line.None? {
        return false;
      }
      var b := Digest(line.value);
      if b.None? {
        return false;
      }
      mgmt.SendBuffer(b.value);
      ok := true;
    case List(file) => ok := SendList(mgmt, w.lists(file));
    case Seal => ok := SealDomain(mgmt, w);
    case Map => ok := SendMap(mgmt, w);
    case NoJob => ok := false;
  }

  /** The countdown loop of every list reader, with the text around its points. */
  method ReceivePoints(mgmt: Duct, isMap: bool, count: nat) returns (ok: bool, out: seq<Out>)
    modifies mgmt
    ensures var (after, over) := Feed(Settle(isMap, count, []), old(mgmt.queue));
            out == after.out && mgmt.queue == over && (ok <==> after.phase == Idle)
  {
    out := [];
    var cnt := count;
    while cnt != 0
      invariant Feed(Settle(isMap, count, []), old(mgmt.queue)) == Feed(Settle(isMap, cnt, out), mgmt.queue)
    {
      var r := mgmt.ReceiveBuffer();
      if r.None? {
        return false, out;
      }
      out := out + [Text(Prefix(isMap), CString(r.value))];
      cnt := cnt - 1;
    }
    out := out + Closing(isMap);
    return true, out;
  }

  lemma TakeAfter(phase: Phase, out: seq<Out>, r: Record)
    requires Listening(Console(phase, out))
    ensures Take(Console(phase, out), r).phase == Take(Console(phase, []), r).phase
    ensures Take(Console(phase, out), r).out == out + Take(Console(phase, []), r).out
  {
  }

  lemma {:induction false} FeedAfter(phase: Phase, out: seq<Out>, rs: seq<Record>)
    ensures Feed(Console(phase, out), rs).0.phase == Feed(Console(phase, []), rs).0.phase
    ensures Feed(Console(phase, out), rs).0.out == out + Feed(Console(phase, []), rs).0.out
    ensures Feed(Console(phase, out), rs).1 == Feed(Console(phase, []), rs).1
    decreases |rs|
  {
    hide CString, CountOf;
    var c, d := Console(phase, out), Console(phase, []);
    if rs != [] && Listening(c) {
      var e, f := Take(c, rs[0]), Take(d, rs[0]);
      TakeAfter(phase, out, rs[0]);
      FeedAfter(e.phase, e.out, rs[1..]);
      FeedAfter(f.phase, f.out, rs[1..]);
      assert out + f.out + Feed(Console(e.phase, []), rs[1..]).0.out ==
             out + (f.out + Feed(Console(e.phase, []), rs[1..]).0.out);
    } else {
      assert out + [] == out;
    }
  }

  /** `receive_trajectory`, `receive_list`, `receive_forensics`, `receive_coefficients`, `receive_TE_events`. */
  method ReceiveList(mgmt: Duct, isMap: bool) returns (ok: bool, out: seq<Out>)
    requires mgmt.queue != [] ==> |mgmt.queue[0]| >= 4
    modifies mgmt
    ensures var (after, over) := Feed(Console(AwaitCount(isMap), []), old(mgmt.queue));
            out == after.out && mgmt.queue == over && (ok <==> after.phase == Idle)
  {
    var r := mgmt.ReceiveBuffer();
    if r.None? {
      return false, [];
    }
    var cnt := FromLE(r.value[..4]);
    ok, out := ReceivePoints(mgmt, isMap, cnt);
  }

  /** `receive_map`. */
  method ReceiveMap(mgmt: Duct) returns (ok: bool, out: seq<Out>)
    requires |mgmt.queue| >= 2 ==> |mgmt.queue[1]| >= 4
    modifies mgmt
    ensures var (after, over) := Feed(Console(AwaitAggregate, []), old(mgmt.queue));
            out == after.out && mgmt.queue == over && (ok <==> after.phase == Idle)
  {
    hide CString, CountOf;
    ghost var was := mgmt.queue;
    var r := mgmt.ReceiveBuffer();
    if r.None? {
      return false, [];
    }
    var first := Hex("aggregate ", r.value);
    assert Take(Console(AwaitAggregate, []), was[0]) == Console(AwaitCount(true), [first]);
    FeedAfter(AwaitCount(true), [first], mgmt.queue);
    ok, out := ReceiveList(mgmt, true);
    out := [first] + out;
  }

  /** `receive_command`. */
  method ReceiveCommand(mgmt: Duct, cmd: nat) returns (ok: bool, out: seq<Out>)
    requires StartOf(cmd).AwaitCount? && mgmt.queue != [] ==> |mgmt.queue[0]| >= 4
    requires StartOf(cmd).AwaitAggregate? && |mgmt.queue| >= 2 ==> |mgmt.queue[1]| >= 4
    modifies mgmt
    ensures var (after, over) := Feed(Asked(cmd), old(mgmt.queue));
            out == after.out && mgmt.queue == over && (ok <==> after.phase == Idle)
  {
    hide CString, CountOf;
    match StartOf(cmd)
    case AwaitCount(_) => ok, out := ReceiveList(mgmt, false);
    case AwaitAggregate => ok, out := ReceiveMap(mgmt);
    case AwaitText =>
      var r := mgmt.ReceiveBuffer();
      if r.None? {
        return false, [];
      }
      ok, out := true, [Text("", CString(r.value))];
    case AwaitHex =>
      var r := mgmt.ReceiveBuffer();
      if r.None? {
        return false, [];
      }
      ok, out := true, [Hex("", r.value)];
    case _ => ok, out := false, [];
  }

  /** A length and a place in the text that tell the commands apart. */
  function Mark(s: string): (nat, char) {
    (|s|, if |s| > 5 then s[5] else if s == "" then ' ' else s[0])
  }

  const MARKS: seq<(nat, char)> := [
    (7, 't'), (10, 'g'), (4, 's'), (3, 'l'), (5, 'l'), (16, 'm'), (10, 's'), (15, 't'), (11, 'c'), (17, 'c'),
    (21, 'f'), (27, 'f'), (14, 'f'), (11, 'e'), (8, 'm'), (15, 'e'), (5, 'r')
  ]

  lemma SyntaxDistinct(i: nat, j: nat)
    requires i < |SYNTAX| && j < |SYNTAX| && SYNTAX[i] == SYNTAX[j]
    ensures i == j
  {
    assert forall k :: 0 <= k < |SYNTAX| ==> Mark(SYNTAX[k]) == MARKS[k];
  }

  /** The search of the console's `process_command`: no command has the text of another. */
  method FindCommand(text: string) returns (cmd: nat)
    ensures cmd == 0 <==> text !in SYNTAX
    ensures cmd != 0 ==> cmd < COMMANDS_MAX && SYNTAX[cmd - 1] == text
    ensures forall k :: 0 <= k < |SYNTAX| && SYNTAX[k] == text ==> cmd == k + 1
  {
    cmd := 0;
    for lp := 0 to |SYNTAX|
      invariant cmd <= lp
      invariant cmd == 0 ==> text !in SYNTAX[..lp]
      invariant cmd != 0 ==> SYNTAX[cmd - 1] == text
      invariant forall k :: 0 <= k < lp && SYNTAX[k] == text ==> cmd == k + 1
    {
      if SYNTAX[lp] == text {
        SyntaxDistinct(lp, if cmd == 0 then lp else cmd - 1);
        cmd := lp + 1;
      }
    }
  }

  // --- What each command shows ---

  /** The command with this text. */
  predicate HasText(cmd: nat, text: string) {
    1 <= cmd <= |SYNTAX| && SYNTAX[cmd - 1] == text
  }

  lemma NumberOf(cmd: nat, text: string, n: nat)
    requires HasText(cmd, text) && HasText(n, text)
    ensures cmd == n
  {
    hide Mark;
    SyntaxDistinct(cmd - 1, n - 1);
  }

  /** The file whose digest a text asks for. */
  const DIGEST_FILES: map<string, Name> := map["show measurement" := Measurement, "show state" := State]

  /** The file whose lines a text asks for. */
  const LIST_FILES: map<string, Name> := map[
    "show trajectory" := Trajectory,
    "show counts" := Counts,
    "show coefficients" := Coefficients,
    "show forensics" := Forensics,
    "show forensics_counts" := ForensicsCounts,
    "show forensics_coefficients" := ForensicsCoefficients
  ]

  /** Texts the console sends and the orchestrator does not answer. */
  const UNANSWERED: set<string> :=
    {"export ", "aggregate ", "log", "load ", "show events", "enable cellular", "reset"}

  /** A line of a file that is the hexadecimal of a digest. */
  predicate HoldsDigest(w: Store, file: Name, digest: seq<Byte>) {
    digest != [] && w.first(file).Some? && Chars(w.first(file).value) == HexText(digest)
  }

  lemma DigestHeld(w: Store, file: Name, digest: seq<Byte>)
    requires HoldsDigest(w, file, digest)
    ensures FirstDigest(w, file) == Some(digest)
  {
    hide HexBytes, HexText;
    HexRoundTrip(digest, HexText(digest));
    assert |Chars(w.first(file).value)| == 2 * |digest|;
  }

  lemma DigestNumber(cmd: nat, text: string)
    requires text in DIGEST_FILES && HasText(cmd, text)
    ensures cmd == if text == "show measurement" then 6 else 7
  {
    NumberOf(cmd, text, if text == "show measurement" then 6 else 7);
  }

  /** "show measurement" and "show state": the digest in the file of that name is sent and shown, or nothing is. */
  lemma DigestShown(cmd: nat, text: string, w: Store, digest: seq<Byte>)
    requires text in DIGEST_FILES && HasText(cmd, text)
    ensures HoldsDigest(w, DIGEST_FILES[text], digest) ==>
              Serve(Request(cmd), w) == ([digest], true)
              && Feed(Asked(cmd), [digest]) == (Console(Idle, [Hex("", digest)]), [])
    ensures w.first(DIGEST_FILES[text]).None? ==> Serve(Request(cmd), w) == ([], false)
  {
    hide Digest, HexText, ToLE, FromLE;
    DigestNumber(cmd, text);
    RequestedRequest(cmd);
    if HoldsDigest(w, DIGEST_FILES[text], digest) {
      DigestHeld(w, DIGEST_FILES[text], digest);
      FeedOne(Asked(cmd), digest);
      assert Asked(cmd).out + [Hex("", digest)] == [Hex("", digest)];
    }
  }

  /** These lines are what the second pass over a file finds, and none of them holds a NUL. */
  ghost predicate HoldsLines(f: Option<Passes>, lines: seq<Line>) {
    && f.Some? && f.value.again.Some? && |f.value.counted| == |lines| < U32
    && forall i :: 0 <= i < |lines| ==>
         0 !in lines[i] && lines[i] == if f.value.again.value(i).Some? then f.value.again.value(i).value else []
  }

  /** A list on the socket: the count in eight bytes, then each line with its NUL. */
  function ListOnSocket(lines: seq<Line>): seq<Record> {
    [ToLE(|lines|, 8)] + seq(|lines|, i requires 0 <= i < |lines| => lines[i] + [0])
  }

  /** Lines on the screen, each behind the same text. */
  function OnScreen(before: string, lines: seq<Line>): seq<Out> {
    seq(|lines|, i requires 0 <= i < |lines| => Text(before, lines[i]))
  }

  lemma LinesHeld(f: Option<Passes>, lines: seq<Line>)
    requires HoldsLines(f, lines)
    ensures ListReply(f) == (ListOnSocket(lines), true) && ListOnSocket(lines) == ListRecords(|lines|, lines)
    ensures forall isMap :: Shown(isMap, lines) == OnScreen(if isMap then "state " else "", lines)
  {
    hide CString, ToLE;
    assert Reread(|lines|, f.value.again.value) == lines;
    assert Points(lines) == seq(|lines|, i requires 0 <= i < |lines| => lines[i] + [0]);
    forall isMap ensures Shown(isMap, lines) == OnScreen(if isMap then "state " else "", lines) {
      forall i | 0 <= i < |lines| ensures CString(Terminated(lines[i])) == lines[i] {
        CStringTerminated(lines[i]);
      }
    }
  }

  lemma ListNumber(cmd: nat, text: string)
    requires text in LIST_FILES && HasText(cmd, text)
    ensures JobOf(cmd) == List(LIST_FILES[text]) && 1 <= cmd <= COMMANDS_MAX
  {
    if text == "show trajectory" { NumberOf(cmd, text, 8); }
    else if text == "show counts" { NumberOf(cmd, text, 9); }
    else if text == "show coefficients" { NumberOf(cmd, text, 10); }
    else if text == "show forensics_counts" { NumberOf(cmd, text, 11); }
    else if text == "show forensics_coefficients" { NumberOf(cmd, text, 12); }
    else { NumberOf(cmd, text, 13); }
  }

  /** Each "show" of a list: the lines of the file of that name are sent, and shown as they are. */
  lemma ShowsList(cmd: nat, text: string, w: Store, lines: seq<Line>)
    requires text in LIST_FILES && HasText(cmd, text)
    ensures HoldsLines(w.lists(LIST_FILES[text]), lines) ==>
              Serve(Request(cmd), w) == (ListOnSocket(lines), true)
              && Feed(Asked(cmd), ListOnSocket(lines)) == (Console(Idle, OnScreen("", lines)), [])
    ensures w.lists(LIST_FILES[text]).None? ==> Serve(Request(cmd), w) == ([], false)
  {
    hide ToLE, FromLE, ListOnSocket, OnScreen, Shown, JobOf, StartOf, HasText, Feed;
    ListNumber(cmd, text);
    RequestedRequest(cmd);
    if HoldsLines(w.lists(LIST_FILES[text]), lines) {
      LinesHeld(w.lists(LIST_FILES[text]), lines);
      assert Opening(JobOf(cmd), []) + ListRecords(|lines|, lines) == ListOnSocket(lines);
      FeedList(cmd, [], |lines|, lines, ListOnSocket(lines));
      assert lines[..|lines|] == lines && Points(lines[|lines|..]) == [];
      assert [] + Shown(false, lines) + Closing(false) == Shown(false, lines);
    }
  }

  lemma MapNumber(cmd: nat)
    requires HasText(cmd, "show map")
    ensures cmd == 15
  {
    NumberOf(cmd, "show map", 15);
  }

  /**
   * "show map": the aggregate's digest and the coefficients are sent, and shown as the lines of a model file: the
   * aggregate, a state for each coefficient, seal and end.
   */
  lemma ShowsMap(cmd: nat, w: Store, digest: seq<Byte>, lines: seq<Line>)
    requires HasText(cmd, "show map")
    ensures HoldsDigest(w, Aggregate, digest) && HoldsLines(w.lists(Coefficients), lines) ==>
              Serve(Request(cmd), w) == ([digest] + ListOnSocket(lines), true)
              && Feed(Asked(cmd), [digest] + ListOnSocket(lines)) ==
                 (Console(Idle, [Hex("aggregate ", digest)] + OnScreen("state ", lines) + [Plain("seal"), Plain("end")]), [])
    ensures w.first(Aggregate).None? ==> Serve(Request(cmd), w) == ([], false)
  {
    hide ToLE, FromLE, ListOnSocket, OnScreen, Shown, HasText, Feed, Digest, HexText;
    MapNumber(cmd);
    RequestedRequest(cmd);
    if HoldsDigest(w, Aggregate, digest) && HoldsLines(w.lists(Coefficients), lines) {
      DigestHeld(w, Aggregate, digest);
      LinesHeld(w.lists(Coefficients), lines);
      FeedList(cmd, digest, |lines|, lines, [digest] + ListOnSocket(lines));
      assert lines[..|lines|] == lines && Points(lines[|lines|..]) == [];
    }
  }

  /** "seal": answered by OK exactly when the domain is sealed or can be. */
  lemma ShowsSeal(cmd: nat, w: Store)
    requires HasText(cmd, "seal")
    ensures Serve(Request(cmd), w) == if w.sealed || w.seals then ([[79, 75, 0]], true) else ([], false)
    ensures Feed(Asked(cmd), [[79, 75, 0]]) == (Console(Idle, [Text("", [79, 75])]), [])
  {
    hide ToLE, FromLE;
    NumberOf(cmd, "seal", 3);
    RequestedRequest(3);
    FeedOne(Asked(3), OK);
    assert OK[1..][1..] == [0] && CString(OK[1..][1..]) == [] && CString(OK[1..]) == [75];
    assert CString(OK) == [79, 75] && Asked(3).out + [Text("", [79, 75])] == [Text("", [79, 75])];
  }

  lemma UnansweredNumber(cmd: nat, text: string)
    requires text in UNANSWERED && HasText(cmd, text)
    ensures cmd in {1, 2, 4, 5, 14, 16, 17}
  {
    if text == "export " { NumberOf(cmd, text, 1); }
    else if text == "aggregate " { NumberOf(cmd, text, 2); }
    else if text == "log" { NumberOf(cmd, text, 4); }
    else if text == "load " { NumberOf(cmd, text, 5); }
    else if text == "show events" { NumberOf(cmd, text, 14); }
    else if text == "enable cellular" { NumberOf(cmd, text, 16); }
    else { NumberOf(cmd, text, 17); }
  }

  /** The other commands the console knows are not answered, and nothing that is not a command is. */
  lemma NotAnswered(cmd: nat, text: string, w: Store)
    requires text in UNANSWERED && HasText(cmd, text)
    ensures Serve(Request(cmd), w) == ([], false)
  {
    hide ToLE, FromLE;
    UnansweredNumber(cmd, text);
    RequestedRequest(cmd);
  }

  /** A request is answered only if it is four bytes long and names one of the ten commands above. */
  lemma OnlyCommandsAnswered(request: Record, w: Store)
    requires Serve(request, w).1 || Serve(request, w).0 != []
    ensures |request| == 4 && FromLE(request) in {3, 6, 7, 8, 9, 10, 11, 12, 13, 15}
  {
    hide FromLE, ListReply, FirstDigest;
  }

  /** Every text of the console is one of these. */
  lemma EveryText(cmd: nat, text: string)
    requires HasText(cmd, text)
    ensures text in DIGEST_FILES || text in LIST_FILES || text in UNANSWERED || text == "show map" || text == "seal"
  {
  }
}
