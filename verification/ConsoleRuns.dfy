/**
 * Console and orchestrator running side by side: every interleaving of their steps, with the files changing
 * at any moment and the orchestrator failing at any moment of a reply.
 */
module ConsoleRuns {
  import opened Bytes
  import opened Codec
  import opened ConsoleProtocol
  import opened Wrappers

  type Contents = s: seq<Line> | |s| < U64 witness []

  /** The orchestrator: waiting, before the first record, counting, sending, past an empty list, or gone. */
  datatype Server = Waiting | Heading(job: Job) | Counting(job: Job, at: nat)
                  | Sending(job: Job, at: nat, left: nat) | Finishing | Stopped

  /**
   * Both programs, the two directions of their socket, and the files. The rest is a record of the current
   * command: its number, all records sent for it, the first of them when it is not a list, the count sent,
   * the lines sent, and the file as it stood when its count was sent.
   */
  datatype Net = Net(server: Server, console: Console, requests: seq<Record>, replies: seq<Record>,
                     files: Name -> Contents,
                     cmd: nat, sent: seq<Record>, head: Record, count: nat, lines: seq<Line>,
                     snapshot: seq<Line>)

  function Start(files: Name -> Contents): Net {
    Net(Waiting, Console(Idle, []), [], [], files, 0, [], [], 0, [], [])
  }

  datatype Event = Ask(cmd: nat) | ServerMove | ServerFail | ConsoleMove | Change(files: Name -> Contents)

  function Emit(s: Net, r: Record, next: Server): Net {
    s.(replies := s.replies + [r], sent := s.sent + [r], server := next)
  }

  function LineAt(lines: seq<Line>, i: nat): Line {
    if i < |lines| then lines[i] else []
  }

  /** A request is taken up. */
  function Begin(s: Net, request: Record): Server {
    match Requested(request)
    case None => Stopped
    case Some(cmd) =>
      match JobOf(cmd)
      case NoJob => Stopped
      case List(_) => Counting(JobOf(cmd), 0)
      case _ => Heading(JobOf(cmd))
  }

  /** The single record of a reply, or the record before a map's list. */
  function Lead(s: Net, job: Job): Option<Record> {
    match job
    case Seal => Some(OK)
    case One(file) => if s.files(file) == [] then None else Digest(s.files(file)[0])
    case _ => if s.files(Aggregate) == [] then None else Digest(s.files(Aggregate)[0])
  }

  function ServerStep(s: Net): Net {
    match s.server
    case Stopped => s
    case Waiting =>
      if s.requests == [] then s else s.(requests := s.requests[1..], server := Begin(s, s.requests[0]))
    case Heading(job) =>
      var head := Lead(s, job);
      if head.None? then s.(server := Stopped)
      else Emit(s.(head := head.value), head.value, if job.Map? then Counting(job, 0) else Waiting)
    case Counting(job, at) =>
      var file := s.files(ListFile(job));
      if at < |file| then s.(server := Counting(job, at + 1))
      else Emit(s.(count := at, snapshot := file), ToLE(at, 8), if at == 0 then Finishing else Sending(job, 0, at))
    case Sending(job, at, left) =>
      var line := LineAt(s.files(ListFile(job)), at);
      Emit(s.(lines := s.lines + [line]), Terminated(line),
           if left <= 1 then Waiting else Sending(job, at + 1, left - 1))
    case Finishing => s.(server := Waiting)
  }

  function ConsoleStep(s: Net): Net {
    if !Listening(s.console) then s
    else if s.replies != [] then s.(console := Take(s.console, s.replies[0]), replies := s.replies[1..])
    else if s.server == Stopped then s.(console := s.console.(phase := Failed))
    else s
  }

  /** The last count fitted the `unsigned int` the console reads it as. */
  predicate InStep(s: Net) {
    s.count < U32
  }

  /** Events that cannot happen change nothing. A run is followed until a count reaches 2^32. */
  function Apply(s: Net, e: Event): Net {
    match e
    case Change(files) => s.(files := files)
    case ServerMove => ServerStep(s)
    case ConsoleMove => ConsoleStep(s)
    case ServerFail => if s.server == Waiting then s else s.(server := Stopped)
    case Ask(cmd) =>
      if s.console.phase == Idle && InStep(s) && 1 <= cmd < COMMANDS_MAX
      then s.(console := Asked(cmd), requests := s.requests + [Request(cmd)],
              cmd := cmd, sent := [], head := [], count := 0, lines := [], snapshot := [])
      else s
  }

  function Run(s: Net, events: seq<Event>): Net {
    if events == [] then s else Apply(Run(s, events[..|events| - 1]), events[|events| - 1])
  }

  // --- What every run keeps ---

  /** A digest is never empty. */
  ghost predicate HeadSent(s: Net) {
    JobOf(s.cmd).Map? || JobOf(s.cmd).One? ==> s.head != []
  }

  /** The list sent so far. */
  ghost predicate SentList(s: Net) {
    SendsList(JobOf(s.cmd)) && s.count < U64 && HeadSent(s)
    && s.sent == Opening(JobOf(s.cmd), s.head) + ListRecords(s.count, s.lines)
  }

  /** The reply is complete. */
  ghost predicate Answered(s: Net) {
    if SendsList(JobOf(s.cmd)) then SentList(s) && |s.lines| == s.count
    else JobOf(s.cmd) != NoJob && s.sent == [s.head] && s.count == 0 && s.lines == []
         && HeadSent(s) && (JobOf(s.cmd).Seal? ==> s.head == OK)
  }

  /** No reply has begun. */
  ghost predicate Untouched(s: Net) {
    s.sent == [] && s.count == 0 && s.lines == []
  }

  /** The request is still on its way. */
  ghost predicate Requesting(s: Net) {
    s.requests == [Request(s.cmd)] && Untouched(s)
  }

  /** The reply is complete, and is an empty list. */
  ghost predicate AnsweredEmpty(s: Net) {
    Answered(s) && SendsList(JobOf(s.cmd)) && s.count == 0
  }

  /** The reply is short of at least one record. */
  ghost predicate Unanswered(s: Net) {
    Untouched(s)
    || (SendsList(JobOf(s.cmd)) && s.sent == Opening(JobOf(s.cmd), s.head) && s.count == 0)
    || (SentList(s) && |s.lines| < s.count)
  }

  /** The orchestrator's place in its program agrees with what it has sent for the current command. */
  ghost predicate ServerAgrees(s: Net) {
    match s.server
    case Waiting => Requesting(s) || (s.requests == [] && Answered(s))
    case Heading(job) => s.requests == [] && job == JobOf(s.cmd) && !job.NoJob? && !job.List? && Untouched(s)
    case Counting(job, at) =>
      s.requests == [] && job == JobOf(s.cmd) && SendsList(job) && at < U64
      && s.sent == Opening(job, s.head) && HeadSent(s) && s.count == 0 && s.lines == []
    case Sending(job, at, left) =>
      s.requests == [] && job == JobOf(s.cmd) && SentList(s) && |s.lines| == at && at + left == s.count && left > 0
    case Finishing => Requesting(s) || (s.requests == [] && AnsweredEmpty(s))
    case Stopped => Requesting(s) || (s.requests == [] && (Unanswered(s) || AnsweredEmpty(s)))
  }

  /** First in, first out: reading what is left in the socket brings the console to where the whole reply does. */
  ghost predicate ConsoleAgrees(s: Net) {
    s.console.phase != Failed ==> Feed(s.console, s.replies) == Feed(Asked(s.cmd), s.sent)
  }

  ghost predicate Inv(s: Net) {
    if s.cmd == 0 then s == Start(s.files)
    else s.cmd < COMMANDS_MAX && ServerAgrees(s) && ConsoleAgrees(s)
  }

  lemma EmitAgrees(s: Net, t: Net, r: Record)
    requires ConsoleAgrees(s)
    requires t.console == s.console && t.cmd == s.cmd && t.replies == s.replies + [r] && t.sent == s.sent + [r]
    ensures ConsoleAgrees(t)
  {
    hide Feed, Take;
    FeedMore(s.console, s.replies, r);
    FeedMore(Asked(s.cmd), s.sent, r);
  }

  lemma SameConsole(s: Net, t: Net)
    requires ConsoleAgrees(s)
    requires t.console == s.console && t.replies == s.replies && t.cmd == s.cmd && t.sent == s.sent
    ensures ConsoleAgrees(t)
  {
  }

  lemma ServerKeeps(s: Net)
    requires Inv(s) && s.cmd != 0
    ensures Inv(ServerStep(s))
  {
    hide Feed, Take, JobOf, StartOf, Digest, ToLE, FromLE, ConsoleAgrees;
    var t := ServerStep(s);
    match s.server {
      case Stopped =>
      case Waiting =>
        if s.requests != [] {
          RequestedRequest(s.cmd);
          SameConsole(s, t);
        }
      case Heading(job) =>
        if Lead(s, job).None? {
          SameConsole(s, t);
        } else {
          EmitAgrees(s, t, t.head);
        }
      case Counting(job, at) =>
        if at < |s.files(ListFile(job))| {
          SameConsole(s, t);
        } else {
          assert Points([]) == [];
          EmitAgrees(s, t, ToLE(at, 8));
        }
      case Sending(job, at, left) =>
        var line := LineAt(s.files(ListFile(job)), at);
        assert Points(s.lines + [line]) == Points(s.lines) + [Terminated(line)];
        EmitAgrees(s, t, Terminated(line));
      case Finishing => SameConsole(s, t);
    }
  }

  lemma ConsoleKeeps(s: Net)
    requires Inv(s) && s.cmd != 0
    ensures Inv(ConsoleStep(s))
  {
    hide Take, JobOf, StartOf;
  }

  lemma StartNotIdle(cmd: nat)
    ensures StartOf(cmd) != Idle
    ensures JobOf(cmd) != NoJob ==> Listening(Asked(cmd))
  {
  }

  lemma SingleReply(cmd: nat, head: Record)
    requires JobOf(cmd) != NoJob && !SendsList(JobOf(cmd))
    ensures Feed(Asked(cmd), [head]) == (Console(Idle, Report(JobOf(cmd), head, [])), [])
  {
    FeedOne(Asked(cmd), head);
    assert [] + Report(JobOf(cmd), head, []) == Report(JobOf(cmd), head, []);
  }

  /** An idle console has had its reply. */
  lemma IdleIsAnswered(s: Net)
    requires Inv(s) && s.cmd != 0 && s.console.phase == Idle
    ensures s.requests == []
    ensures InStep(s) ==> Answered(s) && s.replies == [] && (s.server == Waiting || AnsweredEmpty(s))
    ensures s.server == Waiting ==> Answered(s) && |s.replies| == s.count - s.count % U32
    ensures Feed(Asked(s.cmd), s.sent) == (s.console, s.replies)
  {
    hide Take, StartOf, JobOf, ToLE, FromLE;
    assert Feed(s.console, s.replies) == (s.console, s.replies);
    assert Feed(Asked(s.cmd), []) == (Asked(s.cmd), []);
    StartNotIdle(s.cmd);
    if SentList(s) {
      FeedList(s.cmd, s.head, s.count, s.lines, s.sent);
    } else if SendsList(JobOf(s.cmd)) && s.sent == Opening(JobOf(s.cmd), s.head) {
      FeedOpening(s.cmd, s.head);
    } else {
      SingleReply(s.cmd, s.head);
    }
  }

  lemma AskKeeps(s: Net, cmd: nat)
    requires Inv(s)
    ensures Inv(Apply(s, Ask(cmd)))
  {
    hide Feed, Take, JobOf, StartOf, ToLE, FromLE;
    if s.cmd != 0 && s.console.phase == Idle {
      IdleIsAnswered(s);
    }
  }

  lemma StartMoves(s: Net)
    requires s == Start(s.files)
    ensures ServerStep(s) == s && ConsoleStep(s) == s
  {
  }

  lemma ApplyKeeps(s: Net, e: Event)
    requires Inv(s)
    ensures Inv(Apply(s, e))
  {
    hide ServerStep, ConsoleStep, Feed, Take, JobOf, StartOf, ToLE, FromLE;
    match e {
      case Ask(cmd) => AskKeeps(s, cmd);
      case ServerMove => if s.cmd != 0 { ServerKeeps(s); } else { StartMoves(s); }
      case ConsoleMove => if s.cmd != 0 { ConsoleKeeps(s); } else { StartMoves(s); }
      case ServerFail =>
      case Change(files) =>
    }
  }

  /** Every run of commands, in every interleaving and whatever becomes of the files, keeps the two in step. */
  lemma {:induction false} Lockstep(files: Name -> Contents, events: seq<Event>)
    ensures Inv(Run(Start(files), events))
    decreases |events|
  {
    if events != [] {
      Lockstep(files, events[..|events| - 1]);
      ApplyKeeps(Run(Start(files), events[..|events| - 1]), events[|events| - 1]);
    }
  }

  /**
   * Whenever the console is back at its prompt, and the orchestrator back at its poll or the count below 2^32: the
   * reply was complete, no request is outstanding, the socket holds exactly the records beyond the count modulo
   * 2^32, so it is empty if and only if the count is below 2^32; and then the console has printed all of them.
   */
  lemma BetweenCommands(files: Name -> Contents, events: seq<Event>, s: Net)
    requires s == Run(Start(files), events) && s.cmd != 0 && s.console.phase == Idle
    requires s.server == Waiting || s.count < U32
    ensures Answered(s) && s.requests == [] && |s.replies| == s.count - s.count % U32
    ensures s.replies == [] <==> s.count < U32
    ensures s.count < U32 ==> s.console.out == Report(JobOf(s.cmd), s.head, s.lines)
  {
    hide Run, Feed, JobOf, StartOf, ToLE, FromLE, Take;
    Lockstep(files, events);
    IdleIsAnswered(s);
    if s.count < U32 {
      if SendsList(JobOf(s.cmd)) {
        FeedList(s.cmd, s.head, s.count, s.lines, s.sent);
        assert s.lines[..s.count] == s.lines;
      } else {
        SingleReply(s.cmd, s.head);
      }
    }
  }

  /**
   * A console at its prompt with fewer than 2^32 lines counted needs no waiting: nothing is in flight, and the
   * orchestrator is done too, but for the second opening of a file that was counted empty, which may yet fail.
   */
  lemma PromptMeansDone(files: Name -> Contents, events: seq<Event>, s: Net)
    requires s == Run(Start(files), events) && s.console.phase == Idle && s.count < U32
    ensures s.requests == [] && s.replies == []
    ensures s.server == Waiting || (AnsweredEmpty(s) && (s.server == Finishing || s.server == Stopped))
  {
    hide Run, Feed, JobOf, StartOf, ToLE, FromLE, Take;
    Lockstep(files, events);
    if s.cmd != 0 {
      IdleIsAnswered(s);
    }
  }

  // --- The runs and the code ---

  function LineOf(t: string): Line {
    seq(|t|, i requires 0 <= i < |t| => (t[i] as int) % 256)
  }

  lemma {:induction false} HexTextIsBytes(s: seq<Byte>)
    ensures forall i :: 0 <= i < |HexText(s)| ==> HexText(s)[i] < 128 as char
  {
    if s != [] {
      HexTextIsBytes(s[..|s| - 1]);
    }
  }

  /** Any digest can be kept in a file. */
  lemma DigestLine(digest: seq<Byte>)
    requires digest != []
    ensures Digest(LineOf(HexText(digest))) == Some(digest)
  {
    hide HexBytes, HexText;
    HexRoundTrip(digest, HexText(digest));
    HexTextIsBytes(digest);
    assert Chars(LineOf(HexText(digest))) == HexText(digest);
    assert |LineOf(HexText(digest))| == 2 * |digest|;
  }

  /** Readings for which a command sends these lines after this record. */
  function Readings(head: Record, lines: seq<Line>): Store {
    Store(_ => Some(LineOf(HexText(head))),
          _ => Some(Passes(lines, Some((i: nat) => Some(LineAt(lines, i))))), true, true)
  }

  /**
   * Every complete reply of a run is one that the orchestrator's `process_command` sends, as ServeCommand
   * has it, for some readings of the files with as many lines.
   */
  lemma RepliesAreServed(s: Net)
    requires Inv(s) && s.cmd != 0 && Answered(s)
    ensures Serve(Request(s.cmd), Readings(s.head, s.lines)) == (s.sent, true)
  {
    hide Feed, Digest, HexText, ToLE, FromLE, LineOf;
    var w := Readings(s.head, s.lines);
    RequestedRequest(s.cmd);
    if s.head != [] {
      DigestLine(s.head);
    }
    if SendsList(JobOf(s.cmd)) {
      var passes := w.lists(ListFile(JobOf(s.cmd)));
      assert Reread(|s.lines|, passes.value.again.value) == s.lines;
      assert Serve(Request(s.cmd), w).0 == s.sent;
    }
  }

  /** One event more. */
  lemma Then(s0: Net, events: seq<Event>, s: Net, e: Event) returns (more: seq<Event>, t: Net)
    requires s == Run(s0, events)
    ensures t == Apply(s, e) == Run(s0, more)
  {
    more, t := events + [e], Apply(s, e);
    assert more[..|more| - 1] == events;
  }

  /** Files that all hold these lines. */
  function Holding(lines: Contents): Name -> Contents {
    _ => lines
  }

  function FileOf(line: Option<Line>): Contents {
    if line.Some? then [line.value] else []
  }

  /** The count pass over a file of `n` lines. */
  lemma {:induction false} CountingRun(s0: Net, events: seq<Event>, s: Net, job: Job, n: nat)
    returns (more: seq<Event>, t: Net)
    requires s == Run(s0, events) && s.server.Counting? && s.server.job == job && s.server.at <= n
    requires |s.files(ListFile(job))| == n
    ensures t == Run(s0, more) && t.sent == s.sent + [ToLE(n, 8)]
    ensures t.cmd == s.cmd && t.requests == s.requests
    ensures t.server == if n == 0 then Finishing else Sending(job, 0, n)
    decreases n - s.server.at
  {
    hide Run, ToLE;
    more, t := Then(s0, events, s, ServerMove);
    if s.server.at < n {
      more, t := CountingRun(s0, more, t, job, n);
    }
  }

  /** The second pass, each read of it finding what it is to find. */
  lemma {:induction false} SendingRun(s0: Net, events: seq<Event>, s: Net, job: Job, n: nat,
                                      again: nat -> Option<Line>) returns (more: seq<Event>, t: Net)
    requires s == Run(s0, events) && s.server.Sending? && s.server.job == job
    requires s.server.at + s.server.left == n < U64 && s.server.left > 0
    ensures t == Run(s0, more) && t.sent == s.sent + Points(Reread(n, again)[s.server.at..])
    ensures t.cmd == s.cmd && t.requests == s.requests && t.server == Waiting
    decreases s.server.left
  {
    hide Run;
    var at, lines := s.server.at, Reread(n, again);
    var file: seq<Line> := seq(at + 1, _ => lines[at]);
    more, t := Then(s0, events, s, Change(Holding(file)));
    more, t := Then(s0, more, t, ServerMove);
    assert t.sent == s.sent + [Terminated(lines[at])];
    if s.server.left > 1 {
      more, t := SendingRun(s0, more, t, job, n, again);
      assert Points(lines[at..]) == [Terminated(lines[at])] + Points(lines[at + 1..]);
    } else {
      assert Points(lines[at..]) == [Terminated(lines[at])];
    }
  }

  /** A list reply, complete or cut short. */
  lemma ListRun(s0: Net, events: seq<Event>, s: Net, job: Job, f: Option<Passes>)
    returns (more: seq<Event>, t: Net)
    requires s == Run(s0, events) && s.server == Counting(job, 0)
    requires f.Some? ==> |f.value.counted| < U64
    ensures t == Run(s0, more) && t.sent == s.sent + ListReply(f).0 && t.cmd == s.cmd && t.requests == s.requests
    ensures t.server == if ListReply(f).1 then Waiting else Stopped
  {
    hide Run, ToLE, Terminated;
    if f.None? {
      more, t := Then(s0, events, s, ServerFail);
      return;
    }
    var n := |f.value.counted|;
    more, t := Then(s0, events, s, Change(Holding(f.value.counted)));
    more, t := CountingRun(s0, more, t, job, n);
    if f.value.again.None? {
      more, t := Then(s0, more, t, ServerFail);
      assert Points([]) == [];
    } else if n == 0 {
      more, t := Then(s0, more, t, ServerMove);
      assert Points(Reread(0, f.value.again.value)) == [];
    } else {
      more, t := SendingRun(s0, more, t, job, n, f.value.again.value);
      assert Reread(n, f.value.again.value)[0..] == Reread(n, f.value.again.value);
    }
  }

  /** What can be read is never longer than a count can say. */
  ghost predicate Countable(w: Store) {
    forall f: Name :: w.lists(f).Some? ==> |w.lists(f).value.counted| < U64
  }

  /** The digest before a list, or instead of one. */
  lemma HeadRun(s0: Net, events: seq<Event>, s: Net, job: Job, w: Store) returns (more: seq<Event>, t: Net)
    requires s == Run(s0, events) && s.server == Heading(job) && (job.One? || job.Map?)
    ensures var head := FirstDigest(w, if job.One? then job.file else Aggregate);
            && t == Run(s0, more) && t.cmd == s.cmd && t.requests == s.requests
            && t.sent == s.sent + (if head.Some? then [head.value] else [])
            && t.server == if head.None? then Stopped else if job.Map? then Counting(job, 0) else Waiting
  {
    hide Run, Digest;
    var file := FileOf(w.first(if job.One? then job.file else Aggregate));
    more, t := Then(s0, events, s, Change(Holding(file)));
    more, t := Then(s0, more, t, ServerMove);
  }

  lemma RunNothing(s: Net)
    ensures Run(s, []) == s
  {
  }

  /**
   * And the other way round: for every command and everything its readings may find, the records
   * `process_command` sends, complete or cut short, are those of a run from any prompt, which leaves the
   * orchestrator waiting exactly when it goes on.
   */
  lemma ServedIsARun(s0: Net, cmd: nat, w: Store) returns (events: seq<Event>)
    requires 1 <= cmd < COMMANDS_MAX && Countable(w)
    requires s0.console.phase == Idle && s0.server == Waiting && s0.requests == [] && InStep(s0)
    ensures var s := Run(s0, events);
            && s.cmd == cmd && s.sent == Serve(Request(cmd), w).0 && s.requests == []
            && s.server == if Serve(Request(cmd), w).1 then Waiting else Stopped
  {
    hide Run, JobOf, StartOf, Digest, ToLE, FromLE, ListReply, Requested;
    var job, s := JobOf(cmd), s0;
    RequestedRequest(cmd);
    assert Run(s0, []) == s0 by { RunNothing(s0); }
    events, s := Then(s0, [], s, Ask(cmd));
    events, s := Then(s0, events, s, ServerMove);
    assert s.sent == [] && s.requests == [];
    match job {
      case NoJob =>
      case Seal => events, s := Then(s0, events, s, if w.sealed || w.seals then ServerMove else ServerFail);
      case List(file) => events, s := ListRun(s0, events, s, job, w.lists(file));
      case One(file) => events, s := HeadRun(s0, events, s, job, w);
      case Map =>
        events, s := HeadRun(s0, events, s, job, w);
        if FirstDigest(w, Aggregate).Some? {
          events, s := ListRun(s0, events, s, job, w.lists(Coefficients));
        }
    }
  }

  // --- Progress ---

  predicate Busy(s: Net) {
    Listening(s.console)
  }

  predicate ServerCanMove(s: Net) {
    s.server != Stopped && (s.server == Waiting ==> s.requests != [])
  }

  predicate ConsoleCanMove(s: Net) {
    Listening(s.console) && (s.replies != [] || s.server == Stopped)
  }

  /** No deadlock: while the console waits for a reply, one of the two can move. */
  lemma NoDeadlock(files: Name -> Contents, events: seq<Event>, s: Net)
    requires s == Run(Start(files), events) && Busy(s)
    ensures ServerCanMove(s) || ConsoleCanMove(s)
  {
    hide Run, JobOf, StartOf, ToLE, FromLE, Take;
    Lockstep(files, events);
    if s.server == Waiting && s.requests == [] && s.replies == [] {
      assert Feed(s.console, []) == (s.console, []);
      if SendsList(JobOf(s.cmd)) {
        FeedList(s.cmd, s.head, s.count, s.lines, s.sent);
      } else {
        SingleReply(s.cmd, s.head);
      }
    }
  }

  /** The stages a reply has left. */
  function Stages(s: Net): nat {
    match s.server
    case Waiting => if s.requests == [] then 0 else 4
    case Heading(_) => 3
    case Counting(_, _) => 2
    case Sending(_, _, _) => 1
    case Finishing => if s.requests == [] then 1 else 5
    case Stopped => 0
  }

  /** The loop iterations its stage has left. */
  function Rounds(s: Net): nat {
    match s.server
    case Counting(job, at) => if at < |s.files(ListFile(job))| then |s.files(ListFile(job))| - at else 0
    case Sending(_, _, left) => left
    case _ => 0
  }

  function Unread(s: Net): nat {
    |s.replies| + if Listening(s.console) then 1 else 0
  }

  /** Lexicographically less work. */
  predicate LessWork(s: Net, t: Net) {
    Stages(s) < Stages(t)
    || (Stages(s) == Stages(t) && (Rounds(s) < Rounds(t) || (Rounds(s) == Rounds(t) && Unread(s) < Unread(t))))
  }

  /** Every move there is brings the reply nearer its end, so that with NoDeadlock every command ends. */
  lemma MovesFinish(files: Name -> Contents, events: seq<Event>, s: Net)
    requires s == Run(Start(files), events)
    ensures ServerCanMove(s) ==> LessWork(ServerStep(s), s)
    ensures ConsoleCanMove(s) ==> LessWork(ConsoleStep(s), s)
  {
    hide Run, JobOf, StartOf, ToLE, FromLE, Feed;
    Lockstep(files, events);
  }

  // --- Files that only grow ---

  ghost predicate Grows(before: Name -> Contents, after: Name -> Contents) {
    forall f: Name :: before(f) <= after(f)
  }

  ghost predicate AppendOnly(s: Net, events: seq<Event>)
  {
    events == []
    || (AppendOnly(s, events[..|events| - 1])
        && (events[|events| - 1].Change? ==>
              Grows(Run(s, events[..|events| - 1]).files, events[|events| - 1].files)))
  }

  /** The lines sent are those of the file as it stood at count time. */
  ghost predicate FromSnapshot(s: Net) {
    match s.server
    case Waiting => s.lines == s.snapshot && |s.snapshot| == s.count
    case Finishing => s.lines == s.snapshot == [] && s.count == 0
    case Heading(_) => s.lines == s.snapshot == []
    case Counting(job, at) => s.lines == s.snapshot == [] && at <= |s.files(ListFile(job))|
    case Sending(job, at, left) =>
      s.snapshot <= s.files(ListFile(job)) && at + left == |s.snapshot| == s.count && s.lines == s.snapshot[..at]
      && left > 0
    case Stopped => |s.lines| <= |s.snapshot| == s.count && s.lines == s.snapshot[..|s.lines|]
  }

  lemma SnapshotKept(s: Net, e: Event)
    requires Inv(s) && FromSnapshot(s) && (e.Change? ==> Grows(s.files, e.files))
    ensures FromSnapshot(Apply(s, e))
  {
    hide Feed, Take, JobOf, StartOf, ToLE, FromLE, Digest;
    if s.server.Sending? {
      assert s.snapshot[..s.server.at] + [s.snapshot[s.server.at]] == s.snapshot[..s.server.at + 1];
      assert s.snapshot[..|s.snapshot|] == s.snapshot;
    }
    if e.Ask? && s.cmd != 0 && s.console.phase == Idle && InStep(s) {
      IdleIsAnswered(s);
    }
  }

  lemma {:induction false} SnapshotInvariant(files: Name -> Contents, events: seq<Event>)
    requires AppendOnly(Start(files), events)
    ensures FromSnapshot(Run(Start(files), events))
    decreases |events|
  {
    if events != [] {
      var before := events[..|events| - 1];
      SnapshotInvariant(files, before);
      Lockstep(files, before);
      SnapshotKept(Run(Start(files), before), events[|events| - 1]);
    }
  }

  /** The lines of a list, shown whole. */
  function ShownWhole(isMap: bool, lines: seq<Line>): seq<Out> {
    seq(|lines|, i requires 0 <= i < |lines| => Text(Prefix(isMap), lines[i]))
  }

  ghost predicate NoNuls(lines: seq<Line>) {
    forall i :: 0 <= i < |lines| ==> 0 !in lines[i]
  }

  lemma ReportsWhole(job: Job, head: Record, lines: seq<Line>)
    requires SendsList(job) && NoNuls(lines)
    ensures Report(job, head, lines) == Opened(job, head) + ShownWhole(job.Map?, lines) + Closing(job.Map?)
  {
    hide CString, Terminated;
    forall i | 0 <= i < |lines| ensures CString(Terminated(lines[i])) == lines[i] {
      CStringTerminated(lines[i]);
    }
    assert Shown(job.Map?, lines) == ShownWhole(job.Map?, lines);
  }

  /**
   * When files only grow, the console prints the file as it stood when its lines were counted: whole lines, if
   * they hold no NUL.
   */
  lemma PrintsSnapshot(files: Name -> Contents, events: seq<Event>, s: Net)
    requires AppendOnly(Start(files), events)
    requires s == Run(Start(files), events) && s.cmd != 0 && s.console.phase == Idle && s.count < U32
    ensures s.console.out == Report(JobOf(s.cmd), s.head, s.snapshot) && |s.snapshot| == s.count
    ensures SendsList(JobOf(s.cmd)) && NoNuls(s.snapshot) ==>
              s.console.out == Opened(JobOf(s.cmd), s.head) + ShownWhole(JobOf(s.cmd).Map?, s.snapshot)
                               + Closing(JobOf(s.cmd).Map?)
  {
    hide Run, Feed, JobOf, StartOf, ToLE, FromLE, Take, Report;
    SnapshotInvariant(files, events);
    PromptMeansDone(files, events, s);
    BetweenCommands(files, events, s);
    if SendsList(JobOf(s.cmd)) && NoNuls(s.snapshot) {
      ReportsWhole(JobOf(s.cmd), s.head, s.snapshot);
    }
  }

  // --- Files that do not change ---

  /** What the files hold, as readings. */
  function StoreOf(files: Name -> Contents): Store {
    Store(f => if files(f) == [] then None else Some(files(f)[0]),
          f => Some(Passes(files(f), Some((i: nat) => Some(LineAt(files(f), i))))), true, true)
  }

  ghost predicate NoChanges(events: seq<Event>) {
    forall i :: 0 <= i < |events| ==> !events[i].Change?
  }

  function HeadFile(job: Job): Name {
    if job.One? then job.file else Aggregate
  }

  /** What has been sent was read from the files of the command. */
  ghost predicate FromFiles(s: Net, files: Name -> Contents) {
    var job := JobOf(s.cmd);
    && s.files == files
    && (s.sent != [] && (job.One? || job.Map?) ==> FirstDigest(StoreOf(files), HeadFile(job)) == Some(s.head))
    && (SentList(s) ==> s.snapshot == files(ListFile(job)))
  }

  /** A list is not sent before its count is. */
  lemma CountSent(s: Net)
    requires SendsList(JobOf(s.cmd)) && s.sent == Opening(JobOf(s.cmd), s.head)
    ensures !SentList(s)
  {
    hide JobOf, ToLE;
  }

  lemma FromFilesKept(s: Net, e: Event, files: Name -> Contents)
    requires Inv(s) && FromFiles(s, files) && !e.Change?
    ensures FromFiles(Apply(s, e), files)
  {
    hide Feed, Take, JobOf, StartOf, ToLE, FromLE, Digest;
    if s.server.Counting? {
      CountSent(s);
    }
  }

  lemma {:induction false} FilesKept(files: Name -> Contents, events: seq<Event>)
    requires NoChanges(events)
    ensures FromFiles(Run(Start(files), events), files) && AppendOnly(Start(files), events)
    decreases |events|
  {
    hide JobOf, ToLE;
    if events != [] {
      var before := events[..|events| - 1];
      assert NoChanges(before);
      FilesKept(files, before);
      Lockstep(files, before);
      FromFilesKept(Run(Start(files), before), events[|events| - 1], files);
    }
  }

  lemma ListReplyWhole(f: Option<Passes>, lines: seq<Line>)
    requires f.Some? && f.value.again.Some? && f.value.counted == lines
    requires Reread(|lines|, f.value.again.value) == lines
    ensures ListReply(f) == (ListRecords(|lines|, lines), true)
  {
  }

  /** The reply to a request, by what its command has to be done. */
  lemma ServeByJob(cmd: nat, w: Store)
    requires 1 <= cmd <= COMMANDS_MAX
    ensures var job := JobOf(cmd);
            Serve(Request(cmd), w) ==
            match job
            case NoJob => ([], false)
            case Seal => if w.sealed || w.seals then ([OK], true) else ([], false)
            case One(file) =>
              if FirstDigest(w, file).None? then ([], false) else ([FirstDigest(w, file).value], true)
            case List(file) => ListReply(w.lists(file))
            case Map =>
              var head, list := FirstDigest(w, Aggregate), ListReply(w.lists(Coefficients));
              if head.None? then ([], false) else ([head.value] + list.0, list.1)
  {
    hide JobOf, ListReply, FirstDigest, ToLE, FromLE;
    RequestedRequest(cmd);
  }

  /** While no file changes, every complete reply is exactly what the code sends for what the files hold. */
  lemma SteadyReplies(files: Name -> Contents, events: seq<Event>, s: Net)
    requires NoChanges(events) && s == Run(Start(files), events)
    requires s.cmd != 0 && s.server == Waiting && s.requests == []
    ensures Serve(Request(s.cmd), StoreOf(files)) == (s.sent, true)
  {
    hide Run, Feed, Digest, ToLE, FromLE, StartOf;
    FilesKept(files, events);
    Lockstep(files, events);
    SnapshotInvariant(files, events);
    hide ListReply, FirstDigest, Serve;
    assert s.sent != [] && Answered(s);
    ServeByJob(s.cmd, StoreOf(files));
    if SendsList(JobOf(s.cmd)) {
      var file := files(ListFile(JobOf(s.cmd)));
      var passes := StoreOf(files).lists(ListFile(JobOf(s.cmd)));
      assert Reread(|file|, passes.value.again.value) == file;
      ListReplyWhole(passes, file);
      assert Opening(JobOf(s.cmd), s.head) + ListRecords(s.count, s.lines) == s.sent;
      assert [] + ListRecords(s.count, s.lines) == ListRecords(s.count, s.lines);
    }
  }
}
