/** Quixote/quixote.c: a running model is written down a pipe, saved to a file, and loaded again from it. */
module ModelDump {
  import opened ModelFile

  const NEWLINE: string := ['\n']

  ghost predicate OneLine(s: string) {
    '\n' !in s
  }

  ghost predicate AllOneLine(lines: seq<string>) {
    forall i :: 0 <= i < |lines| ==> OneLine(lines[i])
  }

  /** Lines as text. */
  function Text(lines: seq<string>): string {
    if lines == [] then "" else Text(lines[..|lines| - 1]) + lines[|lines| - 1] + NEWLINE
  }

  function LinesFrom(text: string, line: string): seq<string>
    decreases |text|
  {
    if text == "" then []
    else if text[0] == '\n' then [line] + LinesFrom(text[1..], "")
    else LinesFrom(text[1..], line + [text[0]])
  }

  /** Text as lines: what reading a file line by line yields; an unterminated end is not a line. */
  function Lines(text: string): seq<string> {
    LinesFrom(text, "")
  }

  lemma {:induction false} LinesOfLine(line: string, start: string, rest: string)
    requires OneLine(line)
    ensures LinesFrom(line + NEWLINE + rest, start) == [start + line] + LinesFrom(rest, "")
    decreases |line|
  {
    var text := line + NEWLINE + rest;
    if line == "" {
      assert text[1..] == rest && start + line == start;
    } else {
      assert text[0] == line[0] && text[1..] == line[1..] + NEWLINE + rest;
      assert OneLine(line[1..]);
      LinesOfLine(line[1..], start + [line[0]], rest);
      assert start + [line[0]] + line[1..] == start + line;
    }
  }

  lemma {:induction false} TextFront(lines: seq<string>)
    requires lines != []
    ensures Text(lines) == lines[0] + NEWLINE + Text(lines[1..])
    decreases |lines|
  {
    var n := |lines| - 1;
    if n == 0 {
      assert lines[..0] == [] && lines[1..] == [];
    } else {
      TextFront(lines[..n]);
      assert lines[..n][1..] == lines[1..][..n - 1];
      assert lines[0] + NEWLINE + Text(lines[1..][..n - 1]) + lines[n] + NEWLINE ==
             lines[0] + NEWLINE + (Text(lines[1..][..n - 1]) + lines[n] + NEWLINE);
    }
  }

  /** Reading text back gives the lines it was made from. */
  lemma {:induction false} LinesOfText(lines: seq<string>, text: string)
    requires AllOneLine(lines) && text == Text(lines)
    ensures Lines(text) == lines
    decreases |lines|
  {
    if lines != [] {
      var rest := Text(lines[1..]);
      TextFront(lines);
      LinesOfText(lines[1..], rest);
      assert OneLine(lines[0]);
      LinesOfLine(lines[0], "", rest);
      assert lines == [lines[0]] + lines[1..] && "" + lines[0] == lines[0];
    }
  }

  // --- Writing the model down the pipe ---

  function StateLines(coefficients: seq<string>): (lines: seq<string>)
    ensures |lines| == |coefficients|
  {
    seq(|coefficients|, i requires 0 <= i < |coefficients| => "state " + coefficients[i])
  }

  /** The lines of a dump. */
  function DumpLines(aggregate: string, coefficients: seq<string>): seq<string> {
    ["aggregate " + aggregate] + StateLines(coefficients) + ["seal", "end"]
  }

  lemma TextOne(line: string)
    ensures Text([line]) == line + NEWLINE
  {
    assert [line][..0] == [];
  }

  lemma TextEmpty()
    ensures Text([]) == ""
  {
  }

  lemma TextGrows(lines: seq<string>, line: string)
    ensures Text(lines + [line]) == Text(lines) + line + NEWLINE
  {
    assert (lines + [line])[..|lines|] == lines;
  }

  /** `upload_model`: what is written to the pipe; nothing if the aggregate file is empty. */
  method UploadModel(aggregateFile: seq<string>, coefficients: seq<string>) returns (fd: string)
    ensures fd == if aggregateFile == [] then "" else Text(DumpLines(aggregateFile[0], coefficients))
  {
    hide Text;
    fd := "";
    var str := "aggregate ";
    if |aggregateFile| == 0 {
      return;
    }
    str := str + aggregateFile[0];
    str := str + NEWLINE;
    fd := fd + str;
    ghost var first := ["aggregate " + aggregateFile[0]];
    TextOne(first[0]);
    assert first + StateLines(coefficients)[..0] == first;

    for i := 0 to |coefficients|
      invariant fd == Text(first + StateLines(coefficients)[..i])
    {
      ghost var written, line := first + StateLines(coefficients)[..i], StateLines(coefficients)[i];
      fd := fd + "state ";
      str := coefficients[i] + NEWLINE;
      fd := fd + str;
      TextGrows(written, line);
      assert "state " + str == line + NEWLINE;
      assert first + StateLines(coefficients)[..i + 1] == written + [line];
    }

    ghost var written := first + StateLines(coefficients);
    assert StateLines(coefficients)[..|coefficients|] == StateLines(coefficients);
    fd := fd + "seal\n";
    fd := fd + "end\n";
    TextGrows(written, "seal");
    TextGrows(written + ["seal"], "end");
    assert written + ["seal"] + ["end"] == DumpLines(aggregateFile[0], coefficients);
  }

  /** `receive_model`: byte by byte from the pipe; only complete lines reach the file. */
  method ReceiveModel(fd: string) returns (outfile: string)
    ensures Lines(outfile) == Lines(fd)
    ensures outfile <= fd && OneLine(fd[|outfile|..])
    ensures outfile == "" || outfile[|outfile| - 1] == '\n'
  {
    hide Text;
    outfile := "";
    var bufr := "";
    TextEmpty();
    assert fd[0..] == fd;
    ghost var lines := [];
    for i := 0 to |fd|
      invariant outfile + bufr == fd[..i] && OneLine(bufr)
      invariant outfile == "" || outfile[|outfile| - 1] == '\n'
      invariant Lines(fd) == lines + LinesFrom(fd[i..], bufr)
      invariant outfile == Text(lines) && AllOneLine(lines)
    {
      var inchar := fd[i];
      assert fd[i..][0] == inchar && fd[i..][1..] == fd[i + 1..];
      assert fd[..i + 1] == fd[..i] + [inchar];
      if inchar != '\n' {
        bufr := bufr + [inchar];
      } else {
        ghost var more := lines + [bufr];
        TextGrows(lines, bufr);
        outfile := outfile + (bufr + NEWLINE);
        lines := more;
        bufr := "";
      }
    }
    assert fd[..|fd|] == fd && fd == outfile + bufr;
    LinesOfText(lines, outfile);
  }

  // --- Loading the saved model ---

  function StateCalls(coefficients: seq<string>, n: nat): seq<ControlCall>
    requires n <= |coefficients|
  {
    seq(n, i requires 0 <= i < n => AddState(coefficients[i]))
  }

  /** The calls a loaded dump makes: one per coefficient, in order, then the seal. */
  function DumpCalls(coefficients: seq<string>): seq<ControlCall> {
    StateCalls(coefficients, |coefficients|) + [SealModel]
  }

  /** The controller takes every call. */
  ghost predicate Accepting(w: World) {
    forall log, call :: w.control(log, call)
  }

  lemma StateLine(c: string)
    ensures Known("state " + c) && CommandOf("state " + c) == COMMANDS[4] && Arg("state " + c) == c
  {
    var line := "state " + c;
    assert Starts(line, COMMANDS[4]);
    CommandUnique(line, COMMANDS[4]);
  }

  lemma AggregateLine(a: string)
    ensures Known("aggregate " + a) && CommandOf("aggregate " + a) == COMMANDS[3] && Arg("aggregate " + a) == a
  {
    var line := "aggregate " + a;
    assert Starts(line, COMMANDS[3]);
    CommandUnique(line, COMMANDS[3]);
  }

  lemma ClosingLines()
    ensures Known("seal") && CommandOf("seal") == COMMANDS[6] && Known("end") && CommandOf("end") == COMMANDS[8]
  {
    assert Starts("seal", COMMANDS[6]) && Starts("end", COMMANDS[8]);
    CommandUnique("seal", COMMANDS[6]);
    CommandUnique("end", COMMANDS[8]);
  }

  /** A state with no key and nothing being signed, that has made these calls. */
  ghost predicate Unsigned(s: LoadState, log: seq<ControlCall>) {
    s.key == Null && s.sigdata == Null && s.log == log
  }

  lemma LoadStateLine(w: World, s: LoadState, cs: seq<string>, n: nat)
    requires Accepting(w) && n < |cs| && Unsigned(s, StateCalls(cs, n))
    ensures Known("state " + cs[n]) && Usable(s, "state " + cs[n])
    ensures Load(w, s, "state " + cs[n]).1 <==> cs[n] != ""
    ensures cs[n] != "" ==> Unsigned(Load(w, s, "state " + cs[n]).0, StateCalls(cs, n + 1))
  {
    hide CommandOf, Known, Starts;
    StateLine(cs[n]);
    assert StateCalls(cs, n + 1) == StateCalls(cs, n) + [AddState(cs[n])];
  }

  /** Adding a line at the end of a file. */
  lemma {:induction false} LoadOneMore(w: World, s: LoadState, lines: seq<string>, line: string)
    requires FileDefined(w, s, lines) && Known(line)
    requires LoadModel(w, s, lines).1 ==> Usable(LoadModel(w, s, lines).0, line)
    ensures FileDefined(w, s, lines + [line])
    ensures LoadModel(w, s, lines + [line]) ==
            if LoadModel(w, s, lines).1 then Load(w, LoadModel(w, s, lines).0, line) else LoadModel(w, s, lines)
    decreases |lines|
  {
    hide Load, Known, Usable;
    var all := lines + [line];
    if lines != [] {
      assert all[0] == lines[0] && all[1..] == lines[1..] + [line];
      if Load(w, s, lines[0]).1 {
        LoadOneMore(w, Load(w, s, lines[0]).0, lines[1..], line);
      }
    } else {
      assert all == [line] && all[1..] == [];
    }
  }

  /** State lines make one call each as long as no coefficient is empty. */
  lemma {:induction false} LoadStates(w: World, s: LoadState, cs: seq<string>, n: nat)
    requires Accepting(w) && n <= |cs| && Unsigned(s, [])
    ensures FileDefined(w, s, StateLines(cs)[..n])
    ensures LoadModel(w, s, StateLines(cs)[..n]).1 <==> forall i :: 0 <= i < n ==> cs[i] != ""
    ensures LoadModel(w, s, StateLines(cs)[..n]).1 ==>
              Unsigned(LoadModel(w, s, StateLines(cs)[..n]).0, StateCalls(cs, n))
  {
    hide Load, Known, CommandOf, Usable, Text, LinesFrom, Arg;
    assert StateCalls(cs, 0) == [];
    if n > 0 {
      hide LoadModel, FileDefined;
      var before, line := StateLines(cs)[..n - 1], StateLines(cs)[n - 1];
      LoadStates(w, s, cs, n - 1);
      StateLine(cs[n - 1]);
      assert StateLines(cs)[..n] == before + [line];
      if LoadModel(w, s, before).1 {
        LoadStateLine(w, LoadModel(w, s, before).0, cs, n - 1);
      }
      LoadOneMore(w, s, before, line);
    }
  }

  lemma LoadAggregateLine(w: World, aggregate: string)
    ensures Known("aggregate " + aggregate) && Usable(FRESH, "aggregate " + aggregate)
    ensures Load(w, FRESH, "aggregate " + aggregate).1 <==> aggregate != ""
    ensures aggregate != "" ==> Unsigned(Load(w, FRESH, "aggregate " + aggregate).0, [])
  {
    hide CommandOf, Known, Starts;
    AggregateLine(aggregate);
  }

  lemma LoadClosing(w: World, s: LoadState, log: seq<ControlCall>)
    requires Accepting(w) && Unsigned(s, log)
    ensures Known("seal") && Usable(s, "seal") && Load(w, s, "seal").1
    ensures Known("end") && Usable(Load(w, s, "seal").0, "end")
    ensures Load(w, Load(w, s, "seal").0, "end").1
    ensures Unsigned(Load(w, Load(w, s, "seal").0, "end").0, log + [SealModel])
    ensures !Load(w, Load(w, s, "seal").0, "end").0.loading
  {
    hide CommandOf, Known, Starts;
    ClosingLines();
  }

  /** The states, then the seal, then the end. */
  lemma LoadBody(w: World, s: LoadState, cs: seq<string>, body: seq<string>)
    requires Accepting(w) && Unsigned(s, []) && body == StateLines(cs) + ["seal"] + ["end"]
    ensures FileDefined(w, s, body)
    ensures LoadModel(w, s, body).1 <==> forall i :: 0 <= i < |cs| ==> cs[i] != ""
    ensures LoadModel(w, s, body).1 ==>
              LoadModel(w, s, body).0.log == DumpCalls(cs) && !LoadModel(w, s, body).0.loading
  {
    hide Load, LoadModel, FileDefined, Known, CommandOf, Usable, Text, LinesFrom, Arg;
    var states := StateLines(cs);
    LoadStates(w, s, cs, |cs|);
    assert states[..|cs|] == states;
    ClosingLines();
    var stated := LoadModel(w, s, states).0;
    if LoadModel(w, s, states).1 {
      LoadClosing(w, stated, StateCalls(cs, |cs|));
    }
    LoadOneMore(w, s, states, "seal");
    LoadOneMore(w, s, states + ["seal"], "end");
  }

  /** Loading a dump: it succeeds exactly when neither the aggregate nor any coefficient is empty. */
  lemma LoadDump(w: World, aggregate: string, cs: seq<string>, lines: seq<string>)
    requires Accepting(w) && lines == DumpLines(aggregate, cs)
    ensures FileDefined(w, FRESH, lines)
    ensures LoadModel(w, FRESH, lines).1 <==> aggregate != "" && forall i :: 0 <= i < |cs| ==> cs[i] != ""
    ensures LoadModel(w, FRESH, lines).1 ==>
              LoadModel(w, FRESH, lines).0.log == DumpCalls(cs) && !LoadModel(w, FRESH, lines).0.loading
  {
    hide Load, Known, CommandOf, Usable, Text, LinesFrom, Arg;
    var first := "aggregate " + aggregate;
    var body := StateLines(cs) + ["seal"] + ["end"];
    assert lines[0] == first && lines[1..] == body;
    LoadAggregateLine(w, aggregate);
    if aggregate != "" {
      LoadBody(w, Load(w, FRESH, first).0, cs, body);
    }
  }

  /**
   * The round trip: a model dumped with one-line entries, saved, and loaded line by line into an accepting
   * controller issues one add_state per coefficient in the original order and then one seal, exactly when
   * no entry is empty; an empty entry makes the load fail.
   */
  lemma DumpReload(w: World, aggregate: string, cs: seq<string>, piped: string, saved: string)
    requires Accepting(w) && OneLine(aggregate) && AllOneLine(cs)
    requires piped == Text(DumpLines(aggregate, cs)) && Lines(saved) == Lines(piped)
    ensures FileDefined(w, FRESH, Lines(saved))
    ensures LoadModel(w, FRESH, Lines(saved)).1 <==> aggregate != "" && forall i :: 0 <= i < |cs| ==> cs[i] != ""
    ensures LoadModel(w, FRESH, Lines(saved)).1 ==> LoadModel(w, FRESH, Lines(saved)).0.log == DumpCalls(cs)
    ensures LoadModel(w, FRESH, Lines(saved)).1 ==> !LoadModel(w, FRESH, Lines(saved)).0.loading
  {
    var lines := DumpLines(aggregate, cs);
    forall i | 0 <= i < |lines| ensures OneLine(lines[i]) {
      if 1 <= i <= |cs| {
        assert lines[i] == "state " + cs[i - 1] && OneLine(cs[i - 1]);
      }
    }
    LinesOfText(lines, piped);
    LoadDump(w, aggregate, cs, lines);
  }

  /** The whole pipeline, as it runs. */
  method DumpAndReload(aggregate: string, coefficients: seq<string>, model: Model) returns (ok: bool)
    requires model.View() == FRESH && Accepting(model.world) && OneLine(aggregate) && AllOneLine(coefficients)
    modifies model
    ensures ok <==> aggregate != "" && forall i :: 0 <= i < |coefficients| ==> coefficients[i] != ""
    ensures ok ==> model.log == DumpCalls(coefficients) && !model.loading
  {
    var piped := UploadModel([aggregate], coefficients);
    var saved := ReceiveModel(piped);
    DumpReload(model.world, aggregate, coefficients, piped, saved);
    ok := model.LoadFile(Lines(saved));
  }
}
