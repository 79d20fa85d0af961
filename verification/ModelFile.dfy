/** Quixote/quixote.c: loading a security model line by line, with the signature over its lines. */
module ModelFile {
  import opened Wrappers

  datatype Command = CmdComment | CmdKey | CmdBase | CmdAggregate | CmdState | CmdPseudonym | CmdSeal
                   | CmdSignature | CmdEnd

  datatype Definition = Definition(command: Command, syntax: string, hasArg: bool)

  /** Security_cmd_list. */
  const COMMANDS: seq<Definition> := [
    Definition(CmdComment, "#", false),
    Definition(CmdKey, "key ", true),
    Definition(CmdBase, "base ", true),
    Definition(CmdAggregate, "aggregate ", true),
    Definition(CmdState, "state ", true),
    Definition(CmdPseudonym, "pseudonym ", true),
    Definition(CmdSeal, "seal", false),
    Definition(CmdSignature, "signature ", true),
    Definition(CmdEnd, "end", false)
  ]

  /** A comparison over the length of the syntax: the line starts with it. */
  predicate Starts(line: string, d: Definition) {
    d.syntax <= line
  }

  /** The first two characters tell the commands apart. */
  function Mark(d: Definition): (char, char) {
    (if d.syntax == "" then ' ' else d.syntax[0], if |d.syntax| < 2 || d.syntax[0] != 's' then ' ' else d.syntax[1])
  }

  lemma MarkOfLine(line: string, d: Definition)
    requires d in COMMANDS && Starts(line, d)
    ensures line != "" && Mark(d).0 == line[0]
    ensures line[0] == 's' ==> |line| >= 2 && Mark(d).1 == line[1]
    ensures line[0] != 's' ==> Mark(d).1 == ' '
  {
    assert |d.syntax| <= |line| && d.syntax == line[..|d.syntax|];
  }

  lemma MarksDiffer(i: nat, j: nat)
    requires i < |COMMANDS| && j < |COMMANDS| && Mark(COMMANDS[i]) == Mark(COMMANDS[j])
    ensures i == j
  {
  }

  /** No line starts with two of the commands. */
  lemma CommandsExclusive(line: string, a: Definition, b: Definition)
    requires a in COMMANDS && b in COMMANDS && Starts(line, a) && Starts(line, b)
    ensures a == b
  {
    MarkOfLine(line, a);
    MarkOfLine(line, b);
    var i :| 0 <= i < |COMMANDS| && COMMANDS[i] == a;
    var j :| 0 <= j < |COMMANDS| && COMMANDS[j] == b;
    MarksDiffer(i, j);
  }

  /** The table has no end marker, so every line must start with some command. */
  ghost predicate Known(line: string) {
    exists i :: 0 <= i < |COMMANDS| && Starts(line, COMMANDS[i])
  }

  /** The command a line starts with. */
  function CommandOf(line: string): (d: Definition)
    requires Known(line)
    ensures d in COMMANDS && Starts(line, d)
  {
    if Starts(line, COMMANDS[0]) then COMMANDS[0]
    else if Starts(line, COMMANDS[1]) then COMMANDS[1]
    else if Starts(line, COMMANDS[2]) then COMMANDS[2]
    else if Starts(line, COMMANDS[3]) then COMMANDS[3]
    else if Starts(line, COMMANDS[4]) then COMMANDS[4]
    else if Starts(line, COMMANDS[5]) then COMMANDS[5]
    else if Starts(line, COMMANDS[6]) then COMMANDS[6]
    else if Starts(line, COMMANDS[7]) then COMMANDS[7]
    else COMMANDS[8]
  }

  /** Whatever order the table is searched in, this is the command found. */
  lemma CommandUnique(line: string, d: Definition)
    requires Known(line)
    ensures d in COMMANDS && Starts(line, d) <==> d == CommandOf(line)
  {
    if d in COMMANDS && Starts(line, d) {
      CommandsExclusive(line, d, CommandOf(line));
    }
  }

  /** The search down the table. */
  method FindCommand(line: string) returns (d: Definition)
    requires Known(line)
    ensures d == CommandOf(line)
  {
    var i := 0;
    while !Starts(line, COMMANDS[i])
      invariant 0 <= i < |COMMANDS| && forall k :: 0 <= k < i ==> !Starts(line, COMMANDS[k])
      decreases |COMMANDS| - i
    {
      assert exists k :: i < k < |COMMANDS| && Starts(line, COMMANDS[k]);
      i := i + 1;
    }
    CommandUnique(line, COMMANDS[i]);
    return COMMANDS[i];
  }

  // --- State ---

  /** A buffer kept between calls. Gone: released by WHACK in a library that leaves the pointer in place. */
  datatype Slot = Null | Live(data: string) | Gone

  /** Calls made on the model controller. */
  datatype ControlCall = SetBase(arg: string) | AddState(arg: string) | AddPseudonym(arg: string) | SealModel

  datatype LoadState = LoadState(key: Slot, sigdata: Slot, loading: bool, log: seq<ControlCall>)

  const FRESH: LoadState := LoadState(Null, Null, false, [])

  /** What lies outside: WHACK's effect, signature verification, and the controller's answers. */
  datatype World = World(whackNulls: bool,
                         verify: (string, string, string) -> bool,
                         control: (seq<ControlCall>, ControlCall) -> bool)

  const NUL: string := ['\0']

  /** `_add_entry`: the line and its terminating NUL, when a signature is being collected. */
  function AddEntry(s: LoadState, line: string): LoadState {
    if s.sigdata.Live? then s.(sigdata := Live(s.sigdata.data + line + NUL)) else s
  }

  function Arg(line: string): string
    requires Known(line)
  {
    line[|CommandOf(line).syntax|..]
  }

  /** No released buffer is used. */
  predicate Usable(s: LoadState, line: string)
    requires Known(line)
  {
    (CommandOf(line).hasArg && Arg(line) == "")
    || (s.key != Gone && s.sigdata != Gone)
  }

  function Released(w: World): Slot {
    if w.whackNulls then Null else Gone
  }

  /** A command that also calls the controller. */
  function Control(w: World, s: LoadState, call: ControlCall): (LoadState, bool) {
    (s.(log := s.log + [call]), w.control(s.log, call))
  }

  /** `load`: the new state, and whether the line was accepted. */
  function Load(w: World, s: LoadState, line: string): (LoadState, bool)
    requires Known(line) && Usable(s, line)
  {
    var d := CommandOf(line);
    var s0 := if d.command != CmdSignature then s.(loading := true) else s;
    if d.hasArg && Arg(line) == "" then (s0, false)
    else
      var added := AddEntry(s0, line);
      match d.command
      case CmdComment => (added, true)
      case CmdAggregate => (added, true)
      case CmdBase => Control(w, added, SetBase(Arg(line)))
      case CmdState => Control(w, added, AddState(Arg(line)))
      case CmdPseudonym => Control(w, added, AddPseudonym(Arg(line)))
      case CmdSeal => Control(w, added, SealModel)
      case CmdEnd => (added.(loading := false), true)
      case CmdKey =>
        var begun := s0.(sigdata := Live(line + NUL));
        if s0.key != Null then (begun, false) else (begun.(key := Live(Arg(line) + NUL)), true)
      case CmdSignature =>
        if s0.sigdata == Null || s0.key == Null then (s0, false)
        else (s0.(key := Released(w), sigdata := Released(w)), w.verify(s0.key.data, s0.sigdata.data, Arg(line)))
  }

  ghost predicate FileDefined(w: World, s: LoadState, lines: seq<string>)
    decreases |lines|
  {
    lines == [] ||
    (Known(lines[0]) && Usable(s, lines[0])
     && (Load(w, s, lines[0]).1 ==> FileDefined(w, Load(w, s, lines[0]).0, lines[1..])))
  }

  /** `load_model`: stops at the first line not accepted. */
  function LoadModel(w: World, s: LoadState, lines: seq<string>): (LoadState, bool)
    requires FileDefined(w, s, lines)
    decreases |lines|
  {
    if lines == [] then (s, true)
    else
      var (next, ok) := Load(w, s, lines[0]);
      if ok then LoadModel(w, next, lines[1..]) else (next, false)
  }

  // --- The code ---

  lemma CommandPrefix(line: string)
    requires Known(line)
    ensures |CommandOf(line).syntax| <= |line|
  {
  }

  lemma ArgOf(line: string, d: Definition)
    requires Known(line) && d == CommandOf(line)
    ensures d.hasArg <==> d.command !in {CmdComment, CmdSeal, CmdEnd}
    ensures |d.syntax| <= |line| && Arg(line) == line[|d.syntax|..]
  {
  }

  class Model {
    var key: Slot
    var sigdata: Slot
    var loading: bool
    var log: seq<ControlCall>

    const world: World

    function View(): LoadState
      reads this
    {
      LoadState(key, sigdata, loading, log)
    }

    constructor (w: World)
      ensures View() == FRESH && world == w
    {
      key, sigdata, loading, log := Null, Null, false, [];
      world := w;
    }

    method Call(call: ControlCall) returns (ok: bool)
      modifies `log
      ensures (View(), ok) == Control(world, old(View()), call)
    {
      ok := world.control(log, call);
      log := log + [call];
    }

    method Add(line: string)
      requires sigdata != Gone
      modifies `sigdata
      ensures View() == AddEntry(old(View()), line)
    {
      if sigdata == Null {
        return;
      }
      sigdata := Live(sigdata.data + line + NUL);
    }

    method LoadLine(line: string) returns (ok: bool)
      requires Known(line) && Usable(View(), line)
      modifies this
      ensures (View(), ok) == Load(world, old(View()), line)
    {
      hide CommandOf, Starts, Known;
      var d := FindCommand(line);
      if d.command != CmdSignature && !loading {
        loading := true;
      }
      var arg := "";
      if d.hasArg {
        CommandPrefix(line);
        arg := line[|d.syntax|..];
        if arg == "" {
          return false;
        }
      }
      ArgOf(line, d);

      if d.command == CmdSignature {
        if sigdata == Null || key == Null {
          return false;
        }
        ok := world.verify(key.data, sigdata.data, arg);
        key, sigdata := Released(world), Released(world);
        return ok;
      }
      if d.command == CmdKey {
        sigdata := Live("");
        Add(line);
        assert sigdata.data == line + NUL;
        if key != Null {
          return false;
        }
        key := Live(arg + NUL);
        return true;
      }
      Add(line);
      match d.command
      case CmdBase => ok := Call(SetBase(arg));
      case CmdState => ok := Call(AddState(arg));
      case CmdPseudonym => ok := Call(AddPseudonym(arg));
      case CmdSeal => ok := Call(SealModel);
      case CmdEnd =>
        loading := false;
        ok := true;
      case _ => ok := true;
    }

    method LoadFile(lines: seq<string>) returns (ok: bool)
      requires FileDefined(world, View(), lines)
      modifies this
      ensures (View(), ok) == LoadModel(world, old(View()), lines)
    {
      hide Load, Known, Usable;
      ghost var start := View();
      var i := 0;
      assert lines[0..] == lines;
      while i < |lines|
        invariant 0 <= i <= |lines| && FileDefined(world, View(), lines[i..])
        invariant LoadModel(world, start, lines) == LoadModel(world, View(), lines[i..])
      {
        assert lines[i..][0] == lines[i] && lines[i..][1..] == lines[i + 1..];
        ok := LoadLine(lines[i]);
        if !ok {
          return false;
        }
        i := i + 1;
      }
      return true;
    }
  }

  // --- What each line does ---

  lemma CommandAt(line: string, arg: string, i: nat)
    requires i < |COMMANDS| && line == COMMANDS[i].syntax + arg
    ensures Known(line) && CommandOf(line) == COMMANDS[i] && Arg(line) == arg
  {
    assert Starts(line, COMMANDS[i]);
    CommandUnique(line, COMMANDS[i]);
  }

  /** The call a line makes on the controller, by the line's beginning; None if it makes none. */
  function CallOf(start: string, arg: string): Option<ControlCall> {
    if start == "base " then Some(SetBase(arg))
    else if start == "state " then Some(AddState(arg))
    else if start == "pseudonym " then Some(AddPseudonym(arg))
    else if start == "seal" then Some(SealModel)
    else None
  }

  const STARTS: seq<string> := ["#", "key ", "base ", "aggregate ", "state ", "pseudonym ", "seal", "signature ", "end"]

  lemma StartOfCommand(i: nat)
    requires i < |STARTS|
    ensures |STARTS| == |COMMANDS| && STARTS[i] == COMMANDS[i].syntax
    ensures COMMANDS[i].hasArg <==> STARTS[i] !in {"#", "seal", "end"}
    ensures COMMANDS[i].command == [CmdComment, CmdKey, CmdBase, CmdAggregate, CmdState, CmdPseudonym, CmdSeal,
                                    CmdSignature, CmdEnd][i]
  {
  }

  /**
   * What a line does to the controller: a base, state, pseudonym or seal line makes its own call, once, and is
   * accepted as the controller answers; no other line makes a call, and comments, aggregates and ends are accepted. A
   * line that lacks its argument is refused. Loading is under way after every line but a signature and an end.
   */
  lemma LineMeaning(w: World, s: LoadState, i: nat, arg: string, line: string)
    requires i < |STARTS| && line == STARTS[i] + arg
    requires (s.key != Gone && s.sigdata != Gone) || (arg == "" && STARTS[i] !in {"#", "seal", "end"})
    ensures Known(line) && Usable(s, line)
    ensures var start := STARTS[i];
            var (done, ok) := Load(w, s, line);
            && (arg == "" && start !in {"#", "seal", "end"} ==> !ok && done.log == s.log)
            && (arg != "" || start in {"#", "seal", "end"} ==>
                  match CallOf(start, arg)
                  case Some(call) => done.log == s.log + [call] && (ok <==> w.control(s.log, call))
                  case None => done.log == s.log && (start in {"#", "aggregate ", "end"} ==> ok))
            && (ok ==> (start == "signature " ==> done.loading == s.loading)
                       && (start != "signature " ==> (done.loading <==> start != "end")))
  {
    hide CommandOf, Known, Starts, Arg;
    CommandAt(line, arg, i);
    ArgOf(line, CommandOf(line));
    StartOfCommand(i);
  }

  // --- What a signature covers ---

  /** The bytes a signature is checked against: each line with its terminating NUL. */
  function SignedData(lines: seq<string>): string {
    if lines == [] then "" else SignedData(lines[..|lines| - 1]) + lines[|lines| - 1] + NUL
  }

  ghost predicate Is(line: string, c: Command) {
    Known(line) && CommandOf(line).command == c
  }

  ghost predicate Plain(lines: seq<string>) {
    forall i :: 0 <= i < |lines| ==> Known(lines[i]) && !Is(lines[i], CmdKey) && !Is(lines[i], CmdSignature)
  }

  /** Loading a concatenation is loading its parts in turn. */
  lemma {:induction false} LoadModelConcat(w: World, s: LoadState, xs: seq<string>, ys: seq<string>)
    requires FileDefined(w, s, xs + ys)
    ensures FileDefined(w, s, xs)
    ensures LoadModel(w, s, xs).1 ==>
              FileDefined(w, LoadModel(w, s, xs).0, ys)
              && LoadModel(w, s, xs + ys) == LoadModel(w, LoadModel(w, s, xs).0, ys)
    ensures !LoadModel(w, s, xs).1 ==> LoadModel(w, s, xs + ys) == LoadModel(w, s, xs)
    decreases |xs|
  {
    hide Load, Known, Usable;
    if xs == [] {
      assert xs + ys == ys;
    } else {
      assert (xs + ys)[0] == xs[0] && (xs + ys)[1..] == xs[1..] + ys;
      if Load(w, s, xs[0]).1 {
        LoadModelConcat(w, Load(w, s, xs[0]).0, xs[1..], ys);
      }
    }
  }

  lemma PlainLine(w: World, s: LoadState, line: string)
    requires Known(line) && Usable(s, line) && !Is(line, CmdKey) && !Is(line, CmdSignature) && Load(w, s, line).1
    ensures Load(w, s, line).0.key == s.key
    ensures Load(w, s, line).0.sigdata ==
            if s.sigdata.Live? then Live(s.sigdata.data + line + NUL) else s.sigdata
  {
    hide CommandOf, Known, Starts;
  }

  lemma {:induction false} SignedDataFront(lines: seq<string>)
    requires lines != []
    ensures SignedData(lines) == lines[0] + NUL + SignedData(lines[1..])
    decreases |lines|
  {
    var n := |lines| - 1;
    if n > 0 {
      SignedDataFront(lines[..n]);
      assert lines[..n][1..] == lines[1..][..n - 1];
      assert lines[0] + NUL + SignedData(lines[1..][..n - 1]) + lines[n] + NUL ==
             lines[0] + NUL + (SignedData(lines[1..][..n - 1]) + lines[n] + NUL);
    } else {
      assert lines[..0] == [] && lines[1..] == [];
    }
  }

  lemma NothingSigned()
    ensures SignedData([]) == ""
  {
  }

  /** Plain lines extend the data to be signed by exactly themselves, and leave the key alone. */
  lemma {:induction false} PlainLines(w: World, s: LoadState, lines: seq<string>)
    requires FileDefined(w, s, lines) && Plain(lines) && LoadModel(w, s, lines).1
    ensures LoadModel(w, s, lines).0.key == s.key
    ensures s.sigdata == Null ==> LoadModel(w, s, lines).0.sigdata == Null
    ensures s.sigdata.Live? ==> LoadModel(w, s, lines).0.sigdata == Live(s.sigdata.data + SignedData(lines))
    decreases |lines|
  {
    hide Load, CommandOf, Known, Usable, SignedData, Is;
    if lines == [] {
      NothingSigned();
    } else {
      var first, rest := lines[0], lines[1..];
      var next := Load(w, s, first).0;
      assert Known(first) && !Is(first, CmdKey) && !Is(first, CmdSignature);
      PlainLine(w, s, first);
      PlainLines(w, next, rest);
      SignedDataFront(lines);
      if s.sigdata.Live? {
        var data := s.sigdata.data;
        assert data + first + NUL + SignedData(rest) == data + (first + NUL + SignedData(rest));
      }
    }
  }

  lemma SignatureStep(w: World, s: LoadState, line: string)
    requires Is(line, CmdSignature) && s.key.Live? && s.sigdata.Live? && Usable(s, line)
    ensures Load(w, s, line).1 <==> Arg(line) != "" && w.verify(s.key.data, s.sigdata.data, Arg(line))
  {
    hide CommandOf, Known, Starts;
    ArgOf(line, CommandOf(line));
  }

  /** Without something being signed, or with a key already there, these two lines are refused. */
  lemma MisplacedLine(w: World, s: LoadState, line: string)
    requires Known(line) && Usable(s, line)
    requires (Is(line, CmdSignature) && s.sigdata == Null) || (Is(line, CmdKey) && s.key.Live?)
    ensures !Load(w, s, line).1
  {
    hide CommandOf, Known, Starts;
    ArgOf(line, CommandOf(line));
  }

  lemma LoadOneLine(w: World, s: LoadState, line: string)
    requires FileDefined(w, s, [line])
    ensures Known(line) && Usable(s, line) && LoadModel(w, s, [line]) == Load(w, s, line)
  {
  }

  /** No key is held and nothing is being signed: a new object, or one whose signature has just been released. */
  ghost predicate Clear(s: LoadState) {
    s.key == Null && s.sigdata == Null
  }

  lemma UpToSignature(w: World, s0: LoadState, before: seq<string>, key: string, covered: seq<string>, upTo: seq<string>)
    requires Clear(s0)
    requires Plain(before) && Is(key, CmdKey) && Plain(covered) && upTo == before + ([key] + covered)
    requires FileDefined(w, s0, upTo) && LoadModel(w, s0, upTo).1
    ensures LoadModel(w, s0, upTo).0.key == Live(Arg(key) + NUL)
    ensures LoadModel(w, s0, upTo).0.sigdata == Live(SignedData([key] + covered))
  {
    LoadModelConcat(w, s0, before, [key] + covered);
    PlainLines(w, s0, before);
    var s1 := LoadModel(w, s0, before).0;
    LoadModelConcat(w, s1, [key], covered);
    LoadOneLine(w, s1, key);
    var s2 := LoadModel(w, s1, [key]).0;
    PlainLines(w, s2, covered);
    SignedDataFront([key] + covered);
    assert ([key] + covered)[1..] == covered;
  }

  /**
   * A signature line with one key line before it, whatever follows: what is verified is the key's argument against
   * exactly the lines from the key line on, nothing before the key line is covered, and the line is accepted if
   * and only if the lines before it were, it has an argument, and that verification succeeds. Loading a whole
   * file succeeds only if all of this holds.
   */
  lemma SignatureCovers(w: World, s0: LoadState, before: seq<string>, key: string, covered: seq<string>, signature: string,
                        rest: seq<string>, signed: seq<string>)
    requires Clear(s0)
    requires Plain(before) && Is(key, CmdKey) && Plain(covered) && Is(signature, CmdSignature)
    requires signed == before + ([key] + covered) + [signature]
    requires FileDefined(w, s0, signed + rest)
    ensures FileDefined(w, s0, before + ([key] + covered)) && FileDefined(w, s0, signed)
    ensures LoadModel(w, s0, signed).1 <==>
              LoadModel(w, s0, before + ([key] + covered)).1 && Arg(signature) != ""
              && w.verify(Arg(key) + NUL, SignedData([key] + covered), Arg(signature))
    ensures LoadModel(w, s0, signed + rest).1 ==> LoadModel(w, s0, signed).1
  {
    hide FileDefined, LoadModel, Load, Known, CommandOf, SignedData, Plain, Arg;
    var upTo := before + ([key] + covered);
    LoadModelConcat(w, s0, signed, rest);
    LoadModelConcat(w, s0, upTo, [signature]);
    if LoadModel(w, s0, upTo).1 {
      UpToSignature(w, s0, before, key, covered, upTo);
      var s := LoadModel(w, s0, upTo).0;
      LoadOneLine(w, s, signature);
      SignatureStep(w, s, signature);
    }
  }

  /** A signature with no key line before it is refused. */
  lemma UnkeyedSignature(w: World, s0: LoadState, before: seq<string>, signature: string, rest: seq<string>)
    requires Clear(s0)
    requires Plain(before) && Is(signature, CmdSignature)
    requires FileDefined(w, s0, before + ([signature] + rest))
    ensures !LoadModel(w, s0, before + ([signature] + rest)).1
  {
    hide Load, Known, CommandOf, Plain, Usable;
    LoadModelConcat(w, s0, before, [signature] + rest);
    if LoadModel(w, s0, before).1 {
      var s := LoadModel(w, s0, before).0;
      PlainLines(w, s0, before);
      LoadModelConcat(w, s, [signature], rest);
      LoadOneLine(w, s, signature);
      MisplacedLine(w, s, signature);
    }
  }

  /** So is a second key line before the first signature. */
  lemma SecondKey(w: World, s0: LoadState, before: seq<string>, key: string, between: seq<string>, again: string,
                  rest: seq<string>, keyed: seq<string>)
    requires Clear(s0)
    requires Plain(before) && Is(key, CmdKey) && Plain(between) && Is(again, CmdKey)
    requires keyed == before + ([key] + between)
    requires FileDefined(w, s0, keyed + ([again] + rest))
    ensures !LoadModel(w, s0, keyed + ([again] + rest)).1
  {
    hide FileDefined, LoadModel, Load, Known, CommandOf, SignedData, Plain, Arg, Usable;
    LoadModelConcat(w, s0, keyed, [again] + rest);
    if LoadModel(w, s0, keyed).1 {
      var s := LoadModel(w, s0, keyed).0;
      UpToSignature(w, s0, before, key, between, keyed);
      LoadModelConcat(w, s, [again], rest);
      LoadOneLine(w, s, again);
      MisplacedLine(w, s, again);
    }
  }

  lemma {:induction false} LoadedLinesKnown(w: World, s: LoadState, lines: seq<string>)
    requires FileDefined(w, s, lines) && LoadModel(w, s, lines).1
    ensures forall i :: 0 <= i < |lines| ==> Known(lines[i])
    decreases |lines|
  {
    hide Load, Known, Usable;
    if lines != [] {
      LoadedLinesKnown(w, Load(w, s, lines[0]).0, lines[1..]);
      assert lines == [lines[0]] + lines[1..];
    }
  }

  /** The first key line from `i` up to `g`, or `g`. */
  lemma NextKey(lines: seq<string>, i: nat, g: nat) returns (k: nat)
    requires i <= g <= |lines|
    ensures i <= k <= g && (k < g ==> Is(lines[k], CmdKey))
    ensures forall n :: i <= n < k ==> !Is(lines[n], CmdKey)
    decreases g - i
  {
    hide Is;
    if i == g || Is(lines[i], CmdKey) {
      k := i;
    } else {
      k := NextKey(lines, i + 1, g);
    }
  }

  // The same three cases, by position.

  ghost predicate PlainUpTo(lines: seq<string>, from: nat, to: nat) {
    from <= to <= |lines|
    && forall i :: from <= i < to ==> Known(lines[i]) && !Is(lines[i], CmdKey) && !Is(lines[i], CmdSignature)
  }

  lemma PlainSlice(lines: seq<string>, from: nat, to: nat)
    requires PlainUpTo(lines, from, to)
    ensures Plain(lines[from..to])
  {
    hide Known, Is;
    forall i | 0 <= i < to - from ensures lines[from..to][i] == lines[from + i] {
    }
  }

  lemma SplitAt<T>(s: seq<T>, g: nat)
    requires g < |s|
    ensures s == s[..g] + ([s[g]] + s[g + 1..]) == s[..g] + [s[g]] + s[g + 1..]
  {
  }

  lemma SliceFrom<T>(s: seq<T>, k: nat, g: nat)
    requires k < g <= |s|
    ensures [s[k]] + s[k + 1..g] == s[k..g] && s[..k] + s[k..g] == s[..g]
  {
  }

  lemma UnkeyedAt(w: World, s0: LoadState, lines: seq<string>, g: nat)
    requires Clear(s0)
    requires FileDefined(w, s0, lines)
    requires PlainUpTo(lines, 0, g) && g < |lines| && Is(lines[g], CmdSignature)
    ensures !LoadModel(w, s0, lines).1
  {
    hide FileDefined, LoadModel, Known, Is, Plain, PlainUpTo;
    SplitAt(lines, g);
    PlainSlice(lines, 0, g);
    assert lines[0..g] == lines[..g];
    UnkeyedSignature(w, s0, lines[..g], lines[g], lines[g + 1..]);
  }

  lemma SecondKeyAt(w: World, s0: LoadState, lines: seq<string>, k: nat, j: nat)
    requires Clear(s0)
    requires FileDefined(w, s0, lines)
    requires k < j < |lines| && PlainUpTo(lines, 0, k) && PlainUpTo(lines, k + 1, j)
    requires Is(lines[k], CmdKey) && Is(lines[j], CmdKey)
    ensures !LoadModel(w, s0, lines).1
  {
    hide FileDefined, LoadModel, Known, Is, Plain, PlainUpTo;
    PlainSlice(lines, 0, k);
    PlainSlice(lines, k + 1, j);
    SplitAt(lines, j);
    SliceFrom(lines, k, j);
    assert lines[0..k] == lines[..k];
    SecondKey(w, s0, lines[..k], lines[k], lines[k + 1..j], lines[j], lines[j + 1..], lines[..j]);
  }

  lemma CoveredAt(w: World, s0: LoadState, lines: seq<string>, k: nat, g: nat)
    requires Clear(s0)
    requires FileDefined(w, s0, lines) && LoadModel(w, s0, lines).1
    requires k < g < |lines| && PlainUpTo(lines, 0, k) && PlainUpTo(lines, k + 1, g)
    requires Is(lines[k], CmdKey) && Is(lines[g], CmdSignature)
    ensures Arg(lines[g]) != "" && w.verify(Arg(lines[k]) + NUL, SignedData(lines[k..g]), Arg(lines[g]))
  {
    hide FileDefined, LoadModel, Known, CommandOf, SignedData, Arg, Plain, PlainUpTo;
    PlainSlice(lines, 0, k);
    PlainSlice(lines, k + 1, g);
    SplitAt(lines, g);
    SliceFrom(lines, k, g);
    assert lines[0..k] == lines[..k];
    SignatureCovers(w, s0, lines[..k], lines[k], lines[k + 1..g], lines[g], lines[g + 1..], lines[..g] + [lines[g]]);
  }

  /**
   * Any file that loads and holds a signature: before the first signature line there is exactly one key line, and
   * that signature verified the lines from the key line to the one before it, under that key.
   */
  lemma FirstSignatureVerified(w: World, s0: LoadState, lines: seq<string>, g: nat) returns (k: nat)
    requires Clear(s0)
    requires FileDefined(w, s0, lines) && LoadModel(w, s0, lines).1
    requires g < |lines| && Is(lines[g], CmdSignature) && forall i :: 0 <= i < g ==> !Is(lines[i], CmdSignature)
    ensures k < g && Is(lines[k], CmdKey) && forall i :: 0 <= i < g && i != k ==> !Is(lines[i], CmdKey)
    ensures Arg(lines[g]) != "" && w.verify(Arg(lines[k]) + NUL, SignedData(lines[k..g]), Arg(lines[g]))
  {
    hide FileDefined, LoadModel, Load, Known, CommandOf, SignedData, Arg, Is, Plain;
    LoadedLinesKnown(w, s0, lines);
    k := NextKey(lines, 0, g);
    if k == g {
      UnkeyedAt(w, s0, lines, g);
    } else {
      var j := NextKey(lines, k + 1, g);
      if j < g {
        SecondKeyAt(w, s0, lines, k, j);
      } else {
        CoveredAt(w, s0, lines, k, g);
      }
    }
  }

  /** An accepted signature releases key and data. */
  lemma SignatureReleases(w: World, s: LoadState, line: string)
    requires Is(line, CmdSignature) && Usable(s, line) && Load(w, s, line).1
    ensures var done := Load(w, s, line).0;
            done.key == done.sigdata == if w.whackNulls then Null else Gone
  {
    hide CommandOf, Known, Starts;
    ArgOf(line, CommandOf(line));
  }

  lemma RefusedWithoutArgument(w: World, s: LoadState, line: string)
    requires Known(line) && Usable(s, line) && s.key == Gone
    ensures !Load(w, s, line).1
  {
    hide CommandOf, Known, Starts;
  }

  /** Once they are released and left in place, no further line can be loaded. */
  lemma NothingAfterGone(w: World, s: LoadState, lines: seq<string>)
    requires FileDefined(w, s, lines) && s.key == Gone && lines != []
    ensures !LoadModel(w, s, lines).1
  {
    RefusedWithoutArgument(w, s, lines[0]);
  }

  /** After an accepted signature the rest of a file is loaded from a clear state, or there is no rest. */
  lemma AfterSignature(w: World, s0: LoadState, lines: seq<string>, f: nat) returns (s: LoadState)
    requires FileDefined(w, s0, lines) && LoadModel(w, s0, lines).1 && f < |lines| && Is(lines[f], CmdSignature)
    ensures FileDefined(w, s, lines[f + 1..]) && LoadModel(w, s, lines[f + 1..]).1
    ensures Clear(s) || f + 1 == |lines|
  {
    hide FileDefined, LoadModel, Load, Usable, Known, Is, CommandOf;
    SplitAt(lines, f);
    var upTo, rest := lines[..f], lines[f + 1..];
    LoadModelConcat(w, s0, upTo, [lines[f]] + rest);
    var s1 := LoadModel(w, s0, upTo).0;
    LoadModelConcat(w, s1, [lines[f]], rest);
    LoadOneLine(w, s1, lines[f]);
    SignatureReleases(w, s1, lines[f]);
    s := LoadModel(w, s1, [lines[f]]).0;
    if !w.whackNulls && rest != [] {
      NothingAfterGone(w, s, rest);
    }
  }

  /** The first signature line up to `g`. */
  lemma FirstSignature(lines: seq<string>, i: nat, g: nat) returns (f: nat)
    requires i <= g < |lines| && Is(lines[g], CmdSignature)
    ensures i <= f <= g && Is(lines[f], CmdSignature)
    ensures forall n :: i <= n < f ==> !Is(lines[n], CmdSignature)
    decreases g - i
  {
    hide Is;
    if Is(lines[i], CmdSignature) {
      f := i;
    } else {
      f := FirstSignature(lines, i + 1, g);
    }
  }

  lemma SliceOfRest<T>(s: seq<T>, from: nat, k: nat, g: nat)
    requires k <= g && from + g < |s|
    ensures s[from..][k..g] == s[from + k..from + g] && s[from..][g] == s[from + g] && s[from..][k] == s[from + k]
    ensures forall i :: from + k < i < from + g ==> s[i] == s[from..][i - from]
  {
  }

  /**
   * Every signature line of any file that loads, however many it has and whatever WHACK does: the last key line before
   * it follows any earlier signature, and the signature verified exactly the lines from that key line to the one
   * before it, under that key.
   */
  lemma {:induction false} EverySignatureVerified(w: World, s0: LoadState, lines: seq<string>, g: nat) returns (k: nat)
    requires Clear(s0) && FileDefined(w, s0, lines) && LoadModel(w, s0, lines).1
    requires g < |lines| && Is(lines[g], CmdSignature)
    ensures k < g && Is(lines[k], CmdKey)
    ensures forall i :: k < i < g ==> !Is(lines[i], CmdKey) && !Is(lines[i], CmdSignature)
    ensures Arg(lines[g]) != "" && w.verify(Arg(lines[k]) + NUL, SignedData(lines[k..g]), Arg(lines[g]))
    decreases |lines|
  {
    hide FileDefined, LoadModel, Load, Known, CommandOf, SignedData, Arg, Is;
    var f := FirstSignature(lines, 0, g);
    if f == g {
      k := FirstSignatureVerified(w, s0, lines, g);
    } else {
      var s := AfterSignature(w, s0, lines, f);
      var rest := lines[f + 1..];
      k := EverySignatureVerified(w, s, rest, g - (f + 1));
      SliceOfRest(lines, f + 1, k, g - (f + 1));
      k := k + f + 1;
    }
  }

  /** Lines are C strings: they hold no NUL. */
  ghost predicate NoNul(lines: seq<string>) {
    forall i :: 0 <= i < |lines| ==> '\0' !in lines[i]
  }

  lemma FirstLine(l: string, x: string, m: string, y: string)
    requires '\0' !in l && '\0' !in m && l + NUL + x == m + NUL + y
    ensures l == m && x == y
  {
    var s, t := l + NUL + x, m + NUL + y;
    assert s[|l|] == '\0' && t[|m|] == '\0';
    assert forall k :: 0 <= k < |l| ==> s[k] != '\0';
    assert forall k :: 0 <= k < |m| ==> t[k] != '\0';
    assert l == s[..|l|] && m == t[..|m|];
    assert x == s[|l| + 1..] && y == t[|m| + 1..];
  }

  /** The signed bytes determine the lines: no other list of lines has the same bytes. */
  lemma {:induction false} SignedDataDetermines(a: seq<string>, b: seq<string>)
    requires NoNul(a) && NoNul(b) && SignedData(a) == SignedData(b)
    ensures a == b
    decreases |a|
  {
    if a == [] || b == [] {
      if a != [] { SignedDataFront(a); }
      if b != [] { SignedDataFront(b); }
    } else {
      SignedDataFront(a);
      SignedDataFront(b);
      var x, y := SignedData(a[1..]), SignedData(b[1..]);
      FirstLine(a[0], x, b[0], y);
      SignedDataDetermines(a[1..], b[1..]);
      assert a == [a[0]] + a[1..] && b == [b[0]] + b[1..];
    }
  }
}
