/** Quixote/quixote-export.c: the one-shot export of the root namespace's events through a reused queue. */
module Export {
  /** What one read of the event file yields; a read that is cut short by a stop signal is a Skip. */
  datatype Read = Data(text: string) | Skip | NoData | Error

  function Concat(texts: seq<string>): string {
    if texts == [] then "" else Concat(texts[..|texts| - 1]) + texts[|texts| - 1]
  }

  lemma {:induction false} ConcatAppend(xs: seq<string>, ys: seq<string>)
    ensures Concat(xs + ys) == Concat(xs) + Concat(ys)
    decreases |ys|
  {
    if ys == [] {
      assert xs + ys == xs;
    } else {
      var n := |ys| - 1;
      ConcatAppend(xs, ys[..n]);
      assert (xs + ys)[..|xs| + n] == xs + ys[..n];
      assert Concat(xs) + Concat(ys[..n]) + ys[n] == Concat(xs) + (Concat(ys[..n]) + ys[n]);
    }
  }

  // --- What is to be exported ---

  predicate Event(r: Read) {
    r.Data? || r.Skip?
  }

  /** The reads go on to an end of the data or an error. */
  ghost predicate Ends(script: seq<Read>) {
    exists i :: 0 <= i < |script| && !Event(script[i])
  }

  /** The reads before the end. */
  function Before(script: seq<Read>): (input: seq<Read>)
    ensures input <= script && (forall i :: 0 <= i < |input| ==> Event(input[i]))
    ensures input != script ==> !Event(script[|input|])
  {
    if script == [] || !Event(script[0]) then [] else [script[0]] + Before(script[1..])
  }

  lemma BeforeEnd(script: seq<Read>)
    requires Ends(script)
    ensures |Before(script)| < |script|
  {
  }

  /** The events read, in order. */
  function Events(input: seq<Read>): (texts: seq<string>)
    ensures |texts| <= |input|
  {
    if input == [] then []
    else
      var texts, last := Events(input[..|input| - 1]), input[|input| - 1];
      if last.Data? then texts + [last.text] else texts
  }

  // --- What is exported ---

  /** The queue's strings after a batch of reads: the events overwrite the first ones. */
  function Filled(strings: seq<string>, input: seq<Read>): (after: seq<string>)
    requires |input| <= |strings|
    ensures |after| == |strings|
  {
    Events(input) + strings[|Events(input)|..]
  }

  /** The records of a batch: one for each read. */
  function Batch(strings: seq<string>, input: seq<Read>): (records: seq<string>)
    requires |input| <= |strings|
    ensures |records| == |input|
  {
    Filled(strings, input)[..|input|]
  }

  /** The records exported for a run of reads, a queue's length at a time. */
  function Exported(strings: seq<string>, input: seq<Read>): seq<string>
    requires |strings| > 0
    decreases |input|
  {
    var m := |strings|;
    if |input| < m then Batch(strings, input)
    else Batch(strings, input[..m]) + Exported(Filled(strings, input[..m]), input[m..])
  }

  /** How many of `n` reads are left after the whole batches. */
  function Leftover(n: nat, m: nat): (left: nat)
    requires m > 0
    ensures left < m && left <= n
  {
    if n < m then n else Leftover(n - m, m)
  }

  ghost predicate NoSkips(input: seq<Read>) {
    forall i :: 0 <= i < |input| ==> input[i].Data?
  }

  lemma {:induction false} EventsAppend(xs: seq<Read>, ys: seq<Read>)
    ensures Events(xs + ys) == Events(xs) + Events(ys)
    decreases |ys|
  {
    if ys == [] {
      assert xs + ys == xs;
    } else {
      var n := |ys| - 1;
      EventsAppend(xs, ys[..n]);
      assert (xs + ys)[..|xs| + n] == xs + ys[..n];
    }
  }

  /** Every read of data is an event, and nothing else is. */
  lemma {:induction false} EventsCount(input: seq<Read>)
    requires forall i :: 0 <= i < |input| ==> Event(input[i])
    ensures |Events(input)| == |input| <==> NoSkips(input)
    decreases |input|
  {
    if input != [] {
      var n := |input| - 1;
      EventsCount(input[..n]);
      assert NoSkips(input) <==> NoSkips(input[..n]) && input[n].Data?;
    }
  }

  /** One record for each read, for every length of queue. */
  lemma {:induction false} ExportedCount(strings: seq<string>, input: seq<Read>)
    requires |strings| > 0
    ensures |Exported(strings, input)| == |input|
    decreases |input|
  {
    hide Batch, Filled;
    var m := |strings|;
    if |input| >= m {
      ExportedCount(Filled(strings, input[..m]), input[m..]);
    }
  }

  /** Without skips the queue is transparent: whatever its length and old contents, the events come out. */
  lemma {:induction false} ExportedPlain(strings: seq<string>, input: seq<Read>)
    requires |strings| > 0 && NoSkips(input)
    ensures Exported(strings, input) == Events(input)
    decreases |input|
  {
    var m := |strings|;
    if |input| < m {
      EventsCount(input);
    } else {
      EventsCount(input[..m]);
      ExportedPlain(Filled(strings, input[..m]), input[m..]);
      EventsAppend(input[..m], input[m..]);
      assert input == input[..m] + input[m..];
    }
  }

  /**
   * For every queue length, old contents and run of reads: the records exported are the events read, in order,
   * none lost or repeated, if and only if no read came back empty.
   */
  lemma ExportIsFaithful(strings: seq<string>, input: seq<Read>)
    requires |strings| > 0 && forall i :: 0 <= i < |input| ==> Event(input[i])
    ensures Exported(strings, input) == Events(input) <==> NoSkips(input)
  {
    hide Exported, Events;
    ExportedCount(strings, input);
    EventsCount(input);
    if NoSkips(input) {
      ExportedPlain(strings, input);
    }
  }

  lemma FilledWhole(strings: seq<string>, xs: seq<Read>)
    requires |xs| == |strings| == |Events(xs)|
    ensures Filled(strings, xs) == Events(xs)
  {
    hide Events;
  }

  lemma FilledShort(strings: seq<string>, ys: seq<Read>)
    requires |ys| + 1 == |strings| && |Events(ys)| == |ys|
    ensures Filled(strings, ys + [Skip]) == Events(ys) + [strings[|strings| - 1]]
  {
    assert (ys + [Skip])[..|ys|] == ys;
  }

  lemma ExportedNothing(strings: seq<string>)
    requires |strings| > 0
    ensures Exported(strings, []) == []
  {
  }

  lemma ExportedWhole(strings: seq<string>, xs: seq<Read>, rest: seq<Read>)
    requires |xs| == |strings| > 0
    ensures Exported(strings, xs + rest) == Filled(strings, xs) + Exported(Filled(strings, xs), rest)
  {
    assert (xs + rest)[..|xs|] == xs && (xs + rest)[|xs|..] == rest;
    assert Filled(strings, xs)[..|xs|] == Filled(strings, xs);
  }

  /** What an empty read does: it sends again what the queue held in its place one batch before. */
  lemma EmptyReadRepeats(strings: seq<string>, xs: seq<Read>, ys: seq<Read>)
    requires |xs| == |strings| == |ys| + 1 && NoSkips(xs) && NoSkips(ys)
    ensures |Events(xs)| == |xs|
    ensures Exported(strings, xs + (ys + [Skip])) == Events(xs) + Events(ys) + [Events(xs)[|xs| - 1]]
  {
    hide Events, Filled, Exported;
    var m, batch := |strings|, ys + [Skip];
    EventsCount(xs);
    EventsCount(ys);
    FilledWhole(strings, xs);
    FilledShort(Events(xs), ys);
    assert (xs + batch)[..m] == xs && (xs + batch)[m..] == batch && batch[..m] == batch && batch[m..] == [];
    ExportedWhole(strings, xs, batch);
    ExportedWhole(Events(xs), batch, []);
    ExportedNothing(Events(ys) + [Events(xs)[m - 1]]);
    assert batch + [] == batch;
  }

  /** A batch grows by an event or by whatever string it did not overwrite. */
  lemma FilledMore(strings: seq<string>, input: seq<Read>, r: Read)
    requires |input| < |strings| && Event(r)
    ensures Filled(strings, input + [r]) ==
            if r.Data? then Filled(strings, input)[|Events(input)| := r.text] else Filled(strings, input)
    ensures |Events(input + [r])| == |Events(input)| + if r.Data? then 1 else 0
  {
    assert (input + [r])[..|input|] == input;
  }

  // --- The code ---

  function Blank(length: nat): (strings: seq<string>)
    ensures |strings| == length
  {
    seq(length, _ => "")
  }

  /** The queue: a fixed set of strings and a cursor over them. */
  class Gaggle {
    const strings: array<string>

    var cursor: nat

    constructor (length: nat)
      ensures fresh(strings) && strings[..] == Blank(length) && cursor == 0
    {
      strings := new string[length](_ => "");
      cursor := 0;
    }

    method RewindCursor()
      modifies `cursor
      ensures cursor == 0
    {
      cursor := 0;
    }
  }

  lemma ConcatEmpty()
    ensures Concat([]) == ""
  {
  }

  lemma ConcatOne(texts: seq<string>, text: string)
    ensures Concat(texts + [text]) == Concat(texts) + text
  {
    assert (texts + [text])[..|texts|] == texts;
  }

  /**
   * Where an export is: `gone` has gone out in whole batches, `chunk` is what of the current batch has been read,
   * and `strings` is the queue as the batch found it.
   */
  ghost predicate Batching(first: seq<string>, all: seq<Read>, strings: seq<string>, chunk: seq<Read>, gone: seq<string>) {
    |first| == |strings| && |chunk| < |first| && |gone| + |chunk| <= |all|
    && Leftover(|all|, |first|) == Leftover(|all| - |gone|, |first|)
    && chunk == all[|gone|..|gone| + |chunk|]
    && Exported(first, all) == gone + Exported(strings, all[|gone|..])
  }

  lemma StartBatching(first: seq<string>, all: seq<Read>)
    requires |first| > 0
    ensures Batching(first, all, first, [], [])
    ensures Filled(first, []) == first && Events([]) == []
  {
    assert all[0..] == all && [] + Exported(first, all) == Exported(first, all);
  }

  lemma BatchingBounds(first: seq<string>, all: seq<Read>, strings: seq<string>, chunk: seq<Read>, gone: seq<string>)
    requires Batching(first, all, strings, chunk, gone)
    ensures |gone| + |chunk| <= |all| && |chunk| < |strings| == |first| && |Events(chunk)| <= |chunk|
  {
  }

  /** The batch has room for the next read. */
  lemma BatchingMore(first: seq<string>, all: seq<Read>, strings: seq<string>, chunk: seq<Read>, gone: seq<string>,
                     r: Read)
    requires Batching(first, all, strings, chunk, gone) && |gone| + |chunk| < |all| && r == all[|gone| + |chunk|]
    ensures |chunk| + 1 < |first| ==> Batching(first, all, strings, chunk + [r], gone)
  {
    hide Exported, Leftover;
  }

  lemma WholeBatch(first: seq<string>, all: seq<Read>, strings: seq<string>, chunk: seq<Read>, gone: seq<string>, r: Read)
    requires Batching(first, all, strings, chunk, gone) && |gone| + |chunk| < |all| && r == all[|gone| + |chunk|]
    requires |chunk| + 1 == |first|
    ensures var batch := chunk + [r];
            Batching(first, all, Filled(strings, batch), [], gone + Filled(strings, batch))
            && Filled(Filled(strings, batch), []) == Filled(strings, batch) && Events([]) == []
  {
    hide Filled;
    var batch, rest := chunk + [r], all[|gone|..];
    var after := Filled(strings, batch);
    assert rest[..|first|] == batch && rest[|first|..] == all[|gone + after|..];
    assert after[..|first|] == after;
    assert gone + (after + Exported(after, rest[|first|..])) == gone + after + Exported(after, rest[|first|..]);
    StartBatching(after, []);
  }

  lemma LastBatch(first: seq<string>, all: seq<Read>, strings: seq<string>, chunk: seq<Read>, gone: seq<string>)
    requires Batching(first, all, strings, chunk, gone) && |gone| + |chunk| == |all|
    ensures |chunk| == Leftover(|all|, |first|)
    ensures gone + Filled(strings, chunk)[..|chunk|] == Exported(first, all)
  {
    hide Filled;
    assert all[|gone|..] == chunk;
  }

  lemma NextRead(script: seq<Read>, all: seq<Read>, at: nat, r: Read)
    requires all == Before(script) && at <= |all| < |script| && r == script[at] && Event(r)
    ensures at < |all| && r == all[at]
  {
  }

  lemma EndOfReads(script: seq<Read>, all: seq<Read>, at: nat, r: Read)
    requires all == Before(script) && at <= |all| < |script| && r == script[at] && !Event(r)
    ensures at == |all|
  {
    assert forall i :: 0 <= i < |all| ==> Event(script[i]);
  }

  class Exporter {
    /** Where the events go: the broker in messages, or the file in records. */
    const broker: bool

    var sent: seq<string>
    var written: seq<string>
    var queued: nat

    /** The reads to come. */
    var script: seq<Read>

    constructor (toBroker: bool, input: seq<Read>)
      ensures broker == toBroker && sent == [] && written == [] && queued == 0 && script == input
    {
      broker, sent, written, queued, script := toBroker, [], [], 0, input;
    }

    /** These records have gone out: one by one to the file, run together in messages to the broker. */
    ghost predicate Out(records: seq<string>)
      reads `sent, `written
    {
      if broker then written == [] && Concat(sent) == Concat(records) else sent == [] && written == records
    }

    method GetEvent(output: Gaggle) returns (ok: bool, nodata: bool)
      requires script != [] && (script[0].Data? ==> output.cursor < output.strings.Length)
      modifies `script, output`cursor, output.strings
      ensures script == old(script)[1..]
      ensures ok <==> !old(script)[0].Error?
      ensures nodata <==> old(script)[0].NoData?
      ensures old(script)[0].Data? ==>
                output.strings[..] == old(output.strings[..])[old(output.cursor) := old(script)[0].text]
                && output.cursor == old(output.cursor) + 1
      ensures !old(script)[0].Data? ==>
                output.strings[..] == old(output.strings[..]) && output.cursor == old(output.cursor)
    {
      var r := script[0];
      script := script[1..];
      match r
      case Skip => return true, false;
      case NoData => return true, true;
      case Error => return false, false;
      case Data(text) =>
        output.strings[output.cursor] := text;
        output.cursor := output.cursor + 1;
        return true, false;
    }

    method SendMessage(output: Gaggle, ghost before: seq<string>)
      requires queued <= output.strings.Length && Out(before) && broker && output.cursor == 0
      modifies `sent, output`cursor
      ensures Out(before + output.strings[..queued])
    {
      hide Concat;
      var text := "";
      ConcatEmpty();
      for lp := 0 to queued
        invariant text == Concat(output.strings[..lp]) && output.cursor == lp && sent == old(sent)
      {
        assert output.strings[..lp + 1] == output.strings[..lp] + [output.strings[lp]];
        ConcatOne(output.strings[..lp], output.strings[lp]);
        text := text + output.strings[output.cursor];
        output.cursor := output.cursor + 1;
      }
      ConcatOne(sent, text);
      ConcatAppend(before, output.strings[..queued]);
      sent := sent + [text];
    }

    method OutputEvents(output: Gaggle, ghost before: seq<string>)
      requires queued <= output.strings.Length && Out(before)
      modifies `sent, `written, output`cursor
      ensures Out(before + output.strings[..queued]) && output.cursor == 0
    {
      output.RewindCursor();
      if broker {
        SendMessage(output, before);
      } else {
        for lp := 0 to queued
          invariant sent == [] && written == before + output.strings[..lp] && output.cursor == lp
        {
          written := written + [output.strings[output.cursor]];
          output.cursor := output.cursor + 1;
        }
      }
      output.RewindCursor();
    }

    /** A full queue goes out, and is empty again. */
    method OutputBatch(output: Gaggle, ghost before: seq<string>, ghost gone: seq<string>, ghost batch: seq<string>)
      requires queued == output.strings.Length && output.strings[..] == batch && Out(before + gone)
      modifies `sent, `written, `queued, output`cursor
      ensures Out(before + (gone + batch)) && queued == 0 && output.cursor == 0
    {
      assert output.strings[..queued] == batch && before + gone + batch == before + (gone + batch);
      OutputEvents(output, before + gone);
      queued := 0;
    }

    /**
     * All events up to the end of the data: whole batches go out, the rest stays queued. On an error the queued
     * events stay behind too.
     */
    method ExportEvents(output: Gaggle, ghost before: seq<string>) returns (ok: bool, ghost gone: seq<string>)
      requires queued == 0 && output.strings.Length > 0 && Ends(script) && Out(before)
      modifies this, output, output.strings
      ensures var all := Before(old(script));
              queued == Leftover(|all|, output.strings.Length) == |all| - |gone|
              && gone + output.strings[..queued] == Exported(old(output.strings[..]), all)
      ensures Out(before + gone)
      ensures ok <==> old(script)[|Before(old(script))|].NoData?
    {
      hide Exported, Filled, Events, Concat, Before, Ends, Leftover, Batching, Out;
      ghost var all, first := Before(script), output.strings[..];
      BeforeEnd(script);
      ghost var strings, chunk := first, [];
      gone := [];
      StartBatching(first, all);
      assert before + gone == before;
      output.RewindCursor();
      while true
        invariant queued == |chunk| < output.strings.Length == |strings| && |gone| + |chunk| <= |all|
        invariant Batching(first, all, strings, chunk, gone)
        invariant script == old(script)[|gone| + |chunk|..]
        invariant output.strings[..] == Filled(strings, chunk) && output.cursor == |Events(chunk)|
        invariant Out(before + gone)
        decreases |script|
      {
        var nodata;
        ghost var r := script[0];
        BatchingBounds(first, all, strings, chunk, gone);
        ok, nodata := GetEvent(output);
        if !ok || nodata {
          EndOfReads(old(script), all, |gone| + |chunk|, r);
          LastBatch(first, all, strings, chunk, gone);
          return;
        }
        NextRead(old(script), all, |gone| + |chunk|, r);
        FilledMore(strings, chunk, r);
        BatchingMore(first, all, strings, chunk, gone, r);
        ghost var fewer := chunk;
        chunk := chunk + [r];
        queued := queued + 1;
        if queued == output.strings.Length {
          ghost var batch := Filled(strings, chunk);
          WholeBatch(first, all, strings, fewer, gone, r);
          OutputBatch(output, before, gone, batch);
          strings, gone, chunk := batch, gone + batch, [];
        }
      }
    }

    /** `export_root` without following: everything read is out, and on an error only whole batches are. */
    method ExportRoot(queueLength: nat) returns (ok: bool)
      requires queueLength > 0 && queued == 0 && sent == [] && written == [] && Ends(script)
      modifies this
      ensures ok <==> old(script)[|Before(old(script))|].NoData?
      ensures var records := Exported(Blank(queueLength), Before(old(script)));
              var n := |Before(old(script))|;
              |records| == n && Out(if ok then records else records[..n - Leftover(n, queueLength)])
    {
      hide Exported, Before, Ends, Concat;
      var output := new Gaggle(queueLength);
      ghost var input := Before(script);
      ExportedCount(Blank(queueLength), input);
      ghost var gone;
      ok, gone := ExportEvents(output, []);
      assert [] + gone == gone;
      if !ok {
        return false;
      }
      OutputEvents(output, gone);
      return true;
    }
  }

  /**
   * One-shot export of a run of reads without an empty one, for every queue length and number of events: the
   * file gets the events as records, and the broker gets their text, in order.
   */
  method ExportAll(toBroker: bool, script: seq<Read>, queueLength: nat) returns (ok: bool, text: string)
    requires queueLength > 0 && Ends(script) && NoSkips(Before(script))
    ensures ok <==> script[|Before(script)|].NoData?
    ensures ok ==> text == Concat(Events(Before(script)))
  {
    hide Concat, Exported, Events, Before, Ends;
    var e := new Exporter(toBroker, script);
    ok := e.ExportRoot(queueLength);
    text := Concat(if toBroker then e.sent else e.written);
    ExportedPlain(Blank(queueLength), Before(script));
    BeforeEnd(script);
    ExportedCount(Blank(queueLength), Before(script));
  }
}
