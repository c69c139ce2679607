/**
 * The generator thread: it owns the data file and the outbound socket, and
 * while it runs it reads one line per iteration, sends each non-empty line
 * stamped with the current time, and rewinds the file whenever it sees
 * end-of-file.
 */
module Generator {
  import opened Wire
  import opened Results
  import Replay

  /** The text of the error raised when the data file cannot be opened. */
  function OpenErrorMessage(filename: string): (msg: string)
    ensures |msg| == |filename| + 27
    ensures msg[..26] == "unable to open data file \""
    ensures msg[26..26 + |filename|] == filename
    ensures msg[|msg| - 1] == '"'
  {
    "unable to open data file \"" + filename + "\""
  }

  /** The wire messages for `ms`, in order. */
  function EncodeAll(ms: seq<Msg>): (out: seq<seq<Frame>>)
    ensures |out| == |ms|
    ensures forall i :: 0 <= i < |out| ==> |out[i]| == 3
  {
    seq(|ms|, i requires 0 <= i < |ms| => Encode(ms[i]))
  }

  lemma EncodeAllAppend(a: seq<Msg>, b: seq<Msg>)
    ensures EncodeAll(a + b) == EncodeAll(a) + EncodeAll(b)
  {
  }

  /** Every message on the outbound stream decodes to the triple it was built from. */
  lemma DecodeEncodeAll(ms: seq<Msg>)
    ensures forall i :: 0 <= i < |ms| ==> Decode(EncodeAll(ms)[i]) == Ok(ms[i])
  {
    forall i | 0 <= i < |ms|
      ensures Decode(EncodeAll(ms)[i]) == Ok(ms[i])
    {
      DecodeEncode(ms[i]);
    }
  }

  lemma EncodeEmit(line: Replay.Line, now: TimeVal)
    ensures EncodeAll(Replay.Emit(line, now))
         == if line != [] then [Encode(Msg(now.sec, now.usec, line))] else []
  {
    if line != [] {
      assert [Msg(now.sec, now.usec, line)][..0] == [];
    }
  }

  /** One more iteration extends the outbound stream by the message that iteration sends. */
  lemma SentStep(ls: seq<Replay.Line>, k: nat, clocks: seq<TimeVal>, i: nat,
                 base: seq<seq<Frame>>, before: seq<seq<Frame>>, after: seq<seq<Frame>>)
    requires k < |ls| && i < |clocks|
    requires before == base + EncodeAll(Replay.Sent(ls, k, clocks[..i]))
    requires var line := ls[Replay.CursorAfter(ls, k, i)];
             after == before + if line != [] then [Encode(Msg(clocks[i].sec, clocks[i].usec, line))] else []
    ensures after == base + EncodeAll(Replay.Sent(ls, k, clocks[..i + 1]))
  {
    var line := ls[Replay.CursorAfter(ls, k, i)];
    Replay.SentSnoc(ls, k, clocks, i);
    EncodeEmit(line, clocks[i]);
    EncodeAllAppend(Replay.Sent(ls, k, clocks[..i]), Replay.Emit(line, clocks[i]));
  }

  class Generator {
    /** The path of the data file, kept to reopen it. */
    const filename: string
    /** The successive `getline` reads of one pass over the data file. */
    const lines: seq<Replay.Line>
    /** Index in `lines` of the read the next iteration makes. */
    var cursor: nat
    var running: bool
    /** The messages handed to the outbound socket, oldest first. */
    var outbox: seq<seq<Frame>>

    ghost predicate Valid()
      reads this
    {
      |lines| >= 1 && cursor < |lines|
    }

    /** The file `filename`, holding `content`, opened at its first line. */
    constructor (filename: string, content: seq<byte>)
      ensures Valid()
      ensures this.filename == filename && lines == Replay.Lines(content)
      ensures cursor == 0 && !running && outbox == []
    {
      this.filename := filename;
      lines := Replay.Lines(content);
      cursor := 0;
      running := false;
      outbox := [];
    }

    /**
     * Construction against a file system `files` (path to contents): fails,
     * naming the file, when the path cannot be opened.
     */
    static method Open(filename: string, files: map<string, seq<byte>>)
      returns (r: Result<Generator, string>)
      ensures r.Err? <==> filename !in files
      ensures r.Err? ==> r.error == OpenErrorMessage(filename)
      ensures r.Ok? ==> fresh(r.value) && r.value.Valid()
      ensures r.Ok? ==> r.value.filename == filename && r.value.lines == Replay.Lines(files[filename])
      ensures r.Ok? ==> r.value.cursor == 0 && !r.value.running && r.value.outbox == []
    {
      if filename !in files {
        return Err(OpenErrorMessage(filename));
      }
      var g := new Generator(filename, files[filename]);
      return Ok(g);
    }

    /** Asks the loop to stop after its current iteration. */
    method Terminate()
      modifies this`running
      ensures !running
    {
      running := false;
    }

    /**
     * One iteration of the loop, `now` being the clock reading taken if the
     * line is sent: the line is sent, as it was read, exactly when it is not
     * empty, and end-of-file brings the cursor back to the first line.
     */
    method Step(now: TimeVal)
      requires Valid()
      modifies this`cursor, this`outbox
      ensures Valid()
      ensures lines[old(cursor)] != [] ==>
                outbox == old(outbox) + [Encode(Msg(now.sec, now.usec, lines[old(cursor)]))]
      ensures lines[old(cursor)] == [] ==> outbox == old(outbox)
      ensures cursor == Replay.Advance(lines, old(cursor))
    {
      var read := Replay.GetLine(lines, cursor);
      if read.line != [] {
        var message := Encode(Msg(now.sec, now.usec, read.line));
        outbox := outbox + [message];
      }
      if read.eof {
        cursor := 0;
      } else {
        cursor := cursor + 1;
      }
    }

    /**
     * The loop, for the `|clocks|` iterations that run before a stop request
     * is seen; `clocks[i]` is the reading iteration `i` takes if it sends.
     */
    method Run(clocks: seq<TimeVal>)
      requires Valid()
      modifies this`cursor, this`outbox, this`running
      ensures Valid() && running
      ensures cursor == Replay.CursorAfter(lines, old(cursor), |clocks|)
      ensures outbox == old(outbox) + EncodeAll(Replay.Sent(lines, old(cursor), clocks))
    {
      running := true;
      ghost var start, base := cursor, outbox;
      var i := 0;
      while i < |clocks|
        invariant 0 <= i <= |clocks|
        invariant Valid() && running
        invariant cursor == Replay.CursorAfter(lines, start, i)
        invariant outbox == base + EncodeAll(Replay.Sent(lines, start, clocks[..i]))
      {
        ghost var outboxBefore := outbox;
        Step(clocks[i]);
        SentStep(lines, start, clocks, i, base, outboxBefore, outbox);
        i := i + 1;
      }
      assert clocks[..i] == clocks;
    }
  }
}
