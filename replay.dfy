/**
 * The data file as the generator sees it: a fixed sequence of `getline` reads
 * over a cursor that goes back to the first read whenever end-of-file is
 * observed, so the file is replayed as an endless cyclic stream of lines.
 *
 * The file's bytes split at every newline byte give exactly the reads
 * `std::getline` makes on one pass: each read but the last stops at a newline
 * (which it drops) with end-of-file not yet seen; the last read runs into the
 * end of the file and sets end-of-file. A file that ends with a newline
 * therefore has an empty last read, and an empty file has one empty read.
 */
module Replay {
  import opened Wire

  /** A line as `std::string` holds it: bytes, without its terminator. */
  type Line = seq<byte>

  const NEWLINE: byte := 10

  // ---------------------------------------------------------------------------
  // The reads of one pass over the file

  /** The lines `getline` returns, in order, on one pass over `content`. */
  function Lines(content: seq<byte>): (ls: seq<Line>)
    ensures |ls| >= 1
    ensures forall i :: 0 <= i < |ls| ==> NEWLINE !in ls[i]
    decreases |content|
  {
    if content == [] then [[]]
    else
      var rest := Lines(content[1..]);
      if content[0] == NEWLINE then [[]] + rest
      else [[content[0]] + rest[0]] + rest[1..]
  }

  /** The file holding the lines `ls`, one newline between neighbours. */
  function Join(ls: seq<Line>): seq<byte>
    requires |ls| >= 1
  {
    if |ls| == 1 then ls[0] else ls[0] + [NEWLINE] + Join(ls[1..])
  }

  /** Reading a file line by line loses and adds no byte but the terminators. */
  lemma {:induction false} JoinLines(content: seq<byte>)
    ensures Join(Lines(content)) == content
    decreases |content|
  {
    if content != [] {
      var rest := Lines(content[1..]);
      JoinLines(content[1..]);
      if content[0] == NEWLINE {
        assert ([[]] + rest)[1..] == rest;
      } else if |rest| > 1 {
        assert ([[content[0]] + rest[0]] + rest[1..])[1..] == rest[1..];
        assert content == [content[0]] + content[1..];
      } else {
        assert content == [content[0]] + content[1..];
      }
    }
  }

  lemma {:induction false} LinesOfLine(a: Line)
    requires NEWLINE !in a
    ensures Lines(a) == [a]
    decreases |a|
  {
    if a != [] {
      LinesOfLine(a[1..]);
      assert a == [a[0]] + a[1..];
    }
  }

  lemma {:induction false} LinesAfterLine(a: Line, b: seq<byte>)
    requires NEWLINE !in a
    ensures Lines(a + [NEWLINE] + b) == [a] + Lines(b)
    decreases |a|
  {
    var c := a + [NEWLINE] + b;
    if a == [] {
      assert c[1..] == b;
    } else {
      assert c[1..] == a[1..] + [NEWLINE] + b;
      LinesAfterLine(a[1..], b);
      assert a == [a[0]] + a[1..];
    }
  }

  /** Lines free of newlines are read back exactly from the file they make. */
  lemma {:induction false} LinesJoin(ls: seq<Line>)
    requires |ls| >= 1
    requires forall i :: 0 <= i < |ls| ==> NEWLINE !in ls[i]
    ensures Lines(Join(ls)) == ls
  {
    if |ls| == 1 {
      LinesOfLine(ls[0]);
    } else {
      LinesJoin(ls[1..]);
      LinesAfterLine(ls[0], Join(ls[1..]));
      assert ls == [ls[0]] + ls[1..];
    }
  }

  // ---------------------------------------------------------------------------
  // The cursor

  /** The outcome of one `getline`: the line and whether end-of-file was seen. */
  datatype Read = Read(line: Line, eof: bool)

  function GetLine(ls: seq<Line>, k: nat): (r: Read)
    requires k < |ls|
    ensures r.line == ls[k]
    ensures r.eof <==> k + 1 == |ls|
  {
    Read(ls[k], k == |ls| - 1)
  }

  /**
   * The cursor after one iteration: the next read, or the first one again
   * when this read saw end-of-file and the file was closed and reopened.
   */
  function Advance(ls: seq<Line>, k: nat): (next: nat)
    requires k < |ls|
    ensures next < |ls|
    ensures GetLine(ls, k).eof <==> next == 0
  {
    if GetLine(ls, k).eof then 0 else k + 1
  }

  lemma AdvanceIsModular(ls: seq<Line>, k: nat)
    requires k < |ls|
    ensures Advance(ls, k) == (k + 1) % |ls|
  {
    if k + 1 == |ls| {
      DivModUnique(1, 0, (k + 1) / |ls|, (k + 1) % |ls|, |ls|);
    } else {
      DivModUnique(0, k + 1, (k + 1) / |ls|, (k + 1) % |ls|, |ls|);
    }
  }

  /** The cursor after `n` iterations started at `k`. */
  function CursorAfter(ls: seq<Line>, k: nat, n: nat): (c: nat)
    requires k < |ls|
    ensures c < |ls|
  {
    if n == 0 then k else Advance(ls, CursorAfter(ls, k, n - 1))
  }

  lemma {:induction false} CursorAfterIsModular(ls: seq<Line>, k: nat, n: nat)
    requires k < |ls|
    ensures CursorAfter(ls, k, n) == (k + n) % |ls|
  {
    if n > 0 {
      CursorAfterIsModular(ls, k, n - 1);
      AdvanceIsModular(ls, CursorAfter(ls, k, n - 1));
      ModSucc(k + n - 1, |ls|);
    }
  }

  lemma ModSucc(x: nat, m: nat)
    requires m > 0
    ensures (x % m + 1) % m == (x + 1) % m
  {
    if x % m + 1 == m {
      DivModUnique(x / m + 1, 0, (x + 1) / m, (x + 1) % m, m);
    } else {
      DivModUnique(x / m, x % m + 1, (x + 1) / m, (x + 1) % m, m);
      DivModUnique(0, x % m + 1, (x % m + 1) / m, (x % m + 1) % m, m);
    }
  }

  /** Quotient and remainder are unique. */
  lemma DivModUnique(a: int, b: int, c: int, d: int, m: int)
    requires m > 0 && 0 <= b < m && 0 <= d < m
    requires a * m + b == c * m + d
    ensures a == c && b == d
  {
    if a > c {
      assert (a - c) * m == d - b;
      MulAtLeast(a - c, m);
    } else if a < c {
      assert (c - a) * m == b - d;
      MulAtLeast(c - a, m);
    }
  }

  lemma MulAtLeast(k: int, m: int)
    requires k >= 1 && m > 0
    ensures k * m >= m
    decreases k
  {
    if k > 1 {
      MulAtLeast(k - 1, m);
      assert k * m == (k - 1) * m + m;
    }
  }

  /** The lines returned by `n` iterations started at `k`, in order. */
  function ReadLines(ls: seq<Line>, k: nat, n: nat): (r: seq<Line>)
    requires k < |ls|
    ensures |r| == n
  {
    if n == 0 then [] else ReadLines(ls, k, n - 1) + [ls[CursorAfter(ls, k, n - 1)]]
  }

  /**
   * Iteration `j` reads line `(k + j) mod |ls|`: the wrap from the last read
   * to the first neither skips nor repeats a line.
   */
  lemma {:induction false} ReadLinesCyclic(ls: seq<Line>, k: nat, n: nat, j: nat)
    requires k < |ls| && j < n
    ensures ReadLines(ls, k, n)[j] == ls[(k + j) % |ls|]
  {
    if j == n - 1 {
      CursorAfterIsModular(ls, k, n - 1);
    } else {
      ReadLinesCyclic(ls, k, n - 1, j);
    }
  }

  function Repeat<T>(s: seq<T>, m: nat): (r: seq<T>)
  {
    if m == 0 then [] else Repeat(s, m - 1) + s
  }

  lemma {:induction false} RepeatAt<T>(s: seq<T>, m: nat, j: nat)
    requires |s| > 0 && j < m * |s|
    ensures |Repeat(s, m)| == m * |s|
    ensures Repeat(s, m)[j] == s[j % |s|]
  {
    RepeatLength(s, m);
    RepeatLength(s, m - 1);
    var base := (m - 1) * |s|;
    if j < base {
      RepeatAt(s, m - 1, j);
    } else {
      assert j - base < |s|;
      assert j == (m - 1) * |s| + (j - base);
      assert j % |s| == j - base by {
        ModOfMultiplePlus(m - 1, |s|, j - base);
      }
    }
  }

  lemma ModOfMultiplePlus(q: nat, m: nat, r: nat)
    requires r < m
    ensures (q * m + r) % m == r
  {
    DivModUnique(q, r, (q * m + r) / m, (q * m + r) % m, m);
  }

  lemma {:induction false} RepeatLength<T>(s: seq<T>, m: nat)
    ensures |Repeat(s, m)| == m * |s|
  {
    if m > 0 {
      RepeatLength(s, m - 1);
    }
  }

  /** Starting on the first line, `m` passes read the file `m` times over. */
  lemma FullCycles(ls: seq<Line>, m: nat)
    requires |ls| >= 1
    ensures ReadLines(ls, 0, m * |ls|) == Repeat(ls, m)
  {
    RepeatLength(ls, m);
    forall j | 0 <= j < m * |ls|
      ensures ReadLines(ls, 0, m * |ls|)[j] == Repeat(ls, m)[j]
    {
      ReadLinesCyclic(ls, 0, m * |ls|, j);
      RepeatAt(ls, m, j);
    }
  }

  // ---------------------------------------------------------------------------
  // What is sent

  /** The non-empty lines of `ls`, in order: the ones that become messages. */
  function NonEmpty(ls: seq<Line>): (r: seq<Line>)
    ensures |r| <= |ls|
    ensures forall i :: 0 <= i < |r| ==> r[i] != []
  {
    if ls == [] then []
    else NonEmpty(ls[..|ls| - 1]) + (if ls[|ls| - 1] != [] then [ls[|ls| - 1]] else [])
  }

  lemma {:induction false} NonEmptyAppend(a: seq<Line>, b: seq<Line>)
    ensures NonEmpty(a + b) == NonEmpty(a) + NonEmpty(b)
    decreases |b|
  {
    if b == [] {
      assert a + b == a;
    } else {
      var b' := b[..|b| - 1];
      assert (a + b)[..|a + b| - 1] == a + b';
      NonEmptyAppend(a, b');
    }
  }

  lemma {:induction false} NonEmptyRepeat(ls: seq<Line>, m: nat)
    ensures NonEmpty(Repeat(ls, m)) == Repeat(NonEmpty(ls), m)
  {
    if m > 0 {
      NonEmptyRepeat(ls, m - 1);
      NonEmptyAppend(Repeat(ls, m - 1), ls);
    }
  }

  /** The message one iteration sends for `line` at clock reading `now`. */
  function Emit(line: Line, now: TimeVal): (ms: seq<Msg>)
    ensures |ms| == if line != [] then 1 else 0
    ensures forall m | m in ms :: m == Msg(now.sec, now.usec, line)
  {
    if line != [] then [Msg(now.sec, now.usec, line)] else []
  }

  /**
   * The messages sent by `|clocks|` iterations started at cursor `k`, where
   * `clocks[i]` is what `gettimeofday` returns if iteration `i` sends.
   */
  function Sent(ls: seq<Line>, k: nat, clocks: seq<TimeVal>): (ms: seq<Msg>)
    requires k < |ls|
    ensures |ms| <= |clocks|
  {
    if clocks == [] then []
    else
      var n := |clocks| - 1;
      Sent(ls, k, clocks[..n]) + Emit(ls[CursorAfter(ls, k, n)], clocks[n])
  }

  /**
   * Every message carries a non-empty line and a clock reading the generator
   * took, so valid clock readings give valid microseconds.
   */
  lemma {:induction false} SentTimesValid(ls: seq<Line>, k: nat, clocks: seq<TimeVal>, j: nat)
    requires k < |ls|
    requires j < |Sent(ls, k, clocks)|
    ensures Sent(ls, k, clocks)[j].payload != []
    ensures (forall i :: 0 <= i < |clocks| ==> ValidTime(clocks[i])) ==>
              0 <= Sent(ls, k, clocks)[j].usec < 1_000_000
  {
    var n := |clocks| - 1;
    var prefix := Sent(ls, k, clocks[..n]);
    if j < |prefix| {
      SentTimesValid(ls, k, clocks[..n], j);
      if forall i :: 0 <= i < |clocks| ==> ValidTime(clocks[i]) {
        assert forall i :: 0 <= i < n ==> clocks[..n][i] == clocks[i];
      }
    }
  }

  /** The messages of the first `i + 1` iterations: those of the first `i`, then iteration `i`'s. */
  lemma SentSnoc(ls: seq<Line>, k: nat, clocks: seq<TimeVal>, i: nat)
    requires k < |ls| && i < |clocks|
    ensures Sent(ls, k, clocks[..i + 1])
         == Sent(ls, k, clocks[..i]) + Emit(ls[CursorAfter(ls, k, i)], clocks[i])
  {
    assert clocks[..i + 1][..i] == clocks[..i];
  }

  function Payloads(ms: seq<Msg>): (ps: seq<Line>)
    ensures |ps| == |ms|
  {
    if ms == [] then [] else Payloads(ms[..|ms| - 1]) + [ms[|ms| - 1].payload]
  }

  lemma {:induction false} PayloadsAppend(a: seq<Msg>, b: seq<Msg>)
    ensures Payloads(a + b) == Payloads(a) + Payloads(b)
    decreases |b|
  {
    if b == [] {
      assert a + b == a;
    } else {
      var b' := b[..|b| - 1];
      assert (a + b)[..|a + b| - 1] == a + b';
      PayloadsAppend(a, b');
    }
  }

  /** The payloads sent are the non-empty lines read, untrimmed and in order. */
  lemma {:induction false} SentPayloads(ls: seq<Line>, k: nat, clocks: seq<TimeVal>)
    requires k < |ls|
    ensures Payloads(Sent(ls, k, clocks)) == NonEmpty(ReadLines(ls, k, |clocks|))
  {
    if clocks != [] {
      var n := |clocks| - 1;
      var line := ls[CursorAfter(ls, k, n)];
      SentPayloads(ls, k, clocks[..n]);
      PayloadsAppend(Sent(ls, k, clocks[..n]), Emit(line, clocks[n]));
      NonEmptyAppend(ReadLines(ls, k, n), [line]);
      assert NonEmpty([line]) == Payloads(Emit(line, clocks[n])) by {
        assert [line][..0] == [];
      }
    }
  }

  /**
   * Replaying a file from its first line for `m` full passes sends its
   * non-empty lines `m` times over, in file order.
   */
  lemma ReplayCycles(content: seq<byte>, m: nat, clocks: seq<TimeVal>)
    requires |clocks| == m * |Lines(content)|
    ensures Payloads(Sent(Lines(content), 0, clocks)) == Repeat(NonEmpty(Lines(content)), m)
  {
    var ls := Lines(content);
    SentPayloads(ls, 0, clocks);
    FullCycles(ls, m);
    NonEmptyRepeat(ls, m);
  }
}
