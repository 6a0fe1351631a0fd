/**
 * Splitting a byte stream into lines, one byte at a time. A newline ends a line
 * only after some other character was seen since the scan position; leading
 * newlines stay in front of the line that follows them.
 */
module LineModel {
  import opened Sequences
  import opened Bytes

  const NEWLINE: byte := 10

  /** Lines finished, text of the line under way, and whether a newline would end it. */
  datatype Split = Split(lines: seq<seq<byte>>, pending: seq<byte>, armed: bool)

  function Feed(pending: seq<byte>, armed: bool, bytes: seq<byte>): Split
    decreases |bytes|
  {
    if bytes == [] then Split([], pending, armed)
    else if bytes[0] == NEWLINE && armed then
      var rest := Feed([], false, bytes[1..]);
      rest.(lines := [pending + [NEWLINE]] + rest.lines)
    else
      Feed(pending + [bytes[0]], bytes[0] != NEWLINE, bytes[1..])
  }

  function Concat(parts: seq<seq<byte>>): seq<byte> {
    if parts == [] then [] else parts[0] + Concat(parts[1..])
  }

  /** Reading in chunks: the scan position moves to the end after each, so nothing is armed then. */
  function Chunked(pending: seq<byte>, chunks: seq<seq<byte>>): (seq<seq<byte>>, seq<byte>)
    decreases |chunks|
  {
    if chunks == [] then ([], pending)
    else
      var first := Feed(pending, false, chunks[0]);
      var (lines, rest) := Chunked(first.pending, chunks[1..]);
      (first.lines + lines, rest)
  }

  // ---- bytes are conserved, lines have their shape ------------------------------------

  predicate IsLine(line: seq<byte>) {
    |line| >= 2 && line[|line| - 1] == NEWLINE && line[|line| - 2] != NEWLINE
  }

  /** Armed means: the text under way ends in a character other than a newline. */
  ghost predicate ArmedOk(pending: seq<byte>, armed: bool) {
    armed ==> |pending| > 0 && pending[|pending| - 1] != NEWLINE
  }

  lemma {:induction false} FeedConserves(pending: seq<byte>, armed: bool, bytes: seq<byte>)
    requires ArmedOk(pending, armed)
    ensures var r := Feed(pending, armed, bytes);
            Concat(r.lines) + r.pending == pending + bytes && ArmedOk(r.pending, r.armed)
            && forall l <- r.lines :: IsLine(l)
    ensures bytes != [] ==> Feed(pending, armed, bytes).armed == (bytes[|bytes| - 1] != NEWLINE)
    decreases |bytes|
  {
    if bytes == [] {
      assert pending + bytes == pending;
    } else if bytes[0] == NEWLINE && armed {
      FeedConserves([], false, bytes[1..]);
      var rest := Feed([], false, bytes[1..]);
      var r := Feed(pending, armed, bytes);
      assert r.lines[1..] == rest.lines;
      assert Concat(r.lines) + r.pending == (pending + [NEWLINE]) + (Concat(rest.lines) + rest.pending);
      assert pending + bytes == (pending + [NEWLINE]) + bytes[1..];
    } else {
      FeedConserves(pending + [bytes[0]], bytes[0] != NEWLINE, bytes[1..]);
      assert pending + bytes == (pending + [bytes[0]]) + bytes[1..];
    }
  }

  lemma {:induction false} ConcatAppend(a: seq<seq<byte>>, b: seq<seq<byte>>)
    ensures Concat(a + b) == Concat(a) + Concat(b)
  {
    if a == [] {
      assert a + b == b;
    } else {
      ConcatAppend(a[1..], b);
      assert (a + b)[1..] == a[1..] + b && (a + b)[0] == a[0];
      Regroup(a[0], Concat(a[1..]), Concat(b));
    }
  }

  /** However the input is cut up: the lines followed by what is left are the bytes fed in. */
  lemma {:induction false} ChunkedConserves(pending: seq<byte>, chunks: seq<seq<byte>>)
    ensures var (lines, rest) := Chunked(pending, chunks); Concat(lines) + rest == pending + Concat(chunks)
    decreases |chunks|
  {
    if chunks == [] {
      assert pending + Concat(chunks) == pending;
    } else {
      var first := Feed(pending, false, chunks[0]);
      var (lines, rest) := Chunked(first.pending, chunks[1..]);
      FeedConserves(pending, false, chunks[0]);
      ChunkedConserves(first.pending, chunks[1..]);
      ConcatAppend(first.lines, lines);
      Regroup(Concat(first.lines), Concat(lines), rest);
      Regroup(Concat(first.lines), first.pending, Concat(chunks[1..]));
      Regroup(pending, chunks[0], Concat(chunks[1..]));
    }
  }

  /** Every line ends in a newline that follows some other character. */
  lemma {:induction false} ChunkedLines(pending: seq<byte>, chunks: seq<seq<byte>>)
    ensures forall l <- Chunked(pending, chunks).0 :: IsLine(l)
    decreases |chunks|
  {
    if chunks != [] {
      FeedConserves(pending, false, chunks[0]);
      ChunkedLines(Feed(pending, false, chunks[0]).pending, chunks[1..]);
    }
  }

  // ---- when the cuts do not matter --------------------------------------------------------

  lemma {:induction false} FeedAppend(pending: seq<byte>, armed: bool, x: seq<byte>, y: seq<byte>)
    ensures
      var a := Feed(pending, armed, x);
      var b := Feed(a.pending, a.armed, y);
      Feed(pending, armed, x + y) == b.(lines := a.lines + b.lines)
    decreases |x|
  {
    if x == [] {
      assert x + y == y;
      var b := Feed(pending, armed, y);
      assert [] + b.lines == b.lines;
    } else {
      assert (x + y)[1..] == x[1..] + y && (x + y)[0] == x[0];
      if x[0] == NEWLINE && armed {
        FeedAppend([], false, x[1..], y);
        var a := Feed([], false, x[1..]);
        var b := Feed(a.pending, a.armed, y);
        assert [pending + [NEWLINE]] + (a.lines + b.lines) == ([pending + [NEWLINE]] + a.lines) + b.lines;
      } else {
        FeedAppend(pending + [x[0]], x[0] != NEWLINE, x[1..], y);
      }
    }
  }

  /** No cut separates the last character of a line from its newline. */
  predicate CleanCuts(armed: bool, chunks: seq<seq<byte>>)
    decreases |chunks|
  {
    if chunks == [] then true
    else if chunks[0] == [] then CleanCuts(armed, chunks[1..])
    else
      !(armed && chunks[0][0] == NEWLINE)
      && CleanCuts(chunks[0][|chunks[0]| - 1] != NEWLINE, chunks[1..])
  }

  /** After a cut before a newline, the chunked reader's next line runs on past that newline. */
  lemma {:induction false} FirstLineRunsOn(pending: seq<byte>, chunks: seq<seq<byte>>, n: nat)
    requires |pending| >= n
    ensures var lines := Chunked(pending, chunks).0; |lines| > 0 ==> |lines[0]| > n + 1
    decreases |chunks|
  {
    if chunks != [] {
      FeedRunsOn(pending, false, chunks[0], n);
      var first := Feed(pending, false, chunks[0]);
      if |first.lines| == 0 {
        FirstLineRunsOn(first.pending, chunks[1..], n);
        assert first.lines + Chunked(first.pending, chunks[1..]).0 == Chunked(first.pending, chunks[1..]).0;
      }
    }
  }

  lemma {:induction false} FeedRunsOn(pending: seq<byte>, armed: bool, bytes: seq<byte>, n: nat)
    requires |pending| >= n && (armed ==> |pending| > n)
    ensures var r := Feed(pending, armed, bytes);
            if |r.lines| > 0 then |r.lines[0]| > n + 1 else |r.pending| >= n
    decreases |bytes|
  {
    if bytes != [] && !(bytes[0] == NEWLINE && armed) {
      FeedRunsOn(pending + [bytes[0]], bytes[0] != NEWLINE, bytes[1..], n);
    }
  }

  /** A chunk that is not cut off from its line is split as if nothing had been cut. */
  lemma ArmedAgrees(pending: seq<byte>, armed: bool, chunk: seq<byte>)
    requires chunk != [] && !(armed && chunk[0] == NEWLINE)
    ensures Feed(pending, armed, chunk) == Feed(pending, false, chunk)
  {
  }

  lemma {:induction false} CutsMatterIff(pending: seq<byte>, armed: bool, chunks: seq<seq<byte>>)
    requires ArmedOk(pending, armed)
    ensures
      var whole := Feed(pending, armed, Concat(chunks));
      Chunked(pending, chunks) == (whole.lines, whole.pending) <==> CleanCuts(armed, chunks)
    decreases |chunks|
  {
    if chunks != [] {
      var chunk, rest := chunks[0], chunks[1..];
      FeedAppend(pending, armed, chunk, Concat(rest));
      var after := Feed(pending, false, chunk);
      var (lines, left) := Chunked(after.pending, rest);
      if chunk == [] {
        CutsMatterIff(pending, armed, rest);
        assert Concat(chunks) == Concat(rest);
        assert after.lines + lines == lines;
      } else if armed && chunk[0] == NEWLINE {
        FeedRunsOn(pending + [NEWLINE], false, chunk[1..], |pending| + 1);
        FirstLineRunsOn(pending, chunks, |pending|);
        assert Chunked(pending, chunks).0 == after.lines + lines;
        var whole := Feed(pending, armed, Concat(chunks));
        assert Concat(chunks)[0] == NEWLINE;
        assert whole.lines[0] == pending + [NEWLINE];
      } else {
        ArmedAgrees(pending, armed, chunk);
        FeedConserves(pending, armed, chunk);
        CutsMatterIff(after.pending, after.armed, rest);
        var whole := Feed(after.pending, after.armed, Concat(rest));
        assert after.lines + lines == after.lines + whole.lines <==> lines == whole.lines by {
          assert (after.lines + lines)[|after.lines|..] == lines;
          assert (after.lines + whole.lines)[|after.lines|..] == whole.lines;
        }
      }
    }
  }

  /**
   * Line reading is independent of how the stream was cut into chunks exactly when
   * no cut falls between the last character of a line and its newline.
   */
  lemma ChunkIndependentIff(chunks: seq<seq<byte>>)
    ensures
      var whole := Feed([], false, Concat(chunks));
      Chunked([], chunks) == (whole.lines, whole.pending) <==> CleanCuts(false, chunks)
  {
    CutsMatterIff([], false, chunks);
  }

  /** In particular when no chunk after the first begins with a newline. */
  lemma {:induction false} NoLeadingNewlineIsClean(armed: bool, chunks: seq<seq<byte>>)
    requires forall i :: 0 <= i < |chunks| && chunks[i] != [] && (armed || i > 0) ==> chunks[i][0] != NEWLINE
    ensures CleanCuts(armed, chunks)
    decreases |chunks|
  {
    if chunks != [] {
      forall i | 0 <= i < |chunks[1..]| && chunks[1..][i] != []
        ensures chunks[1..][i][0] != NEWLINE
      {
        assert chunks[1..][i] == chunks[i + 1];
      }
      NoLeadingNewlineIsClean(if chunks[0] == [] then armed else chunks[0][|chunks[0]| - 1] != NEWLINE, chunks[1..]);
    }
  }

  /** "a" then a newline: no line when read in two chunks, one line when read in one. */
  lemma CutBeforeNewlineLosesLine()
    ensures Chunked([], [[97], [NEWLINE]]).0 == []
    ensures Feed([], false, [97, NEWLINE]).lines == [[97, NEWLINE]]
  {
    assert Feed([], false, [97]) == Split([], [97], true);
    assert Feed([97], false, [NEWLINE]) == Split([], [97, NEWLINE], false);
    var second: seq<seq<byte>> := [[NEWLINE]];
    assert second[1..] == [] && Feed([97], false, second[0]).pending == [97, NEWLINE];
    assert Chunked([97, NEWLINE], second[1..]) == ([], [97, NEWLINE]);
    assert Chunked([97], second).0 == [];
    assert [[97], [NEWLINE]][1..] == second;
    assert [97, NEWLINE][1..] == [NEWLINE];
    assert Feed([97], true, [NEWLINE]).lines == [[97, NEWLINE]];
  }
}
