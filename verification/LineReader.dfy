/** `lr.c`: a line reader over a growable buffer. */
module LineReader {
  import opened Options
  import opened Sequences
  import opened Bytes
  import opened Arena
  import opened DynStr
  import opened LineModel

  const READ_BUFFER: nat := 1024  // DEFAULTBUF_SIZE

  /** Position `k` ends a line when scanning from `cur`: a newline after another character. */
  predicate EndsLine(text: seq<byte>, cur: nat, k: int) {
    cur < k < |text| && text[k] == NEWLINE && text[k - 1] != NEWLINE
  }

  /** `k` is the first line end from `cur`; -1 when there is none. */
  ghost predicate FirstLineEnd(text: seq<byte>, cur: nat, k: int) {
    if k < 0 then forall j :: !EndsLine(text, cur, j)
    else EndsLine(text, cur, k) && forall j :: j < k ==> !EndsLine(text, cur, j)
  }

  function LineEndFrom(text: seq<byte>, cur: nat, i: nat): (k: int)
    ensures k < |text|
    decreases |text| - i
  {
    if i >= |text| then -1 else if EndsLine(text, cur, i) then i else LineEndFrom(text, cur, i + 1)
  }

  /** The first line end from `cur`, or -1. */
  function LineEnd(text: seq<byte>, cur: nat): (k: int)
    ensures k < |text|
  {
    LineEndFrom(text, cur, 0)
  }

  lemma {:induction false} LineEndFromIsFirst(text: seq<byte>, cur: nat, i: nat)
    requires forall j :: j < i ==> !EndsLine(text, cur, j)
    ensures FirstLineEnd(text, cur, LineEndFrom(text, cur, i)) && LineEndFrom(text, cur, i) >= -1
    decreases |text| - i
  {
    if i < |text| && !EndsLine(text, cur, i) {
      LineEndFromIsFirst(text, cur, i + 1);
    }
  }

  /** There is only one first line end. */
  lemma LineEndIsFirst(text: seq<byte>, cur: nat, k: int)
    requires FirstLineEnd(text, cur, k) && k >= -1
    ensures k == LineEnd(text, cur)
  {
    LineEndFromIsFirst(text, cur, 0);
  }

  class LineReader {
    const arena: Arena
    const heap: Heap
    var buf: int
    var curIdx: nat
    ghost var text: seq<byte>  // what the buffer holds

    ghost predicate Valid()
      reads this, arena, arena.mem, arena.pools
    {
      Ready(arena, heap) && IsStr(arena, buf, text) && curIdx <= |text|
    }

    /** `reader_new`. */
    constructor (arena: Arena, heap: Heap)
      requires Ready(arena, heap)
      modifies arena, arena.pools, arena.mem
      ensures Valid() && this.arena == arena && text == [] && curIdx == 0
      ensures buf !in old(arena.data) && arena.data == old(arena.data)[buf := arena.data[buf]]
    {
      var b := Reserve(arena, READ_BUFFER - HEADER, heap);
      this.arena, this.heap, buf := arena, heap, b;
      curIdx, text := 0, [];
    }

    /** `reader_get_buffer`: afterwards `hint` bytes and a terminator fit behind the text. */
    method GetBuffer(hint: nat)
      requires Valid() && HEADER + |text| + hint + 2 < INT_LIMIT
      modifies this`buf, arena, arena.pools, arena.mem
      ensures Valid() && |text| + hint + 1 <= Capacity(arena, buf)
      ensures Became(arena, old(buf), buf, text)
    {
      hide arena.Valid;
      var slack := Slack(arena, buf, text);
      if slack < hint {
        var len, _, _ := Load(arena, buf, text);
        buf := Resize(arena, buf, len + hint + 1, heap, text);
      }
    }

    /** `reader_buffer_fill`, after `bytes` were read into the buffer. */
    method BufferFill(bytes: seq<byte>)
      requires Valid() && |text| + |bytes| + 1 <= Capacity(arena, buf)
      modifies this`text, arena, arena.mem
      ensures Valid() && text == old(text) + bytes
      ensures Became(arena, buf, buf, text)
    {
      hide arena.Valid;
      Fill(arena, buf, bytes, text);
      text := text + bytes;
    }

    /** The scan of `reader_get_next_line`: newlines at the scan position are stepped over. */
    method Scan(chars: seq<byte>) returns (nl: int)
      requires curIdx <= |chars|
      modifies this`curIdx
      ensures -1 <= nl < |chars| && FirstLineEnd(chars, old(curIdx), nl)
      ensures old(curIdx) <= curIdx <= |chars|
    {
      ghost var cur := curIdx;
      while true
        invariant cur <= curIdx <= |chars|
        invariant forall j :: j <= curIdx ==> !EndsLine(chars, cur, j)
        decreases |chars| - curIdx
      {
        var at := MemChr(chars, curIdx, |chars| - curIdx, NEWLINE);
        nl := if at.Some? then at.value else -1;
        if nl == curIdx {
          curIdx := curIdx + 1;
          continue;
        }
        break;
      }
    }

    /** Everything but the reader's own buffer is as it was. */
    twostate predicate OnlyBufferChanged()
      reads this, arena
    {
      buf in arena.data && arena.data - {buf} == old(arena.data) - {old(buf)}
    }

    /** `reader_get_next_line`: the first line from the scan position, taken off the buffer. */
    method GetNextLine() returns (line: Option<int>, ghost nl: int)
      requires Valid()
      modifies this, arena, arena.pools, arena.mem
      ensures Valid() && buf == old(buf)
      ensures -1 <= nl < |old(text)| && FirstLineEnd(old(text), old(curIdx), nl) && (line.None? <==> nl < 0)
      ensures line.None? ==> text == old(text) && curIdx == |text| && arena.data == old(arena.data)
      ensures line.Some? ==> text == old(text)[nl + 1..] && curIdx == 0
      ensures line.Some? ==> line.value !in old(arena.data) && IsStr(arena, line.value, StrNCpy(old(text)[..nl + 1]))
      ensures line.Some? ==> arena.data - {line.value, buf} == old(arena.data) - {buf}
    {
      hide arena.Valid, StrNCpy;
      var len, _, chars := Load(arena, buf, text);
      var at := Scan(chars);
      nl := at;
      if at < 0 {
        curIdx := len;
        return None, nl;
      }
      var p := Cnew(arena, chars[..at + 1], heap);
      RemoveRange(arena, buf, 0, at, text);
      text := text[at + 1..];
      curIdx := 0;
      return Some(p), nl;
    }

    /** What scanning on from here would split off. */
    ghost function Remaining(): Split
      requires curIdx <= |text|
      reads this
    {
      Feed(text[..curIdx], false, text[curIdx..])
    }

    /** One turn of the main loop: a line, its characters copied out, its block freed. */
    method TakeLine() returns (line: Option<seq<byte>>)
      requires Valid() && 0 !in text
      modifies this, arena, arena.pools, arena.mem
      ensures Valid() && 0 !in text && OnlyBufferChanged()
      ensures
        var was, k := old(text), LineEnd(old(text), old(curIdx));
        if k < 0 then line == None && text == was && curIdx == |was|
        else line == Some(was[..k + 1]) && text == was[k + 1..] && curIdx == 0
      ensures line.None? ==> old(Remaining()).lines == [] && old(Remaining()).pending == text && curIdx == |text|
      ensures line.None? ==> text == old(text)
      ensures line.Some? ==> old(text) == line.value + text && IsLine(line.value) && curIdx == 0
      ensures line.Some? ==> old(Remaining()) == Remaining().(lines := [line.value] + Remaining().lines)
    {
      hide arena.Valid, StrNCpy, Feed, StrBlock;
      ghost var before, cur := text, curIdx;
      var p, nl := GetNextLine();
      ScanIsFeed(before, cur, nl);
      LineEndIsFirst(before, cur, nl);
      if p.None? {
        return None;
      }
      StrNCpyExact(before[..nl + 1]);
      var _, _, chars := Load(arena, p.value, before[..nl + 1]);
      arena.Free(p.value);
      assert text[..0] == [] && text[0..] == text;
      return Some(chars);
    }

    /** One `read` of `bytes` and the lines it completes, as the main loop consumes them. */
    method ReadChunk(bytes: seq<byte>) returns (lines: seq<seq<byte>>)
      requires Valid() && curIdx == |text| && 0 !in text && 0 !in bytes
      requires HEADER + |text| + |bytes| + 2 < INT_LIMIT
      modifies this, arena, arena.pools, arena.mem
      ensures Valid() && curIdx == |text| && 0 !in text && OnlyBufferChanged()
      ensures var r := Feed(old(text), false, bytes); lines == r.lines && text == r.pending
    {
      hide arena.Valid, StrNCpy, Feed, StrBlock;
      GetBuffer(|bytes|);
      BufferFill(bytes);
      ghost var whole := Feed(old(text), false, bytes);
      assert text[..curIdx] == old(text) && text[curIdx..] == bytes;
      lines := [];
      while true
        invariant Valid() && 0 !in text && OnlyBufferChanged()
        invariant whole == Remaining().(lines := lines + Remaining().lines)
        decreases |text|
      {
        var line := TakeLine();
        if line.None? {
          break;
        }
        lines := lines + [line.value];
      }
    }

    /** Any number of chunks: the lines are those of the byte-level model. */
    method ReadAll(chunks: seq<seq<byte>>) returns (lines: seq<seq<byte>>)
      requires Valid() && curIdx == |text| && 0 !in text && 0 !in Concat(chunks) && ChunksFit(text, chunks)
      modifies this, arena, arena.pools, arena.mem
      ensures Valid() && OnlyBufferChanged() && (lines, text) == Chunked(old(text), chunks)
      decreases |chunks|
    {
      hide arena.Valid;
      if chunks == [] {
        return [];
      }
      FeedConserves(text, false, chunks[0]);
      var first := ReadChunk(chunks[0]);
      var rest := ReadAll(chunks[1..]);
      lines := first + rest;
    }
  }

  /** The buffer has room for one more chunk: its size is an int. */
  predicate HasRoom(text: seq<byte>, bytes: seq<byte>) {
    HEADER + |text| + |bytes| + 2 < INT_LIMIT
  }

  /** Every chunk, together with the text pending when it arrives, fits the buffer. */
  predicate ChunksFit(pending: seq<byte>, chunks: seq<seq<byte>>)
    decreases |chunks|
  {
    chunks != [] ==> HasRoom(pending, chunks[0]) && ChunksFit(Feed(pending, false, chunks[0]).pending, chunks[1..])
  }

  // ---- runs -----------------------------------------------------------------------------

  /** What can happen to a reader: bytes arrive, or somebody asks for a line. */
  datatype Event = Arrive(bytes: seq<byte>) | Ask

  /** The text in the buffer and the scan position. */
  datatype State = State(text: seq<byte>, cur: nat)

  function BytesOf(e: Event): seq<byte> {
    if e.Arrive? then e.bytes else []
  }

  function Arrived(events: seq<Event>): seq<byte> {
    if events == [] then [] else BytesOf(events[0]) + Arrived(events[1..])
  }

  /** One event: the lines it yields, and the state after it. */
  function Next(st: State, e: Event): (seq<seq<byte>>, State) {
    match e
    case Arrive(bytes) => ([], st.(text := st.text + bytes))
    case Ask =>
      var k := LineEnd(st.text, st.cur);
      if k < 0 then ([], st.(cur := |st.text|)) else ([st.text[..k + 1]], State(st.text[k + 1..], 0))
  }

  function Run(st: State, events: seq<Event>): (seq<seq<byte>>, State)
    decreases |events|
  {
    if events == [] then ([], st)
    else
      var (first, st') := Next(st, events[0]);
      var (rest, last) := Run(st', events[1..]);
      (first + rest, last)
  }

  /** Whenever bytes arrive, the buffer has room for them, and they are not NUL. */
  predicate EventsFit(st: State, events: seq<Event>)
    decreases |events|
  {
    events != [] ==>
      HasRoom(st.text, BytesOf(events[0])) && 0 !in BytesOf(events[0]) && EventsFit(Next(st, events[0]).1, events[1..])
  }

  method RunEvent(r: LineReader, e: Event) returns (lines: seq<seq<byte>>)
    requires r.Valid() && 0 !in r.text && 0 !in BytesOf(e) && HasRoom(r.text, BytesOf(e))
    modifies r, r.arena, r.arena.pools, r.arena.mem
    ensures r.Valid() && 0 !in r.text && (lines, State(r.text, r.curIdx)) == Next(State(old(r.text), old(r.curIdx)), e)
  {
    hide r.arena.Valid, Feed, StrBlock;
    lines := [];
    if e.Arrive? {
      r.GetBuffer(|e.bytes|);
      r.BufferFill(e.bytes);
    } else {
      var line := r.TakeLine();
      if line.Some? {
        lines := [line.value];
      }
    }
  }

  /** In whatever order bytes arrive and lines are asked for, the reader yields exactly the lines of the model. */
  method RunEvents(r: LineReader, events: seq<Event>) returns (lines: seq<seq<byte>>)
    requires r.Valid() && 0 !in r.text && EventsFit(State(r.text, r.curIdx), events)
    modifies r, r.arena, r.arena.pools, r.arena.mem
    ensures r.Valid() && 0 !in r.text
    ensures (lines, State(r.text, r.curIdx)) == Run(State(old(r.text), old(r.curIdx)), events)
    decreases |events|
  {
    hide r.Valid, Next, HasRoom;
    if events == [] {
      return [];
    }
    var first := RunEvent(r, events[0]);
    var rest := RunEvents(r, events[1..]);
    lines := first + rest;
  }

  lemma NextConserves(st: State, e: Event)
    ensures var (lines, st') := Next(st, e);
            Concat(lines) + st'.text == st.text + BytesOf(e) && forall l <- lines :: IsLine(l)
  {
    var (lines, st') := Next(st, e);
    if e.Ask? {
      LineEndFromIsFirst(st.text, st.cur, 0);
      var k := LineEnd(st.text, st.cur);
      if k >= 0 {
        assert lines[1..] == [] && Concat(lines) == st.text[..k + 1] + [];
        assert st.text[..k + 1] + st.text[k + 1..] == st.text;
      }
    }
  }

  /** No byte is lost, added or moved, and every line ends in a newline that follows another character. */
  lemma {:induction false} RunConserves(st: State, events: seq<Event>)
    ensures var (lines, st') := Run(st, events);
            Concat(lines) + st'.text == st.text + Arrived(events) && forall l <- lines :: IsLine(l)
    decreases |events|
  {
    if events == [] {
      assert st.text + [] == st.text && [] + st.text == st.text;
    } else {
      NextConserves(st, events[0]);
      var (first, mid) := Next(st, events[0]);
      RunConserves(mid, events[1..]);
      var (rest, last) := Run(mid, events[1..]);
      hide Next, Run, IsLine;
      ConcatAppend(first, rest);
      Regroup(Concat(first), Concat(rest), last.text);
      Regroup(Concat(first), mid.text, Arrived(events[1..]));
      Regroup(st.text, BytesOf(events[0]), Arrived(events[1..]));
    }
  }

  lemma {:induction false} ScanFrom(text: seq<byte>, cur: nat, i: nat, k: int)
    requires cur <= i <= |text| && FirstLineEnd(text, cur, k) && (k >= 0 ==> i <= k)
    ensures
      var r := Feed(text[..i], i > cur && text[i - 1] != NEWLINE, text[i..]);
      if k < 0 then r.lines == [] && r.pending == text
      else
        var rest := Feed([], false, text[k + 1..]);
        r == rest.(lines := [text[..k + 1]] + rest.lines)
    decreases |text| - i
  {
    if i == |text| {
      assert text[..i] == text && text[i..] == [];
    } else {
      assert text[i..][1..] == text[i + 1..] && text[i..][0] == text[i];
      assert text[..i] + [text[i]] == text[..i + 1];
      assert EndsLine(text, cur, i) <==> text[i] == NEWLINE && i > cur && text[i - 1] != NEWLINE;
      if i != k {
        ScanFrom(text, cur, i + 1, k);
      }
    }
  }

  /** The scan splits off what feeding the unscanned bytes one by one would. */
  lemma ScanIsFeed(text: seq<byte>, cur: nat, k: int)
    requires cur <= |text| && FirstLineEnd(text, cur, k)
    ensures
      var r := Feed(text[..cur], false, text[cur..]);
      if k < 0 then r.lines == [] && r.pending == text
      else
        var rest := Feed([], false, text[k + 1..]);
        r == rest.(lines := [text[..k + 1]] + rest.lines)
  {
    ScanFrom(text, cur, cur, k);
  }
}
