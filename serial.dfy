/**
 * `SerialHandler` of app/serial_handler.py: the connected/capture state of
 * the handler, `send`, and the reader loop that cuts the received bytes
 * into lines and hands each line to the terminal queue and, while a test
 * listens, to the capture queue.
 *
 * The port itself (pyserial) is foreign: opening it, the outcome of a
 * write and the results of successive outcomes are inputs. Decoding a line
 * (`decode("utf-8", errors="replace")`) is the parameter `decode`.
 */
module Serial {
  import opened Results

  datatype Direction = TX | RX | INFO | ERROR

  /** `TerminalMessage`; the timestamp is not modelled. */
  datatype Message = Message(direction: Direction, text: string)

  const LF: byte := 10
  const CR: byte := 13

  // ---------------------------------------------------------------------
  // Cutting bytes into lines
  // ---------------------------------------------------------------------

  /** `b` holds no `\n` byte. */
  predicate NoLf(b: seq<byte>) {
    forall k :: 0 <= k < |b| ==> b[k] != LF
  }

  /** `bytes.split(b"\n")`: the pieces between the `\n` bytes; there is always at least one. */
  function SplitLf(b: seq<byte>): (parts: seq<seq<byte>>)
    ensures |parts| >= 1
    ensures forall k :: 0 <= k < |parts| ==> NoLf(parts[k])
    decreases |b|
  {
    if b == [] then [[]]
    else
      var rest := SplitLf(b[1..]);
      if b[0] == LF then [[]] + rest
      else [[b[0]] + rest[0]] + rest[1..]
  }

  /** `b"\n".join(parts)`. */
  function JoinLf(parts: seq<seq<byte>>): seq<byte>
    requires |parts| >= 1
  {
    if |parts| == 1 then parts[0] else parts[0] + [LF] + JoinLf(parts[1..])
  }

  /** Splitting on `\n` and joining the pieces back gives the bytes split. */
  lemma {:induction false} JoinSplitLf(b: seq<byte>)
    ensures JoinLf(SplitLf(b)) == b
    decreases |b|
  {
    if b != [] {
      var rest := SplitLf(b[1..]);
      JoinSplitLf(b[1..]);
      if b[0] == LF {
        assert ([[]] + rest)[1..] == rest;
      } else if |rest| > 1 {
        assert ([[b[0]] + rest[0]] + rest[1..])[1..] == rest[1..];
      }
    }
  }

  /** Every line followed by its `\n`, one after the other. */
  function Unlines(lines: seq<seq<byte>>): seq<byte> {
    if lines == [] then [] else Unlines(lines[..|lines| - 1]) + lines[|lines| - 1] + [LF]
  }

  lemma {:induction false} UnlinesAppend(a: seq<seq<byte>>, b: seq<seq<byte>>)
    ensures Unlines(a + b) == Unlines(a) + Unlines(b)
    decreases |b|
  {
    if b == [] {
      assert a + b == a;
    } else {
      var b' := b[..|b| - 1];
      assert (a + b)[..|a + b| - 1] == a + b';
      assert (a + b)[|a + b| - 1] == b[|b| - 1];
      UnlinesAppend(a, b');
    }
  }

  /** Joining pieces is writing all but the last as lines, then the last. */
  lemma {:induction false} JoinIsUnlines(parts: seq<seq<byte>>)
    requires |parts| >= 1
    ensures JoinLf(parts) == Unlines(parts[..|parts| - 1]) + parts[|parts| - 1]
    decreases |parts|
  {
    if |parts| > 1 {
      var tail := parts[1..];
      JoinIsUnlines(tail);
      assert parts[..|parts| - 1] == [parts[0]] + tail[..|tail| - 1];
      UnlinesAppend([parts[0]], tail[..|tail| - 1]);
      assert Unlines([parts[0]]) == parts[0] + [LF] by {
        assert [parts[0]][..0] == [];
      }
    }
  }

  /** The lines of one read and the unfinished tail kept for the next. */
  datatype Assembled = Assembled(lines: seq<seq<byte>>, rest: seq<byte>)

  /** `buf.extend(chunk); lines = buf.split(b"\n"); buf = lines.pop()`. */
  function Assemble(buf: seq<byte>, chunk: seq<byte>): (a: Assembled)
    ensures NoLf(a.rest)
    ensures forall k :: 0 <= k < |a.lines| ==> NoLf(a.lines[k])
  {
    var parts := SplitLf(buf + chunk);
    Assembled(parts[..|parts| - 1], parts[|parts| - 1])
  }

  /** The lines of a read, each with its `\n`, followed by the kept tail, are exactly the bytes held. */
  lemma AssembleReconstructs(buf: seq<byte>, chunk: seq<byte>)
    ensures Unlines(Assemble(buf, chunk).lines) + Assemble(buf, chunk).rest == buf + chunk
  {
    JoinSplitLf(buf + chunk);
    JoinIsUnlines(SplitLf(buf + chunk));
  }

  /** All lines and the final tail after a series of non-empty reads, starting from `buf`. */
  function Feed(buf: seq<byte>, chunks: seq<seq<byte>>): (f: Assembled)
    ensures NoLf(f.rest) || f.rest == buf
    ensures forall k :: 0 <= k < |f.lines| ==> NoLf(f.lines[k])
    decreases |chunks|
  {
    if chunks == [] then Assembled([], buf)
    else
      var a := Assemble(buf, chunks[0]);
      var f := Feed(a.rest, chunks[1..]);
      assert forall k :: |a.lines| <= k < |a.lines + f.lines| ==> (a.lines + f.lines)[k] == f.lines[k - |a.lines|];
      Assembled(a.lines + f.lines, f.rest)
  }

  /** All bytes of a series of reads, in order. */
  function Concat(chunks: seq<seq<byte>>): (b: seq<byte>)
    ensures chunks != [] ==> |chunks[0]| <= |b|
  {
    if chunks == [] then [] else chunks[0] + Concat(chunks[1..])
  }

  /**
   * After any series of reads, the lines handed out so far, each re-joined
   * with its `\n`, followed by the kept tail reconstruct exactly the bytes
   * received; the tail holds no `\n`.
   */
  lemma {:induction false} FeedReconstructs(buf: seq<byte>, chunks: seq<seq<byte>>)
    ensures Unlines(Feed(buf, chunks).lines) + Feed(buf, chunks).rest == buf + Concat(chunks)
    ensures NoLf(Feed(buf, chunks).rest) || chunks == []
    decreases |chunks|
  {
    if chunks != [] {
      var a := Assemble(buf, chunks[0]);
      var f := Feed(a.rest, chunks[1..]);
      assert Feed(buf, chunks) == Assembled(a.lines + f.lines, f.rest);
      assert Concat(chunks) == chunks[0] + Concat(chunks[1..]);
      FeedReconstructs(a.rest, chunks[1..]);
      AssembleReconstructs(buf, chunks[0]);
      UnlinesAppend(a.lines, f.lines);
      Regroup(Unlines(a.lines), a.rest, Unlines(f.lines), f.rest, buf, chunks[0], Concat(chunks[1..]));
    }
  }

  lemma Regroup(x: seq<byte>, r1: seq<byte>, y: seq<byte>, r2: seq<byte>, b: seq<byte>, c: seq<byte>, t: seq<byte>)
    requires x + r1 == b + c && y + r2 == r1 + t
    ensures (x + y) + r2 == b + (c + t)
  {
    calc {
      (x + y) + r2;
      x + (y + r2);
      x + (r1 + t);
      (x + r1) + t;
      (b + c) + t;
    }
  }

  /** `raw_line.rstrip(b"\r")`. */
  function RStripCr(b: seq<byte>): (r: seq<byte>)
    ensures |r| <= |b| && r == b[..|r|]
    ensures r == [] || r[|r| - 1] != CR
    ensures forall k :: |r| <= k < |b| ==> b[k] == CR
  {
    if b == [] || b[|b| - 1] != CR then b else RStripCr(b[..|b| - 1])
  }

  /** The received messages of the lines `lines[..n]`. */
  function Received(lines: seq<seq<byte>>, n: nat, decode: seq<byte> -> string): (msgs: seq<Message>)
    requires n <= |lines|
    ensures |msgs| == n
  {
    if n == 0 then []
    else Received(lines, n - 1, decode) + [Message(RX, decode(RStripCr(lines[n - 1])))]
  }

  /** The message of a line holds the decoded line without its trailing `\r` bytes. */
  lemma {:induction false} ReceivedAt(lines: seq<seq<byte>>, n: nat, decode: seq<byte> -> string, k: nat)
    requires k < n <= |lines|
    ensures Received(lines, n, decode)[k] == Message(RX, decode(RStripCr(lines[k])))
    decreases n
  {
    if k < n - 1 {
      ReceivedAt(lines, n - 1, decode, k);
    }
  }

  // ---------------------------------------------------------------------
  // The reader loop, as a function of the successive outcomes
  // ---------------------------------------------------------------------

  /** The outcome of one `read` on the port. */
  datatype ReadResult =
    | Chunk(bytes: seq<byte>)
    | PortError(reason: string)   // serial.SerialException
    | ReadError(reason: string)   // any other exception

  /** The state the reader loop works on. */
  datatype Reader = Reader(buffer: seq<byte>, rx: seq<Message>, capture: Option<seq<Message>>, stopped: bool)

  /** `cq.put(msg)` for each message, when a capture queue is installed. */
  function PutAll(capture: Option<seq<Message>>, msgs: seq<Message>): Option<seq<Message>> {
    if capture.Some? then Some(capture.value + msgs) else None
  }

  /** The messages of the complete lines of a read. */
  function LinesOf(a: Assembled, decode: seq<byte> -> string): (msgs: seq<Message>)
    ensures forall k :: 0 <= k < |msgs| ==> msgs[k].direction == RX
  {
    var msgs := Received(a.lines, |a.lines|, decode);
    assert forall k :: 0 <= k < |msgs| ==> msgs[k].direction == RX by {
      forall k | 0 <= k < |msgs| ensures msgs[k].direction == RX {
        ReceivedAt(a.lines, |a.lines|, decode, k);
      }
    }
    msgs
  }

  /** Put the lines of a read on the queues and keep the unfinished tail. */
  function Deliver(r: Reader, a: Assembled, decode: seq<byte> -> string): (d: Reader)
    ensures r.rx <= d.rx && d.buffer == a.rest && d.stopped == r.stopped
  {
    Reader(a.rest, r.rx + LinesOf(a, decode), PutAll(r.capture, LinesOf(a, decode)), r.stopped)
  }

  /** One pass of the reader loop. */
  function Step(r: Reader, read: ReadResult, decode: seq<byte> -> string): (s: Reader)
    ensures r.rx <= s.rx
    ensures r.stopped ==> s == r
    ensures s.stopped <==> r.stopped || !read.Chunk?
  {
    if r.stopped then r
    else match read
      case Chunk(bytes) =>
        if bytes == [] then r else Deliver(r, Assemble(r.buffer, bytes), decode)
      case PortError(reason) => r.(rx := r.rx + [Message(ERROR, "Port error: " + reason)], stopped := true)
      case ReadError(reason) => r.(rx := r.rx + [Message(ERROR, "Read error: " + reason)], stopped := true)
  }

  /** The reader loop over a series of outcomes; once stopped, nothing changes. */
  function Run(r: Reader, outcomes: seq<ReadResult>, decode: seq<byte> -> string): (f: Reader)
    ensures r.rx <= f.rx
    ensures r.stopped ==> f == r
    decreases |outcomes|
  {
    if outcomes == [] then r else Run(Step(r, outcomes[0], decode), outcomes[1..], decode)
  }

  /** A read that raised. */
  predicate IsError(read: ReadResult) { !read.Chunk? }

  /** Some read of the series raised. */
  predicate HasError(outcomes: seq<ReadResult>) {
    exists k :: 0 <= k < |outcomes| && IsError(outcomes[k])
  }

  /** Every message of `msgs` goes in direction `d`. */
  predicate AllIn(msgs: seq<Message>, d: Direction) {
    forall k :: 0 <= k < |msgs| ==> msgs[k].direction == d
  }

  lemma PutNothing(capture: Option<seq<Message>>)
    ensures PutAll(capture, []) == capture
  {
    if capture.Some? { assert capture.value + [] == capture.value; }
  }

  /**
   * From `r` to `r2` the terminal queue received the lines `lines` and then
   * the error messages `errs` (at most one), the capture queue received the
   * same lines, and the loop is stopped exactly when there was an error.
   */
  ghost predicate Delivered(r: Reader, r2: Reader, lines: seq<Message>, errs: seq<Message>) {
    r2.rx == r.rx + lines + errs && |errs| <= 1 && AllIn(lines, RX) && AllIn(errs, ERROR) &&
    (r2.stopped <==> errs != []) && r2.capture == PutAll(r.capture, lines)
  }

  lemma PutAllAppend(capture: Option<seq<Message>>, x: seq<Message>, y: seq<Message>)
    ensures PutAll(PutAll(capture, x), y) == PutAll(capture, x + y)
  {
    if capture.Some? { assert capture.value + x + y == capture.value + (x + y); }
  }

  /** The non-empty chunks read before the first failed read. */
  function Chunks(outcomes: seq<ReadResult>): (chunks: seq<seq<byte>>)
    ensures |chunks| <= |outcomes|
    ensures forall k :: 0 <= k < |chunks| ==> chunks[k] != []
  {
    if outcomes == [] then []
    else match outcomes[0]
      case Chunk(bytes) =>
        var rest := Chunks(outcomes[1..]);
        if bytes == [] then rest
        else
          assert forall k :: 1 <= k <= |rest| ==> ([bytes] + rest)[k] == rest[k - 1];
          [bytes] + rest
      case _ => []
  }

  /** The ERROR message the first failed read puts on the terminal queue, if a read failed. */
  function Failure(outcomes: seq<ReadResult>): (errs: seq<Message>)
    ensures |errs| <= 1 && AllIn(errs, ERROR)
    ensures errs != [] <==> HasError(outcomes)
  {
    if outcomes == [] then []
    else
      ErrorsOfTail(outcomes);
      match outcomes[0]
      case Chunk(_) => Failure(outcomes[1..])
      case PortError(reason) => [Message(ERROR, "Port error: " + reason)]
      case ReadError(reason) => [Message(ERROR, "Read error: " + reason)]
  }

  /** Decoding the lines of two reads is decoding the lines of each. */
  lemma ReceivedAppend(a: seq<seq<byte>>, b: seq<seq<byte>>, decode: seq<byte> -> string)
    ensures Received(a + b, |a + b|, decode) == Received(a, |a|, decode) + Received(b, |b|, decode)
  {
    var x := Received(a + b, |a + b|, decode);
    var y := Received(a, |a|, decode) + Received(b, |b|, decode);
    forall k | 0 <= k < |x| ensures x[k] == y[k] {
      ReceivedAt(a + b, |a + b|, decode, k);
      if k < |a| {
        ReceivedAt(a, |a|, decode, k);
      } else {
        ReceivedAt(b, |b|, decode, k - |a|);
      }
    }
  }

  /** `Feed` over a first chunk and then more is `Assemble` of the first, then `Feed` of the rest. */
  lemma FeedCons(buf: seq<byte>, bytes: seq<byte>, cs: seq<seq<byte>>)
    ensures Feed(buf, [bytes] + cs)
            == Assembled(Assemble(buf, bytes).lines + Feed(Assemble(buf, bytes).rest, cs).lines,
                         Feed(Assemble(buf, bytes).rest, cs).rest)
  {
    assert ([bytes] + cs)[0] == bytes;
    assert ([bytes] + cs)[1..] == cs;
  }

  /** Delivering the lines of one read, then those of `f`, is delivering all of them at once. */
  lemma DeliverThenFeed(r: Reader, a: Assembled, f: Assembled, errs: seq<Message>, decode: seq<byte> -> string)
    ensures var s := Deliver(r, a, decode);
            var lf := Received(f.lines, |f.lines|, decode);
            var l := Received(a.lines + f.lines, |a.lines + f.lines|, decode);
            s.rx + lf + errs == r.rx + l + errs && PutAll(s.capture, lf) == PutAll(r.capture, l)
  {
    var la := LinesOf(a, decode);
    var lf := Received(f.lines, |f.lines|, decode);
    ReceivedAppend(a.lines, f.lines, decode);
    PutAllAppend(r.capture, la, lf);
    assert r.rx + la + lf + errs == r.rx + (la + lf) + errs;
  }

  /**
   * The reader loop is `Feed` over the non-empty chunks read before the
   * first failed read: the terminal queue gets the decoded lines `Feed`
   * cuts, then the failed read's ERROR message; the capture queue gets the
   * same lines; the kept buffer is `Feed`'s tail.
   */
  lemma {:induction false} RunIsFeed(r: Reader, outcomes: seq<ReadResult>, decode: seq<byte> -> string)
    requires !r.stopped
    ensures var f := Feed(r.buffer, Chunks(outcomes));
            var lines := Received(f.lines, |f.lines|, decode);
            Run(r, outcomes, decode) == Reader(f.rest, r.rx + lines + Failure(outcomes), PutAll(r.capture, lines), Failure(outcomes) != [])
    decreases |outcomes|
  {
    if outcomes == [] {
      PutNothing(r.capture);
      assert r.rx + [] + [] == r.rx;
    } else {
      var s := Step(r, outcomes[0], decode);
      assert Run(r, outcomes, decode) == Run(s, outcomes[1..], decode);
      if outcomes[0].Chunk? {
        var bytes := outcomes[0].bytes;
        RunIsFeed(s, outcomes[1..], decode);
        assert Failure(outcomes) == Failure(outcomes[1..]);
        if bytes != [] {
          var a := Assemble(r.buffer, bytes);
          var cs := Chunks(outcomes[1..]);
          assert Chunks(outcomes) == [bytes] + cs;
          FeedCons(r.buffer, bytes, cs);
          DeliverThenFeed(r, a, Feed(a.rest, cs), Failure(outcomes), decode);
        } else {
          assert s == r;
        }
      } else {
        PutNothing(r.capture);
        assert Chunks(outcomes) == [];
      }
    }
  }

  /**
   * What the loop adds to the terminal queue is, in order, the decoded lines
   * `Feed` cuts from the bytes read, followed by at most one ERROR message;
   * the loop ends stopped exactly when a read failed; the capture queue,
   * when installed, receives the same lines without the error; and those
   * lines, re-joined with `\n`, followed by the kept buffer are exactly the
   * bytes held before plus every byte read before the failure.
   */
  lemma RunDelivers(r: Reader, outcomes: seq<ReadResult>, decode: seq<byte> -> string)
    requires !r.stopped
    ensures var f := Feed(r.buffer, Chunks(outcomes));
            Delivered(r, Run(r, outcomes, decode), Received(f.lines, |f.lines|, decode), Failure(outcomes))
    ensures Run(r, outcomes, decode).stopped <==> HasError(outcomes)
    ensures Unlines(Feed(r.buffer, Chunks(outcomes)).lines) + Run(r, outcomes, decode).buffer
            == r.buffer + Concat(Chunks(outcomes))
  {
    var f := Feed(r.buffer, Chunks(outcomes));
    var lines := Received(f.lines, |f.lines|, decode);
    RunIsFeed(r, outcomes, decode);
    FeedReconstructs(r.buffer, Chunks(outcomes));
    forall k | 0 <= k < |lines| ensures lines[k].direction == RX {
      ReceivedAt(f.lines, |f.lines|, decode, k);
    }
  }

  /** A series of reads holds a failed read exactly when its first read failed or the rest holds one. */
  lemma ErrorsOfTail(outcomes: seq<ReadResult>)
    requires outcomes != []
    ensures HasError(outcomes) <==> IsError(outcomes[0]) || HasError(outcomes[1..])
  {
    if k :| 0 <= k < |outcomes| && IsError(outcomes[k]) {
      if k > 0 { assert IsError(outcomes[1..][k - 1]); }
    }
    if k :| 0 <= k < |outcomes[1..]| && IsError(outcomes[1..][k]) {
      assert IsError(outcomes[k + 1]);
    }
  }

  // ---------------------------------------------------------------------
  // UTF-8, as `str.encode("utf-8")` writes it
  // ---------------------------------------------------------------------

  /** The UTF-8 bytes of one code point. */
  function Utf8Char(c: char): (b: seq<byte>)
    ensures 1 <= |b| <= 4
    ensures (c as int < 128) <==> |b| == 1
  {
    var n := c as int;
    if n < 0x80 then [n as byte]
    else if n < 0x800 then [(0xC0 + n / 64) as byte, (0x80 + n % 64) as byte]
    else if n < 0x10000 then
      [(0xE0 + n / 4096) as byte, (0x80 + (n / 64) % 64) as byte, (0x80 + n % 64) as byte]
    else
      [(0xF0 + n / 262144) as byte, (0x80 + (n / 4096) % 64) as byte,
       (0x80 + (n / 64) % 64) as byte, (0x80 + n % 64) as byte]
  }

  /** `text.encode("utf-8")`. */
  function Utf8(text: string): (b: seq<byte>)
    ensures |text| <= |b| <= 4 * |text|
  {
    if text == [] then [] else Utf8Char(text[0]) + Utf8(text[1..])
  }

  /** ASCII text is written byte for byte. */
  lemma {:induction false} Utf8OfAscii(text: string)
    requires forall k :: 0 <= k < |text| ==> text[k] as int < 128
    ensures |Utf8(text)| == |text|
    ensures forall k :: 0 <= k < |text| ==> Utf8(text)[k] as int == text[k] as int
  {
    if text != [] {
      Utf8OfAscii(text[1..]);
      forall k | 0 <= k < |text| ensures Utf8(text)[k] as int == text[k] as int {
        if k > 0 { assert text[1..][k - 1] == text[k]; }
      }
    }
  }

  // ---------------------------------------------------------------------
  // The handler object
  // ---------------------------------------------------------------------

  /** The settings the port was opened with. */
  datatype PortSettings = PortSettings(device: string, baud: int, parity: string, dataBits: int, stopBits: real)

  class SerialHandler {
    /** `_serial`: the open port, if any (a pyserial port is open from the moment it is made). */
    var port: Option<PortSettings>
    /** `_thread is not None`: a reader loop was started and not yet joined. */
    var readerStarted: bool
    /** `_stop_event`. */
    var stopFlag: bool
    /** `rx_queue`: everything the terminal and the session log will show. */
    var rxQueue: seq<Message>
    /** `_capture_queue`. */
    var capture: Option<seq<Message>>
    /** The reader loop's `buf`: received bytes not yet ended by `\n`. */
    var buffer: seq<byte>
    /** All bytes written to the port. */
    var written: seq<byte>

    constructor ()
      ensures port == None && !readerStarted && !stopFlag && rxQueue == [] && capture == None
      ensures buffer == [] && written == []
    {
      port := None;
      readerStarted := false;
      stopFlag := false;
      rxQueue := [];
      capture := None;
      buffer := [];
      written := [];
    }

    /** `is_connected`. */
    predicate IsConnected()
      reads this
    {
      port.Some?
    }

    function ReaderState(): Reader
      reads this
    {
      Reader(buffer, rxQueue, capture, stopFlag)
    }

    /**
     * `connect`: open the port (`opens` says whether pyserial could) and start
     * a fresh reader loop; when opening fails the exception leaves the
     * handler as it was.
     */
    method Connect(settings: PortSettings, opens: bool) returns (r: Result<()>)
      modifies this
      ensures r.Ok? <==> opens
      ensures opens ==> port == Some(settings) && readerStarted && !stopFlag && buffer == []
      ensures !opens ==> port == old(port) && readerStarted == old(readerStarted) && stopFlag == old(stopFlag)
                         && buffer == old(buffer)
      ensures rxQueue == old(rxQueue) && capture == old(capture) && written == old(written)
    {
      if !opens {
        return Err("could not open port " + settings.device);
      }
      port := Some(settings);
      stopFlag := false;
      readerStarted := true;
      buffer := [];
      r := Ok(());
    }

    /** `disconnect`: stop the reader, close the port and drop the capture queue; harmless when repeated. */
    method Disconnect()
      modifies this
      ensures port == None && !readerStarted && stopFlag && capture == None
      ensures rxQueue == old(rxQueue) && written == old(written) && buffer == old(buffer)
    {
      stopFlag := true;
      readerStarted := false;
      port := None;
      capture := None;
    }

    /**
     * `send`: fails with "Not connected" on a closed handler and writes
     * nothing; otherwise writes the UTF-8 text and the line ending, unless
     * the port's write raises (`writeFault`).
     */
    method Send(text: string, lineEnding: seq<byte>, writeFault: Option<string>) returns (r: Result<()>)
      modifies this`written
      ensures !old(IsConnected()) ==> r == Err("Not connected")
      ensures old(IsConnected()) ==> (r.Ok? <==> writeFault.None?)
      ensures written == if r.Ok? then old(written) + Utf8(text) + lineEnding else old(written)
    {
      if port.None? {
        return Err("Not connected");
      }
      if writeFault.Some? {
        return Err(writeFault.value);
      }
      written := written + Utf8(text) + lineEnding;
      r := Ok(());
    }

    /** `start_capture`: install a fresh, empty capture queue, replacing any previous one. */
    method StartCapture()
      modifies this`capture
      ensures capture == Some([])
    {
      capture := Some([]);
    }

    /** `stop_capture`. */
    method StopCapture()
      modifies this`capture
      ensures capture == None
    {
      capture := None;
    }

    /** `get_capture_queue`. */
    function CaptureQueue(): (q: Option<seq<Message>>)
      reads this
      ensures q == capture
    {
      capture
    }

    /** Put one message on the terminal queue (used by the test runner for its TX echo). */
    method PutRx(msg: Message)
      modifies this`rxQueue
      ensures rxQueue == old(rxQueue) + [msg]
    {
      rxQueue := rxQueue + [msg];
    }

    /** One non-empty read: cut the buffer into lines and hand each to the queues. */
    method ReceiveChunk(bytes: seq<byte>, decode: seq<byte> -> string)
      requires bytes != [] && !stopFlag
      modifies this`buffer, this`rxQueue, this`capture
      ensures ReaderState() == Deliver(old(ReaderState()), Assemble(old(buffer), bytes), decode)
    {
      buffer := buffer + bytes;
      var parts := SplitLf(buffer);
      var lines := parts[..|parts| - 1];
      buffer := parts[|parts| - 1];
      ghost var a := Assemble(old(buffer), bytes);
      assert a == Assembled(lines, buffer);
      PutNothing(capture);
      for j := 0 to |lines|
        modifies this`rxQueue, this`capture
        invariant rxQueue == old(rxQueue) + Received(lines, j, decode)
        invariant capture == PutAll(old(capture), Received(lines, j, decode))
      {
        var msg := Message(RX, decode(RStripCr(lines[j])));
        rxQueue := rxQueue + [msg];
        if capture.Some? {
          capture := Some(capture.value + [msg]);
        }
        PutAllAppend(old(capture), Received(lines, j, decode), [msg]);
      }
      assert LinesOf(a, decode) == Received(lines, |lines|, decode);
    }

    /** `_read_loop`, fed the outcomes of its successive reads until it stops. */
    method ReadLoop(outcomes: seq<ReadResult>, decode: seq<byte> -> string)
      modifies this`buffer, this`rxQueue, this`capture, this`stopFlag
      ensures ReaderState() == Run(old(ReaderState()), outcomes, decode)
    {
      var i := 0;
      while i < |outcomes| && !stopFlag
        invariant 0 <= i <= |outcomes|
        decreases |outcomes| - i
        invariant Run(ReaderState(), outcomes[i..], decode) == Run(old(ReaderState()), outcomes, decode)
      {
        assert outcomes[i..][1..] == outcomes[i + 1..];
        match outcomes[i] {
          case Chunk(bytes) =>
            if bytes != [] {
              ReceiveChunk(bytes, decode);
            }
          case PortError(reason) =>
            rxQueue := rxQueue + [Message(ERROR, "Port error: " + reason)];
            stopFlag := true;
          case ReadError(reason) =>
            rxQueue := rxQueue + [Message(ERROR, "Read error: " + reason)];
            stopFlag := true;
        }
        i := i + 1;
      }
      if stopFlag {
      }
    }
  }
}
