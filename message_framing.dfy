/** Message framing of the language-server connection (src/Async/Network.cpp):
    the `MessageBuffer` that accumulates bytes read from the client and cuts
    one message off its front, the header `write` puts before each outgoing
    message, and the `on_read` callback that ties them to the scheduler.

    This is the "Header Part" of the Base Protocol of the Language Server
    Protocol specification 3.17, restricted to what the code accepts: a single
    `Content-Length` header, nothing else. A character of a `string` stands for
    one byte of the stream. */
module MessageFraming {
  import opened Wrappers
  import opened Text
  import AsyncRuntime

  const ContentLength: string := "Content-Length: "
  const HeaderEnd: string := "\r\n\r\n"

  /** The largest `std::size_t`: `consumeInteger` fails on larger lengths. */
  const MaxSize: nat := 0xFFFF_FFFF_FFFF_FFFF

  /** libuv's `UV_EOF`. */
  const UvEof: int := -4095

  predicate AllDigits(s: string) {
    forall i :: 0 <= i < |s| ==> IsDigit(s[i])
  }

  /** The number a run of decimal digits denotes. */
  function DecimalValue(s: string): nat
    requires AllDigits(s)
  {
    if s == [] then 0 else DecimalValue(s[..|s| - 1]) * 10 + DigitValue(s[|s| - 1])
  }

  /** `raw_ostream << size_t`: the decimal digits of `n`, without leading zeros. */
  function Decimal(n: nat): (s: string)
    ensures |s| >= 1 && AllDigits(s)
  {
    var d := ['0' + (n % 10) as char];
    if n < 10 then d else Decimal(n / 10) + d
  }

  /** The length of the run of decimal digits at the front of `s`. */
  function DigitRun(s: string): (n: nat)
    ensures n <= |s| && AllDigits(s[..n])
    ensures n < |s| ==> !IsDigit(s[n])
  {
    if s != [] && IsDigit(s[0]) then
      var n := 1 + DigitRun(s[1..]);
      assert s[..n] == [s[0]] + s[1..][..n - 1];
      n
    else 0
  }

  /** A parsed header: the announced body length and the header's own size. */
  datatype Header = Header(length: nat, size: nat)

  /** The header check of `MessageBuffer::peek`: "Content-Length: ", a run of
      decimal digits whose value fits a `size_t`, then exactly "\r\n\r\n". */
  function ParseHeader(s: string): (r: Option<Header>)
    ensures r.Some? ==>
              && |ContentLength| + 1 + |HeaderEnd| <= r.value.size <= |s|
              && s[..|ContentLength|] == ContentLength
              && AllDigits(s[|ContentLength|..r.value.size - |HeaderEnd|])
              && s[r.value.size - |HeaderEnd|..r.value.size] == HeaderEnd
              && r.value.length == DecimalValue(s[|ContentLength|..r.value.size - |HeaderEnd|])
              && r.value.length <= MaxSize
  {
    if !(|ContentLength| <= |s| && s[..|ContentLength|] == ContentLength) then None
    else
      var rest := s[|ContentLength|..];
      var n := DigitRun(rest);
      if n == 0 || DecimalValue(rest[..n]) > MaxSize then None
      else if !(n + |HeaderEnd| <= |rest| && rest[n..n + |HeaderEnd|] == HeaderEnd) then None
      else
        assert s[|ContentLength|..|ContentLength| + n] == rest[..n];
        Some(Header(DecimalValue(rest[..n]), |ContentLength| + n + |HeaderEnd|))
  }

  /** A successful peek: the message and the offset just past it. */
  datatype Peeked = Peeked(message: string, end: nat)

  /** What `peek` finds at the front of the buffer `s`: a message exactly when
      the header parses and at least `length` body bytes follow it. */
  function PeekSpec(s: string): (r: Option<Peeked>)
    ensures r.Some? ==> ParseHeader(s).Some?
    ensures r.Some? ==>
              var h := ParseHeader(s).value;
              && r.value.end == h.size + h.length <= |s|
              && r.value.message == s[h.size..r.value.end]
  {
    match ParseHeader(s)
    case None => None
    case Some(h) =>
      if |s| - h.size >= h.length then Some(Peeked(s[h.size..h.size + h.length], h.size + h.length))
      else None
  }

  /** The header `write` streams before a message body of `size` bytes. */
  function WriteHeader(size: nat): string {
    ContentLength + Decimal(size) + HeaderEnd
  }

  /** The bytes `write` sends for a serialised body: header, then body. */
  function Frame(body: string): string {
    WriteHeader(|body|) + body
  }

  lemma {:induction false} DecimalRoundTrip(n: nat)
    ensures DecimalValue(Decimal(n)) == n
    decreases n
  {
    var d := ['0' + (n % 10) as char];
    if n >= 10 {
      DecimalRoundTrip(n / 10);
      var s := Decimal(n / 10) + d;
      assert s[..|s| - 1] == Decimal(n / 10);
    }
  }

  lemma {:induction false} DigitRunOfDigits(d: string, t: string)
    requires AllDigits(d)
    requires t == [] || !IsDigit(t[0])
    ensures DigitRun(d + t) == |d|
    decreases |d|
  {
    if d != [] {
      assert (d + t)[1..] == d[1..] + t;
      DigitRunOfDigits(d[1..], t);
    } else {
      assert d + t == t;
    }
  }

  lemma {:induction false} DecimalValuePrefix(s: string, j: nat, k: nat)
    requires AllDigits(s) && j <= k <= |s|
    ensures DecimalValue(s[..j]) <= DecimalValue(s[..k])
    decreases k - j
  {
    if j < k {
      DecimalValuePrefix(s, j, k - 1);
      assert s[..k][..k - 1] == s[..k - 1];
    }
  }

  /** What `peek`'s cursor meets in a written header: the prefix, a digit
      run of exactly the written size's digits with that value, and the
      blank line right after it. */
  lemma WrittenHeaderFields(size: nat, tail: string)
    requires |HeaderEnd| <= |tail| && tail[..|HeaderEnd|] == HeaderEnd
    ensures var s := ContentLength + Decimal(size) + tail;
            && |ContentLength| <= |s| && s[..|ContentLength|] == ContentLength
            && DigitRun(s[|ContentLength|..]) == |Decimal(size)|
            && DecimalValue(s[|ContentLength|..][..|Decimal(size)|]) == size
            && |ContentLength| + |Decimal(size)| + |HeaderEnd| <= |s|
            && s[|ContentLength| + |Decimal(size)|..|ContentLength| + |Decimal(size)| + |HeaderEnd|] == HeaderEnd
  {
    var d := Decimal(size);
    var s := ContentLength + d + tail;
    assert s == ContentLength + (d + tail);
    assert s[..|ContentLength|] == ContentLength;
    var rest := s[|ContentLength|..];
    assert rest == d + tail;
    DigitRunOfDigits(d, tail);
    assert rest[..|d|] == d;
    DecimalRoundTrip(size);
    var start := |ContentLength| + |d|;
    assert s[start..start + |HeaderEnd|] == tail[..|HeaderEnd|];
  }

  /** A written header parses back to the size it announces, whatever
      follows the blank line. */
  lemma HeaderOf(size: nat, tail: string)
    requires size <= MaxSize
    requires |HeaderEnd| <= |tail| && tail[..|HeaderEnd|] == HeaderEnd
    ensures ParseHeader(ContentLength + Decimal(size) + tail)
            == Some(Header(size, |WriteHeader(size)|))
  {
    var s := ContentLength + Decimal(size) + tail;
    WrittenHeaderFields(size, tail);
    HeaderAtCursor(s, false, size, |Decimal(size)|);
  }

  /** The header of a written frame parses back to the body's length. */
  lemma HeaderRoundTrip(body: string, rest: string)
    requires |body| <= MaxSize
    ensures ParseHeader(Frame(body) + rest) == Some(Header(|body|, |WriteHeader(|body|)|))
  {
    var prefix := ContentLength + Decimal(|body|);
    var tail := HeaderEnd + (body + rest);
    HeaderOf(|body|, tail);
    calc {
      Frame(body) + rest;
      (prefix + HeaderEnd + body) + rest;
      prefix + (HeaderEnd + (body + rest));
    }
  }

  /** Round trip: peeking a written frame, whatever bytes follow it, yields
      exactly the body and the offset just past the frame. */
  lemma PeekFrame(body: string, rest: string)
    requires |body| <= MaxSize
    ensures PeekSpec(Frame(body) + rest) == Some(Peeked(body, |Frame(body)|))
  {
    HeaderRoundTrip(body, rest);
    var s := Frame(body) + rest;
    var h := |WriteHeader(|body|)|;
    assert s[h..h + |body|] == body;
  }

  /** A frame whose body is empty peeks as an empty message, which `on_read`
      cannot tell apart from "no complete message": it stays in the buffer. */
  lemma EmptyFramePeeksEmpty(rest: string)
    ensures PeekSpec(Frame([]) + rest).Some?
    ensures PeekSpec(Frame([]) + rest).value.message == []
  {
    PeekFrame([], rest);
  }

  /** When the header is complete but fewer than `length` body bytes have
      arrived, there is no message yet. */
  lemma IncompleteBodyPeeksNothing(body: string, k: nat)
    requires |body| <= MaxSize && k < |body|
    ensures PeekSpec(WriteHeader(|body|) + body[..k]) == None
  {
    HeaderOfPrefix(body, k);
  }

  lemma HeaderOfPrefix(body: string, k: nat)
    requires |body| <= MaxSize && k <= |body|
    ensures ParseHeader(WriteHeader(|body|) + body[..k]) == Some(Header(|body|, |WriteHeader(|body|)|))
  {
    var tail := HeaderEnd + body[..k];
    HeaderOf(|body|, tail);
    assert WriteHeader(|body|) + body[..k] == ContentLength + Decimal(|body|) + tail;
  }

  /** The header check read the way `peek` reads it, with a cursor: after
      the prefix, the outcome of `consumeInteger` decides the header, and on
      success the blank line must follow the digits. */
  lemma HeaderAtCursor(b: string, failed: bool, length: nat, digits: nat)
    requires |ContentLength| <= |b| && b[..|ContentLength|] == ContentLength
    requires failed <==> DigitRun(b[|ContentLength|..]) == 0
                         || DecimalValue(b[|ContentLength|..][..DigitRun(b[|ContentLength|..])]) > MaxSize
    requires !failed ==> digits == DigitRun(b[|ContentLength|..]) && length == DecimalValue(b[|ContentLength|..][..digits])
    ensures failed ==> ParseHeader(b).None?
    ensures !failed ==>
              var start := |ContentLength| + digits;
              (ParseHeader(b).Some? <==> start + |HeaderEnd| <= |b| && b[start..start + |HeaderEnd|] == HeaderEnd)
    ensures !failed && ParseHeader(b).Some? ==> ParseHeader(b).value == Header(length, |ContentLength| + digits + |HeaderEnd|)
  {
    if !failed {
      var rest := b[|ContentLength|..];
      var start := |ContentLength| + digits;
      if digits + |HeaderEnd| <= |rest| {
        assert rest[digits..digits + |HeaderEnd|] == b[start..start + |HeaderEnd|];
      }
    }
  }

  /** The static buffer of `on_read`: bytes received but not yet consumed, and
      the end offset of the message the last successful `peek` found. */
  class MessageBuffer {
    var buffer: string
    var pos: nat
    /** Whether `pos` holds a value: the source leaves it uninitialised until
        the first successful `peek`. */
    ghost var posSet: bool

    ghost predicate Valid()
      reads this
    {
      posSet ==> pos <= |buffer|
    }

    constructor ()
      ensures Valid() && buffer == [] && !posSet
    {
      buffer := [];
      posSet := false;
    }

    /** `append`: the bytes go at the end, in order. */
    method Append(message: string)
      requires Valid()
      modifies this
      ensures Valid()
      ensures buffer == old(buffer) + message
      ensures pos == old(pos) && posSet == old(posSet)
    {
      buffer := buffer + message;
    }

    /** `peek`: parse the header at the front with a cursor; on success return
        the body and remember where it ends, otherwise return nothing and
        leave `pos` alone. The buffer itself is never changed. */
    method Peek() returns (message: string)
      requires Valid()
      modifies this
      ensures Valid()
      ensures buffer == old(buffer)
      ensures PeekSpec(buffer).Some? ==>
                message == PeekSpec(buffer).value.message && pos == PeekSpec(buffer).value.end && posSet
      ensures PeekSpec(buffer).None? ==> message == [] && pos == old(pos) && posSet == old(posSet)
    {
      message := [];
      if !(|ContentLength| <= |buffer| && buffer[..|ContentLength|] == ContentLength) {
        return;
      }
      var failed, length, digits := ConsumeInteger(buffer[|ContentLength|..]);
      HeaderAtCursor(buffer, failed, length, digits);
      if failed {
        return;
      }
      var start := |ContentLength| + digits;
      if !(start + |HeaderEnd| <= |buffer| && buffer[start..start + |HeaderEnd|] == HeaderEnd) {
        return;
      }
      var size := start + |HeaderEnd|;
      if |buffer| - size < length {
        return;
      }
      message := buffer[size..size + length];
      pos := size + length;
      posSet := true;
    }

    /** `consume`: drop the bytes of the peeked message; the rest stays, in
        order. Requires that `pos` has been set (by a successful `peek`). */
    method Consume()
      requires Valid() && posSet
      modifies this
      ensures Valid() && posSet
      ensures buffer == old(buffer)[old(pos)..]
      ensures pos == 0
    {
      buffer := buffer[pos..];
      pos := 0;
    }
  }

  /** `StringRef::consumeInteger` in radix 10 into a `size_t`: read the
      maximal run of decimal digits; fail when it is empty or its value does
      not fit. On success, report the value and how many characters it used. */
  method ConsumeInteger(str: string) returns (failed: bool, value: nat, consumed: nat)
    ensures failed <==> DigitRun(str) == 0 || DecimalValue(str[..DigitRun(str)]) > MaxSize
    ensures !failed ==> consumed == DigitRun(str) && value == DecimalValue(str[..consumed])
  {
    value, consumed := 0, 0;
    while consumed < |str| && IsDigit(str[consumed])
      invariant consumed <= |str| && AllDigits(str[..consumed])
      invariant value == DecimalValue(str[..consumed]) <= MaxSize
    {
      assert str[..consumed + 1][..consumed] == str[..consumed];
      var next := value * 10 + DigitValue(str[consumed]);
      if next > MaxSize {
        // The whole run denotes at least as much as this prefix.
        DigitRunAtLeast(str, consumed + 1);
        var run := str[..DigitRun(str)];
        DecimalValuePrefix(run, consumed + 1, |run|);
        assert run[..consumed + 1] == str[..consumed + 1];
        assert run[..|run|] == run;
        return true, 0, 0;
      }
      value := next;
      consumed := consumed + 1;
    }
    DigitRunIsMaximal(str, consumed);
    failed := consumed == 0;
  }

  /** The digit-run length of `s` is `n` when the first `n` characters are
      digits and the next one is not. */
  lemma DigitRunIsMaximal(s: string, n: nat)
    requires n <= |s| && AllDigits(s[..n])
    ensures n <= DigitRun(s)
    ensures n < |s| && !IsDigit(s[n]) ==> DigitRun(s) == n
    ensures n == |s| ==> DigitRun(s) == n
  {
    if n == |s| || !IsDigit(s[n]) {
      DigitRunOfDigits(s[..n], s[n..]);
      assert s[..n] + s[n..] == s;
    }
    DigitRunAtLeast(s, n);
  }

  lemma {:induction false} DigitRunAtLeast(s: string, n: nat)
    requires n <= |s| && AllDigits(s[..n])
    ensures n <= DigitRun(s)
    decreases n
  {
    if n > 0 {
      assert s[1..][..n - 1] == s[..n][1..];
      DigitRunAtLeast(s[1..], n - 1);
    }
  }

  /** What `on_read` did with one read. */
  datatype ReadOutcome =
    | Ignored                   // nread == 0
    | Waiting                   // bytes kept; no non-empty message complete yet
    | Dispatched(message: string) // a message was handed to the callback's task
    | ParseFailed(message: string) // the message is not JSON: fatal
    | EndOfStream               // the client closed the stream: the handle is closed
    | ReadFailed(code: int)     // a read error: fatal

  /** `on_read`: append what was read; if a non-empty message is complete and
      parses, start the callback's task `core` on the scheduler and consume
      the message. JSON parsing is the oracle `parses`. */
  method OnRead(buf: MessageBuffer, rt: AsyncRuntime.Runtime, nread: int, data: string,
                parses: string -> bool, core: AsyncRuntime.TaskId)
    returns (outcome: ReadOutcome)
    requires buf.Valid() && rt.Valid()
    requires nread > 0 ==> |data| == nread
    modifies buf, rt
    ensures buf.Valid() && rt.Valid()
    ensures nread == 0 ==> outcome == Ignored
    ensures nread < 0 ==> outcome == (if nread == UvEof then EndOfStream else ReadFailed(nread))
    ensures nread <= 0 ==> unchanged(buf) && unchanged(rt)
    ensures nread > 0 ==>
              var p := PeekSpec(old(buf.buffer) + data);
              if p.None? || p.value.message == [] then
                outcome == Waiting && buf.buffer == old(buf.buffer) + data && unchanged(rt)
              else if parses(p.value.message) then
                outcome == Dispatched(p.value.message)
                && buf.buffer == (old(buf.buffer) + data)[p.value.end..] && buf.pos == 0
                && rt.tasks == old(rt.tasks) + [core]
                && rt.idleRunning == (old(rt.idleRunning) || (rt.loopSet && old(rt.tasks) == []))
                && rt.trace == old(rt.trace)
                               + (if old(rt.loopSet && !rt.idleRunning && rt.tasks == []) then [AsyncRuntime.IdleStarted] else [])
                && rt.loopSet == old(rt.loopSet) && rt.handles == old(rt.handles)
              else
                outcome == ParseFailed(p.value.message)
                && buf.buffer == old(buf.buffer) + data && unchanged(rt)
    ensures nread > 0 && PeekSpec(old(buf.buffer) + data).None? ==> buf.pos == old(buf.pos) && buf.posSet == old(buf.posSet)
    ensures nread > 0 && PeekSpec(old(buf.buffer) + data).Some? ==> buf.posSet
    ensures nread > 0 && PeekSpec(old(buf.buffer) + data).Some? && !outcome.Dispatched? ==>
              buf.pos == PeekSpec(old(buf.buffer) + data).value.end
  {
    if nread > 0 {
      buf.Append(data);
      var message := buf.Peek();
      if message != [] {
        if parses(message) {
          rt.Schedule(core);
          buf.Consume();
          outcome := Dispatched(message);
        } else {
          outcome := ParseFailed(message);
        }
      } else {
        outcome := Waiting;
      }
    } else if nread < 0 {
      outcome := if nread == UvEof then EndOfStream else ReadFailed(nread);
    } else {
      outcome := Ignored;
    }
  }

  /** A framed non-empty body that parses, followed by any bytes, arriving in
      one read on an empty buffer: `on_read` dispatches exactly the body,
      schedules the callback's task, and keeps exactly the trailing bytes. */
  method DeliverFrame(body: string, rest: string) returns (outcome: ReadOutcome, remaining: string)
    requires 0 < |body| <= MaxSize
    ensures outcome == Dispatched(body)
    ensures remaining == rest
  {
    var buf := new MessageBuffer();
    var rt := new AsyncRuntime.Runtime();
    var data := Frame(body) + rest;
    PeekFrame(body, rest);
    assert [] + data == data;
    outcome := OnRead(buf, rt, |data|, data, _ => true, 1);
    remaining := buf.buffer;
    assert data[|Frame(body)|..] == rest;
  }
}
