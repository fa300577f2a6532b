/**
 The transparent PostgreSQL proxy (cmd/db-proxy/main.go): both directions are copied byte for byte while the frames of
 section 55.7 of the PostgreSQL 16 documentation are recognised on the way.
 */
module Proxy {
  import opened Wrappers

  type Byte = b: int | 0 <= b < 256

  type Bytes = seq<Byte>

  const Q: Byte := 0x51
  const P: Byte := 0x50
  const B: Byte := 0x42
  const Z: Byte := 0x5A
  const S: Byte := 0x53
  const N: Byte := 0x4E

  // ---------------------------------------------------------------- frames

  /** Type byte, then a big-endian length that counts itself, then the body. */
  datatype Frame = Frame(kind: Byte, body: Bytes)

  function Big(s: Bytes): (n: nat)
    requires |s| == 4
    ensures n < 0x1_0000_0000
  {
    var a: int, b: int, c: int, d: int := s[0], s[1], s[2], s[3];
    a * 0x100_0000 + b * 0x1_0000 + c * 0x100 + d
  }

  function BigBytes(n: nat): (s: Bytes)
    requires n < 0x1_0000_0000
    ensures |s| == 4
  {
    [n / 0x100_0000, n / 0x1_0000 % 0x100, n / 0x100 % 0x100, n % 0x100]
  }

  lemma BigRoundTrip(n: nat)
    requires n < 0x1_0000_0000
    ensures Big(BigBytes(n)) == n
  {
    var a, b, c := n / 0x100, n / 0x1_0000, n / 0x100_0000;
    assert n == a * 0x100 + n % 0x100;
    assert a == b * 0x100 + a % 0x100;
    assert b == c * 0x100 + b % 0x100;
  }

  lemma BytesRoundTrip(s: Bytes)
    requires |s| == 4
    ensures BigBytes(Big(s)) == s
  {
    var n := Big(s);
    var a: int, b: int, c: int := s[0], s[1], s[2];
    assert n / 0x100_0000 == a;
    assert n / 0x1_0000 == a * 0x100 + b;
    assert n / 0x100 == a * 0x1_0000 + b * 0x100 + c;
  }

  predicate Sized(f: Frame) { |f.body| + 4 < 0x1_0000_0000 }

  function Encode(f: Frame): Bytes
    requires Sized(f)
  {
    [f.kind] + BigBytes(|f.body| + 4) + f.body
  }

  predicate AllSized(fs: seq<Frame>) { forall i :: 0 <= i < |fs| ==> Sized(fs[i]) }

  function EncodeAll(fs: seq<Frame>): Bytes
    requires AllSized(fs)
  {
    if fs == [] then [] else Encode(fs[0]) + EncodeAll(fs[1..])
  }

  /** The transaction status of every ReadyForQuery frame that has one, in order. */
  function Statuses(fs: seq<Frame>): Bytes {
    if fs == [] then []
    else (if fs[0].kind == Z && fs[0].body != [] then [fs[0].body[0]] else []) + Statuses(fs[1..])
  }

  // ---------------------------------------------------------------- what is written and reported

  /** What the relay of a stream writes, and the callback arguments. */
  datatype Relayed = Relayed(written: Bytes, calls: Bytes)

  function Then(written: Bytes, calls: Bytes, rest: Relayed): Relayed {
    Relayed(written + rest.written, calls + rest.calls)
  }

  lemma ThenLaws(w: Bytes, c: Bytes, w': Bytes, c': Bytes, rest: Relayed)
    ensures Then([], [], rest) == rest && Then(w, c, Then(w', c', rest)) == Then(w + w', c + c', rest)
  {
    assert [] + rest.written == rest.written && [] + rest.calls == rest.calls;
    assert w + (w' + rest.written) == w + w' + rest.written;
    assert c + (c' + rest.calls) == c + c' + rest.calls;
  }

  /** parseMessages on all that is left of the stream. */
  function Messages(s: Bytes): Relayed
    decreases |s|
  {
    if |s| < 5 then Relayed([], [])
    else
      var length := Big(s[1..5]);
      if length < 4 then Relayed(s, [])
      else
        var size := length + 1;
        if |s| < size then Relayed(s[..5], [])
        else Then(s[..size], if s[0] == Z && size > 5 then [s[5]] else [], Messages(s[size..]))
  }

  /** parseBackend. */
  function Backend(s: Bytes): Relayed {
    if s == [] then Relayed([], [])
    else if s[0] == S then Relayed(s, [])
    else if s[0] == N then Then([N], [], Messages(s[1..]))
    else Messages(s)
  }

  /**
   The message that starts at `p` is not complete in `s`, and only what was read of it since the last write is missing
   from `written`: part of its header, or part of its body.
   */
  predicate Lags(s: Bytes, written: Bytes, p: nat) {
    p <= |written| <= |s| && written == s[..|written|] &&
    ((|written| == p && |s| - p < 5) ||
     (|written| == p + 5 && 4 <= Big(s[p + 1..p + 5]) && |s| - p < Big(s[p + 1..p + 5]) + 1))
  }

  /** The frame at the front of a stream that has all of it. */
  lemma FirstFrame(s: Bytes) returns (f: Frame)
    requires |s| >= 5 && 4 <= Big(s[1..5]) && |s| >= Big(s[1..5]) + 1
    ensures Sized(f) && Encode(f) == s[..Big(s[1..5]) + 1]
  {
    hide Big, BigBytes;
    var size := Big(s[1..5]) + 1;
    f := Frame(s[0], s[5..size]);
    BytesRoundTrip(s[1..5]);
    assert [s[0]] + s[1..5] + s[5..size] == s[..size];
  }

  lemma FrameFirst(f: Frame, fs: seq<Frame>)
    requires Sized(f) && AllSized(fs)
    ensures AllSized([f] + fs) && EncodeAll([f] + fs) == Encode(f) + EncodeAll(fs)
  {
    hide Encode;
    assert ([f] + fs)[1..] == fs;
  }

  /** What is written is what was read, except for part of one unfinished message after whole frames. */
  lemma {:induction false} MessagesTransparent(s: Bytes) returns (p: nat, fs: seq<Frame>)
    ensures AllSized(fs)
    ensures Messages(s).written == s || (Lags(s, Messages(s).written, p) && s[..p] == EncodeAll(fs))
    decreases |s|
  {
    hide Big, Encode, Sized, EncodeAll;
    p, fs := 0, [];
    NoFrames();
    if |s| >= 5 && Big(s[1..5]) >= 4 && |s| >= Big(s[1..5]) + 1 {
      var size := Big(s[1..5]) + 1;
      var rest, out := s[size..], Messages(s[size..]).written;
      var r, more := MessagesTransparent(rest);
      var f := FirstFrame(s);
      FrameFirst(f, more);
      p, fs := size + r, [f] + more;
      assert s == s[..size] + rest;
      if out != rest {
        LagsLater(s, size, out, r);
        assert s[..p] == s[..size] + rest[..r];
      }
    }
  }

  lemma NoFrames()
    ensures AllSized([]) && EncodeAll([]) == []
  {
  }

  lemma LagsLater(s: Bytes, size: nat, out: Bytes, r: nat)
    requires size <= |s| && Lags(s[size..], out, r)
    ensures Lags(s, s[..size] + out, size + r)
  {
    hide Big;
    var rest := s[size..];
    assert s[..size] + out == s[..size + |out|];
    if |out| == r + 5 {
      assert s[size + r + 1..size + r + 5] == rest[r + 1..r + 5];
    }
  }

  /** The same behind the answer to an SSL request, if the stream starts with one. */
  lemma BackendTransparent(s: Bytes) returns (p: nat, fs: seq<Frame>)
    ensures AllSized(fs)
    ensures Backend(s).written == s ||
      (Lags(s, Backend(s).written, p) && s[..p] == (if s[0] == N then [N] else []) + EncodeAll(fs))
  {
    hide Messages, Lags, EncodeAll, Sized;
    p, fs := 0, [];
    if s == [] {
    } else if s[0] == N {
      var r;
      r, fs := MessagesTransparent(s[1..]);
      p := 1 + r;
      var out := Messages(s[1..]).written;
      assert s == s[..1] + s[1..] && s[..1] == [N];
      if out != s[1..] {
        LagsLater(s, 1, out, r);
        assert s[..p] == s[..1] + s[1..][..r] by { LagsInside(s[1..], out, r); }
      }
    } else if s[0] != S {
      p, fs := MessagesTransparent(s);
      assert [] + EncodeAll(fs) == EncodeAll(fs);
    }
  }

  lemma LagsInside(s: Bytes, written: Bytes, p: nat)
    requires Lags(s, written, p)
    ensures p <= |s|
  {
    hide Big;
  }

  lemma FrameRelayed(f: Frame, rest: Bytes)
    requires Sized(f)
    ensures Messages(Encode(f) + rest) ==
      Then(Encode(f), if f.kind == Z && f.body != [] then [f.body[0]] else [], Messages(rest))
  {
    hide Big, BigBytes;
    var e := Encode(f);
    var s := e + rest;
    BigRoundTrip(|f.body| + 4);
    assert s[0] == f.kind && s[1..5] == BigBytes(|f.body| + 4);
    assert s[..|e|] == e && s[|e|..] == rest;
    assert f.body != [] ==> s[5] == f.body[0];
  }

  /** Whole frames are forwarded whole, with one call for each status in order; what follows is relayed as by itself. */
  lemma {:induction false} FramesRelayed(fs: seq<Frame>, rest: Bytes)
    requires AllSized(fs)
    ensures Messages(EncodeAll(fs) + rest) == Then(EncodeAll(fs), Statuses(fs), Messages(rest))
  {
    hide Messages, Encode;
    if fs == [] {
      assert [] + rest == rest;
      ThenLaws([], [], [], [], Messages(rest));
    } else {
      FramesRelayed(fs[1..], rest);
      FrameRelayed(fs[0], EncodeAll(fs[1..]) + rest);
      assert EncodeAll(fs) + rest == Encode(fs[0]) + (EncodeAll(fs[1..]) + rest);
      ThenLaws(Encode(fs[0]), if fs[0].kind == Z && fs[0].body != [] then [fs[0].body[0]] else [],
               EncodeAll(fs[1..]), Statuses(fs[1..]), Messages(rest));
    }
  }

  /** Every byte of a stream of frames is written and every status reported. */
  predicate Exact(fs: seq<Frame>)
    requires AllSized(fs)
  {
    Backend(EncodeAll(fs)) == Relayed(EncodeAll(fs), Statuses(fs))
  }

  /** A refused negotiation, then frames. */
  lemma NegotiationRefused(fs: seq<Frame>)
    requires AllSized(fs)
    ensures Backend([N] + EncodeAll(fs)) == Relayed([N] + EncodeAll(fs), Statuses(fs))
  {
    hide Messages, Encode, EncodeAll, Statuses;
    var s := EncodeAll(fs);
    assert ([N] + s)[1..] == s && s + [] == s;
    FramesRelayed(fs, []);
    assert Messages([]) == Relayed([], []) by { NothingLeft(); }
    assert Statuses(fs) + [] == Statuses(fs) && [] + Statuses(fs) == Statuses(fs);
  }

  lemma NothingLeft()
    ensures Messages([]) == Relayed([], [])
  {
  }

  lemma FramesExact(fs: seq<Frame>)
    requires AllSized(fs) && fs != [] && fs[0].kind != S && fs[0].kind != N
    ensures Exact(fs)
  {
    hide Messages, Statuses, BigBytes;
    var s := EncodeAll(fs);
    assert s[0] == fs[0].kind;
    assert s + [] == s;
    FramesRelayed(fs, []);
    NothingLeft();
    assert Statuses(fs) + [] == Statuses(fs);
  }

  /** A ReadyForQuery frame reporting an idle session. */
  const READY := Frame(Z, [0x49])

  /** A parameter status first: everything is copied, nothing reported. */
  lemma StatusFirstMissed()
    ensures AllSized([Frame(S, []), READY]) && !Exact([Frame(S, []), READY])
  {
    hide BigBytes;
    var fs := [Frame(S, []), READY];
    assert fs[1..] == [READY];
    assert EncodeAll(fs)[0] == S;
    assert Statuses([READY]) == [0x49];
  }

  /** A notice first, taken for a refused negotiation: its length is held back. */
  lemma NoticeFirstMissed()
    ensures AllSized([Frame(N, [])]) && !Exact([Frame(N, [])])
  {
    var fs := [Frame(N, [])];
    var s := EncodeAll(fs);
    var e := Encode(Frame(N, []));
    assert fs[1..] == [] && AllSized(fs[1..]) && EncodeAll(fs[1..]) == [];
    assert s == e + [] && e + [] == e;
    assert |s| == 5 && s[0] == N;
    assert |Messages(s[1..]).written| == 0;
  }

  /**
   parseBackend takes the first byte for the answer to an SSL request.  Streams of frames are relayed exactly, whatever
   they hold, for precisely the first types that cannot be mistaken for one.
   */
  lemma FirstTypeDecides(kind: Byte)
    ensures (forall fs: seq<Frame> :: AllSized(fs) && fs != [] && fs[0].kind == kind ==> Exact(fs)) <==> kind != S && kind != N
  {
    hide Exact;
    if kind == S {
      StatusFirstMissed();
      assert [Frame(S, []), READY][0].kind == S;
    } else if kind == N {
      NoticeFirstMissed();
      assert [Frame(N, [])][0].kind == N;
    } else {
      forall fs: seq<Frame> | AllSized(fs) && fs != [] && fs[0].kind == kind ensures Exact(fs) {
        FramesExact(fs);
      }
    }
  }

  // ---------------------------------------------------------------- client messages

  /** Startup messages have no type byte; their length starts with a zero byte. */
  datatype Message = Startup(payload: Bytes) | Typed(frame: Frame)

  predicate MessageOk(m: Message) {
    match m
    case Startup(payload) => |payload| + 4 < 0x100_0000
    case Typed(f) => f.kind != 0 && Sized(f)
  }

  function EncodeMessage(m: Message): Bytes
    requires MessageOk(m)
  {
    match m
    case Startup(payload) => BigBytes(|payload| + 4) + payload
    case Typed(f) => Encode(f)
  }

  predicate AllOk(ms: seq<Message>) { forall i :: 0 <= i < |ms| ==> MessageOk(ms[i]) }

  function EncodeMessages(ms: seq<Message>): Bytes
    requires AllOk(ms)
  {
    if ms == [] then [] else EncodeMessage(ms[0]) + EncodeMessages(ms[1..])
  }

  predicate Starts(kind: Byte) { kind == Q || kind == P || kind == B }

  /** The messages that begin a query cycle, in order, by type. */
  function Queries(ms: seq<Message>): Bytes {
    if ms == [] then []
    else (if ms[0].Typed? && Starts(ms[0].frame.kind) then [ms[0].frame.kind] else []) + Queries(ms[1..])
  }

  /** The bytes read before the rest of a message's size is known. */
  function Head(s: Bytes): nat
    requires s != []
  {
    if s[0] == 0 then 4 else 5
  }

  /** A typed message may announce less than its own length field; startup messages are at least that long. */
  function Announced(s: Bytes): nat
    requires s != [] && |s| >= Head(s)
  {
    if s[0] == 0 then (if Big(s[..4]) < 4 then 4 else Big(s[..4])) else Big(s[1..5])
  }

  predicate Malformed(s: Bytes)
    requires s != [] && |s| >= Head(s)
  {
    s[0] != 0 && Announced(s) < 4
  }

  function SizeOf(s: Bytes): (n: nat)
    requires s != [] && |s| >= Head(s) && !Malformed(s)
    ensures n >= Head(s)
  {
    if s[0] == 0 then Announced(s) else Announced(s) + 1
  }

  /** parseClientQueries on all that is left of the stream; the calls are logged with the type that caused them. */
  function Client(s: Bytes): Relayed
    decreases |s|
  {
    if s == [] || |s| < Head(s) then Relayed([], [])
    else if Malformed(s) then Relayed(s, [])
    else if |s| < SizeOf(s) then Relayed(s[..Head(s)], [])
    else Then(s[..SizeOf(s)], if Starts(s[0]) then [s[0]] else [], Client(s[SizeOf(s)..]))
  }

  /** As for the backend: at most part of one unfinished message is missing. */
  predicate ClientLags(s: Bytes, written: Bytes, p: nat) {
    p <= |written| <= |s| && written == s[..|written|] && p < |s| &&
    var m := s[p..];
    if |m| < Head(m) then |written| == p else !Malformed(m) && |written| == p + Head(m) && |m| < SizeOf(m)
  }

  /** One client message as far as its own header says. */
  predicate WholeMessage(m: Bytes) {
    m != [] && |m| >= Head(m) && !Malformed(m) && |m| == SizeOf(m)
  }

  predicate WholeMessages(ms: seq<Bytes>) { forall i :: 0 <= i < |ms| ==> WholeMessage(ms[i]) }

  function Together(ms: seq<Bytes>): Bytes { if ms == [] then [] else ms[0] + Together(ms[1..]) }

  lemma FirstMessage(s: Bytes)
    requires s != [] && |s| >= Head(s) && !Malformed(s) && |s| >= SizeOf(s)
    ensures WholeMessage(s[..SizeOf(s)])
  {
    hide Big;
    var m := s[..SizeOf(s)];
    assert m[0] == s[0];
    if s[0] == 0 {
      assert m[..4] == s[..4];
    } else {
      assert m[1..5] == s[1..5];
    }
  }

  lemma {:induction false} ClientTransparent(s: Bytes) returns (p: nat, ms: seq<Bytes>)
    ensures WholeMessages(ms)
    ensures Client(s).written == s || (ClientLags(s, Client(s).written, p) && s[..p] == Together(ms))
    decreases |s|
  {
    hide Announced, Starts, Malformed, SizeOf, WholeMessage;
    p, ms := 0, [];
    assert s[0..] == s;
    if s != [] && |s| >= Head(s) && !Malformed(s) && |s| >= SizeOf(s) {
      var size := SizeOf(s);
      var rest, out := s[size..], Client(s[size..]).written;
      var r, more := ClientTransparent(rest);
      FirstMessage(s);
      p, ms := size + r, [s[..size]] + more;
      assert ms[1..] == more;
      assert s == s[..size] + rest;
      if out != rest {
        ClientLagsLater(s, size, out, r);
        assert s[..p] == s[..size] + rest[..r];
      }
    }
  }

  lemma ClientLagsLater(s: Bytes, size: nat, out: Bytes, r: nat)
    requires size <= |s| && ClientLags(s[size..], out, r)
    ensures ClientLags(s, s[..size] + out, size + r)
  {
    hide Announced, Malformed, SizeOf;
    assert s[..size] + out == s[..size + |out|];
    assert s[size..][r..] == s[size + r..];
  }

  lemma StartupByte(n: nat)
    requires n < 0x100_0000
    ensures BigBytes(n)[0] == 0
  {
  }

  lemma MessageRelayed(m: Message, rest: Bytes)
    requires MessageOk(m)
    ensures Client(EncodeMessage(m) + rest) ==
      Then(EncodeMessage(m), if m.Typed? && Starts(m.frame.kind) then [m.frame.kind] else [], Client(rest))
  {
    hide Big, BigBytes;
    var e := EncodeMessage(m);
    var s := e + rest;
    match m
    case Startup(payload) =>
      BigRoundTrip(|payload| + 4);
      StartupByte(|payload| + 4);
      assert s[..4] == BigBytes(|payload| + 4) && s[0] == 0;
      assert s[..|e|] == e && s[|e|..] == rest;
    case Typed(f) =>
      BigRoundTrip(|f.body| + 4);
      assert s[0] == f.kind && s[1..5] == BigBytes(|f.body| + 4);
      assert s[..|e|] == e && s[|e|..] == rest;
  }

  /** Startup and typed messages are forwarded whole, with one call for each that begins a query cycle, in order. */
  lemma {:induction false} ClientMessagesRelayed(ms: seq<Message>, rest: Bytes)
    requires AllOk(ms)
    ensures Client(EncodeMessages(ms) + rest) == Then(EncodeMessages(ms), Queries(ms), Client(rest))
  {
    hide Client, EncodeMessage, Starts;
    if ms == [] {
      assert [] + rest == rest;
      ThenLaws([], [], [], [], Client(rest));
    } else {
      ClientMessagesRelayed(ms[1..], rest);
      MessageRelayed(ms[0], EncodeMessages(ms[1..]) + rest);
      assert EncodeMessages(ms) + rest == EncodeMessage(ms[0]) + (EncodeMessages(ms[1..]) + rest);
      ThenLaws(EncodeMessage(ms[0]), if ms[0].Typed? && Starts(ms[0].frame.kind) then [ms[0].frame.kind] else [],
               EncodeMessages(ms[1..]), Queries(ms[1..]), Client(rest));
    }
  }

  // ---------------------------------------------------------------- the copying loops

  /** The two ends of one direction.  Reads past the end of `input` consume what is left and fail. */
  class Connection {
    const input: Bytes
    var at: nat
    var output: Bytes
    var calls: Bytes

    ghost predicate Valid()
      reads this
    {
      at <= |input|
    }

    constructor (input: Bytes)
      ensures this.input == input && at == 0 && output == [] && calls == [] && Valid()
    {
      this.input := input;
      at, output, calls := 0, [], [];
    }

    /** io.ReadFull into buf[from..to]. */
    method ReadFull(buf: array<Byte>, from: nat, to: nat) returns (ok: bool)
      requires Valid() && from <= to <= buf.Length
      modifies this`at, buf
      ensures Valid() && ok == (to - from <= |input| - old(at))
      ensures buf[..from] == old(buf[..from])
      ensures ok ==> at == old(at) + (to - from) && buf[from..to] == input[old(at)..at]
    {
      if |input| - at < to - from {
        at := |input|;
        return false;
      }
      var start := at;
      for i := from to to
        invariant at == start && buf[..from] == old(buf[..from])
        invariant buf[from..i] == input[start..start + (i - from)]
      {
        buf[i] := input[start + (i - from)];
      }
      at := start + (to - from);
      return true;
    }

    /** dst.Write(buf[..n]). */
    method Write(buf: array<Byte>, n: nat)
      requires n <= buf.Length
      modifies this`output
      ensures output == old(output) + buf[..n]
    {
      output := output + buf[..n];
    }

    /** io.Copy of everything left. */
    method Copy()
      requires Valid()
      modifies this`at, this`output
      ensures Valid() && output == old(output) + input[old(at)..]
    {
      output := output + input[at..];
      at := |input|;
    }

    /** What the connection holds once the rest of the input has been relayed so. */
    ghost function After(r: Relayed): Relayed
      reads this
    {
      Then(output, calls, r)
    }

    /** Grow the body buffer, as the source does when it is too small. */
    method Room(body: array<Byte>, n: nat) returns (room: array<Byte>)
      ensures room.Length >= n && (room == body || fresh(room))
    {
      room := body;
      if body.Length < n {
        room := new Byte[n](_ => 0);
      }
    }

    /** Read and forward `n` body bytes. */
    method Body(body: array<Byte>, n: nat) returns (room: array<Byte>, ok: bool)
      requires Valid()
      modifies this`at, this`output, body
      ensures Valid() && (room == body || fresh(room)) && ok == (n <= |input| - old(at))
      ensures if ok then at == old(at) + n && output == old(output) + input[old(at)..at] else output == old(output)
      ensures ok ==> room.Length >= n && room[..n] == input[old(at)..at]
    {
      room := Room(body, n);
      ok := ReadFull(room, 0, n);
      if ok {
        assert room[0..n] == room[..n];
        Write(room, n);
      }
    }

    /** One turn of the loop of parseMessages. */
    method MessageTurn(hdr: array<Byte>, body: array<Byte>) returns (room: array<Byte>, more: bool)
      requires Valid() && hdr.Length == 5 && hdr != body
      modifies this, hdr, body
      ensures Valid() && (room == body || fresh(room)) && (more ==> at > old(at))
      ensures (if more then After(Messages(input[at..])) else Relayed(output, calls)) == old(After(Messages(input[at..])))
    {
      hide Messages, Big;
      room, more := body, false;
      ghost var s, out, said, from := input[at..], output, calls, at;
      MessagesStep(s, out, said);
      var ok := ReadFull(hdr, 0, 5);
      if !ok {
        return;
      }
      assert hdr[..] == hdr[0..5] == s[..5];
      SameHead(hdr[..], s, 5);
      Write(hdr, 5);
      assert output == out + s[..5];
      var length := Big(hdr[1..5]);
      if length < 4 {
        Copy();
        assert output == out + s;
        return;
      }
      var n := length - 4;
      room, more := Body(body, n);
      if !more {
        return;
      }
      Spliced(input, out, from, from + 5, at);
      if hdr[0] == Z && n >= 1 {
        BodyFirst(input, room[..], from, n);
        calls := calls + [room[0]];
      }
    }

    /** parseMessages. */
    method ParseMessages()
      requires Valid()
      modifies this
      ensures Relayed(output, calls) == old(After(Messages(input[at..])))
    {
      hide Messages, After;
      var hdr := new Byte[5](_ => 0);
      var body := new Byte[4096](_ => 0);
      ghost var goal := After(Messages(input[at..]));
      var more := true;
      while more
        invariant Valid() && fresh(hdr) && fresh(body) && hdr.Length == 5 && hdr != body
        invariant (if more then After(Messages(input[at..])) else Relayed(output, calls)) == goal
        decreases more, |input| - at
      {
        body, more := MessageTurn(hdr, body);
      }
    }

    /** parseBackend; a first byte that answers no SSL request is put back in front of the stream. */
    method ParseBackend()
      requires Valid()
      modifies this
      ensures Relayed(output, calls) == old(After(Backend(input[at..])))
    {
      hide Messages;
      var first := new Byte[1](_ => 0);
      ghost var s, out, said := input[at..], output, calls;
      assert out + [] == out && said + [] == said;
      var ok := ReadFull(first, 0, 1);
      if !ok {
        return;
      }
      assert first[..] == first[0..1] == [s[0]];
      if first[0] == S {
        Write(first, 1);
        Copy();
        assert output == out + s;
      } else if first[0] == N {
        Write(first, 1);
        ThenLaws(out, said, [N], [], Messages(s[1..]));
        assert input[at..] == s[1..];
        ParseMessages();
      } else {
        at := at - 1;
        ParseMessages();
      }
    }

    /** The first byte of a client message, then the rest of its header. */
    method ReadHead(hdr: array<Byte>) returns (ok: bool, head: nat)
      requires Valid() && hdr.Length == 5
      modifies this`at, hdr
      ensures Valid() && head <= 5
      ensures ok <==> old(at) < |input| && |input[old(at)..]| >= Head(input[old(at)..])
      ensures ok ==> head == Head(input[old(at)..]) && at == old(at) + head && hdr[..head] == input[old(at)..][..head]
    {
      head := 0;
      ok := ReadFull(hdr, 0, 1);
      if ok {
        assert hdr[..1] == hdr[0..1] == input[old(at)..at];
        assert hdr[0] == hdr[..1][0] == input[old(at)];
        head := if hdr[0] == 0 then 4 else 5;
        ok := ReadFull(hdr, 1, head);
        if ok {
          assert hdr[..head] == hdr[..1] + hdr[1..head] == input[old(at)..][..head];
        }
      }
    }

    /** Forward the body of a message whose header of `head` bytes has been read and written. */
    method ForwardBody(kind: Byte, head: nat, body: array<Byte>, n: nat) returns (room: array<Byte>, ok: bool)
      requires Valid() && head <= at
      modifies this, body
      ensures Valid() && (room == body || fresh(room)) && ok == (n <= |input| - old(at))
      ensures ok ==> at == old(at) + n && output == old(output) + input[old(at)..at]
      ensures calls == old(calls) + if ok && Starts(kind) then [kind] else []
      ensures !ok ==> output == old(output)
    {
      hide Starts;
      room, ok := Body(body, n);
      if ok && Starts(kind) {
        calls := calls + [kind];
      }
    }

    /** One turn of the loop of parseClientQueries. */
    method ClientTurn(hdr: array<Byte>, body: array<Byte>) returns (room: array<Byte>, more: bool)
      requires Valid() && hdr.Length == 5 && hdr != body
      modifies this, hdr, body
      ensures Valid() && (room == body || fresh(room)) && (more ==> at > old(at))
      ensures (if more then After(Client(input[at..])) else Relayed(output, calls)) == old(After(Client(input[at..])))
    {
      hide Client, Big, Starts, Malformed, SizeOf, Head;
      room, more := body, false;
      ghost var s, out, said, from := input[at..], output, calls, at;
      ClientStep(s, out, said);
      var ok, head := ReadHead(hdr);
      if !ok {
        return;
      }
      ClientSizes(s);
      SameHead(hdr[..], s, head);
      Write(hdr, head);
      var length := Big(hdr[head - 4..head]);
      if hdr[0] != 0 && length < 4 {
        Copy();
        assert output == out + s;
        return;
      }
      var n := if length < 4 then 0 else length - 4;
      room, more := ForwardBody(hdr[0], head, body, n);
      if more {
        Spliced(input, out, from, from + head, at);
      }
    }

    /** parseClientQueries. */
    method ParseClientQueries()
      requires Valid()
      modifies this
      ensures Relayed(output, calls) == old(After(Client(input[at..])))
    {
      hide Client, After;
      var hdr := new Byte[5](_ => 0);
      var body := new Byte[4096](_ => 0);
      ghost var goal := After(Client(input[at..]));
      var more := true;
      while more
        invariant Valid() && fresh(hdr) && fresh(body) && hdr.Length == 5 && hdr != body
        invariant (if more then After(Client(input[at..])) else Relayed(output, calls)) == goal
        decreases more, |input| - at
      {
        body, more := ClientTurn(hdr, body);
      }
    }
  }

  lemma SameHead(hdr: Bytes, s: Bytes, head: nat)
    requires 4 <= head <= |hdr| && head <= |s| && hdr[..head] == s[..head]
    ensures hdr[0] == s[0] && hdr[head - 4..head] == s[head - 4..head]
  {
    assert hdr[0] == hdr[..head][0] && s[0] == s[..head][0];
    assert hdr[head - 4..head] == hdr[..head][head - 4..] && s[head - 4..head] == s[..head][head - 4..];
  }

  lemma BodyFirst(input: Bytes, body: Bytes, from: nat, n: nat)
    requires 1 <= n <= |body| && from + 5 + n <= |input| && body[..n] == input[from + 5..from + 5 + n]
    ensures body[0] == input[from..][5]
  {
    assert body[0] == body[..n][0];
  }

  /** Two pieces of the input read one after the other, seen from where the first began. */
  lemma Spliced(input: Bytes, out: Bytes, from: nat, mid: nat, to: nat)
    requires from <= mid <= to <= |input|
    ensures out + input[from..][..mid - from] + input[mid..to] == out + input[from..][..to - from]
    ensures input[to..] == input[from..][to - from..]
  {
    var s := input[from..];
    assert input[mid..to] == s[mid - from..to - from];
    assert s[..mid - from] + s[mid - from..to - from] == s[..to - from];
  }

  /** What one turn of the loop of parseMessages has to write and report. */
  lemma MessagesStep(s: Bytes, out: Bytes, said: Bytes)
    ensures |s| < 5 ==> Then(out, said, Messages(s)) == Relayed(out, said)
    ensures |s| >= 5 && Big(s[1..5]) < 4 ==> Then(out, said, Messages(s)) == Relayed(out + s, said)
    ensures |s| >= 5 && Big(s[1..5]) >= 4 && |s| < Big(s[1..5]) + 1 ==>
      Then(out, said, Messages(s)) == Relayed(out + s[..5], said)
    ensures |s| >= 5 && Big(s[1..5]) >= 4 && |s| >= Big(s[1..5]) + 1 ==>
      var size := Big(s[1..5]) + 1;
      Then(out, said, Messages(s)) ==
      Then(out + s[..size], said + if s[0] == Z && size > 5 then [s[5]] else [], Messages(s[size..]))
  {
    hide Big;
    assert out + [] == out && said + [] == said;
    if |s| >= 5 && Big(s[1..5]) >= 4 && |s| >= Big(s[1..5]) + 1 {
      var size := Big(s[1..5]) + 1;
      ThenLaws(out, said, s[..size], if s[0] == Z && size > 5 then [s[5]] else [], Messages(s[size..]));
    }
  }

  /** What one turn of the loop of parseClientQueries has to write and report. */
  lemma ClientStep(s: Bytes, out: Bytes, said: Bytes)
    ensures s == [] || |s| < Head(s) ==> Then(out, said, Client(s)) == Relayed(out, said)
    ensures s != [] && |s| >= Head(s) && Malformed(s) ==> Then(out, said, Client(s)) == Relayed(out + s, said)
    ensures s != [] && |s| >= Head(s) && !Malformed(s) && |s| < SizeOf(s) ==>
      Then(out, said, Client(s)) == Relayed(out + s[..Head(s)], said)
    ensures s != [] && |s| >= Head(s) && !Malformed(s) && |s| >= SizeOf(s) ==>
      Then(out, said, Client(s)) ==
      Then(out + s[..SizeOf(s)], said + if Starts(s[0]) then [s[0]] else [], Client(s[SizeOf(s)..]))
  {
    hide Announced, Starts, Malformed, SizeOf;
    assert out + [] == out && said + [] == said;
    if s != [] && |s| >= Head(s) && !Malformed(s) && |s| >= SizeOf(s) {
      ThenLaws(out, said, s[..SizeOf(s)], if Starts(s[0]) then [s[0]] else [], Client(s[SizeOf(s)..]));
    }
  }

  /** The size in terms of the four bytes just read. */
  lemma ClientSizes(s: Bytes)
    requires s != [] && |s| >= Head(s)
    ensures var length := Big(s[Head(s) - 4..Head(s)]);
      (Malformed(s) <==> s[0] != 0 && length < 4) &&
      (!Malformed(s) ==> SizeOf(s) == Head(s) + if length < 4 then 0 else length - 4)
    ensures 4 <= Head(s) <= 5
  {
    hide Big;
  }
}
