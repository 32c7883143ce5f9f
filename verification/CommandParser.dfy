/** The command loop of a PMAS server connection: bytes come one at a time, texts end with a colon, and a command is
    handed to its handler once its parameters are complete. */
module CommandParser {
  import opened Bytes

  const BUFFER_SIZE: nat := 20480
  const UNLIMITED: nat := 1000
  const COLON: byte := 58

  /** A `RequestHandler *` */
  type Handler = nat

  datatype Registration = Registration(count: nat, handler: Handler)

  /** A handler called with its parameters. */
  datatype Call = Call(handler: Handler, params: seq<CString>)

  /** What one attempt to receive brings. */
  datatype Event = Byte(b: byte) | Nothing | Failure

  /** Between two attempts: the handler whose parameters are being read, how many it still expects, those it has, the
      bytes of the current text, and all calls made so far. */
  datatype State =
    State(handler: Option<Handler>, expected: nat, params: seq<CString>, buffer: seq<byte>, calls: seq<Call>)

  type Registry = map<CString, Registration>

  /** A buffer read as a C string. */
  function Cut(s: seq<byte>): (c: CString)
    ensures 0 !in s ==> c == s
  {
    if s == [] || s[0] == 0 then [] else [s[0]] + Cut(s[1..])
  }

  /** How many more parameters are expected after one. */
  function Expect(expected: nat, param: CString): nat
    requires expected > 0
  {
    if expected == UNLIMITED then (if param == [] then 0 else UNLIMITED) else expected - 1
  }

  /** A handler that expects no more is called. */
  function Dispatch(st: State): State {
    if st.handler.Some? && st.expected == 0
    then State(None, 0, [], st.buffer, st.calls + [Call(st.handler.value, st.params)])
    else st
  }

  /** One text before a colon: a command's name, or a parameter. */
  function Take(st: State, text: CString, reg: Registry): State {
    Dispatch(
      if st.handler.None? then
        if text in reg then st.(handler := Some(reg[text].handler), expected := reg[text].count) else st
      else if st.expected > 0 then
        st.(params := st.params + [text], expected := Expect(st.expected, text))
      else st)
  }

  /** One byte. A full buffer that does not end with a colon is thrown away, and the handler with it. */
  function Feed(st: State, b: byte, reg: Registry): State {
    if b == COLON then Take(st.(buffer := []), Cut(st.buffer), reg)
    else if |st.buffer| + 1 == BUFFER_SIZE then st.(handler := None, buffer := [])
    else st.(buffer := st.buffer + [b])
  }

  function FeedAll(st: State, bytes: seq<byte>, reg: Registry): State
    decreases |bytes|
  {
    if bytes == [] then st else Feed(FeedAll(st, bytes[..|bytes| - 1], reg), bytes[|bytes| - 1], reg)
  }

  /** The bytes that come before a failure. */
  function Heard(events: seq<Event>): seq<byte> {
    if events == [] || events[0].Failure? then []
    else (if events[0].Byte? then [events[0].b] else []) + Heard(events[1..])
  }

  const START: State := State(None, 0, [], [], [])

  // ----- the loop

  class Connection {
    var registry: Registry
    var buffer: array<byte>
    var index: nat
    var handler: Option<Handler>
    var expected: nat
    var params: seq<CString>
    var calls: seq<Call>
    var closed: bool

    ghost predicate Valid()
      reads this, buffer
    {
      buffer.Length == BUFFER_SIZE && index < BUFFER_SIZE
    }

    ghost function Value(): State
      requires Valid()
      reads this, buffer
    {
      State(handler, expected, params, buffer[..index], calls)
    }

    constructor ()
      ensures Valid() && fresh(buffer) && Value() == START && registry == map[] && !closed
    {
      registry, index, handler, expected, params, calls, closed := map[], 0, None, 0, [], [], false;
      buffer := new byte[BUFFER_SIZE](_ => 0);
    }

    /** `RegisterHandler`: a command has one handler. */
    method RegisterHandler(cmd: CString, count: nat, h: Handler) returns (ok: bool)
      modifies this`registry
      ensures ok == (cmd !in old(registry))
      ensures registry == if ok then old(registry)[cmd := Registration(count, h)] else old(registry)
    {
      if cmd in registry {
        return false;
      }
      registry := registry[cmd := Registration(count, h)];
      ok := true;
    }

    /** `strRcv = m_pszRecvBuffer`, once the colon at index - 1 is overwritten */
    method Text() returns (s: CString)
      requires Valid()
      ensures s == Cut(buffer[..index])
    {
      s := Cut(buffer[..index]);
    }

    /** What `HandlerLoop` does with a text. */
    method OnText(text: CString)
      requires Valid()
      modifies this`handler, this`expected, this`params, this`calls
      ensures Value() == Take(old(Value()), text, registry)
    {
      if handler.None? {
        if text in registry {
          handler := Some(registry[text].handler);
          expected := registry[text].count;
        }
      } else if expected > 0 {
        params := params + [text];
        if expected == UNLIMITED {
          if text == [] {
            expected := 0;
          }
        } else {
          expected := expected - 1;
        }
      }
      if handler.Some? && expected == 0 {
        calls := calls + [Call(handler.value, params)];
        params := [];
        handler := None;
        expected := 0;
      }
    }

    /** What `HandlerLoop` does with a byte. */
    method OnByte(b: byte)
      requires Valid()
      modifies this`index, this`handler, this`expected, this`params, this`calls, buffer
      ensures Valid() && Value() == Feed(old(Value()), b, registry)
    {
      ghost var was := buffer[..index];
      buffer[index] := b;
      if index + 1 == BUFFER_SIZE && b != COLON {
        handler := None;
        index := 0;
        // the byte in front of the buffer, which is then compared, belongs to the socket's number and is no colon
      } else if b == COLON {
        assert buffer[..index] == was;
        var text := Text();
        index := 0;
        OnText(text);
      } else {
        index := index + 1;
        assert buffer[..index] == was + [b];
      }
    }

    /** `HandlerLoop`, over what the socket brings */
    method HandlerLoop(events: seq<Event>)
      requires Valid()
      modifies this, buffer
      ensures Valid() && registry == old(registry) && params == []
      ensures calls == FeedAll(old(Value()), Heard(events), registry).calls
    {
      hide Feed, FeedAll, Heard, Cut, Take;
      ghost var st := Value();
      var n := 0;
      FeedNothing(st, registry);
      HeardNothing();
      assert events[..0] == [];
      while n < |events|
        invariant n <= |events| && Valid() && registry == old(registry) && buffer == old(buffer)
        invariant Value() == FeedAll(st, Heard(events[..n]), registry)
        invariant forall i | 0 <= i < n :: !events[i].Failure?
      {
        HeardNext(events, n);
        match events[n] {
          case Byte(b) =>
            FeedOne(st, Heard(events[..n]), b, registry);
            OnByte(b);
          case Nothing =>
            assert Heard(events[..n + 1]) == Heard(events[..n]);
          case Failure =>
            HeardCut(events, n);
            closed := true;
            break;
        }
        n := n + 1;
      }
      assert n == |events| ==> events[..n] == events;
      params := [];
    }
  }

  lemma HeardNothing()
    ensures Heard([]) == []
  {
  }

  lemma FeedOne(st: State, bytes: seq<byte>, b: byte, reg: Registry)
    ensures FeedAll(st, bytes + [b], reg) == Feed(FeedAll(st, bytes, reg), b, reg)
  {
    assert (bytes + [b])[..|bytes|] == bytes;
  }

  lemma {:induction false} HeardNext(events: seq<Event>, n: nat)
    requires n < |events| && forall i | 0 <= i < n :: !events[i].Failure?
    ensures Heard(events[..n + 1]) == Heard(events[..n]) + if events[n].Byte? then [events[n].b] else []
    decreases n
  {
    assert events[..n + 1][1..] == events[1..][..n];
    if n > 0 {
      assert events[..n][1..] == events[1..][..n - 1];
      HeardNext(events[1..], n - 1);
    }
  }

  lemma {:induction false} HeardCut(events: seq<Event>, n: nat)
    requires n < |events| && events[n].Failure? && forall i | 0 <= i < n :: !events[i].Failure?
    ensures Heard(events) == Heard(events[..n])
    decreases n
  {
    if n > 0 {
      assert events[..n][1..] == events[1..][..n - 1];
      HeardCut(events[1..], n - 1);
    }
  }

  // ----- what a command with its parameters becomes

  datatype Request = Request(name: CString, params: seq<CString>)

  /** A text as it is sent. */
  function Rendered(text: CString): seq<byte> {
    text + [COLON]
  }

  function RenderedAll(texts: seq<CString>): seq<byte> {
    if texts == [] then [] else Rendered(texts[0]) + RenderedAll(texts[1..])
  }

  function Stream(requests: seq<Request>): seq<byte> {
    if requests == [] then [] else RenderedAll([requests[0].name] + requests[0].params) + Stream(requests[1..])
  }

  /** A text that fits the buffer together with its colon. */
  predicate Fits(text: CString) {
    COLON !in text && |text| < BUFFER_SIZE
  }

  /** A count takes these parameters, and no more. */
  predicate Accepts(count: nat, params: seq<CString>)
    decreases |params|
  {
    if count == 0 then params == [] else params != [] && Accepts(Expect(count, params[0]), params[1..])
  }

  predicate Proper(r: Request, reg: Registry) {
    && r.name in reg && Fits(r.name)
    && (forall i | 0 <= i < |r.params| :: Fits(r.params[i]))
    && Accepts(reg[r.name].count, r.params)
  }

  function Calls(requests: seq<Request>, reg: Registry): seq<Call>
    requires forall i | 0 <= i < |requests| :: Proper(requests[i], reg)
  {
    if requests == [] then []
    else
      assert Proper(requests[0], reg);
      [Call(reg[requests[0].name].handler, requests[0].params)] + Calls(requests[1..], reg)
  }

  /** Which parameters a count takes: that many, below 1000; from 1000 on, any number that goes beyond the excess over
      1000, ended by the first empty one behind that excess. */
  lemma {:induction false} AcceptsIff(count: nat, params: seq<CString>)
    ensures count < UNLIMITED ==> (Accepts(count, params) <==> |params| == count)
    ensures count >= UNLIMITED ==> (Accepts(count, params) <==>
      && |params| > count - UNLIMITED && params[|params| - 1] == []
      && forall i | count - UNLIMITED <= i < |params| - 1 :: params[i] != [])
    decreases |params|
  {
    if count > 0 && params != [] {
      var next := Expect(count, params[0]);
      AcceptsIff(next, params[1..]);
      if count >= UNLIMITED {
        var k := count - UNLIMITED;
        if |params| == 1 {
        } else {
          assert params[|params| - 1] == params[1..][|params| - 2];
          assert forall i | 1 <= i < |params| :: params[i] == params[1..][i - 1];
          if k > 0 {
            assert forall i | k <= i < |params| - 1 :: params[i] == params[1..][i - 1];
            assert forall i | k - 1 <= i < |params| - 2 :: params[1..][i] == params[i + 1];
          } else if params[0] != [] {
            assert forall i | 0 <= i < |params| - 2 :: params[1..][i] == params[i + 1];
          }
        }
      }
    }
  }

  lemma {:induction false} FeedJoin(st: State, a: seq<byte>, b: seq<byte>, reg: Registry)
    ensures FeedAll(st, a + b, reg) == FeedAll(FeedAll(st, a, reg), b, reg)
    decreases |b|
  {
    if b == [] {
      assert a + b == a;
    } else {
      assert (a + b)[..|a + b| - 1] == a + b[..|b| - 1];
      FeedJoin(st, a, b[..|b| - 1], reg);
    }
  }

  lemma {:induction false} CharactersFed(st: State, text: seq<byte>, reg: Registry)
    requires st.buffer == [] && COLON !in text && |text| < BUFFER_SIZE
    ensures FeedAll(st, text, reg) == st.(buffer := text)
    decreases |text|
  {
    if text != [] {
      var n := |text| - 1;
      CharactersFed(st, text[..n], reg);
      assert text == text[..n] + [text[n]] && text[n] in text;
    }
  }

  /** A text's bytes amount to the text. */
  lemma TextFed(st: State, text: CString, reg: Registry)
    requires st.buffer == [] && Fits(text)
    ensures FeedAll(st, Rendered(text), reg) == Take(st, text, reg)
  {
    CharactersFed(st, text, reg);
    assert Rendered(text)[..|text|] == text;
    assert st.(buffer := text).(buffer := []) == st;
  }

  lemma {:induction false} ParamsFed(st: State, params: seq<CString>, reg: Registry)
    requires st.buffer == [] && st.handler.Some? && st.expected > 0 && Accepts(st.expected, params)
    requires forall i | 0 <= i < |params| :: Fits(params[i])
    ensures FeedAll(st, RenderedAll(params), reg)
      == State(None, 0, [], [], st.calls + [Call(st.handler.value, st.params + params)])
    decreases |params|
  {
    hide Feed, FeedAll;
    var p := params[0];
    FeedJoin(st, Rendered(p), RenderedAll(params[1..]), reg);
    TextFed(st, p, reg);
    var next := Take(st, p, reg);
    assert st.params + params == st.params + [p] + params[1..];
    if Expect(st.expected, p) > 0 {
      ParamsFed(next, params[1..], reg);
    } else {
      assert params[1..] == [] && RenderedAll(params[1..]) == [];
      assert st.params + params == st.params + [p];
      FeedNothing(next, reg);
    }
  }

  lemma FeedNothing(st: State, reg: Registry)
    ensures FeedAll(st, [], reg) == st
  {
  }

  /** A request is one call, with its parameters behind those that a thrown-away command has left. */
  lemma RequestFed(st: State, r: Request, reg: Registry)
    requires st.buffer == [] && st.handler.None? && Proper(r, reg)
    ensures FeedAll(st, RenderedAll([r.name] + r.params), reg)
      == State(None, 0, [], [], st.calls + [Call(reg[r.name].handler, st.params + r.params)])
  {
    hide Feed, FeedAll;
    FeedJoin(st, Rendered(r.name), RenderedAll(r.params), reg);
    assert ([r.name] + r.params)[1..] == r.params;
    TextFed(st, r.name, reg);
    var next := Take(st, r.name, reg);
    if reg[r.name].count == 0 {
      assert r.params == [] && st.params + r.params == st.params;
      FeedNothing(next, reg);
    } else {
      ParamsFed(next, r.params, reg);
    }
  }

  lemma {:induction false} StreamFed(st: State, requests: seq<Request>, reg: Registry)
    requires st.buffer == [] && st.handler.None? && st.params == [] && st.expected == 0
    requires forall i | 0 <= i < |requests| :: Proper(requests[i], reg)
    ensures FeedAll(st, Stream(requests), reg) == st.(calls := st.calls + Calls(requests, reg))
    decreases |requests|
  {
    hide Feed, FeedAll;
    if requests == [] {
      FeedNothing(st, reg);
    } else {
      var r, rest := requests[0], requests[1..];
      assert Proper(r, reg);
      FeedJoin(st, RenderedAll([r.name] + r.params), Stream(rest), reg);
      RequestFed(st, r, reg);
      var call := Call(reg[r.name].handler, r.params);
      assert [] + r.params == r.params;
      StreamFed(st.(calls := st.calls + [call]), rest, reg);
    }
  }

  /** However the bytes of a stream of requests are spread over time, the calls are those requests, in order. */
  lemma StreamParsed(events: seq<Event>, requests: seq<Request>, reg: Registry)
    requires forall i | 0 <= i < |requests| :: Proper(requests[i], reg)
    requires Heard(events) == Stream(requests)
    ensures FeedAll(START, Heard(events), reg) == START.(calls := Calls(requests, reg))
  {
    StreamFed(START, requests, reg);
    assert [] + Calls(requests, reg) == Calls(requests, reg);
  }

  // ----- any bytes at all

  /** Along the way the buffer is never thrown away. */
  predicate NeverFull(st: State, bytes: seq<byte>, reg: Registry) {
    forall n | 0 <= n < |bytes| :: bytes[n] == COLON || |FeedAll(st, bytes[..n], reg).buffer| + 1 < BUFFER_SIZE
  }

  /** The parameters read so far leave this many expected. */
  predicate Pending(count: nat, params: seq<CString>, expected: nat)
    decreases |params|
  {
    if params == [] then expected == count
    else count > 0 && Pending(Expect(count, params[0]), params[1..], expected)
  }

  lemma {:induction false} PendingNext(count: nat, params: seq<CString>, expected: nat, p: CString)
    requires Pending(count, params, expected) && expected > 0
    ensures Pending(count, params + [p], Expect(expected, p))
    decreases |params|
  {
    if params == [] {
      assert [p][1..] == [] && [] + [p] == [p];
    } else {
      assert (params + [p])[1..] == params[1..] + [p];
      PendingNext(Expect(count, params[0]), params[1..], expected, p);
    }
  }

  lemma {:induction false} PendingNone(count: nat, params: seq<CString>)
    requires Pending(count, params, 0)
    ensures Accepts(count, params)
    decreases |params|
  {
    if params != [] {
      PendingNone(Expect(count, params[0]), params[1..]);
    }
  }

  /** A call is one of a registered handler with parameters that its count takes. */
  predicate Served(call: Call, reg: Registry) {
    exists name :: name in reg && reg[name].handler == call.handler && Accepts(reg[name].count, call.params)
  }

  predicate Reading(st: State, reg: Registry) {
    if st.handler.None? then st.params == []
    else
      && st.expected > 0
      && exists name ::
        name in reg && reg[name].handler == st.handler.value && Pending(reg[name].count, st.params, st.expected)
  }

  predicate AllServed(st: State, reg: Registry) {
    Reading(st, reg) && forall i | 0 <= i < |st.calls| :: Served(st.calls[i], reg)
  }

  lemma TakeServes(st: State, text: CString, reg: Registry)
    requires AllServed(st, reg)
    ensures AllServed(Take(st, text, reg), reg)
  {
    if st.handler.None? {
      if text in reg && reg[text].count == 0 {
        assert Accepts(reg[text].count, []);
        assert Served(Call(reg[text].handler, []), reg);
      } else if text in reg {
        assert Pending(reg[text].count, [], reg[text].count);
      }
    } else {
      var name :|
        name in reg && reg[name].handler == st.handler.value && Pending(reg[name].count, st.params, st.expected);
      PendingNext(reg[name].count, st.params, st.expected, text);
      if Expect(st.expected, text) == 0 {
        PendingNone(reg[name].count, st.params + [text]);
        assert Served(Call(st.handler.value, st.params + [text]), reg);
      }
    }
  }

  /** Whatever bytes arrive, as long as the buffer is not thrown away, each call made is one of a registered handler
      with as many parameters as it was registered for. */
  lemma {:induction false} CallsServed(st: State, bytes: seq<byte>, reg: Registry)
    requires AllServed(st, reg) && NeverFull(st, bytes, reg)
    ensures AllServed(FeedAll(st, bytes, reg), reg)
    decreases |bytes|
  {
    if bytes != [] {
      var n := |bytes| - 1;
      assert forall i | 0 <= i < n :: bytes[..n][..i] == bytes[..i];
      CallsServed(st, bytes[..n], reg);
      var before := FeedAll(st, bytes[..n], reg);
      if bytes[n] == COLON {
        TakeServes(before.(buffer := []), Cut(before.buffer), reg);
      }
    }
  }

  /** Throwing the buffer away in the middle of a command keeps the parameters it had: the next request's handler gets
      them in front of its own, so it is called as requested exactly when there were none. */
  lemma ThrownAway(st: State, b: byte, r: Request, reg: Registry)
    requires b != COLON && |st.buffer| + 1 == BUFFER_SIZE && Proper(r, reg)
    ensures var after := FeedAll(Feed(st, b, reg), RenderedAll([r.name] + r.params), reg);
      && after.calls == st.calls + [Call(reg[r.name].handler, st.params + r.params)]
      && (after.calls == st.calls + Calls([r], reg) <==> st.params == [])
  {
    RequestFed(Feed(st, b, reg), r, reg);
    var call, late := Call(reg[r.name].handler, r.params), Call(reg[r.name].handler, st.params + r.params);
    assert [r][1..] == [] && Calls([r], reg) == [call];
    assert (st.calls + [late])[|st.calls|] == late && (st.calls + [call])[|st.calls|] == call;
    assert late == call <==> |st.params| == 0;
  }

  /** A command that takes two parameters gets a third: the one that was read before 20480 bytes without a colon. */
  lemma ThirdParameter() returns (reg: Registry, bytes: seq<byte>)
    ensures var request := RenderedAll([[97], [99], [100]]);
      && Proper(Request([97], [[99], [100]]), reg)
      && FeedAll(START, bytes + request, reg).calls == [Call(7, [[98], [99], [100]])]
  {
    hide Feed, FeedAll, Proper, RenderedAll;
    reg := map[[97] := Registration(2, 7)];
    var r := Request([97], [[99], [100]]);
    ExampleProper(reg);
    var start := Rendered([97]) + Rendered([98]);
    var junk := seq(BUFFER_SIZE - 1, _ => 120);
    TextFed(START, [97], reg);
    var named := Take(START, [97], reg);
    TextFed(named, [98], reg);
    var one := Take(named, [98], reg);
    assert one == State(Some(7), 1, [[98]], [], []);
    FeedJoin(START, Rendered([97]), Rendered([98]), reg);
    CharactersFed(one, junk, reg);
    FeedJoin(START, start, junk, reg);
    var full := one.(buffer := junk);
    FeedOne(START, start + junk, 120, reg);
    bytes := start + junk + [120];
    ThrownAway(full, 120, r, reg);
    assert [r.name] + r.params == [[97], [99], [100]];
    FeedJoin(START, bytes, RenderedAll([[97], [99], [100]]), reg);
    var params: seq<CString> := [[98]];
    assert params + r.params == [[98], [99], [100]];
    assert [] + [Call(7, params + r.params)] == [Call(7, [[98], [99], [100]])];
  }

  lemma ExampleProper(reg: Registry)
    requires reg == map[[97] := Registration(2, 7)]
    ensures Proper(Request([97], [[99], [100]]), reg) && Fits([97]) && Fits([98])
  {
    AcceptsIff(2, [[99], [100]]);
  }

  // ----- what is skipped

  /** A text that is no command's name is skipped when one is expected. */
  lemma UnknownSkipped(st: State, text: CString, reg: Registry)
    requires st.buffer == [] && st.handler.None? && Fits(text) && text !in reg
    ensures FeedAll(st, text + [58], reg) == st
  {
    TextFed(st, text, reg);
  }

  /** What follows a NUL in a text does not count. */
  lemma NulEndsText(st: State, text: CString, junk: seq<byte>, reg: Registry)
    requires st.buffer == [] && Fits(text) && COLON !in junk && |text| + 1 + |junk| < BUFFER_SIZE
    ensures FeedAll(st, text + [0] + junk + [58], reg) == FeedAll(st, text + [58], reg)
  {
    hide FeedAll, Take, Cut;
    var whole := text + [0] + junk;
    CharactersFed(st, whole, reg);
    FeedOne(st, whole, COLON, reg);
    TextFed(st, text, reg);
    CutAtNul(text, junk);
    assert st.(buffer := whole).(buffer := []) == st;
  }

  lemma {:induction false} CutAtNul(text: CString, junk: seq<byte>)
    ensures Cut(text + [0] + junk) == text
    decreases |text|
  {
    var whole := text + [0] + junk;
    if text != [] {
      assert whole[1..] == text[1..] + [0] + junk;
      CutAtNul(text[1..], junk);
    }
  }

  /** 20479 bytes without a colon are kept, and one more throws them away. */
  lemma FullBuffer(st: State, bytes: seq<byte>, b: byte, reg: Registry)
    requires st.buffer == [] && |bytes| == 20479 && 58 !in bytes && b != 58
    ensures FeedAll(st, bytes, reg) == st.(buffer := bytes)
    ensures FeedAll(st, bytes + [b], reg) == st.(handler := None, buffer := [])
  {
    hide FeedAll;
    CharactersFed(st, bytes, reg);
    FeedOne(st, bytes, b, reg);
    assert st.(buffer := bytes).(handler := None, buffer := []) == st.(handler := None, buffer := []);
  }

  /** "a:b:a:c::d:" where "a" takes one parameter and "c" takes them up to an empty one. */
  lemma KnownStream(reg: Registry)
    requires reg == map[[97] := Registration(1, 7), [99] := Registration(1000, 8)]
    ensures FeedAll(START, [97, 58, 98, 58, 99, 58, 100, 58, 101, 58, 58], reg)
      == State(None, 0, [], [], [Call(7, [[98]]), Call(8, [[100], [101], []])])
  {
    hide FeedAll, Stream, Proper;
    var one, two := Request([97], [[98]]), Request([99], [[100], [101], []]);
    KnownProper(reg);
    StreamFed(START, [one, two], reg);
    KnownBytes(one, two);
    KnownCalls(one, two, reg);
  }

  lemma KnownProper(reg: Registry)
    requires reg == map[[97] := Registration(1, 7), [99] := Registration(1000, 8)]
    ensures Proper(Request([97], [[98]]), reg) && Proper(Request([99], [[100], [101], []]), reg)
  {
    AcceptsIff(1, [[98]]);
    AcceptsIff(1000, [[100], [101], []]);
  }

  lemma KnownBytes(one: Request, two: Request)
    requires one == Request([97], [[98]]) && two == Request([99], [[100], [101], []])
    ensures Stream([one, two]) == [97, 58, 98, 58, 99, 58, 100, 58, 101, 58, 58]
  {
    hide RenderedAll;
    var a: CString, b: CString := [97], [98];
    var c: CString, d: CString, e: CString, none: CString := [99], [100], [101], [];
    RenderedMore(a, [b]);
    RenderedMore(b, []);
    RenderedMore(c, [d, e, none]);
    RenderedMore(d, [e, none]);
    RenderedMore(e, [none]);
    RenderedMore(none, []);
    assert [one, two][1..] == [two] && [two][1..] == [] && Stream([two]) == RenderedAll([c] + two.params) + [];
    assert [a] + one.params == [a] + ([b] + []) && [c] + two.params == [c] + [d, e, none];
    assert [d] + [e, none] == [d, e, none] && [e] + [none] == [e, none] && [none] + [] == [none] && [b] + [] == [b];
  }

  lemma RenderedMore(text: CString, texts: seq<CString>)
    ensures RenderedAll([text] + texts) == text + [58] + RenderedAll(texts) && RenderedAll([]) == []
  {
    assert ([text] + texts)[1..] == texts;
  }

  lemma KnownCalls(one: Request, two: Request, reg: Registry)
    requires one == Request([97], [[98]]) && two == Request([99], [[100], [101], []])
    requires Proper(one, reg) && Proper(two, reg)
    requires reg == map[[97] := Registration(1, 7), [99] := Registration(1000, 8)]
    ensures Calls([one, two], reg) == [Call(7, [[98]]), Call(8, [[100], [101], []])]
  {
    hide Proper;
    assert [one, two][1..] == [two] && [two][1..] == [];
    assert Calls([two], reg) == [Call(8, [[100], [101], []])] + [];
  }
}
