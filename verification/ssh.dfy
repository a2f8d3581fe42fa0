/** The transport layer of utils/ssh.py, reduced to what the daemon does with
    it: one pass of `SSHServer.process_msg` over the registry of agent
    channels, the shutdown that follows `stop`, the send/receive guards, and
    the fixed-credential authentication callbacks. Transports are named by
    numbers; a channel is the text waiting to be read, whether it can take a
    send, and the frames sent on it so far. */
module Ssh {
  import opened Wrappers
  import opened Errors

  const MaxMsgSize: nat := 2048

  datatype Channel = Channel(inbox: string, sendReady: bool, sent: seq<string>)

  // ---------------------------------------------------------------------------
  // Send and receive guards
  // ---------------------------------------------------------------------------

  /** `SSHServer.response_msg` and `SSHClient.send`: the frame goes out only
      when there is a channel and it is ready to send. */
  function GuardedSend(chan: Option<Channel>, msg: string): (r: Option<Channel>)
    ensures r.Some? <==> chan.Some?
    ensures chan.Some? ==> r.value.inbox == chan.value.inbox && r.value.sendReady == chan.value.sendReady
    ensures chan.Some? && chan.value.sendReady ==> r.value.sent == chan.value.sent + [msg]
    ensures chan.Some? && !chan.value.sendReady ==> r.value.sent == chan.value.sent
  {
    if chan.Some? && chan.value.sendReady then Some(chan.value.(sent := chan.value.sent + [msg])) else chan
  }

  /** `chan.recv(2048)`: at most 2048 characters from the front of the
      inbox, which keeps the rest. */
  function Read(chan: Channel): (r: (string, Channel))
    ensures r.0 + r.1.inbox == chan.inbox
    ensures |r.0| <= MaxMsgSize
    ensures |chan.inbox| > 0 ==> |r.0| > 0
    ensures r.1.sendReady == chan.sendReady && r.1.sent == chan.sent
  {
    var n := if |chan.inbox| < MaxMsgSize then |chan.inbox| else MaxMsgSize;
    (chan.inbox[..n], chan.(inbox := chan.inbox[n..]))
  }

  /** Every read of a non-empty inbox makes progress, and an inbox no longer
      than the limit is read whole. */
  lemma {:induction false} ReadDrains(chan: Channel)
    ensures var (msg, rest) := Read(chan); |rest.inbox| < |chan.inbox| || |chan.inbox| == 0
    ensures |chan.inbox| <= MaxMsgSize ==> Read(chan).0 == chan.inbox && Read(chan).1.inbox == []
  {
  }

  /** What `SSHClient.recv` does: return `None` without a channel, wait for
      ever on an empty channel (no timeout is set on it), or read. */
  datatype Recv = NoChannel | Waits | Got(msg: string, rest: Channel)

  /** `SSHClient.recv`: nothing without a channel, otherwise one read,
      which blocks until the daemon has sent something. */
  function ClientRecv(chan: Option<Channel>): (r: Recv)
    ensures r.NoChannel? <==> chan.None?
    ensures r.Waits? <==> chan.Some? && |chan.value.inbox| == 0
    ensures r.Got? ==> |r.msg| > 0 && r.msg + r.rest.inbox == chan.value.inbox
    ensures r.Got? ==> r.rest.sendReady == chan.value.sendReady && r.rest.sent == chan.value.sent
  {
    match chan
    case None => NoChannel
    case Some(c) =>
      if |c.inbox| == 0 then Waits
      else var (msg, c') := Read(c); Got(msg, c')
  }

  /** A reply waiting on the channel is returned whole when it fits in one
      read. */
  lemma ClientRecvReply(reply: string, sendReady: bool, sent: seq<string>)
    requires 0 < |reply| <= MaxMsgSize
    ensures ClientRecv(Some(Channel(reply, sendReady, sent))) == Got(reply, Channel([], sendReady, sent))
  {
    assert reply[..|reply|] == reply && reply[|reply|..] == [];
  }

  // ---------------------------------------------------------------------------
  // The registry and one dispatch pass
  // ---------------------------------------------------------------------------

  /** An entry of `SSHServer.chans`: the transport, whether it is still
      active, and the channel it accepted (possibly none). */
  datatype Slot = Slot(transport: nat, active: bool, chan: Option<Channel>)

  /** The registry, in insertion order. */
  type Registry = seq<Slot>

  /** Whether a slot has a message to deliver in this pass. */
  predicate Ready(slot: Slot) {
    slot.active && slot.chan.Some? && |slot.chan.value.inbox| > 0
  }

  /** The transports of a registry, in order. */
  function Transports(reg: Registry): (ts: seq<nat>)
    ensures |ts| == |reg|
    ensures forall i :: 0 <= i < |reg| ==> ts[i] == reg[i].transport
  {
    seq(|reg|, i requires 0 <= i < |reg| => reg[i].transport)
  }

  /** The active slots, in order (reference for what a pass keeps). */
  function ActiveSlots(reg: Registry): (r: Registry)
    ensures forall i :: 0 <= i < |r| ==> r[i].active
    ensures forall i :: 0 <= i < |reg| && reg[i].active ==> reg[i] in r
    ensures forall s :: s in r ==> s in reg
    decreases |reg|
  {
    if |reg| == 0 then []
    else
      assert forall i :: 1 <= i < |reg| ==> reg[i] == reg[1..][i - 1];
      if reg[0].active then [reg[0]] + ActiveSlots(reg[1..]) else ActiveSlots(reg[1..])
  }

  /** The (transport, message) pairs a pass reads, in registry order
      (reference for what a pass delivers). */
  function ReadyMessages(reg: Registry): seq<(nat, string)>
    decreases |reg|
  {
    if |reg| == 0 then []
    else if Ready(reg[0]) then [(reg[0].transport, Read(reg[0].chan.value).0)] + ReadyMessages(reg[1..])
    else ReadyMessages(reg[1..])
  }

  /** The messages of delivered pairs. */
  function Payloads(ds: seq<(nat, string)>): (ps: seq<string>)
    ensures |ps| == |ds|
    ensures forall i :: 0 <= i < |ds| ==> ps[i] == ds[i].1
  {
    seq(|ds|, i requires 0 <= i < |ds| => ds[i].1)
  }

  /** A message handler: the next state and the reply to send back on the
      channel, or the exception it raises. */
  type Handler<!S> = (S, string) -> Result<(S, string), Error>

  /** Handling `msgs` one after another (reference for the state a pass
      reaches); stops at the first exception. */
  function HandleAll<S>(s: S, msgs: seq<string>, handler: Handler<S>): Result<S, Error>
    decreases |msgs|
  {
    if |msgs| == 0 then Success(s)
    else
      var h :- handler(s, msgs[0]);
      HandleAll(h.0, msgs[1..], handler)
  }

  /** What one pass leaves: the registry, the handler's state, the pairs
      handed to the handler, `need_sleep`, and the exception that ended the
      pass, if any. The source changes the registry, the channels and the
      handler's state in place, so what a pass did before an exception stays
      done. */
  datatype PassResult<S> = PassResult(reg: Registry, state: S, delivered: seq<(nat, string)>, needSleep: bool, raised: Option<Error>)

  /** One iteration of the `while True` loop of `process_msg`, before the
      exit test: every inactive transport is dropped; every active one with
      data ready has one read delivered to the handler, whose reply goes out
      through `response_msg`; `need_sleep` is cleared by any delivery. An
      exception from the handler leaves the loop at once: the earlier slots
      stay handled, the failing channel has been read but gets no reply, and
      the later slots are left as they were. */
  function DispatchPass<S>(reg: Registry, s: S, handler: Handler<S>): (r: PassResult<S>)
    ensures r.raised.None? ==> forall i :: 0 <= i < |r.reg| ==> r.reg[i].active
    ensures r.raised.None? ==> (r.needSleep <==> |r.delivered| == 0)
    ensures r.raised.Some? ==> |r.delivered| > 0
    decreases |reg|
  {
    if |reg| == 0 then PassResult([], s, [], true, None)
    else
      var slot := reg[0];
      if !slot.active then
        DispatchPass(reg[1..], s, handler)
      else if Ready(slot) then
        var (msg, ch) := Read(slot.chan.value);
        match handler(s, msg)
        case Failure(e) =>
          PassResult([slot.(chan := Some(ch))] + reg[1..], s, [(slot.transport, msg)], false, Some(e))
        case Success(h) =>
          var rest := DispatchPass(reg[1..], h.0, handler);
          var served := slot.(chan := GuardedSend(Some(ch), h.1));
          PassResult([served] + rest.reg, rest.state, [(slot.transport, msg)] + rest.delivered, false, rest.raised)
      else
        var rest := DispatchPass(reg[1..], s, handler);
        rest.(reg := [slot] + rest.reg)
  }

  /** A pass over two parts of the registry is the pass over the first part
      followed, unless it raised, by the pass over the second from the state
      it reached; an exception leaves the second part untouched. */
  lemma {:induction false} PassAppend<S>(a: Registry, b: Registry, s: S, handler: Handler<S>)
    ensures var ra := DispatchPass(a, s, handler);
            DispatchPass(a + b, s, handler)
            == if ra.raised.Some? then ra.(reg := ra.reg + b)
               else var rb := DispatchPass(b, ra.state, handler);
                    PassResult(ra.reg + rb.reg, rb.state, ra.delivered + rb.delivered,
                               ra.needSleep && rb.needSleep, rb.raised)
    decreases |a|
  {
    if |a| == 0 {
      assert a + b == b;
      var rb := DispatchPass(b, s, handler);
      assert [] + rb.reg == rb.reg && [] + rb.delivered == rb.delivered;
    } else {
      var ab := a + b;
      assert ab[0] == a[0] && ab[1..] == a[1..] + b;
      var slot := a[0];
      if !slot.active {
        PassAppend(a[1..], b, s, handler);
      } else if Ready(slot) {
        var (msg, ch) := Read(slot.chan.value);
        match handler(s, msg)
        case Failure(e) =>
          assert [slot.(chan := Some(ch))] + (a[1..] + b) == ([slot.(chan := Some(ch))] + a[1..]) + b;
        case Success(h) =>
          PassAppend(a[1..], b, h.0, handler);
          var ra := DispatchPass(a[1..], h.0, handler);
          var served := slot.(chan := GuardedSend(Some(ch), h.1));
          if ra.raised.None? {
            var rb := DispatchPass(b, ra.state, handler);
            assert [served] + (ra.reg + rb.reg) == ([served] + ra.reg) + rb.reg;
            assert [(slot.transport, msg)] + (ra.delivered + rb.delivered)
                   == ([(slot.transport, msg)] + ra.delivered) + rb.delivered;
          } else {
            assert [served] + (ra.reg + b) == ([served] + ra.reg) + b;
          }
      } else {
        PassAppend(a[1..], b, s, handler);
        var ra := DispatchPass(a[1..], s, handler);
        if ra.raised.None? {
          var rb := DispatchPass(b, ra.state, handler);
          assert [slot] + (ra.reg + rb.reg) == ([slot] + ra.reg) + rb.reg;
        } else {
          assert [slot] + (ra.reg + b) == ([slot] + ra.reg) + b;
        }
      }
    }
  }

  /** A pass hands the handler exactly the ready messages, in registry
      order: it completes exactly when handling them in turn does, ends in
      the same state, and reports them as delivered; otherwise it stops with
      the exception handling them raises, after a prefix of them. */
  ghost predicate HandlesReady<S>(reg: Registry, s: S, handler: Handler<S>) {
    var r := DispatchPass(reg, s, handler);
    var ready := ReadyMessages(reg);
    var all := HandleAll(s, Payloads(ready), handler);
    && (r.raised.None? <==> all.Success?)
    && (r.raised.None? ==> r.state == all.value && r.delivered == ready)
    && (r.raised.Some? ==> r.raised.value == all.error)
    && |r.delivered| <= |ready| && r.delivered == ready[..|r.delivered|]
  }

  lemma {:induction false} PassHandlesReady<S>(reg: Registry, s: S, handler: Handler<S>)
    ensures DispatchPass(reg, s, handler).raised.None? <==> HandleAll(s, Payloads(ReadyMessages(reg)), handler).Success?
    ensures DispatchPass(reg, s, handler).raised.None? ==>
              DispatchPass(reg, s, handler).state == HandleAll(s, Payloads(ReadyMessages(reg)), handler).value
              && DispatchPass(reg, s, handler).delivered == ReadyMessages(reg)
    ensures DispatchPass(reg, s, handler).raised.Some? ==>
              DispatchPass(reg, s, handler).raised.value == HandleAll(s, Payloads(ReadyMessages(reg)), handler).error
    ensures var d := DispatchPass(reg, s, handler).delivered;
            |d| <= |ReadyMessages(reg)| && d == ReadyMessages(reg)[..|d|]
    decreases |reg|
  {
    HandlesReadyAt(reg, s, handler);
  }

  lemma {:induction false} HandlesReadyAt<S>(reg: Registry, s: S, handler: Handler<S>)
    ensures HandlesReady(reg, s, handler)
    decreases |reg|
  {
    if |reg| == 0 {
      assert ReadyMessages(reg) == [];
    } else if !Ready(reg[0]) {
      HandlesReadyAt(reg[1..], s, handler);
      HandlesSkip(reg, s, handler);
    } else {
      var msg := Read(reg[0].chan.value).0;
      if handler(s, msg).Failure? {
        HandlesFail(reg, s, handler);
      } else {
        HandlesReadyAt(reg[1..], handler(s, msg).value.0, handler);
        HandlesOk(reg, s, handler);
      }
    }
  }

  lemma HandlesSkip<S>(reg: Registry, s: S, handler: Handler<S>)
    requires |reg| > 0 && !Ready(reg[0]) && HandlesReady(reg[1..], s, handler)
    ensures HandlesReady(reg, s, handler)
  {
    assert ReadyMessages(reg) == ReadyMessages(reg[1..]);
    var r, r' := DispatchPass(reg, s, handler), DispatchPass(reg[1..], s, handler);
    assert r.state == r'.state && r.delivered == r'.delivered && r.raised == r'.raised;
  }

  lemma HandlesFail<S>(reg: Registry, s: S, handler: Handler<S>)
    requires |reg| > 0 && Ready(reg[0]) && handler(s, Read(reg[0].chan.value).0).Failure?
    ensures HandlesReady(reg, s, handler)
  {
    var msg := Read(reg[0].chan.value).0;
    var ready := ReadyMessages(reg);
    assert ready == [(reg[0].transport, msg)] + ReadyMessages(reg[1..]);
    assert Payloads(ready)[0] == msg;
    assert DispatchPass(reg, s, handler).delivered == [(reg[0].transport, msg)];
    assert ready[..1] == [(reg[0].transport, msg)];
  }

  lemma HandlesOk<S>(reg: Registry, s: S, handler: Handler<S>)
    requires |reg| > 0 && Ready(reg[0]) && handler(s, Read(reg[0].chan.value).0).Success?
    requires HandlesReady(reg[1..], handler(s, Read(reg[0].chan.value).0).value.0, handler)
    ensures HandlesReady(reg, s, handler)
  {
    var msg := Read(reg[0].chan.value).0;
    var s' := handler(s, msg).value.0;
    var x := (reg[0].transport, msg);
    var rest := ReadyMessages(reg[1..]);
    var msgs := Payloads(rest);
    assert ReadyMessages(reg) == [x] + rest;
    assert Payloads(ReadyMessages(reg)) == [msg] + msgs;
    assert ([msg] + msgs)[1..] == msgs;
    assert HandleAll(s, [msg] + msgs, handler) == HandleAll(s', msgs, handler);
    var d := DispatchPass(reg[1..], s', handler).delivered;
    assert DispatchPass(reg, s, handler).delivered == [x] + d;
    assert ([x] + rest)[..1 + |d|] == [x] + rest[..|d|];
  }

  /** A pass keeps exactly the active transports, in order. */
  lemma {:induction false} PassKeepsActiveInOrder<S>(reg: Registry, s: S, handler: Handler<S>)
    requires DispatchPass(reg, s, handler).raised.None?
    ensures Transports(DispatchPass(reg, s, handler).reg) == Transports(ActiveSlots(reg))
    decreases |reg|
  {
    if |reg| > 0 {
      var s' := PassStep(reg, s, handler);
      PassKeepsActiveInOrder(reg[1..], s', handler);
      ActiveSlotsStep(reg);
    }
  }

  /** The transport of the first slot, if a pass keeps it. */
  function Kept(slot: Slot): seq<nat> {
    if slot.active then [slot.transport] else []
  }

  /** A pass that completes handles the first slot, keeping its transport
      exactly when it is active, and continues from some state `s'`. */
  lemma PassStep<S>(reg: Registry, s: S, handler: Handler<S>) returns (s': S)
    requires |reg| > 0 && DispatchPass(reg, s, handler).raised.None?
    ensures DispatchPass(reg[1..], s', handler).raised.None?
    ensures Transports(DispatchPass(reg, s, handler).reg) == Kept(reg[0]) + Transports(DispatchPass(reg[1..], s', handler).reg)
  {
    var slot := reg[0];
    if !slot.active {
      s' := s;
    } else if Ready(slot) {
      var (msg, ch) := Read(slot.chan.value);
      var h := handler(s, msg);
      s' := h.value.0;
      var rest := DispatchPass(reg[1..], s', handler).reg;
      var served := slot.(chan := GuardedSend(Some(ch), h.value.1));
      assert DispatchPass(reg, s, handler).reg == [served] + rest;
      TransportsCons(served, rest);
    } else {
      s' := s;
      var rest := DispatchPass(reg[1..], s, handler).reg;
      assert DispatchPass(reg, s, handler).reg == [slot] + rest;
      TransportsCons(slot, rest);
    }
  }

  lemma ActiveSlotsStep(reg: Registry)
    requires |reg| > 0
    ensures Transports(ActiveSlots(reg)) == Kept(reg[0]) + Transports(ActiveSlots(reg[1..]))
  {
    if reg[0].active {
      TransportsCons(reg[0], ActiveSlots(reg[1..]));
    } else {
      assert Kept(reg[0]) == [];
    }
  }

  lemma TransportsCons(slot: Slot, reg: Registry)
    ensures Transports([slot] + reg) == [slot.transport] + Transports(reg)
  {
  }

  /** A registry of one active channel holding one short message: the pass
      delivers it whole and sends the handler's reply on that channel. */
  lemma PassOneMessage<S>(transport: nat, msg: string, sent: seq<string>, s: S, handler: Handler<S>)
    requires 0 < |msg| <= MaxMsgSize && handler(s, msg).Success?
    ensures DispatchPass([Slot(transport, true, Some(Channel(msg, true, sent)))], s, handler)
            == PassResult([Slot(transport, true, Some(Channel([], true, sent + [handler(s, msg).value.1])))],
                          handler(s, msg).value.0, [(transport, msg)], false, None)
  {
    var reg := [Slot(transport, true, Some(Channel(msg, true, sent)))];
    assert msg[..|msg|] == msg && msg[|msg|..] == [];
    assert Read(reg[0].chan.value) == (msg, Channel([], true, sent));
    assert reg[1..] == [];
    var h := handler(s, msg).value;
    assert DispatchPass(reg[1..], h.0, handler) == PassResult([], h.0, [], true, None);
    var served := reg[0].(chan := GuardedSend(Some(Channel([], true, sent)), h.1));
    assert [served] + [] == [served];
    assert [(transport, msg)] + [] == [(transport, msg)];
  }

  /** A registry of one active channel holding one short message that the
      handler rejects: the message is read, the exception ends the pass,
      nothing is sent and the handler's state is unchanged. */
  lemma PassOneMessageRaises<S>(transport: nat, msg: string, sent: seq<string>, s: S, handler: Handler<S>)
    requires 0 < |msg| <= MaxMsgSize && handler(s, msg).Failure?
    ensures DispatchPass([Slot(transport, true, Some(Channel(msg, true, sent)))], s, handler)
            == PassResult([Slot(transport, true, Some(Channel([], true, sent)))], s, [(transport, msg)], false,
                          Some(handler(s, msg).error))
  {
    var reg := [Slot(transport, true, Some(Channel(msg, true, sent)))];
    assert msg[..|msg|] == msg && msg[|msg|..] == [];
    assert Read(reg[0].chan.value) == (msg, Channel([], true, sent));
    assert reg[1..] == [];
  }

  /** Two ready channels, the first message accepted and the second
      rejected: the first channel has its reply, the second has been read
      without one, the state is the one the first message left, and the pass
      ends with the second message's exception. */
  lemma PassAnswersThenRaises<S>(t1: nat, m1: string, t2: nat, m2: string, s: S, handler: Handler<S>)
    requires 0 < |m1| <= MaxMsgSize && 0 < |m2| <= MaxMsgSize
    requires handler(s, m1).Success? && handler(handler(s, m1).value.0, m2).Failure?
    ensures var h := handler(s, m1).value;
            DispatchPass([Slot(t1, true, Some(Channel(m1, true, []))), Slot(t2, true, Some(Channel(m2, true, [])))], s, handler)
            == PassResult([Slot(t1, true, Some(Channel([], true, [h.1]))), Slot(t2, true, Some(Channel([], true, [])))],
                          h.0, [(t1, m1), (t2, m2)], false, Some(handler(h.0, m2).error))
  {
    var a := [Slot(t1, true, Some(Channel(m1, true, [])))];
    var b := [Slot(t2, true, Some(Channel(m2, true, [])))];
    var h := handler(s, m1).value;
    PassAppend(a, b, s, handler);
    PassOneMessage(t1, m1, [], s, handler);
    PassOneMessageRaises(t2, m2, [], h.0, handler);
    assert a + b == [a[0], b[0]];
    var sent: seq<string> := [];
    assert sent + [h.1] == [h.1];
  }

  /** A pass adds no transport and never loses an active one. */
  lemma PassKeepsActive<S>(reg: Registry, s: S, handler: Handler<S>, t: nat)
    requires DispatchPass(reg, s, handler).raised.None?
    ensures t in Transports(DispatchPass(reg, s, handler).reg)
            <==> exists i :: 0 <= i < |reg| && reg[i].active && reg[i].transport == t
  {
    PassKeepsActiveInOrder(reg, s, handler);
    ActiveTransports(reg, t);
  }

  lemma {:induction false} ActiveTransports(reg: Registry, t: nat)
    ensures t in Transports(ActiveSlots(reg)) <==> exists i :: 0 <= i < |reg| && reg[i].active && reg[i].transport == t
    decreases |reg|
  {
    if |reg| > 0 {
      ActiveTransports(reg[1..], t);
      if reg[0].active {
        assert Transports(ActiveSlots(reg)) == [reg[0].transport] + Transports(ActiveSlots(reg[1..]));
      }
      if exists i :: 0 <= i < |reg| && reg[i].active && reg[i].transport == t {
        var i :| 0 <= i < |reg| && reg[i].active && reg[i].transport == t;
        if i > 0 { assert reg[1..][i - 1] == reg[i]; }
      }
      if exists i :: 0 <= i < |reg[1..]| && reg[1..][i].active && reg[1..][i].transport == t {
        var i :| 0 <= i < |reg[1..]| && reg[1..][i].active && reg[1..][i].transport == t;
        assert reg[i + 1] == reg[1..][i];
      }
    }
  }

  // ---------------------------------------------------------------------------
  // Shutdown
  // ---------------------------------------------------------------------------

  /** The tail of `process_msg` after the loop exits: every transport still
      active is closed and every entry deleted. Returns the transports
      closed, in registry order, and what is left of the registry. */
  method Shutdown(reg: Registry) returns (closed: seq<nat>, remaining: Registry)
    ensures remaining == []
    ensures closed == Transports(ActiveSlots(reg))
  {
    closed := [];
    remaining := reg;
    var i := 0;
    while i < |reg|
      invariant 0 <= i <= |reg|
      invariant remaining == reg[i..]
      invariant closed == Transports(ActiveSlots(reg[..i]))
    {
      ActiveSlotsSnoc(reg[..i], reg[i]);
      assert reg[..i + 1] == reg[..i] + [reg[i]];
      if reg[i].active {
        closed := closed + [reg[i].transport];
      }
      remaining := remaining[1..];
      i := i + 1;
    }
    assert reg[..i] == reg;
  }

  /** Appending a slot extends the active transports by it exactly when it
      is active. */
  lemma {:induction false} ActiveSlotsSnoc(reg: Registry, slot: Slot)
    ensures Transports(ActiveSlots(reg + [slot]))
            == Transports(ActiveSlots(reg)) + (if slot.active then [slot.transport] else [])
    decreases |reg|
  {
    if |reg| == 0 {
      assert [slot][1..] == [];
    } else {
      assert (reg + [slot])[1..] == reg[1..] + [slot];
      ActiveSlotsSnoc(reg[1..], slot);
    }
  }

  // ---------------------------------------------------------------------------
  // Authentication
  // ---------------------------------------------------------------------------

  const DefaultUsername := "easytestagent"
  const DefaultPassword := "syncme"

  /** The credentials `SSHClient` connects with unless told otherwise. */
  const ClientUsername := "easytestagent"
  const ClientPassword := "syncme"

  datatype AuthResult = AuthSuccessful | AuthFailed

  /** `check_allowed_auths`: password authentication for the agent's user
      name, none for anyone else. */
  function CheckAllowedAuths(username: string): (r: string)
    ensures r == "password" || r == "none"
    ensures r == "password" <==> username == DefaultUsername
  {
    if username == DefaultUsername then "password" else "none"
  }

  /** `check_auth_password`: only the built-in pair gets in. */
  function CheckAuthPassword(username: string, password: string): (r: AuthResult)
    ensures r == AuthSuccessful ==> CheckAllowedAuths(username) == "password"
    ensures r == AuthSuccessful <==> username == DefaultUsername && password == DefaultPassword
  {
    if username == DefaultUsername && password == DefaultPassword then AuthSuccessful else AuthFailed
  }

  /** `check_auth_publickey`: keys are never accepted. */
  function CheckAuthPublickey(username: string, key: string): (r: AuthResult)
    ensures r == AuthFailed
  {
    AuthFailed
  }

  /** An agent connecting with the client's default credentials is let in,
      and a user that is offered no method cannot log in by any means. */
  lemma AuthConsistent(username: string, password: string, key: string)
    ensures CheckAuthPassword(ClientUsername, ClientPassword) == AuthSuccessful
    ensures CheckAllowedAuths(username) == "none" ==>
              CheckAuthPassword(username, password) == AuthFailed && CheckAuthPublickey(username, key) == AuthFailed
  {
  }
}
