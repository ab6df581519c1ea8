/** One connection: the send queue under partial writes, and the receiver's reassembly of messages. */
module Wire {
  import opened Limbs
  import opened ByteIo
  import opened Common

  const MAX_PROTOCOL_MSG_SIZE: nat := 8 * 1024 * 1024
  const READ_CHUNK_SIZE: nat := 64 * 1024
  const HEADER: nat := 9
  const BAN_SCORE: nat := 100
  const SEND_STALL_TIMEOUT_SEC: int := 60

  // ---------- Messages ----------

  datatype Message = Message(magic: Limb, kind: Byte, payload: seq<Byte>)

  function Serialize(m: Message): (s: seq<Byte>)
    ensures |s| == HEADER + |m.payload|
  {
    Le32(m.magic) + [m.kind] + Le32(|m.payload| % BASE) + m.payload
  }

  function Deserialize(s: seq<Byte>, network: Limb): (r: Result<Message>)
  {
    if |s| < HEADER || Read32(s, 0) != network then Error
    else
      var size := Read32(s, 5);
      if size > MAX_PROTOCOL_MSG_SIZE || |s| < HEADER + size then Error
      else Ok(Message(network, s[4], s[HEADER..HEADER + size]))
  }

  lemma HeaderOf(m: Message, rest: seq<Byte>)
    requires |m.payload| < BASE
    ensures Read32(Serialize(m) + rest, 0) == m.magic
    ensures (Serialize(m) + rest)[4] == m.kind
    ensures Read32(Serialize(m) + rest, 5) == |m.payload|
    ensures (Serialize(m) + rest)[HEADER..HEADER + |m.payload|] == m.payload
  {
    hide Le32, Read32;
    var s := Serialize(m) + rest;
    assert s[0..4] == Le32(m.magic) && s[5..9] == Le32(|m.payload|);
    ReadBack32(s, 0, m.magic);
    ReadBack32(s, 5, |m.payload|);
  }

  /** A message parses back exactly when its payload is within the limit and it carries this network's magic. */
  lemma RoundTrip(m: Message, network: Limb)
    requires |m.payload| < BASE
    ensures Deserialize(Serialize(m), network) == Ok(m) <==> m.magic == network && |m.payload| <= MAX_PROTOCOL_MSG_SIZE
    ensures Deserialize(Serialize(m), network).Ok? ==> Deserialize(Serialize(m), network) == Ok(m)
  {
    hide Serialize, Read32;
    HeaderOf(m, []);
    assert Serialize(m) + [] == Serialize(m);
  }

  /** A declared size is all that is believed: whatever parses prints back to the bytes it was parsed from. */
  lemma ParsedPrintsBack(s: seq<Byte>, network: Limb)
    requires Deserialize(s, network).Ok?
    ensures var m := Deserialize(s, network).value;
            HEADER + |m.payload| <= |s| && Serialize(m) == s[..HEADER + |m.payload|]
  {
    hide Le32, Read32;
    WriteBack32(s, 0);
    WriteBack32(s, 5);
    var n := Read32(s, 5);
    assert |s[HEADER..HEADER + n]| == n;
    assert s[..HEADER + n] == s[0..4] + [s[4]] + s[5..9] + s[HEADER..HEADER + n];
  }

  /** Byte strings one after the other. */
  ghost function Flat(parts: seq<seq<Byte>>): seq<Byte>
  {
    if parts == [] then [] else parts[0] + Flat(parts[1..])
  }

  lemma {:induction false} FlatConcat(a: seq<seq<Byte>>, b: seq<seq<Byte>>)
    ensures Flat(a + b) == Flat(a) + Flat(b)
  {
    if a == [] {
      assert a + b == b;
    } else {
      FlatConcat(a[1..], b);
      assert (a + b)[1..] == a[1..] + b && (a + b)[0] == a[0];
      assert a[0] + (Flat(a[1..]) + Flat(b)) == a[0] + Flat(a[1..]) + Flat(b);
    }
  }

  // ---------- Sending ----------

  /** What the socket does with one write, and the messages other threads queue while it happens. */
  datatype Turn = Turn(arrivals: seq<Message>, outcome: Outcome)
  datatype Outcome = Wrote(count: nat) | Blocked | Failed

  /** Sent bytes and pending bytes together are exactly what was pushed, in the order it was pushed. */
  ghost predicate Conserved(pushed: seq<seq<Byte>>, sent: seq<Byte>, pending: seq<seq<Byte>>, offset: nat)
  {
    && (if pending == [] then offset == 0 else offset <= |pending[0]|)
    && offset <= |Flat(pending)|
    && sent + Flat(pending)[offset..] == Flat(pushed)
  }

  lemma PushConserves(pushed: seq<seq<Byte>>, sent: seq<Byte>, pending: seq<seq<Byte>>, offset: nat,
                      more: seq<seq<Byte>>)
    requires Conserved(pushed, sent, pending, offset)
    ensures Conserved(pushed + more, sent, pending + more, offset)
  {
    FlatConcat(pending, more);
    FlatConcat(pushed, more);
    assert Flat(pending + more)[offset..] == Flat(pending)[offset..] + Flat(more);
  }

  lemma PopConserves(pushed: seq<seq<Byte>>, sent: seq<Byte>, pending: seq<seq<Byte>>, offset: nat)
    requires Conserved(pushed, sent, pending, offset) && pending != [] && offset >= |pending[0]|
    ensures Conserved(pushed, sent, pending[1..], 0)
  {
    assert Flat(pending)[offset..] == Flat(pending[1..]);
  }

  lemma WriteConserves(pushed: seq<seq<Byte>>, sent: seq<Byte>, pending: seq<seq<Byte>>, offset: nat, n: nat)
    requires Conserved(pushed, sent, pending, offset) && pending != [] && offset + n <= |pending[0]|
    ensures Conserved(pushed, sent + pending[0][offset..offset + n], pending, offset + n)
  {
    assert Flat(pending)[offset..] == pending[0][offset..offset + n] + Flat(pending)[offset + n..];
  }

  // ---------- A pass as a function ----------

  /** A connection as its sender sees it; `pushed` is everything pushed so far, `sent` what the socket accepted. */
  datatype Sending = Sending(queue: seq<seq<Byte>>, offset: nat, stallSince: int, connected: bool,
                             sent: seq<Byte>, pushed: seq<seq<Byte>>)

  const IDLE: Sending := Sending([], 0, 0, true, [], [])

  /** How writing ended: nothing left, the socket full for now, or an error. */
  datatype Ending = Emptied | Full | Broken

  /**
   Writing out a swapped-out queue: what is left of it, what was sent, what arrived meanwhile, and the turns
   taken.
   */
  datatype Writing = Writing(left: seq<seq<Byte>>, offset: nat, sent: seq<Byte>,
                             arrived: seq<Message>, stallSince: int, used: nat)

  function WriteOut(w: Writing, turns: seq<Turn>): (r: (Writing, Ending))
    requires w.used <= |turns|
    ensures w.used <= r.0.used <= |turns|
    ensures r.1.Emptied? <==> r.0.left == []
    ensures !r.1.Emptied? ==> r.0.used == |turns| || (r.0.used > w.used && !turns[r.0.used - 1].outcome.Wrote?)
    decreases |turns| - w.used, |w.left|
  {
    if w.left == [] then (w, Emptied)
    else if w.offset >= |w.left[0]| then WriteOut(Popped(w), turns)
    else if w.used == |turns| then (w, Full)
    else
      var t := turns[w.used];
      match t.outcome
      case Failed => (Heard(w, t), Broken)
      case Blocked => (Heard(w, t), Full)
      case Wrote(count) => WriteOut(Took(Heard(w, t), Portion(w, count)), turns)
  }

  function Popped(w: Writing): Writing
    requires w.left != []
  {
    w.(left := w.left[1..], offset := 0)
  }

  function Heard(w: Writing, t: Turn): Writing { w.(arrived := w.arrived + t.arrivals, used := w.used + 1) }

  /** How much of the front item a write of up to count bytes takes. */
  function Portion(w: Writing, count: nat): (n: nat)
    requires w.left != [] && w.offset <= |w.left[0]|
    ensures w.offset + n <= |w.left[0]|
  {
    if count < |w.left[0]| - w.offset then count else |w.left[0]| - w.offset
  }

  function Took(w: Writing, n: nat): Writing
    requires w.left != [] && w.offset + n <= |w.left[0]|
  {
    w.(sent := w.sent + w.left[0][w.offset..w.offset + n], offset := w.offset + n, stallSince := 0)
  }

  function Begun(s: Sending): Writing { Writing(s.queue, s.offset, s.sent, [], s.stallSince, 0) }

  function AfterPass(s: Sending, turns: seq<Turn>, now: int): Sending
  {
    if !s.connected then s
    else if s.queue == [] then s.(stallSince := 0)
    else
      var (w, end) := WriteOut(Begun(s), turns);
      Settled(Sending(Printed(w.arrived), w.offset, w.stallSince, true, w.sent, s.pushed + Printed(w.arrived)),
              w.left, end, now)
  }

  /** What becomes of the connection and of what was not sent, t being its state with the new arrivals alone queued. */
  function Settled(t: Sending, left: seq<seq<Byte>>, end: Ending, now: int): Sending
  {
    match end
    case Broken => t.(connected := false)
    case Emptied => t.(stallSince := 0)
    case Full =>
      if t.stallSince == 0 then t.(stallSince := now, queue := left + t.queue)
      else if now - t.stallSince >= SEND_STALL_TIMEOUT_SEC then t.(connected := false)
      else t.(queue := left + t.queue)
  }

  function TurnsTaken(s: Sending, turns: seq<Turn>): (n: nat)
    ensures n <= |turns|
  {
    if !s.connected || s.queue == [] then 0 else WriteOut(Begun(s), turns).0.used
  }

  function Pushed(s: Sending, m: Message): Sending
  {
    s.(queue := s.queue + [Serialize(m)], pushed := s.pushed + [Serialize(m)])
  }

  // ---------- What a pass keeps and what it achieves ----------

  /** While connected nothing is lost or reordered; after a failure what was sent stays a prefix. */
  ghost predicate Kept(s: Sending)
  {
    && (s.connected ==> Conserved(s.pushed, s.sent, s.queue, s.offset))
    && s.sent <= Flat(s.pushed)
  }

  lemma PushKeeps(s: Sending, m: Message)
    requires Kept(s)
    ensures Kept(Pushed(s, m))
  {
    hide Serialize, Conserved;
    if s.connected { PushConserves(s.pushed, s.sent, s.queue, s.offset, [Serialize(m)]); }
    FlatConcat(s.pushed, [Serialize(m)]);
  }

  /** Writing conserves what was pushed before it, and hears the arrivals of the turns it took. */
  lemma {:induction false} WriteOutKeeps(w: Writing, turns: seq<Turn>, pushed: seq<seq<Byte>>)
    requires w.used <= |turns| && Conserved(pushed, w.sent, w.left, w.offset)
    ensures var r := WriteOut(w, turns).0;
            && Conserved(pushed, r.sent, r.left, r.offset) && w.sent <= r.sent
            && r.arrived == w.arrived + Arrivals(turns[w.used..r.used])
    decreases |turns| - w.used, |w.left|
  {
    hide Conserved, Arrivals, WriteOut;
    Unfolds(w, turns);
    if w.left == [] {
      NoArrivals(turns, w.used);
    } else if w.offset >= |w.left[0]| {
      PopConserves(pushed, w.sent, w.left, w.offset);
      WriteOutKeeps(Popped(w), turns, pushed);
    } else if w.used == |turns| {
      NoArrivals(turns, w.used);
    } else {
      var t, r := turns[w.used], WriteOut(w, turns).0;
      NoArrivals(turns, w.used + 1);
      ArrivalsFrom(turns, w.used, r.used);
      if t.outcome.Wrote? {
        var n := Portion(w, t.outcome.count);
        WriteConserves(pushed, w.sent, w.left, w.offset, n);
        WriteOutKeeps(Took(Heard(w, t), n), turns, pushed);
        assert w.arrived + t.arrivals + Arrivals(turns[w.used + 1..r.used])
            == w.arrived + (t.arrivals + Arrivals(turns[w.used + 1..r.used]));
      }
    }
  }

  /** The turn of the writing loop that comes next. */
  lemma Unfolds(w: Writing, turns: seq<Turn>)
    requires w.used <= |turns|
    ensures w.left == [] ==> WriteOut(w, turns) == (w, Emptied)
    ensures w.left != [] && w.offset >= |w.left[0]| ==> WriteOut(w, turns) == WriteOut(Popped(w), turns)
    ensures w.left != [] && w.offset < |w.left[0]| && w.used == |turns| ==> WriteOut(w, turns) == (w, Full)
    ensures w.left != [] && w.offset < |w.left[0]| && w.used < |turns| ==>
      var t := turns[w.used];
      match t.outcome
      case Failed => WriteOut(w, turns) == (Heard(w, t), Broken)
      case Blocked => WriteOut(w, turns) == (Heard(w, t), Full)
      case Wrote(count) => WriteOut(w, turns) == WriteOut(Took(Heard(w, t), Portion(w, count)), turns)
  {}

  lemma NoArrivals(turns: seq<Turn>, i: nat)
    requires i <= |turns|
    ensures Arrivals(turns[i..i]) == []
  {}

  lemma ArrivalsFrom(turns: seq<Turn>, i: nat, j: nat)
    requires i < j <= |turns|
    ensures Arrivals(turns[i..j]) == turns[i].arrivals + Arrivals(turns[i + 1..j])
  {
    assert turns[i..j][1..] == turns[i + 1..j];
  }

  lemma PassKeeps(s: Sending, turns: seq<Turn>, now: int)
    requires Kept(s)
    ensures var t := AfterPass(s, turns, now);
            && Kept(t) && s.sent <= t.sent
            && t.pushed == s.pushed + Printed(Arrivals(turns[..TurnsTaken(s, turns)]))
  {
    hide Conserved, WriteOut, Flat;
    assert turns[..0] == [];
    if s.connected && s.queue != [] {
      var (w, end) := WriteOut(Begun(s), turns);
      WriteOutKeeps(Begun(s), turns, s.pushed);
      assert turns[0..w.used] == turns[..w.used];
      Rejoin(s.pushed, w.sent, w.left, w.offset, Printed(w.arrived));
      if end.Emptied? { assert w.left + Printed(w.arrived) == Printed(w.arrived); }
    }
  }

  /** What is left of a pass goes in front of what arrived during it. */
  lemma Rejoin(pushed: seq<seq<Byte>>, sent: seq<Byte>, toSend: seq<seq<Byte>>, offset: nat, arrived: seq<seq<Byte>>)
    requires Conserved(pushed, sent, toSend, offset)
    ensures Conserved(pushed + arrived, sent, toSend + arrived, offset)
    ensures sent <= Flat(pushed + arrived)
  {
    PushConserves(pushed, sent, toSend, offset, arrived);
  }

  lemma AllSent(pushed: seq<seq<Byte>>, sent: seq<Byte>, pending: seq<seq<Byte>>, offset: nat)
    requires Conserved(pushed, sent, pending, offset) && pending == []
    ensures sent == Flat(pushed) && offset == 0
  {}

  /** The socket takes something in every turn from a given one on. */
  ghost predicate Advancing(turns: seq<Turn>, from: nat)
  {
    forall i :: from <= i < |turns| ==> turns[i].outcome.Wrote? && turns[i].outcome.count > 0
  }

  /** Writing comes to the end of the queue if the socket takes something in as many turns as bytes are pending. */
  lemma {:induction false} WriteOutEmpties(w: Writing, turns: seq<Turn>)
    requires w.used <= |turns| && Advancing(turns, w.used)
    requires if w.left == [] then w.offset == 0 else w.offset <= |w.left[0]|
    requires |Flat(w.left)| - w.offset <= |turns| - w.used
    ensures WriteOut(w, turns).1 == Emptied
    decreases |turns| - w.used, |w.left|
  {
    if w.left != [] {
      if w.offset >= |w.left[0]| {
        WriteOutEmpties(Popped(w), turns);
      } else {
        WriteOutEmpties(Took(Heard(w, turns[w.used]), Portion(w, turns[w.used].outcome.count)), turns);
      }
    }
  }

  /** Such a pass sends everything that was pushed before it and keeps the connection. */
  lemma PassEmpties(s: Sending, turns: seq<Turn>, now: int)
    requires Kept(s) && s.connected && Advancing(turns, 0) && |Flat(s.pushed)| - |s.sent| <= |turns|
    ensures var t := AfterPass(s, turns, now);
            t.connected && t.sent == Flat(s.pushed) && t.queue == Printed(Arrivals(turns[..TurnsTaken(s, turns)]))
  {
    hide WriteOut, Flat;
    assert turns[..0] == [];
    if s.queue == [] {
      AllSent(s.pushed, s.sent, s.queue, s.offset);
    } else {
      assert |Flat(s.queue)| - s.offset == |Flat(s.pushed)| - |s.sent|;
      WriteOutEmpties(Begun(s), turns);
      WriteOutKeeps(Begun(s), turns, s.pushed);
      var w := WriteOut(Begun(s), turns).0;
      assert turns[0..w.used] == turns[..w.used];
      AllSent(s.pushed, w.sent, w.left, w.offset);
    }
  }

  // ---------- When a connection ends ----------

  /** The socket took a write in one of the turns from i up to j, be it of no bytes. */
  ghost predicate SomeWritten(turns: seq<Turn>, i: nat, j: nat)
  {
    exists k :: i <= k < j && k < |turns| && turns[k].outcome.Wrote?
  }

  /** Every turn taken but the last was a write; the last tells how writing ended. */
  lemma {:induction false} WriteOutEnds(w: Writing, turns: seq<Turn>)
    requires w.used <= |turns|
    ensures var (r, end) := WriteOut(w, turns);
            && (end.Broken? <==> r.used > w.used && turns[r.used - 1].outcome.Failed?)
            && (r.left != [] ==> r.offset < |r.left[0]|)
            && r.stallSince == (if SomeWritten(turns, w.used, r.used) then 0 else w.stallSince)
            && (!SomeWritten(turns, w.used, r.used) ==> r.sent == w.sent)
    decreases |turns| - w.used, |w.left|
  {
    hide WriteOut;
    Unfolds(w, turns);
    if w.left == [] || (w.offset < |w.left[0]| && w.used == |turns|) {
    } else if w.offset >= |w.left[0]| {
      WriteOutEnds(Popped(w), turns);
    } else {
      var t := turns[w.used];
      if t.outcome.Wrote? {
        WriteOutEnds(Took(Heard(w, t), Portion(w, t.outcome.count)), turns);
        assert t.outcome.Wrote?;
      }
    }
  }

  /**
   A pass over a connection with something queued ends it exactly when the last turn it took failed, or when
   it wrote nothing, left something unsent, and the stall noted earlier is sixty seconds old. Otherwise the
   stall is noted at the first pass that leaves something unsent, and forgotten at every write.
   */
  lemma PassOutcome(s: Sending, turns: seq<Turn>, now: int)
    requires Kept(s) && s.connected && s.queue != []
    ensures var t, n := AfterPass(s, turns, now), TurnsTaken(s, turns);
            var failed := n > 0 && turns[n - 1].outcome.Failed?;
            var wrote, all := SomeWritten(turns, 0, n), t.sent == Flat(s.pushed);
            && (!t.connected <==> failed || (!all && !wrote && s.stallSince != 0 && now - s.stallSince >= 60))
            && (t.connected ==>
                  t.stallSince == if all then 0 else if wrote || s.stallSince == 0 then now else s.stallSince)
            && (!wrote ==> t.sent == s.sent)
  {
    hide WriteOut, SomeWritten, Flat;
    var (w, end) := WriteOut(Begun(s), turns);
    WriteOutKeeps(Begun(s), turns, s.pushed);
    WriteOutEnds(Begun(s), turns);
    EmptiedExactly(s.pushed, w.sent, w.left, w.offset);
  }

  lemma EmptiedExactly(pushed: seq<seq<Byte>>, sent: seq<Byte>, left: seq<seq<Byte>>, offset: nat)
    requires Conserved(pushed, sent, left, offset) && (left != [] ==> offset < |left[0]|)
    ensures left == [] <==> sent == Flat(pushed)
  {
    if left != [] {
      assert |Flat(left)| >= |left[0]|;
      assert |Flat(left)[offset..]| > 0;
    }
  }

  /** A socket that is only full for now keeps its connection for sixty seconds. */
  lemma Patience(s: Sending, turns: seq<Turn>, now: int)
    requires Kept(s) && s.connected && forall i :: 0 <= i < |turns| ==> !turns[i].outcome.Failed?
    requires s.stallSince == 0 || now - s.stallSince < 60
    ensures AfterPass(s, turns, now).connected
  {
    if s.queue != [] { PassOutcome(s, turns, now); }
  }

  // ---------- The sender ----------

  class Sender {
    var sendQueue: seq<seq<Byte>>
    var sendOffset: nat
    var sendStallSince: int
    var connected: bool
    /** What the socket has accepted. */
    var sent: seq<Byte>
    /** Everything pushed so far. */
    ghost var pushed: seq<seq<Byte>>

    /** The fields as one value. */
    ghost function State(): Sending
      reads this
    {
      Sending(sendQueue, sendOffset, sendStallSince, connected, sent, pushed)
    }

    constructor ()
      ensures State() == IDLE
    {
      sendQueue, sendOffset, sendStallSince, connected, sent, pushed := [], 0, 0, true, [], [];
    }

    method PushMessage(m: Message)
      modifies this
      ensures State() == Pushed(old(State()), m)
      ensures Kept(old(State())) ==> Kept(State())
    {
      hide Serialize, Kept;
      if Kept(State()) { PushKeeps(State(), m); }
      sendQueue := sendQueue + [Serialize(m)];
      pushed := pushed + [Serialize(m)];
    }

    /** One pass of the loop over this connection; other threads may push during every write. */
    method Pass(turns: seq<Turn>, now: int)
      modifies this
      ensures State() == AfterPass(old(State()), turns, now)
      ensures Kept(old(State())) ==> Kept(State()) && old(sent) <= sent
      ensures Kept(old(State())) && old(connected) && Advancing(turns, 0)
              && |Flat(old(pushed))| - |old(sent)| <= |turns| ==>
        connected && sent == Flat(old(pushed))
    {
      hide Kept, Flat, Printed, WriteOut, Arrivals;
      ghost var s := State();
      if Kept(s) {
        PassKeeps(s, turns, now);
        if s.connected && Advancing(turns, 0) && |Flat(s.pushed)| - |s.sent| <= |turns| { PassEmpties(s, turns, now); }
      }
      if !connected { return; }
      var toSend := sendQueue;
      sendQueue := [];
      if toSend == [] {
        sendStallSince := 0;
        return;
      }
      var end;
      toSend, end := Write(toSend, turns);
      if end.Broken? {
        connected := false;
      } else if end.Emptied? {
        sendStallSince := 0;
      } else if sendStallSince == 0 {
        sendStallSince := now;
        sendQueue := toSend + sendQueue;
      } else if now - sendStallSince >= SEND_STALL_TIMEOUT_SEC {
        connected := false;
      } else {
        sendQueue := toSend + sendQueue;
      }
    }

    /** The writes of one pass. */
    method Write(queue: seq<seq<Byte>>, turns: seq<Turn>) returns (toSend: seq<seq<Byte>>, end: Ending)
      requires sendQueue == []
      modifies this
      ensures connected == old(connected)
      ensures var r := WriteOut(Writing(queue, old(sendOffset), old(sent), [], old(sendStallSince), 0), turns);
              && end == r.1 && toSend == r.0.left && sendOffset == r.0.offset && sent == r.0.sent
              && sendStallSince == r.0.stallSince
              && sendQueue == Printed(r.0.arrived) && pushed == old(pushed) + sendQueue
    {
      hide Printed, WriteOut;
      toSend, end := queue, Emptied;
      var used := 0;
      ghost var arrived: seq<Message> := [];
      ghost var all := WriteOut(Writing(toSend, sendOffset, sent, [], sendStallSince, 0), turns);
      PrintedConcat([], []);
      while toSend != []
        invariant used <= |turns| && connected == old(connected) && end.Emptied?
        invariant all == WriteOut(Writing(toSend, sendOffset, sent, arrived, sendStallSince, used), turns)
        invariant sendQueue == Printed(arrived) && pushed == old(pushed) + sendQueue
        decreases |turns| - used, |toSend|
      {
        ghost var w := Writing(toSend, sendOffset, sent, arrived, sendStallSince, used);
        Unfolds(w, turns);
        var data := toSend[0];
        if sendOffset >= |data| {
          toSend := toSend[1..];
          sendOffset := 0;
          continue;
        }
        if used == |turns| { return toSend, Full; }
        var turn := turns[used];
        PrintedConcat(arrived, turn.arrivals);
        arrived := arrived + turn.arrivals;
        sendQueue := sendQueue + Printed(turn.arrivals);
        pushed := pushed + Printed(turn.arrivals);
        assert pushed == old(pushed) + sendQueue;
        used := used + 1;
        match turn.outcome
        case Failed => return toSend, Broken;
        case Blocked => return toSend, Full;
        case Wrote(count) =>
          var n := if count < |data| - sendOffset then count else |data| - sendOffset;
          assert n == Portion(w, count);
          sent := sent + data[sendOffset..sendOffset + n];
          sendOffset := sendOffset + n;
          sendStallSince := 0;
      }
      Unfolds(Writing([], sendOffset, sent, arrived, sendStallSince, used), turns);
    }
  }

  /** The messages other threads pushed during the given turns, in order. */
  ghost function Arrivals(turns: seq<Turn>): seq<Message>
  {
    if turns == [] then [] else turns[0].arrivals + Arrivals(turns[1..])
  }

  lemma PrintedConcat(a: seq<Message>, b: seq<Message>)
    ensures Printed(a + b) == Printed(a) + Printed(b) && Printed([]) == []
  {}

  function Printed(ms: seq<Message>): (r: seq<seq<Byte>>)
    ensures |r| == |ms|
  {
    seq(|ms|, i requires 0 <= i < |ms| => Serialize(ms[i]))
  }

  // ---------- Runs ----------

  datatype Call = Push(m: Message) | PassOver(turns: seq<Turn>, now: int)

  function AfterCall(s: Sending, call: Call): Sending
  {
    match call
    case Push(m) => Pushed(s, m)
    case PassOver(turns, now) => AfterPass(s, turns, now)
  }

  ghost function AfterCalls(calls: seq<Call>): Sending
  {
    if calls == [] then IDLE else AfterCall(AfterCalls(calls[..|calls| - 1]), calls[|calls| - 1])
  }

  /** The messages pushed by a run, by the caller or by other threads, in the order of its calls. */
  ghost function PushedBy(calls: seq<Call>): seq<Message>
  {
    if calls == [] then []
    else
      var before := calls[..|calls| - 1];
      PushedBy(before) + PushedIn(AfterCalls(before), calls[|calls| - 1])
  }

  ghost function PushedIn(s: Sending, call: Call): seq<Message>
  {
    match call
    case Push(m) => [m]
    case PassOver(turns, _) => Arrivals(turns[..TurnsTaken(s, turns)])
  }

  lemma CallKeeps(s: Sending, call: Call)
    requires Kept(s)
    ensures var t := AfterCall(s, call);
            Kept(t) && s.sent <= t.sent && t.pushed == s.pushed + Printed(PushedIn(s, call))
  {
    hide Kept, Serialize, AfterPass, TurnsTaken, Flat;
    match call
    case Push(m) =>
      PushKeeps(s, m);
      assert Printed([m]) == [Serialize(m)];
    case PassOver(turns, now) => PassKeeps(s, turns, now);
  }

  /**
   After every run what was sent is the beginning of what was pushed in push order, and all of it once the queue
   is empty.
   */
  lemma {:induction false} RunKeeps(calls: seq<Call>)
    ensures var s := AfterCalls(calls);
            && Kept(s) && s.pushed == Printed(PushedBy(calls)) && s.sent <= Flat(Printed(PushedBy(calls)))
            && (s.connected && s.queue == [] ==> s.sent == Flat(Printed(PushedBy(calls))))
  {
    hide Serialize, AfterCall, PushedIn;
    if calls == [] {
      assert Printed([]) == [];
    } else {
      var before, last := calls[..|calls| - 1], calls[|calls| - 1];
      RunKeeps(before);
      CallKeeps(AfterCalls(before), last);
      PrintedConcat(PushedBy(before), PushedIn(AfterCalls(before), last));
    }
    var s := AfterCalls(calls);
    if s.connected && s.queue == [] { AllSent(s.pushed, s.sent, s.queue, s.offset); }
  }

  /** The stall in force dates from pass i: something was left unsent then, and no byte was taken since. */
  ghost predicate StalledAt(calls: seq<Call>, i: nat)
  {
    && i < |calls| && calls[i].PassOver? && calls[i].now == AfterCalls(calls).stallSince
    && AfterCalls(calls[..i + 1]).connected
    && AfterCalls(calls[..i + 1]).sent == AfterCalls(calls).sent
    && AfterCalls(calls).sent != Flat(AfterCalls(calls[..i]).pushed)
  }

  /** What the note of a stall means after every run. */
  lemma {:induction false} StallMeans(calls: seq<Call>)
    requires AfterCalls(calls).connected && AfterCalls(calls).stallSince != 0
    ensures exists i :: StalledAt(calls, i)
  {
    if calls != [] {
      var n := |calls| - 1;
      hide AfterCall, Flat, StalledAt;
      var s, t := AfterCalls(calls[..n]), AfterCalls(calls);
      assert t == AfterCall(s, calls[n]);
      hide AfterCalls;
      RunKeeps(calls[..n]);
      CallStalls(s, calls[n]);
      if calls[n].PassOver? && t.stallSince == calls[n].now && t.sent != Flat(s.pushed) {
        StallsNow(calls);
      } else {
        StallMeans(calls[..n]);
        var i :| StalledAt(calls[..n], i);
        StallsOn(calls, i);
      }
    }
  }

  lemma StallsNow(calls: seq<Call>)
    requires calls != [] && AfterCalls(calls).connected
    requires var n, t := |calls| - 1, AfterCalls(calls);
             calls[n].PassOver? && t.stallSince == calls[n].now && t.sent != Flat(AfterCalls(calls[..n]).pushed)
    ensures StalledAt(calls, |calls| - 1)
  {
    assert calls[..|calls|] == calls;
  }

  lemma StallsOn(calls: seq<Call>, i: nat)
    requires calls != [] && StalledAt(calls[..|calls| - 1], i)
    requires var s, t := AfterCalls(calls[..|calls| - 1]), AfterCalls(calls);
             t.stallSince == s.stallSince && t.sent == s.sent
    ensures StalledAt(calls, i)
  {
    hide AfterCalls, Flat;
    var before := calls[..|calls| - 1];
    assert before[..i + 1] == calls[..i + 1] && before[..i] == calls[..i];
  }

  /** One call notes a stall itself, or finds it noted and lets no byte pass. */
  lemma CallStalls(s: Sending, call: Call)
    requires Kept(s)
    ensures var t := AfterCall(s, call);
            && (t.connected ==> s.connected)
            && (t.connected && t.stallSince != 0 ==>
                  || (call.PassOver? && t.stallSince == call.now && t.sent != Flat(s.pushed))
                  || (t.stallSince == s.stallSince && t.sent == s.sent))
            && (s.connected && !t.connected ==> call.PassOver? && s.queue != [])
  {
    hide Flat, Serialize;
    if call.PassOver? && s.connected && s.queue != [] {
      hide AfterPass, SomeWritten, TurnsTaken;
      PassOutcome(s, call.turns, call.now);
    }
  }

  /** A connection ends in a pass only: on a failed write, or after sixty seconds in which no byte was taken. */
  lemma EndsOnly(calls: seq<Call>, call: Call)
    requires AfterCalls(calls).connected && !AfterCall(AfterCalls(calls), call).connected
    ensures call.PassOver?
    ensures var s, t := AfterCalls(calls), AfterCall(AfterCalls(calls), call);
            var n := TurnsTaken(s, call.turns);
            || (n > 0 && call.turns[n - 1].outcome.Failed?)
            || exists i: nat :: StalledAt(calls, i) && call.now - calls[i].now >= 60
                           && t.sent == AfterCalls(calls[..i + 1]).sent && t.sent != Flat(s.pushed)
  {
    hide Flat, AfterPass, SomeWritten, TurnsTaken, Serialize, AfterCalls;
    var s := AfterCalls(calls);
    RunKeeps(calls);
    CallStalls(s, call);
    PassOutcome(s, call.turns, call.now);
    var n := TurnsTaken(s, call.turns);
    if !(n > 0 && call.turns[n - 1].outcome.Failed?) {
      StallMeans(calls);
      var i :| StalledAt(calls, i);
    }
  }

  /** The loop over any run of pushes and passes ends in the state the run specifies. */
  method RunSender(calls: seq<Call>) returns (s: Sender)
    ensures s.State() == AfterCalls(calls) && Kept(s.State())
    ensures s.pushed == Printed(PushedBy(calls)) && s.sent <= Flat(s.pushed)
  {
    hide AfterCall, Kept, Flat, PushedBy, Serialize;
    s := new Sender();
    for i := 0 to |calls|
      invariant fresh(s) && s.State() == AfterCalls(calls[..i])
    {
      assert calls[..i + 1][..i] == calls[..i];
      RunOne(s, calls[i]);
    }
    assert calls[..|calls|] == calls;
    RunKeeps(calls);
  }

  method RunOne(s: Sender, call: Call)
    modifies s
    ensures s.State() == AfterCall(old(s.State()), call)
  {
    hide AfterPass, Pushed, Kept;
    match call
    case Push(m) => s.PushMessage(m);
    case PassOver(turns, now) => s.Pass(turns, now);
  }

  // ---------- Receiving ----------

  /** What handling one message leads to: penalty points, and whether the peer is kept. */
  datatype Reaction = Reaction(demerits: nat, keep: bool)

  /** Where a connection stands: unparsed bytes, messages handled, penalty points, and whether the peer is kept. */
  datatype Progress = Progress(buffer: seq<Byte>, handled: seq<Message>, misbehavior: nat, open: bool)

  /** Handling every whole message at the front of the buffer. A handler knows how many came before. */
  function Drain(p: Progress, network: Limb, react: (nat, Message) -> Reaction): Progress
    decreases |p.buffer|, 1
  {
    if |p.buffer| < HEADER then p
    else
      var size := Read32(p.buffer, 5);
      if size > MAX_PROTOCOL_MSG_SIZE then p.(misbehavior := p.misbehavior + 20, open := false)
      else if |p.buffer| < HEADER + size then p
      else
        Handle(p, Deserialize(p.buffer[..HEADER + size], network), size, network, react)
  }

  /** What a whole message of the given size does, parsed or not. */
  function Handle(p: Progress, parsed: Result<Message>, size: nat, network: Limb,
                  react: (nat, Message) -> Reaction): Progress
    requires HEADER + size <= |p.buffer|
    decreases |p.buffer|, 0
  {
    match parsed
    case Error => p.(misbehavior := p.misbehavior + 10, open := p.misbehavior + 10 < BAN_SCORE)
    case Ok(m) =>
      var r := react(|p.handled|, m);
      var q := Progress(p.buffer[HEADER + size..], p.handled + [m], p.misbehavior + r.demerits, r.keep);
      if r.keep then Drain(q, network, react) else q
  }

  /** One read: the bytes join the buffer, an overfull buffer ends the connection, whole messages are handled. */
  function Receive(p: Progress, chunk: seq<Byte>, network: Limb, react: (nat, Message) -> Reaction): Progress
  {
    var q := p.(buffer := p.buffer + chunk);
    if chunk == [] then p
    else if |q.buffer| > MAX_PROTOCOL_MSG_SIZE + HEADER then q.(misbehavior := p.misbehavior + 20, open := false)
    else Drain(q, network, react)
  }

  class Receiver {
    const network: Limb
    var recvBuffer: seq<Byte>
    var misbehavior: nat
    var connected: bool
    /** The messages passed on to their handlers, in order. */
    var handled: seq<Message>

    constructor (network: Limb)
      ensures this.network == network && recvBuffer == [] && misbehavior == 0 && connected && handled == []
    {
      this.network := network;
      recvBuffer, misbehavior, connected, handled := [], 0, true, [];
    }

    ghost function View(): Progress
      reads this
    {
      Progress(recvBuffer, handled, misbehavior, connected)
    }

    method HandleRead(chunk: seq<Byte>, react: (nat, Message) -> Reaction)
      requires connected
      modifies this
      ensures View() == Receive(old(View()), chunk, network, react)
    {
      hide Read32, Deserialize, Drain;
      if |chunk| == 0 { return; }
      recvBuffer := recvBuffer + chunk;
      if |recvBuffer| > MAX_PROTOCOL_MSG_SIZE + HEADER {
        misbehavior := misbehavior + 20;
        connected := false;
        return;
      }
      ghost var goal := Drain(View(), network, react);
      while |recvBuffer| >= HEADER
        invariant connected && Drain(View(), network, react) == goal
        decreases |recvBuffer|
      {
        DrainStep(View(), network, react);
        var size := Read32(recvBuffer, 5);
        if size > MAX_PROTOCOL_MSG_SIZE {
          misbehavior := misbehavior + 20;
          connected := false;
          return;
        }
        var total := HEADER + size;
        if |recvBuffer| < total { break; }
        var r := Deserialize(recvBuffer[..total], network);
        if r.Error? {
          misbehavior := misbehavior + 10;
          if misbehavior >= BAN_SCORE { connected := false; }
          return;
        }
        var reaction := react(|handled|, r.value);
        recvBuffer := recvBuffer[total..];
        handled := handled + [r.value];
        misbehavior := misbehavior + reaction.demerits;
        if !reaction.keep {
          connected := false;
          return;
        }
      }
      if |recvBuffer| < HEADER { DrainNothing(View(), network, react); }
    }
  }

  /** The loop body, once. */
  lemma DrainStep(p: Progress, network: Limb, react: (nat, Message) -> Reaction)
    requires |p.buffer| >= HEADER
    ensures var size := Read32(p.buffer, 5);
      && (size > MAX_PROTOCOL_MSG_SIZE ==>
        Drain(p, network, react) == p.(misbehavior := p.misbehavior + 20, open := false))
      && (size <= MAX_PROTOCOL_MSG_SIZE && |p.buffer| < HEADER + size ==> Drain(p, network, react) == p)
      && (size <= MAX_PROTOCOL_MSG_SIZE && |p.buffer| >= HEADER + size ==>
            Drain(p, network, react)
              == Handle(p, Deserialize(p.buffer[..HEADER + size], network), size, network, react))
  {
    hide Read32, Deserialize;
  }

  // ---------- Whatever arrives ----------

  /** A whole message of another network is at the front. */
  ghost predicate Foreign(b: seq<Byte>, network: Limb)
  {
    && |b| >= HEADER && Read32(b, 5) <= MAX_PROTOCOL_MSG_SIZE && HEADER + Read32(b, 5) <= |b|
    && Read32(b, 0) != network
  }

  /** Why a connection ended: too much was sent or announced, another network's messages came, or a handler said so. */
  ghost predicate Ended(p: Progress, network: Limb, react: (nat, Message) -> Reaction)
  {
    || (p.misbehavior >= 20 && |p.buffer| > MAX_PROTOCOL_MSG_SIZE + HEADER)
    || (p.misbehavior >= 20 && |p.buffer| >= HEADER && Read32(p.buffer, 5) > MAX_PROTOCOL_MSG_SIZE)
    || (p.misbehavior >= BAN_SCORE && Foreign(p.buffer, network))
    || (p.handled != [] && !react(|p.handled| - 1, p.handled[|p.handled| - 1]).keep)
  }

  ghost predicate OfNetwork(ms: seq<Message>, network: Limb)
  {
    forall i :: 0 <= i < |ms| ==> ms[i].magic == network && |ms[i].payload| <= MAX_PROTOCOL_MSG_SIZE
  }

  /** What a receiver has at any time: messages of its network, and no whole one of them left in the buffer. */
  ghost predicate Sorted(p: Progress, network: Limb, react: (nat, Message) -> Reaction)
  {
    && OfNetwork(p.handled, network)
    && (if !p.open then Ended(p, network, react)
        else |p.buffer| < HEADER || Foreign(p.buffer, network) || |p.buffer| < HEADER + Read32(p.buffer, 5))
  }

  /** The bytes a receiver has seen: those of the messages it handled, then its buffer. */
  ghost function Seen(p: Progress): seq<Byte> { Flat(Printed(p.handled)) + p.buffer }

  lemma HandledSeen(p: Progress, m: Message, size: nat)
    requires HEADER + size <= |p.buffer| && Serialize(m) == p.buffer[..HEADER + size]
    ensures Seen(p.(handled := p.handled + [m], buffer := p.buffer[HEADER + size..])) == Seen(p)
  {
    hide Serialize;
    PrintedConcat(p.handled, [m]);
    FlatConcat(Printed(p.handled), Printed([m]));
    var s := Printed([m]);
    assert s == [Serialize(m)] && s[1..] == [] && Flat(s) == Serialize(m) + [];
    assert p.buffer == p.buffer[..HEADER + size] + p.buffer[HEADER + size..];
  }

  /** Handling what is in the buffer loses no byte, whatever the bytes are. */
  lemma {:induction false} DrainAccounts(p: Progress, network: Limb, react: (nat, Message) -> Reaction)
    requires p.open && OfNetwork(p.handled, network)
    ensures Seen(Drain(p, network, react)) == Seen(p) && Sorted(Drain(p, network, react), network, react)
    ensures p.misbehavior <= Drain(p, network, react).misbehavior
    decreases |p.buffer|
  {
    hide Read32, Seen, Serialize;
    if |p.buffer| < HEADER {
      DrainNothing(p, network, react);
    } else {
      DrainStep(p, network, react);
      var size := Read32(p.buffer, 5);
      if size <= MAX_PROTOCOL_MSG_SIZE && |p.buffer| >= HEADER + size {
        SameHeader(p.buffer, HEADER + size);
        if Read32(p.buffer, 0) == network {
          var q := OneHandled(p, network, react);
          if q.open { DrainAccounts(q, network, react); }
        }
      }
      SeenOnly(p, Drain(p, network, react));
    }
  }

  /** The next message of this network is handled. */
  lemma OneHandled(p: Progress, network: Limb, react: (nat, Message) -> Reaction) returns (q: Progress)
    requires |p.buffer| >= HEADER && Read32(p.buffer, 0) == network
    requires Read32(p.buffer, 5) <= MAX_PROTOCOL_MSG_SIZE && |p.buffer| >= HEADER + Read32(p.buffer, 5)
    ensures |q.buffer| < |p.buffer| && |q.handled| == |p.handled| + 1 && q.handled[..|p.handled|] == p.handled
    ensures var m := q.handled[|p.handled|];
      && m.magic == network && |m.payload| <= MAX_PROTOCOL_MSG_SIZE && q.open == react(|p.handled|, m).keep
    ensures Seen(q) == Seen(p) && q.misbehavior >= p.misbehavior
    ensures Drain(p, network, react) == if q.open then Drain(q, network, react) else q
  {
    hide Read32, Seen, Serialize, Drain;
    DrainStep(p, network, react);
    var size := Read32(p.buffer, 5);
    SameHeader(p.buffer, HEADER + size);
    var m := Deserialize(p.buffer[..HEADER + size], network).value;
    ParsedPrintsBack(p.buffer[..HEADER + size], network);
    HandledSeen(p, m, size);
    var r := react(|p.handled|, m);
    q := Progress(p.buffer[HEADER + size..], p.handled + [m], p.misbehavior + r.demerits, r.keep);
    SeenOnly(q, p.(handled := p.handled + [m], buffer := p.buffer[HEADER + size..]));
  }

  lemma SameHeader(b: seq<Byte>, n: nat)
    requires HEADER <= n <= |b|
    ensures Read32(b[..n], 0) == Read32(b, 0) && Read32(b[..n], 5) == Read32(b, 5)
  {}

  lemma SeenOnly(p: Progress, q: Progress)
    ensures p.handled == q.handled && p.buffer == q.buffer ==> Seen(p) == Seen(q)
  {}

  lemma {:induction false} ReadsAccount(p: Progress, chunks: seq<seq<Byte>>, network: Limb,
                                        react: (nat, Message) -> Reaction)
    requires Sorted(p, network, react)
    ensures var r := ReceiveAll(p, chunks, network, react);
      && Sorted(r, network, react) && Seen(r) <= Seen(p) + Flat(chunks)
      && (r.open ==> Seen(r) == Seen(p) + Flat(chunks))
    decreases |chunks|
  {
    hide Drain, Receive, Read32, Printed;
    if chunks == [] || !p.open {
      assert chunks == [] ==> Seen(p) + Flat(chunks) == Seen(p);
    } else {
      var q := Receive(p, chunks[0], network, react);
      OneRead(p, chunks[0], network, react);
      ReadsAccount(q, chunks[1..], network, react);
      assert Seen(p) + Flat(chunks) == Seen(q) + Flat(chunks[1..]);
    }
  }

  lemma OneRead(p: Progress, chunk: seq<Byte>, network: Limb, react: (nat, Message) -> Reaction)
    requires Sorted(p, network, react) && p.open
    ensures var r := Receive(p, chunk, network, react);
      Sorted(r, network, react) && Seen(r) == Seen(p) + chunk && r.misbehavior >= p.misbehavior
  {
    hide Drain, Read32, Printed;
    var q := p.(buffer := p.buffer + chunk);
    assert Seen(q) == Seen(p) + chunk;
    if chunk == [] {
      assert Seen(p) + chunk == Seen(p);
    } else if |q.buffer| > MAX_PROTOCOL_MSG_SIZE + HEADER {
      SeenOnly(q, Receive(p, chunk, network, react));
    } else {
      DrainAccounts(q, network, react);
    }
  }

  /**
   Whatever bytes arrive, however cut: the messages handled are, printed, what the bytes begin with, and the
   buffer is what follows them. While the connection is open that is all bytes, and no whole message of this
   network waits. It ends only for a reason.
   */
  lemma AnyStream(chunks: seq<seq<Byte>>, network: Limb, react: (nat, Message) -> Reaction)
    ensures var r := ReceiveAll(START, chunks, network, react);
      && Flat(Printed(r.handled)) + r.buffer <= Flat(chunks) && Sorted(r, network, react)
      && (r.open ==> Flat(Printed(r.handled)) + r.buffer == Flat(chunks))
  {
    hide ReceiveAll, Read32;
    ReadsAccount(START, chunks, network, react);
    assert Printed([]) == [] && Seen(START) == [] && [] + Flat(chunks) == Flat(chunks);
  }

  // ---------- Delivery ----------

  /** The largest payload that survives every way of cutting the stream into reads. */
  const SAFE_PAYLOAD: nat := MAX_PROTOCOL_MSG_SIZE - READ_CHUNK_SIZE + 1

  /** Messages of this network, small enough, whose handlers keep the peer. */
  ghost predicate Welcome(ms: seq<Message>, network: Limb, react: (nat, Message) -> Reaction)
  {
    forall i :: 0 <= i < |ms| ==> ms[i].magic == network && |ms[i].payload| <= SAFE_PAYLOAD && react(i, ms[i]).keep
  }

  /** k messages handled and the buffer holding a part of the next, together the first bytes of the stream. */
  ghost predicate Following(ms: seq<Message>, p: Progress, taken: seq<Byte>)
  {
    && p.open && p.handled <= ms
    && taken == Flat(Printed(p.handled)) + p.buffer
    && (p.handled == ms ==> p.buffer == [])
    && (p.handled != ms ==> |p.buffer| < |Serialize(ms[|p.handled|])|)
  }

  /** A buffer that starts with a whole message: one step of the loop. */
  lemma DrainOne(p: Progress, m: Message, rest: seq<Byte>, network: Limb, react: (nat, Message) -> Reaction)
    requires p.buffer == Serialize(m) + rest && m.magic == network && |m.payload| <= SAFE_PAYLOAD
    requires react(|p.handled|, m).keep && p.open
    ensures var r := react(|p.handled|, m);
            Drain(p, network, react)
              == Drain(Progress(rest, p.handled + [m], p.misbehavior + r.demerits, true), network, react)
  {
    hide Serialize, Read32, Deserialize;
    HeaderOf(m, rest);
    RoundTrip(m, network);
    var total := HEADER + |m.payload|;
    assert p.buffer[..total] == Serialize(m) && p.buffer[total..] == rest;
  }

  /** A buffer that holds only part of a message: the loop waits. */
  lemma DrainPart(p: Progress, m: Message, network: Limb, react: (nat, Message) -> Reaction)
    requires p.buffer <= Serialize(m) && |p.buffer| < |Serialize(m)| && |m.payload| <= MAX_PROTOCOL_MSG_SIZE
    ensures Drain(p, network, react) == p
  {
    if |p.buffer| >= HEADER {
      hide Read32, Le32;
      HeaderOf(m, []);
      assert Serialize(m) + [] == Serialize(m);
      SameSize(p.buffer, Serialize(m));
    }
  }

  lemma SameSize(a: seq<Byte>, b: seq<Byte>)
    requires a <= b && |a| >= HEADER
    ensures Read32(a, 5) == Read32(b, 5)
  {}

  /** The stream before, of and after message k. */
  lemma StreamAt(ms: seq<Message>, k: nat)
    requires k < |ms|
    ensures Flat(Printed(ms)) == Flat(Printed(ms[..k])) + (Serialize(ms[k]) + Flat(Printed(ms[k + 1..])))
    ensures Flat(Printed(ms[..k + 1])) == Flat(Printed(ms[..k])) + Serialize(ms[k])
  {
    hide Serialize;
    var a, m, c := Printed(ms[..k]), [Serialize(ms[k])], Printed(ms[k + 1..]);
    assert Printed(ms) == a + (m + c) && Printed(ms[..k + 1]) == a + m;
    assert Flat(m) == m[0] + Flat(m[1..]);
    FlatConcat(a, m + c);
    FlatConcat(m, c);
    FlatConcat(a, m);
  }

  lemma {:induction false} DrainFollows(ms: seq<Message>, p: Progress, taken: seq<Byte>, network: Limb,
                                        react: (nat, Message) -> Reaction)
    requires Welcome(ms, network, react) && p.open && p.handled <= ms
    requires taken == Flat(Printed(p.handled)) + p.buffer && taken <= Flat(Printed(ms))
    ensures Following(ms, Drain(p, network, react), taken)
    decreases |ms| - |p.handled|
  {
    hide Serialize, Drain, Flat, Printed;
    var k := |p.handled|;
    if k == |ms| {
      assert p.handled == ms;
      DrainNothing(p, network, react);
    } else {
      StreamAt(ms, k);
      var m, tail := ms[k], Flat(Printed(ms[k + 1..]));
      assert ms[..k] == p.handled;
      assert p.buffer <= Serialize(m) + tail by { SamePrefix(Flat(Printed(p.handled)), p.buffer, Serialize(m) + tail); }
      if |p.buffer| < |Serialize(m)| {
        assert p.buffer <= Serialize(m);
        DrainPart(p, m, network, react);
      } else {
        var rest := p.buffer[|Serialize(m)|..];
        assert p.buffer == Serialize(m) + rest;
        DrainOne(p, m, rest, network, react);
        assert p.handled + [m] == ms[..k + 1];
        assert taken == Flat(Printed(ms[..k + 1])) + rest;
        DrainFollows(ms, Progress(rest, p.handled + [m], p.misbehavior + react(k, m).demerits, true),
                     taken, network, react);
      }
    }
  }

  lemma SamePrefix(a: seq<Byte>, b: seq<Byte>, c: seq<Byte>)
    requires a + b <= a + c
    ensures b <= c
  {
    assert b == (a + b)[|a|..] && c == (a + c)[|a|..];
  }

  lemma DrainNothing(p: Progress, network: Limb, react: (nat, Message) -> Reaction)
    requires |p.buffer| < HEADER
    ensures Drain(p, network, react) == p
  {}

  /** A read of at most a chunk keeps up with the stream; the buffer cannot overflow. */
  lemma ReceiveFollows(ms: seq<Message>, p: Progress, taken: seq<Byte>, chunk: seq<Byte>, network: Limb,
                       react: (nat, Message) -> Reaction)
    requires Welcome(ms, network, react) && Following(ms, p, taken)
    requires |chunk| <= READ_CHUNK_SIZE && taken + chunk <= Flat(Printed(ms))
    ensures Following(ms, Receive(p, chunk, network, react), taken + chunk)
  {
    hide Drain, Flat, Printed;
    if chunk == [] {
      assert taken + chunk == taken;
    } else {
      assert Flat(Printed(p.handled)) + p.buffer + chunk == Flat(Printed(p.handled)) + (p.buffer + chunk);
      assert p.handled != ms;
      DrainFollows(ms, p.(buffer := p.buffer + chunk), taken + chunk, network, react);
    }
  }

  /** A whole session of reads. */
  function ReceiveAll(p: Progress, chunks: seq<seq<Byte>>, network: Limb, react: (nat, Message) -> Reaction): Progress
    decreases |chunks|
  {
    if chunks == [] || !p.open then p
    else ReceiveAll(Receive(p, chunks[0], network, react), chunks[1..], network, react)
  }

  lemma {:induction false} ReadsFollow(ms: seq<Message>, p: Progress, taken: seq<Byte>, chunks: seq<seq<Byte>>,
                                       network: Limb, react: (nat, Message) -> Reaction)
    requires Welcome(ms, network, react) && Following(ms, p, taken)
    requires taken + Flat(chunks) <= Flat(Printed(ms)) && Small(chunks)
    ensures Following(ms, ReceiveAll(p, chunks, network, react), taken + Flat(chunks))
    decreases |chunks|
  {
    hide Drain, Receive, Printed;
    if chunks == [] {
      assert taken + Flat(chunks) == taken;
    } else {
      var c := chunks[0];
      assert taken + Flat(chunks) == taken + c + Flat(chunks[1..]);
      ReceiveFollows(ms, p, taken, c, network, react);
      ReadsFollow(ms, Receive(p, c, network, react), taken + c, chunks[1..], network, react);
    }
  }

  /** Reads of at most a chunk. */
  ghost predicate Small(chunks: seq<seq<Byte>>)
  {
    forall i :: 0 <= i < |chunks| ==> |chunks[i]| <= READ_CHUNK_SIZE
  }

  /** Nothing handled, nothing buffered. */
  const START: Progress := Progress([], [], 0, true)

  /**
   However a stream of messages, or any beginning of it, is cut into reads, the receiver handles
   the messages in order, each once it has arrived whole, and the complete stream completely.
   */
  lemma Delivery(ms: seq<Message>, chunks: seq<seq<Byte>>, network: Limb, react: (nat, Message) -> Reaction)
    requires Welcome(ms, network, react)
    requires Flat(chunks) <= Flat(Printed(ms)) && Small(chunks)
    ensures Following(ms, ReceiveAll(START, chunks, network, react), Flat(chunks))
    ensures Flat(chunks) == Flat(Printed(ms)) ==> ReceiveAll(START, chunks, network, react).handled == ms
  {
    hide Drain, Receive, ReceiveAll, Serialize;
    assert Flat(Printed([])) == [] && [] + Flat(chunks) == Flat(chunks);
    if ms != [] { SerializedSize(ms[0]); }
    ReadsFollow(ms, START, [], chunks, network, react);
    var p := ReceiveAll(START, chunks, network, react);
    if p.handled != ms {
      StreamAt(ms, |p.handled|);
      assert ms[..|p.handled|] == p.handled;
    }
  }

  /**
   Both ends together. For every run of the sender and every cut of what it sent, the receiver handles a
   beginning of the pushed messages in push order, and all of them once the queue is empty.
   */
  lemma EndToEnd(calls: seq<Call>, chunks: seq<seq<Byte>>, network: Limb, react: (nat, Message) -> Reaction)
    requires Welcome(PushedBy(calls), network, react)
    requires Flat(chunks) == AfterCalls(calls).sent && Small(chunks)
    ensures var s, handled := AfterCalls(calls), ReceiveAll(START, chunks, network, react).handled;
            handled <= PushedBy(calls) && (s.connected && s.queue == [] ==> handled == PushedBy(calls))
  {
    hide Flat, Serialize, Drain, Receive, ReceiveAll, PushedBy, AfterCalls;
    RunKeeps(calls);
    Delivery(PushedBy(calls), chunks, network, react);
  }

  /**
   A live connection delivers: once a run ends with a pass in which the socket takes something in as many turns
   as bytes were pending, everything pushed before that pass has been handled, however the bytes were cut.
   */
  lemma EventuallyHandled(calls: seq<Call>, turns: seq<Turn>, now: int, chunks: seq<seq<Byte>>,
                          network: Limb, react: (nat, Message) -> Reaction)
    requires var s := AfterCalls(calls); s.connected && Advancing(turns, 0) && |Flat(s.pushed)| - |s.sent| <= |turns|
    requires Welcome(PushedBy(calls), network, react)
    requires Flat(chunks) == AfterCalls(calls + [PassOver(turns, now)]).sent && Small(chunks)
    ensures ReceiveAll(START, chunks, network, react).handled == PushedBy(calls)
  {
    hide Flat, Serialize, Drain, Receive, ReceiveAll, PushedBy, AfterPass, Kept;
    var more := calls + [PassOver(turns, now)];
    assert more[..|more| - 1] == calls;
    RunKeeps(calls);
    PassEmpties(AfterCalls(calls), turns, now);
    Delivery(PushedBy(calls), chunks, network, react);
  }

  lemma SerializedSize(m: Message)
    ensures |Serialize(m)| > 0
  {}

  // ---------- The payload bound is exact ----------

  function Pieces(s: seq<Byte>): (chunks: seq<seq<Byte>>)
    ensures Small(chunks)
  {
    if |s| <= READ_CHUNK_SIZE then [s] else [s[..READ_CHUNK_SIZE]] + Pieces(s[READ_CHUNK_SIZE..])
  }

  lemma {:induction false} FlatPieces(s: seq<Byte>)
    ensures Flat(Pieces(s)) == s
  {
    if |s| > READ_CHUNK_SIZE {
      FlatPieces(s[READ_CHUNK_SIZE..]);
      assert Pieces(s)[1..] == Pieces(s[READ_CHUNK_SIZE..]);
    } else {
      assert Flat([s]) == s + Flat([s][1..]);
    }
  }

  /** Reads that do not complete a message only fill the buffer. */
  lemma {:induction false} Waiting(p: Progress, m: Message, s: seq<Byte>, more: seq<seq<Byte>>, network: Limb,
                                   react: (nat, Message) -> Reaction)
    requires p.open && |m.payload| <= MAX_PROTOCOL_MSG_SIZE
    requires p.buffer + s <= Serialize(m) && |p.buffer + s| < |Serialize(m)|
    ensures ReceiveAll(p, Pieces(s) + more, network, react)
      == ReceiveAll(p.(buffer := p.buffer + s), more, network, react)
    decreases |s|
  {
    hide Serialize, Receive, ReceiveAll;
    if |s| <= READ_CHUNK_SIZE {
      WaitOne(p, m, s, network, react);
      ReadFirst(p, s, more, network, react);
    } else {
      var c, t := s[..READ_CHUNK_SIZE], s[READ_CHUNK_SIZE..];
      assert p.buffer + c + t == p.buffer + s;
      WaitOne(p, m, c, network, react);
      assert Pieces(s) + more == [c] + (Pieces(t) + more);
      ReadFirst(p, c, Pieces(t) + more, network, react);
      Waiting(p.(buffer := p.buffer + c), m, t, more, network, react);
    }
  }

  lemma ReadFirst(p: Progress, c: seq<Byte>, more: seq<seq<Byte>>, network: Limb, react: (nat, Message) -> Reaction)
    requires p.open
    ensures ReceiveAll(p, [c] + more, network, react) == ReceiveAll(Receive(p, c, network, react), more, network, react)
  {
    assert ([c] + more)[1..] == more;
  }

  lemma WaitOne(p: Progress, m: Message, c: seq<Byte>, network: Limb, react: (nat, Message) -> Reaction)
    requires p.open && |m.payload| <= MAX_PROTOCOL_MSG_SIZE
    requires p.buffer + c <= Serialize(m) && |p.buffer + c| < |Serialize(m)|
    ensures Receive(p, c, network, react) == p.(buffer := p.buffer + c)
  {
    hide Drain;
    DrainPart(p.(buffer := p.buffer + c), m, network, react);
    if c == [] { assert p.buffer + c == p.buffer; }
  }

  /** A larger payload, though within the declared limit, is lost when the next message arrives in the same read. */
  lemma LargerPayloadFails(m: Message, next: seq<Byte>, network: Limb,
                           react: (nat, Message) -> Reaction) returns (chunks: seq<seq<Byte>>)
    requires SAFE_PAYLOAD < |m.payload| <= MAX_PROTOCOL_MSG_SIZE && |next| == READ_CHUNK_SIZE - 1
    ensures Flat(chunks) == Serialize(m) + next && Small(chunks)
    ensures !ReceiveAll(START, chunks, network, react).open && ReceiveAll(START, chunks, network, react).handled == []
  {
    hide Drain, Pieces;
    var s := Serialize(m);
    var n := |s| - 1;
    var front, last := s[..n], [s[n]] + next;
    hide Serialize;
    chunks := Pieces(front) + [last];
    FlatPieces(front);
    FlatConcat(Pieces(front), [last]);
    assert Flat([last]) == last + Flat([last][1..]);
    assert front + last == s + next;
    assert START.buffer + front == front;
    Waiting(START, m, front, [last], network, react);
    var p := START.(buffer := front);
    assert [last][0] == last && |front + last| == |s| + |next|;
    assert ReceiveAll(p, [last], network, react)
      == ReceiveAll(Receive(p, last, network, react), [last][1..], network, react);
  }
}
