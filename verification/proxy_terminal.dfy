/**
  The write queue of a terminal's event loop (lapce-proxy/src/terminal.rs): input chunks
  waiting to go to the pseudo-terminal, and the chunk being written.
*/
module PtyWriteQueue {
  import opened Wrappers

  type Bytes = seq<bv8>

  /** A chunk of input being written: its bytes and how many are already out. */
  datatype Writing = Writing(source: Bytes, written: nat) {
    predicate Valid() { written <= |source| }

    /** `remaining_bytes`: what is still to be written. */
    function Remaining(): (r: Bytes)
      requires Valid()
      ensures |r| == |source| - written
    {
      source[written..]
    }

    /** `finished`. */
    function Finished(): (r: bool)
      ensures Valid() ==> (r <==> Remaining() == [])
    {
      written >= |source|
    }

    /** `advance`: `n` more bytes are out. Advancing by at most what remains drops exactly
        those bytes from the front of what remains. */
    function Advance(n: nat): (w: Writing)
      ensures Valid() && n <= |Remaining()| ==> w.Valid() && Remaining()[..n] + w.Remaining() == Remaining()
    {
      var w := Writing(source, written + n);
      assert Valid() && n <= |Remaining()| ==> Remaining()[..n] + source[written + n..] == Remaining();
      w
    }
  }

  /** `Writing::new`: nothing of the chunk is out yet. */
  function NewWriting(c: Bytes): (w: Writing)
    ensures w.Valid() && w.Remaining() == c
  {
    Writing(c, 0)
  }

  /** The bytes of a list of chunks, in order. */
  function Flatten(chunks: seq<Bytes>): Bytes
  {
    if chunks == [] then [] else chunks[0] + Flatten(chunks[1..])
  }

  /** Queueing chunks after others queues their bytes after theirs. */
  lemma {:induction false} FlattenAppend(a: seq<Bytes>, b: seq<Bytes>)
    ensures Flatten(a + b) == Flatten(a) + Flatten(b)
  {
    if a == [] {
      assert a + b == b;
    } else {
      assert (a + b)[1..] == a[1..] + b;
      FlattenAppend(a[1..], b);
    }
  }

  /** The bytes of the chunk being written that are still to go, none when there is none. */
  function Queued(w: Option<Writing>): (r: Bytes)
    requires w.Some? ==> w.value.Valid()
    ensures w.Some? ==> w.value.source[..w.value.written] + r == w.value.source
    ensures w.None? ==> r == []
  {
    if w.Some? then w.value.Remaining() else []
  }

  /** The bytes still to go of a chunk being written and of the chunks queued behind it. */
  function Backlog(w: Option<Writing>, list: seq<Bytes>): (r: Bytes)
    requires w.Some? ==> w.value.Valid()
    ensures w.None? ==> r == Flatten(list)
    ensures w.Some? ==> r == w.value.Remaining() + Flatten(list)
  {
    Queued(w) + Flatten(list)
  }

  /** The write side of a terminal's event loop: the chunk being written and those queued. */
  class State {
    var writeList: seq<Bytes>
    var writing: Option<Writing>

    /** `State::default`: nothing to write. */
    constructor ()
      ensures writeList == [] && writing == None
    {
      writeList := [];
      writing := None;
    }

    predicate Valid()
      reads this
    {
      writing.Some? ==> writing.value.Valid()
    }

    /** Every byte still to be written, in the order it will be written. */
    function Pending(): (r: Bytes)
      reads this
      requires Valid()
      ensures r == Backlog(writing, writeList)
    {
      Backlog(writing, writeList)
    }

    /** `needs_write`: there is a chunk being written or one queued. With nothing to write,
        no byte is pending; with nothing in progress and nothing queued, nothing is to write. */
    function NeedsWrite(): (r: bool)
      reads this
      requires Valid()
      ensures !r ==> Pending() == []
      ensures writing.None? && writeList == [] ==> !r
      ensures !r ==> writing.None? && writeList == []
    {
      writing.Some? || writeList != []
    }

    /** `goto_next`: start writing the front of the queue, dropping the current chunk. */
    method GotoNext()
      modifies this
      ensures writeList == (if old(writeList) == [] then [] else old(writeList)[1..])
      ensures writing == (if old(writeList) == [] then None else Some(NewWriting(old(writeList)[0])))
      ensures Valid() && Pending() == Flatten(old(writeList))
      ensures writing.None? ==> writeList == []
    {
      if writeList == [] {
        writing := None;
      } else {
        writing := Some(NewWriting(writeList[0]));
        writeList := writeList[1..];
      }
    }

    /** `ensure_next`: with no chunk being written, start on the front of the queue; nothing
        pending is lost or reordered. */
    method EnsureNext()
      requires Valid()
      modifies this
      ensures old(writing).Some? ==> writing == old(writing) && writeList == old(writeList)
      ensures old(writing).None? ==>
        writeList == (if old(writeList) == [] then [] else old(writeList)[1..]) &&
        writing == (if old(writeList) == [] then None else Some(NewWriting(old(writeList)[0])))
      ensures Valid() && Pending() == old(Pending())
      ensures writing.None? ==> writeList == []
    {
      if writing.None? {
        GotoNext();
      }
    }

    /** `take_current`. */
    method TakeCurrent() returns (w: Option<Writing>)
      modifies this`writing
      ensures w == old(writing) && writing == None
    {
      w := writing;
      writing := None;
    }

    /** `set_current`. */
    method SetCurrent(w: Option<Writing>)
      modifies this`writing
      ensures writing == w
    {
      writing := w;
    }
  }

  /** Queueing more chunks behind a backlog puts their bytes after all of it. */
  lemma BacklogQueue(w: Option<Writing>, list: seq<Bytes>, more: seq<Bytes>)
    requires w.Some? ==> w.value.Valid()
    ensures Backlog(w, list + more) == Backlog(w, list) + Flatten(more)
  {
    FlattenAppend(list, more);
    Regroup(Queued(w), Flatten(list), Flatten(more));
  }

  /** Concatenation of byte strings regroups freely. */
  lemma Regroup(a: Bytes, b: Bytes, c: Bytes)
    ensures (a + b) + c == a + (b + c)
  {
  }

}

/**
  The proxy side of a terminal (lapce-proxy/src/terminal.rs): the registry of running
  terminals, and the queue of input the editor sends to the pseudo-terminal, which is written
  out chunk by chunk as the pseudo-terminal accepts bytes.

  The channel from the editor and the pseudo-terminal's writer are fields of `PtyTerminal`:
  `rx` holds the messages waiting in the channel, `writes` what the writer will answer to its
  next calls, and `output` every byte the pseudo-terminal has accepted so far.
*/
module ProxyTerminal {
  import opened Wrappers
  import opened PtyWriteQueue


  /** A terminal's id, as the editor names it. */
  type TermId = nat

  /** The sending end of a terminal's channel; only its identity matters here. */
  datatype TerminalSender = TerminalSender(channel: nat)

  /** The terminals the proxy runs: each id with the raw id of the process it belongs to. */
  class Terminals {
    var terminals: map<TermId, (nat, TerminalSender)>

    /** `Terminals::default`: none. */
    constructor ()
      ensures terminals == map[]
    {
      terminals := map[];
    }

    /** `insert`: registers a terminal, replacing one with the same id. */
    method Insert(id: TermId, rawId: nat, sender: TerminalSender)
      modifies this
      ensures terminals == old(terminals)[id := (rawId, sender)]
      ensures Get(id, rawId) == Some(sender)
    {
      terminals := terminals[id := (rawId, sender)];
    }

    /** `remove`: unregisters a terminal only when the raw id matches, handing back its sender;
        a stale raw id leaves the registry as it was. */
    method Remove(id: TermId, removeRawId: nat) returns (r: Option<TerminalSender>)
      modifies this
      ensures id in old(terminals) && old(terminals)[id].0 == removeRawId ==>
        r == Some(old(terminals)[id].1) && terminals == old(terminals) - {id}
      ensures !(id in old(terminals) && old(terminals)[id].0 == removeRawId) ==>
        r == None && terminals == old(terminals)
      ensures GetWithoutRaw(id).None? || r.None?
    {
      if id in terminals {
        var entry := terminals[id];
        terminals := terminals - {id};
        if entry.0 != removeRawId {
          terminals := terminals[id := entry];
          assert terminals == old(terminals);
        } else {
          return Some(entry.1);
        }
      }
      return None;
    }

    /** `get`: the sender of a terminal, if the raw id matches. */
    function Get(id: TermId, rawId: nat): (r: Option<TerminalSender>)
      reads this
      ensures r.Some? <==> id in terminals && terminals[id].0 == rawId
      ensures r.Some? ==> r.value == terminals[id].1
    {
      if id in terminals && terminals[id].0 == rawId then Some(terminals[id].1) else None
    }

    /** `get_without_raw`: the sender of a terminal, whatever its raw id. */
    function GetWithoutRaw(id: TermId): (r: Option<TerminalSender>)
      reads this
      ensures r.Some? <==> id in terminals
      ensures r.Some? ==> r.value == terminals[id].1
    {
      if id in terminals then Some(terminals[id].1) else None
    }

    /** A lookup with the raw id finds what one without it finds, when it finds anything, and
        there is always a raw id with which it does. */
    lemma GetRefinesWithoutRaw(id: TermId, rawId: nat)
      ensures Get(id, rawId).Some? ==> Get(id, rawId) == GetWithoutRaw(id)
      ensures GetWithoutRaw(id).Some? ==> exists raw :: Get(id, raw) == GetWithoutRaw(id)
    {
      if id in terminals {
        assert Get(id, terminals[id].0) == GetWithoutRaw(id);
      }
    }
  }

  /** `Msg`: what the editor sends a terminal. */
  datatype WindowSize = WindowSize(lines: nat, columns: nat)

  datatype Msg = Input(bytes: Bytes) | Shutdown | Resize(size: WindowSize)

  /** The inputs in `msgs` before the first shutdown, in order. */
  function InputsBefore(msgs: seq<Msg>): (r: seq<Bytes>)
    ensures |r| <= |msgs|
  {
    if msgs == [] then []
    else match msgs[0]
      case Input(b) => [b] + InputsBefore(msgs[1..])
      case Shutdown => []
      case Resize(_) => InputsBefore(msgs[1..])
  }

  /** The messages left in the channel once the first shutdown is taken; none if there is none. */
  function AfterShutdown(msgs: seq<Msg>): (r: seq<Msg>)
    ensures Shutdown !in msgs ==> r == []
    ensures Shutdown in msgs ==> |r| < |msgs| && r == msgs[|msgs| - |r|..] && msgs[|msgs| - |r| - 1] == Shutdown
  {
    if msgs == [] then []
    else if msgs[0] == Shutdown then msgs[1..]
    else
      var r := AfterShutdown(msgs[1..]);
      assert Shutdown in msgs ==> Shutdown in msgs[1..];
      r
  }

  /** The window size once the resizes before the first shutdown are applied to `size`. */
  function SizeAfter(msgs: seq<Msg>, size: WindowSize): (r: WindowSize)
    ensures r == size || exists i :: 0 <= i < |msgs| && msgs[i] == Resize(r)
  {
    if msgs == [] then size
    else match msgs[0]
      case Shutdown => size
      case Input(_) =>
        var r := SizeAfter(msgs[1..], size);
        assert r != size ==> exists i :: 0 <= i < |msgs[1..]| && msgs[1..][i] == Resize(r);
        r
      case Resize(s) =>
        var r := SizeAfter(msgs[1..], s);
        assert r != s ==> exists i :: 0 <= i < |msgs[1..]| && msgs[1..][i] == Resize(r);
        r
  }

  /** Draining a channel in two goes, with no shutdown in the first, queues the same inputs as
      draining it in one. */
  lemma {:induction false} InputsBeforeAppend(a: seq<Msg>, b: seq<Msg>)
    requires Shutdown !in a
    ensures InputsBefore(a + b) == InputsBefore(a) + InputsBefore(b)
  {
    if a == [] {
      assert a + b == b;
    } else {
      assert (a + b)[0] == a[0] && (a + b)[1..] == a[1..] + b;
      assert Shutdown !in a[1..];
      InputsBeforeAppend(a[1..], b);
    }
  }

  /** Without a shutdown, every input in the channel is queued, with its bytes in order. */
  lemma {:induction false} InputsBeforeAll(msgs: seq<Msg>)
    requires Shutdown !in msgs
    ensures forall b :: Input(b) in msgs <==> b in InputsBefore(msgs)
  {
    if msgs != [] {
      assert Shutdown !in msgs[1..];
      InputsBeforeAll(msgs[1..]);
      assert forall m :: m in msgs <==> m == msgs[0] || m in msgs[1..];
    }
  }

  /** What one call of the writer does. */
  datatype WriteOutcome = Wrote(n: nat) | WouldBlock | Interrupted | Failed(kind: string)

  /** What the inner write loop leaves the outer one to do. */
  datatype Flow = TakeNext | StopWriting | WriteFailed(kind: string)

  class PtyTerminal {
    var rx: seq<Msg>
    var size: WindowSize
    var writes: seq<WriteOutcome>
    var output: Bytes

    constructor (rx: seq<Msg>, size: WindowSize, writes: seq<WriteOutcome>)
      ensures this.rx == rx && this.size == size && this.writes == writes && output == []
    {
      this.rx := rx;
      this.size := size;
      this.writes := writes;
      output := [];
    }

    /** `drain_recv_channel`: take every message waiting in the channel, queueing inputs and
        applying resizes; false when a shutdown is taken, which stops the draining there. */
    method DrainRecvChannel(state: State) returns (r: bool)
      modifies this`rx, this`size, state`writeList
      ensures r <==> Shutdown !in old(rx)
      ensures state.writeList == old(state.writeList) + InputsBefore(old(rx))
      ensures rx == AfterShutdown(old(rx))
      ensures size == SizeAfter(old(rx), old(size))
    {
      while rx != []
        invariant state.writeList + InputsBefore(rx) == old(state.writeList) + InputsBefore(old(rx))
        invariant (Shutdown in rx <==> Shutdown in old(rx))
        invariant AfterShutdown(rx) == AfterShutdown(old(rx))
        invariant SizeAfter(rx, size) == SizeAfter(old(rx), old(size))
        decreases |rx|
      {
        var msg := rx[0];
        assert forall m :: m in rx <==> m == msg || m in rx[1..];
        rx := rx[1..];
        match msg {
          case Input(input) =>
            state.writeList := state.writeList + [input];
          case Shutdown =>
            return false;
          case Resize(s) =>
            size := s;
        }
      }
      return true;
    }

    /** One call of the writer on `buf`: it takes the next scripted outcome (an exhausted script
        would block) and never reports more bytes than it was given; the bytes it takes reach
        the pseudo-terminal. */
    method Write(buf: Bytes) returns (o: WriteOutcome)
      modifies this`writes, this`output
      ensures old(writes) == [] ==> o == WouldBlock && writes == old(writes) && output == old(output)
      ensures old(writes) != [] ==> writes == old(writes)[1..]
      ensures o.Wrote? ==> o.n <= |buf| && output == old(output) + buf[..o.n]
      ensures !o.Wrote? ==> output == old(output)
    {
      if writes == [] {
        return WouldBlock;
      }
      o := writes[0];
      writes := writes[1..];
      if o.Wrote? {
        var n := if o.n <= |buf| then o.n else |buf|;
        o := Wrote(n);
        output := output + buf[..n];
      }
    }

    /** One pass of the `'write_one` loop: hand the writer what remains of `cur`; if it takes
        `n > 0` bytes, `taken`, advance past them. */
    method WriteSome(cur: Writing) returns (o: WriteOutcome, next: Writing, ghost taken: Bytes)
      requires cur.Valid()
      modifies this`writes, this`output
      ensures next.Valid() && output == old(output) + taken && taken + next.Remaining() == cur.Remaining()
      ensures o.Wrote? && o.n > 0 ==> |writes| < old(|writes|)
      ensures !(o.Wrote? && o.n > 0) ==> next == cur && taken == [] && |writes| <= old(|writes|)
    {
      o := Write(cur.Remaining());
      next, taken := cur, [];
      if o.Wrote? && o.n > 0 {
        next := cur.Advance(o.n);
        taken := cur.Remaining()[..o.n];
      }
    }

    /** The `'write_one` loop of `pty_write`: write `current` until it is finished, the writer
        accepts nothing or would block, or the writer fails; `cur` is what is left of it and
        `sent` what went out. */
    method WriteOne(current: Writing) returns (flow: Flow, cur: Writing, ghost sent: Bytes)
      requires current.Valid()
      modifies this`writes, this`output
      ensures cur.Valid() && output == old(output) + sent && sent + cur.Remaining() == current.Remaining()
      ensures flow == TakeNext ==> cur.Finished() && |writes| < old(|writes|)
      ensures |writes| <= old(|writes|)
    {
      cur, sent := current, [];
      flow := StopWriting;
      while true
        invariant cur.Valid() && output == old(output) + sent && sent + cur.Remaining() == current.Remaining()
        invariant |writes| <= old(|writes|)
        invariant flow == StopWriting
        decreases |writes|
      {
        var o, next, taken := WriteSome(cur);
        Regroup(old(output), sent, taken);
        Regroup(sent, taken, next.Remaining());
        cur, sent := next, sent + taken;
        if !(o.Wrote? && o.n > 0) {
          // `Ok(0)`, `WouldBlock`, `Interrupted` and any other error all stop the writing.
          flow := if o.Failed? then WriteFailed(o.kind) else StopWriting;
          break;
        }
        if cur.Finished() {
          flow := TakeNext;
          break;
        }
      }
    }

    /** One pass of the `'write_many` loop of `pty_write`: write the chunk taken from `state`;
        once it is finished take the next one, otherwise put back what is left of it. `sent`
        extends what earlier passes sent after `base`, and what is pending still follows it. */
    method WriteChunk(state: State, current: Writing, ghost base: Bytes, ghost sent0: Bytes, ghost pending: Bytes)
      returns (flow: Flow, next: Option<Writing>, ghost sent: Bytes)
      requires state.writing.None? && current.Valid()
      requires output == base + sent0 && sent0 + Backlog(Some(current), state.writeList) == pending
      modifies this`writes, this`output, state
      ensures state.Valid() && output == base + sent
      ensures flow == TakeNext ==> (
        && state.writing.None? && (next.Some? ==> next.value.Valid())
        && (next.None? ==> state.writeList == []) && sent + Backlog(next, state.writeList) == pending
        && |writes| < old(|writes|))
      ensures flow != TakeNext ==> state.writing.Some? && sent + state.Pending() == pending
    {
      ghost var queued := Flatten(state.writeList);
      var left; ghost var chunkSent;
      flow, left, chunkSent := WriteOne(current);
      Regroup(base, sent0, chunkSent);
      Regroup(sent0, chunkSent, left.Remaining() + queued);
      Regroup(chunkSent, left.Remaining(), queued);
      sent := sent0 + chunkSent;
      next := None;
      if flow == TakeNext {
        assert left.Remaining() + queued == queued;
        state.GotoNext();
        next := state.TakeCurrent();
      } else {
        state.SetCurrent(Some(left));
      }
    }

    /** `pty_write`: write queued input until everything is out, the writer would block, or
        it fails, putting back the chunk it stopped in. What the pseudo-terminal receives,
        `sent`, followed by what is still pending, is exactly what was pending before: no byte
        is lost, repeated or reordered. When the call returns without a chunk in hand,
        everything pending was written. */
    method PtyWrite(state: State) returns (r: Result<(), string>, ghost sent: Bytes)
      requires state.Valid()
      modifies this`writes, this`output, state
      ensures state.Valid()
      ensures output == old(output) + sent && sent + state.Pending() == old(state.Pending())
      ensures r.Ok? && state.writing.None? ==> state.writeList == [] && sent == old(state.Pending())
    {
      state.EnsureNext();
      ghost var pending := state.Pending();
      var cur := state.TakeCurrent();
      sent := [];
      while cur.Some?
        invariant state.Valid() && state.writing.None?
        invariant cur.Some? ==> cur.value.Valid()
        invariant cur.None? ==> state.writeList == []
        invariant output == old(output) + sent && sent + Backlog(cur, state.writeList) == pending
        decreases |writes|
      {
        var flow;
        flow, cur, sent := WriteChunk(state, cur.value, old(output), sent, pending);
        if flow != TakeNext {
          return if flow.WriteFailed? then Err(flow.kind) else Ok(()), sent;
        }
      }
      return Ok(()), sent;
    }
  }
}
