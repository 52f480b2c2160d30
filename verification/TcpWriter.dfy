/** The buffering line sender of capture/writers.py against an arbitrary network.

    What the network does during a call is the argument `Net`: whether a connection attempt
    succeeds and which of the successive sends do. The clock reading is an argument too. */
module TcpWriter {
  import opened Powers

  type Line = string

  /** The network during one call: sends are numbered from 0 within the call. */
  datatype Net = Net(connects: bool, sends: nat -> bool)

  // ---------------------------------------------------------------- subsequences

  /** a is what remains of b after leaving out some elements. */
  ghost predicate Subsequence(a: seq<Line>, b: seq<Line>) {
    if a == [] then true
    else if b == [] then false
    else if a[|a| - 1] == b[|b| - 1] && Subsequence(a[..|a| - 1], b[..|b| - 1]) then true
    else Subsequence(a, b[..|b| - 1])
  }

  lemma {:induction false} SubsequenceExtend(a: seq<Line>, b: seq<Line>, x: Line)
    requires Subsequence(a, b)
    ensures Subsequence(a + [x], b + [x]) && Subsequence(a, b + [x])
  {
    assert (a + [x])[..|a|] == a && (b + [x])[..|b|] == b;
  }

  lemma {:induction false} SubsequenceDropLast(a: seq<Line>, b: seq<Line>)
    requires Subsequence(a, b) && a != []
    ensures Subsequence(a[..|a| - 1], b)
    decreases |b|
  {
    var init, last := b[..|b| - 1], b[|b| - 1];
    assert init + [last] == b;
    if !(a[|a| - 1] == last && Subsequence(a[..|a| - 1], init)) {
      SubsequenceDropLast(a, init);
    }
    hide Subsequence;
    SubsequenceExtend(a[..|a| - 1], init, last);
  }

  /** Leaving out one more element keeps a subsequence. */
  lemma {:induction false} SubsequenceRemove(a: seq<Line>, c: seq<Line>, b: seq<Line>)
    requires c != [] && Subsequence(a + c, b)
    ensures Subsequence(a + c[1..], b)
    decreases |c|, |b|
  {
    var whole := a + c;
    var init, last := c[..|c| - 1], c[|c| - 1];
    assert whole[..|whole| - 1] == a + init;
    if |c| == 1 {
      SubsequenceDropLast(whole, b);
      assert a + c[1..] == whole[..|whole| - 1];
    } else {
      assert (a + c[1..])[..|whole| - 2] == a + init[1..];
      if whole[|whole| - 1] == b[|b| - 1] && Subsequence(whole[..|whole| - 1], b[..|b| - 1]) {
        SubsequenceRemove(a, init, b[..|b| - 1]);
      } else {
        SubsequenceRemove(a, c, b[..|b| - 1]);
      }
    }
  }

  lemma Appended(sent: seq<Line>, buffer: seq<Line>, written: seq<Line>, line: Line)
    requires Subsequence(sent + buffer, written)
    ensures Subsequence(sent + (buffer + [line]), written + [line])
    ensures buffer == [] ==> Subsequence(sent + [line] + buffer, written + [line])
  {
    hide Subsequence;
    SubsequenceExtend(sent + buffer, written, line);
    assert sent + buffer + [line] == sent + (buffer + [line]);
    if buffer == [] {
      assert sent + [line] + buffer == sent + (buffer + [line]);
    }
  }

  // ---------------------------------------------------------------- the writer

  class TcpLineWriter {
    const bufferSize: nat
    var buffer: seq<Line>
    var connected: bool
    var droppedRecords: nat
    var recordsSent: nat
    var lastConnectAttempt: real
    var backoff: real
    ghost var written: seq<Line>   // every line handed to Write
    ghost var sent: seq<Line>      // every line of a send that succeeded
    ghost var aborted: nat         // drains that lost the line of a failed send

    /** What holds between any two calls. */
    ghost predicate Valid()
      reads this
    {
      && Accounted()
      && (connected ==> buffer == [])
      && |buffer| <= bufferSize
      && Doubling(backoff)
    }

    /** Every written line was sent, is buffered, was dropped, or was lost with a failed send of
        a drain; what was sent and is buffered appears in the order of writing. */
    ghost predicate Accounted()
      reads this
    {
      && |sent| == recordsSent
      && |written| == recordsSent + |buffer| + droppedRecords + aborted
      && Subsequence(sent + buffer, written)
    }

    constructor (bufferSize: nat)
      ensures Valid() && this.bufferSize == bufferSize
      ensures written == sent == buffer == [] && !connected && droppedRecords == recordsSent == aborted == 0
      ensures lastConnectAttempt == 0.0 && backoff == 0.5
    {
      this.bufferSize := bufferSize;
      buffer, connected, droppedRecords, recordsSent := [], false, 0, 0;
      lastConnectAttempt, backoff := 0.0, 0.5;
      written, sent, aborted := [], [], 0;
    }

    /** The written lines that none of the program's counters accounts for. */
    ghost function Unexplained(): int
      reads this
    {
      |written| - recordsSent - |buffer| - droppedRecords
    }

    /** Returns at once when connected or too soon after the last attempt; otherwise tries to
        connect and, on success, to send what is buffered. */
    method EnsureConnected(now: real, net: Net) returns (ok: bool, sends: nat)
      requires Valid()
      modifies this
      ensures Valid() && ok == connected
      ensures written == old(written) && droppedRecords == old(droppedRecords)
      ensures ok ==> sent == old(sent) + old(buffer) && buffer == [] && aborted == old(aborted)
      ensures |buffer| <= old(|buffer|) && old(aborted) <= aborted <= old(aborted) + 1
      ensures !Attempts(old(connected), now - old(lastConnectAttempt), old(backoff)) ==>
                && sends == 0
                && connected == old(connected) && buffer == old(buffer) && sent == old(sent) && aborted == old(aborted)
                && backoff == old(backoff) && lastConnectAttempt == old(lastConnectAttempt)
      ensures Attempts(old(connected), now - old(lastConnectAttempt), old(backoff)) ==>
                && lastConnectAttempt == now
                && (connected ==> net.connects && sent == old(sent) + old(buffer) && buffer == [] && sends == |old(buffer)|
                                  && AllSent(net, sends) && backoff == 0.5 && aborted == old(aborted))
                && (!connected && !net.connects ==> buffer == old(buffer) && sent == old(sent) && aborted == old(aborted)
                                                    && backoff == Doubled(old(backoff)))
                && (net.connects ==> backoff == if connected then 0.5 else 1.0)
                && (!connected && net.connects ==>
                      && 0 < sends <= |old(buffer)| && AllSent(net, sends - 1) && !net.sends(sends - 1)
                      && sent == old(sent) + old(buffer)[..sends - 1] && buffer == old(buffer)[sends..]
                      && aborted == old(aborted) + 1 && backoff == 1.0)
    {
      hide Subsequence;
      sends := 0;
      if connected {
        return true, 0;
      }
      if now - lastConnectAttempt < backoff {
        return false, 0;
      }
      lastConnectAttempt := now;
      if !net.connects {
        backoff := Doubled(backoff);
        return false, 0;
      }
      connected := true;
      backoff := 0.5;
      ok, sends := Drain(net);
    }

    /** Sends the buffered lines over a new connection, until a send fails. */
    method Drain(net: Net) returns (ok: bool, sends: nat)
      requires Accounted() && |buffer| <= bufferSize && connected && backoff == 0.5
      modifies this
      ensures Accounted() && |buffer| <= bufferSize && ok == connected
      ensures written == old(written) && droppedRecords == old(droppedRecords) && lastConnectAttempt == old(lastConnectAttempt)
      ensures ok ==> sends == |old(buffer)| && AllSent(net, sends) && buffer == [] && sent == old(sent) + old(buffer)
                     && aborted == old(aborted) && backoff == 0.5
      ensures !ok ==> 0 < sends <= |old(buffer)| && AllSent(net, sends - 1) && !net.sends(sends - 1)
                      && buffer == old(buffer)[sends..] && sent == old(sent) + old(buffer)[..sends - 1]
                      && aborted == old(aborted) + 1 && backoff == 1.0
    {
      hide Subsequence, AllSent, Drained;
      sends := 0;
      NoneSent(net);
      NothingDrained(sent, buffer);
      while buffer != []
        invariant Accounted() && |buffer| <= bufferSize && connected && backoff == 0.5
        invariant written == old(written) && droppedRecords == old(droppedRecords) && aborted == old(aborted)
        invariant lastConnectAttempt == old(lastConnectAttempt)
        invariant AllSent(net, sends)
        invariant Drained(old(sent), old(buffer), sends, sent, buffer)
        decreases |buffer|
      {
        var line := buffer[0];
        ghost var before := buffer;
        OneMoreDrained(old(sent), old(buffer), sends, sent, buffer);
        buffer := buffer[1..];
        if !net.sends(sends) {
          SubsequenceRemove(sent, before, written);
          aborted := aborted + 1;
          connected := false;
          backoff := Doubled(backoff);
          return false, sends + 1;
        }
        OneMoreSent(net, sends);
        Regroup(sent, before);
        sends := sends + 1;
        sent := sent + [line];
        recordsSent := recordsSent + 1;
      }
      AllDrained(old(sent), old(buffer), sends, sent);
      return true, sends;
    }

    /** Sends the line if there is a connection, else buffers it. Without a reachable network
        nothing is sent; otherwise the buffered lines and then the new one are sent up to the
        first send that fails. A buffered line of a failed send is lost, the new one is not; a
        full buffer drops its oldest line, which the counter records. */
    method Write(line: Line, now: real, net: Net)
      requires Valid()
      modifies this
      ensures Valid() && written == old(written) + [line]
      ensures !connected && bufferSize > 0 ==> buffer != [] && buffer[|buffer| - 1] == line
      ensures droppedRecords > old(droppedRecords) ==> |buffer| == bufferSize && droppedRecords == old(droppedRecords) + 1
      ensures Unexplained() == old(Unexplained())
                + if Aborts(Attempts(old(connected), now - old(lastConnectAttempt), old(backoff)), net, old(buffer)) then 1 else 0
      ensures var tries := Attempts(old(connected), now - old(lastConnectAttempt), old(backoff));
              && lastConnectAttempt == (if tries then now else old(lastConnectAttempt))
              && backoff == if tries then NextBackoff(net, old(buffer), old(backoff)) else old(backoff)
      ensures var tries := Attempts(old(connected), now - old(lastConnectAttempt), old(backoff));
              var pending := old(buffer);
              if old(connected) || (tries && net.connects) then
                if AllSent(net, |pending| + 1) then
                  && connected && buffer == [] && sent == old(sent) + pending + [line]
                  && droppedRecords == old(droppedRecords) && aborted == old(aborted)
                else
                  && !connected
                  && exists n: nat :: n <= |pending| && AllSent(net, n) && !net.sends(n)
                       && sent == old(sent) + pending[..n]
                       && (if n < |pending|
                           then Buffered(pending[n + 1..], line, old(droppedRecords)) && aborted == old(aborted) + 1
                           else Buffered([], line, old(droppedRecords)) && aborted == old(aborted))
              else
                && !connected && sent == old(sent) && aborted == old(aborted)
                && Buffered(pending, line, old(droppedRecords))
    {
      hide Subsequence, Doubled, Doubling;
      ghost var tries := Attempts(connected, now - lastConnectAttempt, backoff);
      ghost var b, was := buffer, connected;
      var ok, sends := EnsureConnected(now, net);
      Appended(sent, buffer, written, line);
      written := written + [line];
      if ok {
        if net.sends(sends) {
          sent := sent + [line];
          recordsSent := recordsSent + 1;
          return;
        }
        connected := false;
      }
      Enqueue(line);
      if ok {
        assert sends == |b| && sent == old(sent) + b[..sends];
      } else if !was && tries && net.connects {
        assert sent == old(sent) + b[..sends - 1] && b[sends..] == b[sends - 1 + 1..];
      }
    }

    /** The new line is in the buffer behind what was kept, unless the buffer was full: then the
        oldest is gone and counted. */
    ghost predicate Buffered(kept: seq<Line>, line: Line, dropped: nat)
      reads `buffer, `droppedRecords
    {
      if |kept| < bufferSize then buffer == kept + [line] && droppedRecords == dropped
      else buffer == (kept + [line])[1..] && droppedRecords == dropped + 1
    }

    /** Appends to the buffer, whose length is limited. */
    method Enqueue(line: Line)
      requires |sent| == recordsSent && |buffer| <= bufferSize
      requires |written| == recordsSent + |buffer| + droppedRecords + aborted + 1
      requires Subsequence(sent + (buffer + [line]), written)
      modifies `buffer, `droppedRecords
      ensures Accounted() && |buffer| <= bufferSize
      ensures Buffered(old(buffer), line, old(droppedRecords))
    {
      hide Subsequence;
      if |buffer| >= bufferSize {
        droppedRecords := droppedRecords + 1;
        SubsequenceRemove(sent, buffer + [line], written);
        buffer := (buffer + [line])[1..];
      } else {
        buffer := buffer + [line];
      }
    }

    /** Tries to connect; a connection that is already there leaves nothing to send, because
        its buffer is empty. */
    method Flush(now: real, net: Net)
      requires Valid()
      modifies this
      ensures Valid() && written == old(written) && droppedRecords == old(droppedRecords)
      ensures Emptied(Attempts(old(connected), now - old(lastConnectAttempt), old(backoff)), net,
                      old(sent), old(buffer), old(aborted), sent, buffer, aborted)
      ensures connected <==>
                old(connected)
                || (Attempts(old(connected), now - old(lastConnectAttempt), old(backoff)) && net.connects && AllSent(net, |old(buffer)|))
      ensures Unexplained() == old(Unexplained())
                + if Aborts(Attempts(old(connected), now - old(lastConnectAttempt), old(backoff)), net, old(buffer)) then 1 else 0
    {
      hide Subsequence, Doubled, Doubling;
      ghost var b, was := buffer, connected;
      var ok, sends := EnsureConnected(now, net);
      if !was && lastConnectAttempt == now && net.connects && !ok && sends > 0 {
        assert b[sends..] == b[sends - 1 + 1..];
      }
      if connected && buffer != [] {
        assert false;
      }
    }

    /** Flushes, then gives up the connection; what could not be sent stays in the buffer. */
    method Close(now: real, net: Net)
      requires Valid()
      modifies this
      ensures Valid() && !connected && written == old(written) && droppedRecords == old(droppedRecords)
      ensures Emptied(Attempts(old(connected), now - old(lastConnectAttempt), old(backoff)), net,
                      old(sent), old(buffer), old(aborted), sent, buffer, aborted)
    {
      hide Subsequence, Doubled, Doubling, Attempts, Emptied;
      Flush(now, net);
      if connected {
        connected := false;
      }
    }

    /** The counters do not account for every line: a refused connection, then one that breaks at
        the first buffered line. */
    static method LineLost() returns (w: TcpLineWriter)
      ensures w.Valid() && w.written == ["a"]
      ensures w.recordsSent == 0 && w.buffer == [] && w.droppedRecords == 0 && w.Unexplained() == 1
    {
      w := new TcpLineWriter(1000);
      w.Write("a", 1000.0, Net(false, i => true));
      assert w.buffer == ["a"] && w.sent == [];
      var breaking := Net(true, i => false);
      assert !breaking.sends(0);
      w.Flush(1001.0, breaking);
      assert w.sent == [];
    }
  }

  /** What trying to empty the buffer does: all of it is sent, or what precedes the first failing
      send, whose line is lost; without a new connection nothing happens. */
  ghost predicate Emptied(tries: bool, net: Net, sent: seq<Line>, buffer: seq<Line>, aborted: nat,
                          sent': seq<Line>, buffer': seq<Line>, aborted': nat)
  {
    if !tries || !net.connects then
      sent' == sent && buffer' == buffer && aborted' == aborted
    else if AllSent(net, |buffer|) then
      sent' == sent + buffer && buffer' == [] && aborted' == aborted
    else
      exists n: nat :: n < |buffer| && AllSent(net, n) && !net.sends(n)
                       && sent' == sent + buffer[..n] && buffer' == buffer[n + 1..] && aborted' == aborted + 1
  }

  /** A drain breaks off: the attempt connects, but one of the buffered lines cannot be sent. */
  ghost predicate Aborts(tries: bool, net: Net, buffer: seq<Line>) {
    tries && net.connects && !AllSent(net, |buffer|)
  }

  /** The pause after an attempt. */
  ghost function NextBackoff(net: Net, buffer: seq<Line>, backoff: real): real
    requires Doubling(backoff)
  {
    if !net.connects then Doubled(backoff) else if AllSent(net, |buffer|) then 0.5 else 1.0
  }

  /** The first n sends of a call succeed. */
  ghost predicate AllSent(net: Net, n: nat) {
    forall i: nat :: i < n ==> net.sends(i)
  }

  lemma NoneSent(net: Net)
    ensures AllSent(net, 0)
  {
  }

  lemma OneMoreSent(net: Net, n: nat)
    requires AllSent(net, n) && net.sends(n)
    ensures AllSent(net, n + 1)
  {
  }

  lemma Regroup(sent: seq<Line>, buffer: seq<Line>)
    requires buffer != []
    ensures sent + buffer == sent + [buffer[0]] + buffer[1..]
  {
  }

  /** After n sends. */
  ghost predicate Drained(sent0: seq<Line>, buffer0: seq<Line>, n: nat, sent: seq<Line>, buffer: seq<Line>) {
    n <= |buffer0| && buffer == buffer0[n..] && sent == sent0 + buffer0[..n]
  }

  lemma NothingDrained(sent: seq<Line>, buffer: seq<Line>)
    ensures Drained(sent, buffer, 0, sent, buffer)
  {
  }

  lemma OneMoreDrained(sent0: seq<Line>, buffer0: seq<Line>, n: nat, sent: seq<Line>, buffer: seq<Line>)
    requires Drained(sent0, buffer0, n, sent, buffer) && buffer != []
    ensures n < |buffer0| && sent == sent0 + buffer0[..n] && buffer[1..] == buffer0[n + 1..]
    ensures Drained(sent0, buffer0, n + 1, sent + [buffer[0]], buffer[1..])
  {
  }

  lemma AllDrained(sent0: seq<Line>, buffer0: seq<Line>, n: nat, sent: seq<Line>)
    requires Drained(sent0, buffer0, n, sent, [])
    ensures n == |buffer0| && sent == sent0 + buffer0
  {
    assert buffer0[..|buffer0|] == buffer0;
  }

  /** Whether a call tries to connect. */
  predicate Attempts(connected: bool, waited: real, backoff: real) {
    !connected && waited >= backoff
  }

  /** The pauses between attempts: doubling from half a second up to eight seconds. */
  predicate Doubling(backoff: real) {
    backoff == 0.5 || backoff == 1.0 || backoff == 2.0 || backoff == 4.0 || backoff == 8.0
  }

  function Doubled(backoff: real): (b: real)
    requires Doubling(backoff)
    ensures Doubling(b) && b >= backoff && (b == backoff ==> b == 8.0)
  {
    if backoff * 2.0 < 8.0 then backoff * 2.0 else 8.0
  }

  /** The pause after n refused attempts in a row, starting from half a second. */
  function Pause(n: nat): (p: real)
    ensures Doubling(p)
  {
    if n == 0 then 0.5 else Doubled(Pause(n - 1))
  }

  /** It is half a second times 2^n, up to eight seconds. */
  lemma {:induction false} PauseIs(n: nat)
    ensures Pause(n) == if n <= 4 then 0.5 * Pow2(n) as real else 8.0
  {
    assert Pow2(0) == 1 && Pow2(1) == 2 && Pow2(2) == 4 && Pow2(3) == 8 && Pow2(4) == 16;
    if n > 0 {
      PauseIs(n - 1);
    }
  }

  /** A network that refuses every attempt, with attempts far enough apart. */
  method RefusedAttempts(w: TcpLineWriter, start: real, n: nat)
    requires w.Valid() && !w.connected && w.backoff == 0.5 && start - w.lastConnectAttempt >= 8.0
    modifies w
    ensures w.Valid() && w.backoff == if n <= 4 then 0.5 * Pow2(n) as real else 8.0
    ensures w.buffer == old(w.buffer) && w.sent == old(w.sent)
  {
    hide Subsequence, Pause;
    var k, now := 0, start;
    PauseStep(0);
    while k < n
      invariant k <= n && w.Valid() && !w.connected && w.backoff == Pause(k)
      invariant now - w.lastConnectAttempt >= 8.0
      invariant w.buffer == old(w.buffer) && w.sent == old(w.sent)
    {
      var ok, sends := w.EnsureConnected(now, Net(false, i => true));
      PauseStep(k);
      k, now := k + 1, now + 8.0;
    }
    PauseIs(n);
  }

  lemma PauseStep(n: nat)
    ensures Pause(0) == 0.5 && Pause(n + 1) == Doubled(Pause(n))
  {
  }
}
