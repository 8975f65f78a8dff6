/** The buffers between the input server and its client (Xwnmo/xwnmo/do_socket.c:100-246). */
module ClientBuffer {
  import KanjiPool

  type Byte = KanjiPool.Byte

  const SEND_BUF_SZ := 8192
  const RECV_BUF_SZ := 8192

  /** The connection as the operating system shows it. What each call will return is given
      beforehand and may be anything: an error, or as few bytes as it likes. */
  class Channel {
    var wire: seq<Byte>       // what has been sent
    var incoming: seq<Byte>   // what the client has sent and nobody has read
    var answers: seq<int>
    ghost var errors: nat     // how many calls have reported an error

    constructor (incoming: seq<Byte>, answers: seq<int>)
      ensures wire == [] && this.incoming == incoming && this.answers == answers && errors == 0
    {
      wire, this.incoming, this.answers, errors := [], incoming, answers, 0;
    }

    /** write(2): takes at most n bytes from buf[from..]. */
    method Write(buf: array<Byte>, from: nat, n: nat) returns (ret: int)
      requires from + n <= buf.Length
      modifies this
      ensures ret <= n && incoming == old(incoming) && errors == old(errors) + if ret <= 0 then 1 else 0
      ensures wire == if ret > 0 then old(wire) + buf[from..from + ret] else old(wire)
    {
      if answers == [] {
        errors := errors + 1;
        return -1;
      }
      ret := if answers[0] > n then n else answers[0];
      answers := answers[1..];
      if ret > 0 {
        wire := wire + buf[from..from + ret];
      } else {
        errors := errors + 1;
      }
    }

    /** read(2): stores at most n bytes in buf. */
    method Read(buf: array<Byte>, n: nat) returns (ret: int)
      requires n <= buf.Length
      modifies this, buf
      ensures ret <= n && wire == old(wire) && errors == old(errors) + if ret <= 0 then 1 else 0
      ensures ret > 0 ==> old(incoming) == buf[..ret] + incoming
      ensures ret <= 0 ==> incoming == old(incoming)
    {
      if answers == [] {
        errors := errors + 1;
        return -1;
      }
      ret := answers[0];
      answers := answers[1..];
      if ret > n { ret := n; }
      if ret > |incoming| { ret := |incoming|; }
      if ret > 0 {
        Copy(incoming[..ret], buf, 0);
        incoming := incoming[ret..];
      } else {
        errors := errors + 1;
      }
    }
  }

  /** my_bcopy. */
  method Copy(src: seq<Byte>, dst: array<Byte>, at: nat)
    requires at + |src| <= dst.Length
    modifies dst
    ensures dst[..] == old(dst[..at]) + src + old(dst[at + |src|..])
  {
    var i := 0;
    while i < |src|
      invariant 0 <= i <= |src|
      invariant dst[..] == old(dst[..at]) + src[..i] + old(dst[at + i..])
    {
      ghost var before := dst[..];
      dst[at + i] := src[i];
      assert dst[..] == before[at + i := src[i]];
      i := i + 1;
    }
  }

  class Client {
    const chan: Channel
    const sendBuf: array<Byte>
    const recvBuf: array<Byte>
    var sp: nat
    var rp: nat
    var rc: nat
    var open: bool        // cur_sock >= 0

    constructor (chan: Channel)
      ensures Valid() && fresh(sendBuf) && fresh(recvBuf) && this.chan == chan
      ensures Sent() == chan.wire && Unread() == chan.incoming && open
    {
      this.chan := chan;
      sendBuf := new Byte[SEND_BUF_SZ](_ => 0);
      recvBuf := new Byte[RECV_BUF_SZ](_ => 0);
      sp, rp, rc, open := 0, 0, 0, true;
    }

    ghost predicate Valid()
      reads this
    {
      sendBuf != recvBuf && sendBuf.Length == SEND_BUF_SZ && recvBuf.Length == RECV_BUF_SZ
      && sp <= SEND_BUF_SZ && rp + rc <= RECV_BUF_SZ
    }

    /** Everything written to the client so far: on the wire or still in the buffer. */
    ghost function Sent(): seq<Byte>
      requires Valid()
      reads this, chan, sendBuf
    {
      chan.wire + sendBuf[..sp]
    }

    /** Everything still to be read: in the buffer or still to come. */
    ghost function Unread(): seq<Byte>
      requires Valid()
      reads this, chan, recvBuf
    {
      recvBuf[rp..rp + rc] + chan.incoming
    }

    /** _Writen: fails exactly when a call of the system fails, or the connection is closed already.
        All of the first num bytes, in as many pieces as it takes. On an error the wire has
        some of them and the connection is closed. */
    method Writen(num: nat) returns (r: int)
      requires Valid() && num <= SEND_BUF_SZ
      modifies this`open, chan
      ensures Valid() && chan.incoming == old(chan.incoming)
      ensures r == 0 || r == -1
      ensures r == 0 ==> chan.wire == old(chan.wire) + sendBuf[..num] && open == old(open) && open
      ensures r == -1 ==> old(chan.wire) <= chan.wire <= old(chan.wire) + sendBuf[..num] && !open
      ensures chan.errors == old(chan.errors) + if r == -1 && old(open) then 1 else 0
    {
      if !open {
        return -1;
      }
      var i := 0;
      while i < num
        invariant 0 <= i <= num && open && old(open) && chan.errors == old(chan.errors) && chan.wire == old(chan.wire) + sendBuf[..i] && chan.incoming == old(chan.incoming)
      {
        var ret := chan.Write(sendBuf, i, num - i);
        if ret <= 0 {
          open := false;
          assert sendBuf[..num] == sendBuf[..i] + sendBuf[i..num];
          return -1;
        }
        assert sendBuf[..i + ret] == sendBuf[..i] + sendBuf[i..i + ret];
        i := i + ret;
      }
      return 0;
    }

    /** _Send_Flush: nothing stays in the buffer. */
    method SendFlush() returns (r: int)
      requires Valid()
      modifies this`sp, this`open, chan
      ensures Valid() && sp == 0 && chan.incoming == old(chan.incoming)
      ensures r == 0 || r == -1
      ensures r == 0 ==> Sent() == old(Sent()) == chan.wire && open == old(open)
      ensures r == -1 ==> old(chan.wire) <= chan.wire <= old(Sent()) && !open
      ensures chan.errors == old(chan.errors) + if r == -1 && old(open) then 1 else 0
    {
      if sp == 0 {
        return 0;
      }
      r := Writen(sp);
      sp := 0;
    }

    /** Fills the send buffer up from p and sends it (lines 189-198). */
    method FillAndSend(p: seq<Byte>) returns (r: int, rest: seq<Byte>)
      requires Valid() && sp + |p| > SEND_BUF_SZ
      modifies this`sp, this`open, chan, sendBuf
      ensures Valid() && sp == 0 && chan.incoming == old(chan.incoming)
      ensures r == 0 || r == -1
      ensures r == 0 ==> Sent() + rest == old(Sent()) + p && open == old(open) && |rest| < |p| + old(sp)
      ensures r == 0 ==> old(chan.wire) <= chan.wire && |chan.wire| == |old(chan.wire)| + SEND_BUF_SZ && rest != []
      ensures r == -1 ==> old(chan.wire) <= chan.wire <= old(Sent()) + p && !open
      ensures chan.errors == old(chan.errors) + if r == -1 && old(open) then 1 else 0
    {
      ghost var before, front := Sent(), sendBuf[..sp];
      var n := SEND_BUF_SZ - sp;
      Copy(p[..n], sendBuf, sp);
      assert sendBuf[..SEND_BUF_SZ] == front + p[..n];
      assert p == p[..n] + p[n..];
      r := Writen(SEND_BUF_SZ);
      rest := p[n..];
      sp := 0;
      assert before + p[..n] <= before + p;
    }

    /** Puts what fits into the send buffer (lines 200-205). */
    method Store(p: seq<Byte>)
      requires Valid() && sp + |p| <= SEND_BUF_SZ
      modifies this`sp, sendBuf
      ensures Valid() && Sent() == old(Sent()) + p && sp == old(sp) + |p|
    {
      ghost var front := sendBuf[..sp];
      Copy(p, sendBuf, sp);
      sp := sp + |p|;
      assert sendBuf[..sp] == front + p;
    }

    /** _WriteToClient refines appending: whatever the sizes, what is on the wire and in the buffer
        together grows by p; only full buffers are sent, and none before it must be. After an error
        the wire holds a prefix of it, and nothing is left to be sent. */
    method WriteToClient(p: seq<Byte>) returns (r: int)
      requires Valid()
      modifies this`sp, this`open, chan, sendBuf
      ensures Valid() && chan.incoming == old(chan.incoming)
      ensures r == 0 || r == -1
      ensures r == 0 ==> Sent() == old(Sent()) + p && open == old(open) && old(chan.wire) <= chan.wire
      ensures r == 0 ==>
                (|chan.wire| - |old(chan.wire)|) % SEND_BUF_SZ == 0 && (|chan.wire| > |old(chan.wire)| ==> sp > 0)
      ensures r == -1 ==> sp == 0 && old(chan.wire) <= chan.wire <= old(Sent()) + p && !open
      ensures chan.errors == old(chan.errors) + if r == -1 && old(open) then 1 else 0
    {
      hide Sent;
      var rest := p;
      while sp + |rest| > SEND_BUF_SZ
        invariant Valid() && chan.incoming == old(chan.incoming) && open == old(open) && chan.errors == old(chan.errors)
        invariant Sent() + rest == old(Sent()) + p && old(chan.wire) <= chan.wire
        invariant (|chan.wire| - |old(chan.wire)|) % SEND_BUF_SZ == 0 && (|chan.wire| > |old(chan.wire)| ==> sp == 0 && rest != [])
        decreases |rest| + sp
      {
        r, rest := FillAndSend(rest);
        if r == -1 {
          return;
        }
      }
      Store(rest);
      return 0;
    }

    /** An empty receive buffer is filled anew (lines 228-236). */
    method Fill() returns (ok: bool)
      requires Valid() && rc == 0
      modifies this`rp, this`rc, this`open, chan, recvBuf
      ensures Valid() && chan.wire == old(chan.wire) && Unread() == old(Unread())
      ensures if ok then rc > 0 && open == old(open) else rc == 0 && !open
      ensures chan.errors == old(chan.errors) + if ok then 0 else 1
    {
      var ret := chan.Read(recvBuf, RECV_BUF_SZ);
      if ret <= 0 {
        rp, rc, open := 0, 0, false;
        return false;
      }
      rp, rc := 0, ret;
      return true;
    }

    /** Takes n bytes out of the receive buffer. */
    method Take(n: nat) returns (q: seq<Byte>)
      requires Valid() && n <= rc
      modifies this`rp, this`rc
      ensures Valid() && |q| == n && rc == old(rc) - n && q + Unread() == old(Unread())
    {
      q := recvBuf[rp..rp + n];
      assert recvBuf[rp..rp + rc] == recvBuf[rp..rp + n] + recvBuf[rp + n..rp + rc];
      rc, rp := rc - n, rp + n;
    }

    /** _ReadFromClient delivers the next num bytes of the client's stream, however they arrive, and
        keeps what arrived beyond them. On an error what had arrived is lost. */
    method ReadFromClient(num: int) returns (r: int, p: seq<Byte>)
      requires Valid()
      modifies this`rp, this`rc, this`open, chan, recvBuf
      ensures Valid() && chan.wire == old(chan.wire)
      ensures r == 0 || r == -1
      ensures r == 0 ==> |p| == (if num <= 0 then 0 else num) && old(Unread()) == p + Unread() && open == old(open)
      ensures r == -1 ==> rc == 0 && p + Unread() == old(Unread()) && |p| < num && !open
      ensures chan.errors == old(chan.errors) + if r == -1 then 1 else 0
    {
      hide Unread;
      p := [];
      if num <= 0 {
        return 0, p;
      }
      ghost var stream := Unread();
      var left := num;
      while left > rc
        invariant Valid() && chan.wire == old(chan.wire) && open == old(open) && chan.errors == old(chan.errors)
        invariant 0 < left && |p| + left == num && stream == p + Unread()
        decreases left, left - rc
      {
        if rc > 0 {
          left := left - rc;
          var q := Take(rc);
          assert p + (q + Unread()) == (p + q) + Unread();
          p := p + q;
        }
        var ok := Fill();
        if !ok {
          return -1, p;
        }
      }
      var q := Take(left);
      assert p + (q + Unread()) == (p + q) + Unread();
      return 0, p + q;
    }

    /** A whole conversation: when nothing fails, the wire shows the messages one after another. */
    method SendAll(messages: seq<seq<Byte>>) returns (r: int)
      requires Valid()
      modifies this`sp, this`open, chan, sendBuf
      ensures Valid()
      ensures r == 0 ==> chan.wire == old(Sent()) + Joined(messages) && sp == 0
      ensures r == -1 ==> old(chan.wire) <= chan.wire <= old(Sent()) + Joined(messages)
    {
      ghost var sent := Sent();
      var k := 0;
      assert messages[..0] == [];
      while k < |messages|
        invariant 0 <= k <= |messages| && Valid() && Sent() == sent + Joined(messages[..k]) && old(chan.wire) <= chan.wire
      {
        JoinedStep(messages, k);
        r := WriteToClient(messages[k]);
        JoinedPrefix(messages, k + 1);
        assert sent + Joined(messages[..k]) + messages[k] == sent + Joined(messages[..k + 1]);
        if r == -1 {
          return;
        }
        k := k + 1;
      }
      assert messages[..k] == messages;
      r := SendFlush();
    }
  }

  ghost function Joined(messages: seq<seq<Byte>>): seq<Byte> {
    if messages == [] then [] else Joined(messages[..|messages| - 1]) + messages[|messages| - 1]
  }

  lemma JoinedStep(messages: seq<seq<Byte>>, k: nat)
    requires k < |messages|
    ensures Joined(messages[..k + 1]) == Joined(messages[..k]) + messages[k]
  {
    assert messages[..k + 1][..k] == messages[..k];
  }

  lemma {:induction false} JoinedPrefix(messages: seq<seq<Byte>>, k: nat)
    requires k <= |messages|
    ensures Joined(messages[..k]) <= Joined(messages)
    decreases |messages| - k
  {
    if k < |messages| {
      JoinedStep(messages, k);
      JoinedPrefix(messages, k + 1);
    } else {
      assert messages[..k] == messages;
    }
  }
}
