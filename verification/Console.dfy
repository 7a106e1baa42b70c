/** Reading the input and writing to standard output: partial transfers, interruptions and failures. */
module Console {
  import opened Tables
  import opened Chunks

  /** How a run of the tool ends. */
  datatype Status = Done | DecodingError | WriteError | ReadError

  /** Sizes of its two buffers. */
  const BUFFER_RAW_SIZE: nat := 1024 * 1024
  const BUFFER_ENC_SIZE: nat := BUFFER_RAW_SIZE * 4 / 3 + 16

  /** How far the next read gets: at least one byte, with or without an error behind it, or not at all. */
  datatype Answer = Available(more: nat) | Flawed(more: nat) | Broken

  /** Some read goes wrong. */
  ghost predicate Faulty(script: seq<Answer>) {
    exists i :: 0 <= i < |script| && !script[i].Available?
  }

  /** What one read returns, and what it leaves. */
  datatype Got = Got(buf: seq<byte>, data: seq<byte>, script: seq<Answer>, failed: bool)

  /** The next read of at most `max` bytes. */
  function NextRead(data: seq<byte>, script: seq<Answer>, max: nat): (g: Got)
    requires max > 0
    ensures g.buf + g.data == data && |g.buf| <= max
  {
    var n := if max < |data| then max else |data|;
    if data == [] then Got([], [], script, false)
    else if script == [] then Got(data[..n], data[n..], [], false)
    else
      match script[0]
      case Broken => Got([], data, script[1..], true)
      case Available(more) => Cut(data, if more + 1 < n then more + 1 else n, script[1..], false)
      case Flawed(more) => Cut(data, if more + 1 < n then more + 1 else n, script[1..], true)
  }

  function Cut(data: seq<byte>, n: nat, script: seq<Answer>, failed: bool): Got
    requires n <= |data|
  {
    Got(data[..n], data[n..], script, failed)
  }

  lemma NextFaulty(data: seq<byte>, script: seq<Answer>, max: nat)
    requires max > 0
    ensures var g := NextRead(data, script, max);
            (g.failed || Faulty(g.script) ==> Faulty(script)) && (g.buf == [] && !g.failed ==> data == [])
  {
    if script != [] {
      assert forall i :: 0 <= i < |script[1..]| ==> script[1..][i] == script[i + 1];
    }
  }

  /** The input stream: `data` is what is still to come, in pieces that `script` cuts off it. */
  class Input {
    var data: seq<byte>
    var script: seq<Answer>
    var error: bool

    constructor (bytes: seq<byte>, answers: seq<Answer>)
      ensures data == bytes && script == answers && !error
    {
      data, script, error := bytes, answers, false;
    }

    /**
     * fread(buf, 1, max, fp): nothing is returned only at the end of the input and on errors. The error
     * flag stays set, but what comes after a short read can still be read.
     */
    method Read(max: nat) returns (buf: seq<byte>)
      requires max > 0
      modifies this
      ensures var g := NextRead(old(data), old(script), max);
              buf == g.buf && data == g.data && script == g.script && error == (old(error) || g.failed)
      ensures buf + data == old(data) && |buf| <= max
      ensures buf == [] ==> data == [] || error
      ensures old(error) ==> error
      ensures error ==> old(error) || Faulty(old(script))
      ensures Faulty(script) ==> Faulty(old(script))
    {
      if data == [] {
        return [];
      }
      var n := if max < |data| then max else |data|;
      if script != [] {
        var answer := script[0];
        assert forall i :: 0 <= i < |script[1..]| ==> script[1..][i] == script[i + 1];
        script := script[1..];
        error := error || !answer.Available?;
        if answer.Broken? {
          return [];
        }
        n := if answer.more + 1 < n then answer.more + 1 else n;
      }
      buf, data := data[..n], data[n..];
    }
  }

  /** How the system answers one write(2) or writev(2) call. */
  datatype Outcome = Wrote(limit: nat) | Interrupted | Failed

  /**
   * Standard output. `script` is the list of answers that the system is going to give, and
   * may be any finite list: when it is used up, every further call fails.
   */
  class Output {
    var script: seq<Outcome>
    var data: seq<byte>

    constructor (answers: seq<Outcome>)
      ensures script == answers && data == []
    {
      script, data := answers, [];
    }

    /** write(1, buf, len): a negative result is an error, which may be EINTR. */
    method Write(buf: seq<byte>) returns (nwrite: int, eintr: bool)
      modifies this
      ensures old(script) == [] || old(script)[0].Failed? ==> nwrite < 0 && !eintr && script == old(script)
      ensures old(script) != [] && !old(script)[0].Failed? ==> script == old(script)[1..]
      ensures old(script) != [] && old(script)[0].Interrupted? ==> nwrite < 0 && eintr
      ensures old(script) != [] && old(script)[0].Wrote? ==>
                nwrite == if old(script)[0].limit < |buf| then old(script)[0].limit else |buf|
      ensures data == old(data) + if nwrite < 0 then [] else buf[..nwrite]
    {
      if script == [] || script[0].Failed? {
        assert data == data + [];
        return -1, false;
      }
      var answer := script[0];
      script := script[1..];
      if answer.Interrupted? {
        assert data == data + [];
        return -1, true;
      }
      nwrite, eintr := if answer.limit < |buf| then answer.limit else |buf|, false;
      data := data + buf[..nwrite];
    }
  }

  // What a list of answers makes of a write.

  /** The output as it stands, the answers left, and whether all has been written. */
  datatype Sent = Sent(data: seq<byte>, script: seq<Outcome>, ok: bool)

  /** Calls are made until one fails or nothing is left of `buf`; the first call in any case. */
  ghost function SendSome(data: seq<byte>, script: seq<Outcome>, buf: seq<byte>): Sent
    decreases |script|, 0
  {
    if script == [] then Sent(data, script, false)
    else
      match script[0]
      case Failed => Sent(data, script, false)
      case Interrupted => SendSome(data, script[1..], buf)
      case Wrote(limit) =>
        var n := if limit < |buf| then limit else |buf|;
        Send(data + buf[..n], script[1..], buf[n..])
  }

  ghost function Send(data: seq<byte>, script: seq<Outcome>, buf: seq<byte>): Sent
    decreases |script|, 1
  {
    if buf == [] then Sent(data, script, true) else SendSome(data, script, buf)
  }

  /** The answers that let at least one byte through. */
  function Useful(script: seq<Outcome>): nat {
    if script == [] then 0
    else (if script[0].Wrote? && script[0].limit > 0 then 1 else 0) + Useful(script[1..])
  }

  /** From `a` to `b` no more useful answers were used up than bytes were written. */
  ghost predicate Answered(a: Sent, b: Sent) {
    && |a.data| <= |b.data|
    && Useful(a.script) <= Useful(b.script) + (|b.data| - |a.data|)
    && (Failed in b.script ==> Failed in a.script)
  }

  /** There is no failure among the answers, and a useful one for each of `n` bytes. */
  ghost predicate Ample(script: seq<Outcome>, n: nat) {
    Failed !in script && Useful(script) >= n
  }

  /** Sending `all` came to `r`: all of it, or less of it if an answer is a failure or they are not ample. */
  ghost predicate SentAs(data: seq<byte>, script: seq<Outcome>, all: seq<byte>, r: Sent) {
    && Prefix(r.data, data + all)
    && (r.ok ==> r.data == data + all)
    && (!r.ok ==> (Failed in script || r.script == []) && |r.data| < |data + all|)
    && (Ample(script, |all|) ==> r.ok)
    && Answered(Sent(data, script, true), r)
  }

  lemma {:induction false} SendSomeMeans(data: seq<byte>, script: seq<Outcome>, buf: seq<byte>)
    ensures buf != [] ==> SentAs(data, script, buf, SendSome(data, script, buf))
    ensures SendSome(data, script, buf).ok ==> SendSome(data, script, buf).data == data + buf
    decreases |script|, 0
  {
    if script != [] {
      assert Failed in script[1..] ==> Failed in script;
      match script[0]
      case Failed =>
      case Interrupted => SendSomeMeans(data, script[1..], buf);
      case Wrote(limit) =>
        var n := if limit < |buf| then limit else |buf|;
        assert (data + buf[..n]) + buf[n..] == data + buf;
        SendMeans(data + buf[..n], script[1..], buf[n..]);
    }
  }

  lemma {:induction false} SendMeans(data: seq<byte>, script: seq<Outcome>, buf: seq<byte>)
    ensures SentAs(data, script, buf, Send(data, script, buf))
    decreases |script|, 1
  {
    if buf == [] {
      assert data + buf == data;
    } else {
      SendSomeMeans(data, script, buf);
    }
  }

  /** One send after another. */
  lemma SentAfter(data: seq<byte>, script: seq<Outcome>, a: seq<byte>, r: Sent, b: seq<byte>, r': Sent)
    requires SentAs(data, script, a, r) && r.ok && SentAs(r.data, r.script, b, r')
    ensures SentAs(data, script, a + b, r')
  {
    hide Useful;
    assert data + (a + b) == (data + a) + b;
  }

  /** A send that fails is also the failure of a longer one. */
  lemma SentLess(data: seq<byte>, script: seq<Outcome>, a: seq<byte>, r: Sent, b: seq<byte>)
    requires SentAs(data, script, a, r) && !r.ok
    ensures SentAs(data, script, a + b, r)
  {
    hide Useful;
    assert data + (a + b) == (data + a) + b;
  }

  /** How a run of the tool ends, with the output as it then stands and the input not yet read. */
  datatype Run = Run(status: Status, data: seq<byte>, script: seq<Outcome>, rest: seq<byte>)

  /** `a` is a prefix of `b`. */
  ghost predicate Prefix(a: seq<byte>, b: seq<byte>) {
    |a| <= |b| && b[..|a|] == a
  }

  /** What a failed write left behind is also a prefix of a longer text. */
  lemma PrefixExtended(data: seq<byte>, before: seq<byte>, piece: seq<byte>, more: seq<byte>)
    requires Prefix(data, before + piece)
    ensures Prefix(data, before + (piece + more))
  {
  }

  /** write_stdout: exactly what the answers make of it. */
  method WriteStdout(o: Output, buf0: seq<byte>) returns (ok: bool)
    modifies o
    ensures Sent(o.data, o.script, ok) == old(Send(o.data, o.script, buf0))
    ensures SentAs(old(o.data), old(o.script), buf0, Sent(o.data, o.script, ok))
  {
    SendMeans(o.data, o.script, buf0);
    var buf := buf0;
    while |buf| > 0
      invariant Send(o.data, o.script, buf) == old(Send(o.data, o.script, buf0))
      decreases |o.script|
    {
      ghost var data, script := o.data, o.script;
      var nwrite, eintr := o.Write(buf);
      if nwrite < 0 {
        assert data + [] == data;
        if eintr {
          continue;
        }
        return false;
      }
      buf := buf[nwrite..];
    }
    ok := true;
  }

  /** What writev_retry does with the bytes `all` of `n` vectors: without vectors no call is made. */
  ghost function SendVectors(data: seq<byte>, script: seq<Outcome>, n: nat, all: seq<byte>): Sent {
    if n == 0 then Sent(data, script, true) else SendSome(data, script, all)
  }

  lemma SendVectorsMeans(data: seq<byte>, script: seq<Outcome>, vecs: seq<seq<byte>>)
    requires NonEmpty(vecs)
    ensures SentAs(data, script, Flatten(vecs), SendVectors(data, script, |vecs|, Flatten(vecs)))
  {
    if vecs == [] {
      assert data + [] == data;
    } else {
      SendSomeMeans(data, script, Flatten(vecs));
    }
  }

  /** writev_retry: the vectors are consumed and shortened in place until none is left. */
  method WritevRetry(o: Output, iov: array<seq<byte>>, nvec0: nat) returns (ok: bool)
    requires nvec0 <= iov.Length
    modifies o, iov
    ensures Sent(o.data, o.script, ok) == old(SendVectors(o.data, o.script, nvec0, Flatten(iov[..nvec0])))
    ensures old(NonEmpty(iov[..nvec0])) ==>
              SentAs(old(o.data), old(o.script), old(Flatten(iov[..nvec0])), Sent(o.data, o.script, ok))
  {
    hide Flatten;
    ghost var all := Flatten(iov[..nvec0]);
    if NonEmpty(iov[..nvec0]) {
      SendVectorsMeans(o.data, o.script, iov[..nvec0]);
    }
    if nvec0 == 0 {
      return true;
    }
    var i, nvec := 0, nvec0;
    while true
      invariant 0 <= i && 0 < nvec && i + nvec == nvec0
      invariant SendSome(o.data, o.script, Flatten(iov[i..nvec0])) == old(SendSome(o.data, o.script, all))
      decreases |o.script|
    {
      ghost var data := o.data;
      var nwrite, eintr := o.Write(Flatten(iov[i..nvec0]));
      if nwrite < 0 {
        assert data + [] == data;
        if eintr {
          continue;
        }
        return false;
      }
      // Vectors `i` to `i + done` are gone, and the next one is shortened.
      var done := Consume(iov, i, nvec0, nwrite);
      i := i + done;
      nvec := nvec - done;
      if nvec == 0 {
        return true;
      }
    }
  }

  /** The inner loop of writev_retry; a vector that is left over has bytes to write. */
  method Consume(iov: array<seq<byte>>, i0: nat, n: nat, nwrite0: int) returns (done: nat)
    requires i0 < n <= iov.Length && 0 <= nwrite0 <= |Flatten(iov[i0..n])|
    modifies iov
    ensures i0 + done <= n && Flatten(iov[i0 + done..n]) == old(Flatten(iov[i0..n]))[nwrite0..]
    ensures i0 + done < n <==> nwrite0 < old(|Flatten(iov[i0..n])|)
  {
    var i, nwrite := i0, nwrite0;
    done := 0;
    ghost var all := Flatten(iov[i0..n]);
    while true
      invariant i0 <= i < n && done == i - i0
      invariant 0 <= nwrite <= nwrite0 && nwrite <= |Flatten(iov[i..n])|
      invariant Flatten(iov[i..n])[nwrite..] == all[nwrite0..]
      invariant iov[..] == old(iov[..])
      decreases n - i
    {
      assert iov[i..n][1..] == iov[i + 1..n];
      // Part of vector `i` is left to write.
      if |iov[i]| > nwrite {
        iov[i] := iov[i][nwrite..];
        assert |all[nwrite0..]| > 0;
        return;
      }
      nwrite := nwrite - |iov[i]|;
      i := i + 1;
      done := done + 1;
      if i == n {
        assert all[nwrite0..] == [];
        return;
      }
    }
  }
}
