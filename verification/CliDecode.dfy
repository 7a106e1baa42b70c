/** `base64 -d`: the reading loop of the decoder and its cutting of the input at newlines. */
module CliDecode {
  import opened Tables
  import opened Memory
  import opened StreamState
  import opened Console
  import opened Wrapping
  import Rfc4648
  import Decoder
  import DecodeStream
  import OneShot

  /** What the decoder is given: the input itself, or the input without its newlines. */
  function Stripped(s: seq<byte>, strip: bool): seq<byte> {
    if strip then Strip(s) else s
  }

  lemma StrippedMore(a: seq<byte>, b: seq<byte>, strip: bool)
    ensures Stripped(a + b, strip) == Stripped(a, strip) + Stripped(b, strip)
  {
    StripAppend(a, b);
  }

  /** Feed `s` if there is anything to feed: empty pieces are never passed to the decoder. */
  function Fed(st: Decoder.State, s: seq<byte>): (r: Decoder.Result)
    ensures r.ret == 0 || r.ret == 1
  {
    if s == [] then Decoder.Result(1, [], st) else Decoder.Call(st, s)
  }

  /** Feeding two pieces is feeding both at once, if the first one is accepted; a refused one decides. */
  lemma FedSplit(st: Decoder.State, a: seq<byte>, b: seq<byte>)
    ensures Fed(st, a).ret == 1 ==> Fed(st, a + b) == Decoder.Emit(Fed(st, a).out, Fed(Fed(st, a).st, b))
    ensures Fed(st, a).ret == 0 ==> Fed(st, a + b) == Fed(st, a)
  {
    hide Decoder.Call;
    if a == [] {
      assert a + b == b;
      Decoder.EmitNothing(Fed(st, b));
    } else if b == [] {
      assert a + b == a && Fed(st, a).out + [] == Fed(st, a).out;
    } else {
      Decoder.Split(st, a, b);
    }
  }

  /** The first piece of a run may be empty as well: before the end of file an empty call changes nothing. */
  lemma FedFromStart(s: seq<byte>)
    ensures Fed(Decoder.INITIAL, s) == Decoder.Call(Decoder.INITIAL, s)
  {
  }

  // A whole run, as a function of what is read and of how the system answers.

  /** The reading loop of `decode`: what a read of at most a mebibyte decodes to is written before the next. */
  ghost function RunDecode(st: Decoder.State, data: seq<byte>, script: seq<Outcome>, coming: seq<byte>,
                           answers: seq<Answer>, error: bool, strip: bool): Run
    decreases |coming|
  {
    var g := NextRead(coming, answers, 1048576);
    if g.buf == [] then Run(if error || g.failed then ReadError else Done, data, script, g.data)
    else
      var r := Fed(st, Stripped(g.buf, strip));
      if r.ret == 0 then Run(DecodingError, data, script, g.data)
      else
        var w := Send(data, script, r.out);
        if !w.ok then Run(WriteError, w.data, w.script, g.data)
        else RunDecode(r.st, w.data, w.script, g.data, g.script, error || g.failed, strip)
  }

  // What such a run means.

  /** The characters `s` are accepted, and what they decode to, and no more, has been written. */
  ghost predicate Written(start: Sent, s: seq<byte>, strip: bool, data: seq<byte>) {
    var r := Decoder.Call(Decoder.INITIAL, Stripped(s, strip));
    r.ret == 1 && data == start.data + r.out
  }

  /** The first `done` of the characters read are accepted and written, and one read behind them is not. */
  ghost predicate WrittenBefore(start: Sent, read: seq<byte>, strip: bool, data: seq<byte>, done: nat) {
    && done < |read| <= done + 1048576
    && Written(start, read[..done], strip, data)
    && Decoder.Call(Decoder.INITIAL, Stripped(read, strip)).ret == 0
  }

  ghost predicate RefusedBehind(start: Sent, read: seq<byte>, strip: bool, data: seq<byte>) {
    exists done :: WrittenBefore(start, read, strip, data, done)
  }

  /** What a run of `decode` promises, given all of its input. */
  ghost predicate Decodes(start: Sent, all: seq<byte>, strip: bool, run: Run) {
    var r := Decoder.Call(Decoder.INITIAL, Stripped(all, strip));
    && |run.rest| <= |all|
    && Prefix(run.data, start.data + r.out)
    && (run.status == Done ==> run.rest == [] && Written(start, all, strip, run.data))
    && (run.status == ReadError ==> Written(start, all[..|all| - |run.rest|], strip, run.data))
    && (run.status == DecodingError ==>
          r.ret == 0 && RefusedBehind(start, all[..|all| - |run.rest|], strip, run.data))
    && (run.status == WriteError ==> |run.data| < |start.data + r.out| && !Ample(start.script, |r.out|))
  }

  /** What has been emitted for the first part comes first in the output for the whole. */
  lemma PartSent(start: Sent, e: seq<byte>, more: seq<byte>, r: Sent)
    requires SentAs(start.data, start.script, e, r)
    ensures Prefix(r.data, start.data + (e + more))
    ensures !r.ok ==> |r.data| < |start.data + (e + more)| && !Ample(start.script, |e + more|)
  {
    PrefixExtended(r.data, start.data, e, more);
    if !r.ok {
      SentLess(start.data, start.script, e, r, more);
    }
  }

  /** One read that is decoded and written, or refused. */
  lemma ReadMeans(start: Sent, s: seq<byte>, data: seq<byte>, script: seq<Outcome>, buf: seq<byte>, rest: seq<byte>,
                  strip: bool)
    requires var r := Decoder.Call(Decoder.INITIAL, Stripped(s, strip));
             r.ret == 1 && SentAs(start.data, start.script, r.out, Sent(data, script, true))
    ensures var r := Decoder.Call(Decoder.INITIAL, Stripped(s, strip));
            var r1 := Fed(r.st, Stripped(buf, strip));
            var to := Decoder.Call(Decoder.INITIAL, Stripped(s + buf, strip));
            var all := Decoder.Call(Decoder.INITIAL, Stripped(s + (buf + rest), strip));
            var w := Send(data, script, r1.out);
            && Prefix(data, start.data + all.out)
            && to.ret == r1.ret
            && (r1.ret == 0 ==> all.ret == 0)
            && (r1.ret == 1 ==>
                  && to == Decoder.Result(1, r.out + r1.out, r1.st)
                  && SentAs(start.data, start.script, to.out, w)
                  && Prefix(w.data, start.data + all.out)
                  && (!w.ok ==> |w.data| < |start.data + all.out| && !Ample(start.script, |all.out|)))
  {
    hide Decoder.Call, Stripped, SentAs, Ample, Send;
    var a, b, c := Stripped(s, strip), Stripped(buf, strip), Stripped(rest, strip);
    var r := Decoder.Call(Decoder.INITIAL, a);
    var r1 := Fed(r.st, b);
    StrippedMore(s, buf, strip);
    StrippedMore(s + buf, rest, strip);
    assert (s + buf) + rest == s + (buf + rest) && (a + b) + c == a + (b + c);
    FedFromStart(a);
    FedFromStart(a + b);
    FedFromStart(a + (b + c));
    FedSplit(Decoder.INITIAL, a, b);
    FedSplit(Decoder.INITIAL, a, b + c);
    FedSplit(Decoder.INITIAL, a + b, c);
    hide Fed;
    PartSent(start, r.out, Fed(r.st, b + c).out, Sent(data, script, true));
    if r1.ret == 1 {
      SendMeans(data, script, r1.out);
      SentAfter(start.data, start.script, r.out, Sent(data, script, true), r1.out, Send(data, script, r1.out));
      PartSent(start, r.out + r1.out, Fed(r1.st, c).out, Send(data, script, r1.out));
    }
  }

  lemma {:induction false} RunDecodes(start: Sent, s: seq<byte>, data: seq<byte>, script: seq<Outcome>,
                                      coming: seq<byte>, answers: seq<Answer>, error: bool, strip: bool)
    requires var r := Decoder.Call(Decoder.INITIAL, Stripped(s, strip));
             r.ret == 1 && SentAs(start.data, start.script, r.out, Sent(data, script, true))
    ensures var r := Decoder.Call(Decoder.INITIAL, Stripped(s, strip));
            var run := RunDecode(r.st, data, script, coming, answers, error, strip);
            Decodes(start, s + coming, strip, run) && (run.status == ReadError ==> error || Faulty(answers))
    decreases |coming|
  {
    hide Decoder.Call, Stripped, SentAs, Ample, Send, Fed, NextRead;
    var g := NextRead(coming, answers, 1048576);
    var all := s + coming;
    var r := Decoder.Call(Decoder.INITIAL, Stripped(s, strip));
    var r1 := Fed(r.st, Stripped(g.buf, strip));
    NextFaulty(coming, answers, 1048576);
    ReadMeans(start, s, data, script, g.buf, g.data, strip);
    WrittenSoFar(start, s, data, script, strip);
    if g.buf == [] {
      assert g.data == coming && all[..|s|] == s;
      assert !g.failed ==> all == s;
    } else if r1.ret == 0 {
      var read := all[..|all| - |g.data|];
      assert read == s + g.buf && read[..|s|] == s;
      assert WrittenBefore(start, read, strip, data, |s|);
    } else {
      assert all == (s + g.buf) + g.data;
      var w := Send(data, script, r1.out);
      if w.ok {
        RunDecodes(start, s + g.buf, w.data, w.script, g.data, g.script, error || g.failed, strip);
      }
    }
  }

  lemma WrittenSoFar(start: Sent, s: seq<byte>, data: seq<byte>, script: seq<Outcome>, strip: bool)
    requires var r := Decoder.Call(Decoder.INITIAL, Stripped(s, strip));
             r.ret == 1 && SentAs(start.data, start.script, r.out, Sent(data, script, true))
    ensures Written(start, s, strip, data)
  {
  }

  /** What the whole run means, from its beginning. */
  lemma Starting(data: seq<byte>, script: seq<Outcome>, coming: seq<byte>, answers: seq<Answer>, strip: bool)
    ensures var run := RunDecode(Decoder.INITIAL, data, script, coming, answers, false, strip);
            && Decodes(Sent(data, script, true), coming, strip, run)
            && (run.status == ReadError ==> Faulty(answers))
  {
    hide RunDecode, Decodes, NextRead, Useful;
    assert data + [] == data && [] + coming == coming;
    RunDecodes(Sent(data, script, true), [], data, script, coming, answers, false, strip);
  }

  /** One turn of the loop. */
  lemma OneRead(st: Decoder.State, data: seq<byte>, script: seq<Outcome>, coming: seq<byte>, answers: seq<Answer>,
                error: bool, strip: bool)
    ensures var g := NextRead(coming, answers, 1048576);
            var r := Fed(st, Stripped(g.buf, strip));
            var w := Send(data, script, r.out);
            RunDecode(st, data, script, coming, answers, error, strip) ==
            if g.buf == [] then Run(if error || g.failed then ReadError else Done, data, script, g.data)
            else if r.ret == 0 then Run(DecodingError, data, script, g.data)
            else if !w.ok then Run(WriteError, w.data, w.script, g.data)
            else RunDecode(r.st, w.data, w.script, g.data, g.script, error || g.failed, strip)
  {
  }

  // The program.

  /** find_newline */
  method FindNewline(p: seq<byte>) returns (len: nat)
    ensures len <= |p| && (forall i :: 0 <= i < len ==> p[i] != 10) && (len < |p| ==> p[len] == 10)
  {
    len := 0;
    while len < |p|
      invariant len <= |p| && forall i :: 0 <= i < len ==> p[i] != 10
    {
      if p[len] == NEWLINE {
        return;
      }
      len := len + 1;
    }
  }

  /** Up to the next newline nothing is stripped, and of that newline nothing is left. */
  lemma Token(s: seq<byte>, start: nat, len: nat, strip: bool)
    requires start + len <= |s| && (forall i :: start <= i < start + len ==> s[i] != 10 || !strip)
    ensures Stripped(s[..start + len], strip) == Stripped(s[..start], strip) + s[start..start + len]
    ensures strip && start + len < |s| && s[start + len] == 10 ==>
              Stripped(s[..start + len + 1], strip) == Stripped(s[..start], strip) + s[start..start + len]
  {
    hide Strip;
    var token := s[start..start + len];
    assert s[..start + len] == s[..start] + token;
    StrippedMore(s[..start], token, strip);
    if strip {
      StripNothing(token);
      if start + len < |s| && s[start + len] == 10 {
        assert s[..start + len + 1] == s[..start + len] + [10];
        StripAppend(s[..start + len], [10]);
        StripNewline();
      }
    }
  }

  lemma StripNewline()
    ensures Strip([10]) == []
  {
  }

  /** A call emits no more bytes than it reads characters. */
  lemma DecodedFits(b: int, n: nat)
    requires 0 <= b <= 3
    ensures 0 <= Decoder.Extent(b, n) <= n
  {
  }

  /** The decoding call of the tokenising loop, behind what the buffer already holds. */
  method DecodeToken(codec: DecodeStream.Codec, state: Base64State, token: seq<byte>, raw: array<byte>, ototal: nat)
    returns (ok: bool, outlen: nat)
    requires token != [] && ototal + |token| <= raw.Length && Decoder.Reachable(state.Decoding())
    modifies state, raw
    ensures outlen <= |token| && Decoder.Reachable(state.Decoding())
    ensures old(Decoder.Call(state.Decoding(), token))
            == Decoder.Result(if ok then 1 else 0, raw[ototal..ototal + outlen], state.Decoding())
    ensures raw[..ototal + outlen] == old(raw[..ototal]) + raw[ototal..ototal + outlen]
  {
    hide Decoder.Call, Decoder.Extent, Replay;
    DecodedFits(state.bytes, |token|);
    ghost var st, before, m := state.Decoding(), raw[..ototal], raw[..];
    Decoder.CallReachable(st, token);
    var ret, n, log := DecodeStream.Decode(codec, state, token, raw, ototal);
    ok, outlen := ret != 0, n;
    OneShot.Framed(m, log, ototal, ototal + Decoder.Extent(st.bytes, |token|));
    assert raw[..ototal] == raw[..][..ototal] == m[..ototal] == before;
    assert raw[..ototal + outlen] == before + raw[ototal..ototal + outlen];
  }

  /** The tokenising loop of `decode`, on what one read has put into the buffer. */
  method DecodeRead(codec: DecodeStream.Codec, state: Base64State, chunk: seq<byte>, strip: bool, raw: array<byte>)
    returns (ok: bool, ototal: nat)
    requires |chunk| <= raw.Length && Decoder.Reachable(state.Decoding())
    modifies state, raw
    ensures ototal <= raw.Length && Decoder.Reachable(state.Decoding())
    ensures var r := old(Fed(state.Decoding(), Stripped(chunk, strip)));
            (r.ret == 1 <==> ok) && (ok ==> r.out == raw[..ototal] && r.st == state.Decoding())
  {
    hide Fed, Strip, Decoder.Call;
    var start, avail := 0, |chunk|;
    ghost var st0, done := state.Decoding(), 0;
    ototal := 0;
    NothingFed(st0, chunk, strip);
    assert raw[..0] == [];
    while avail > 0
      invariant 0 <= avail && start + avail == |chunk| && done == start && ototal <= start
      invariant Decoder.Reachable(state.Decoding())
      invariant Fed(st0, Stripped(chunk[..done], strip)) == Decoder.Result(1, raw[..ototal], state.Decoding())
    {
      var len;
      if strip {
        len := FindNewline(chunk[start..]);
      } else {
        len := avail;
      }
      ghost var pre := Stripped(chunk[..start], strip);
      Token(chunk, start, len, strip);
      // A newline at `start`: it is dropped.
      if len == 0 {
        assert pre + chunk[start..start + len] == pre;
        start := start + 1;
        avail := avail - 1;
        done := start;
        continue;
      }
      ghost var st := state.Decoding();
      var token := chunk[start..start + len];
      FedToken(st0, pre, st, token);
      var outlen;
      ok, outlen := DecodeToken(codec, state, token, raw, ototal);
      if !ok {
        RefusedRead(st0, chunk, start + len, strip);
        return;
      }
      ototal := ototal + outlen;
      // The token ends with the chunk, so there is no newline behind it.
      if len == avail {
        done := |chunk|;
        break;
      }
      start := start + len + 1;
      avail := avail - (len + 1);
      done := start;
    }
    ok := true;
    assert chunk[..done] == chunk;
  }

  lemma NothingFed(st: Decoder.State, chunk: seq<byte>, strip: bool)
    ensures Fed(st, Stripped(chunk[..0], strip)) == Decoder.Result(1, [], st)
  {
  }

  /** The next token goes on where the last one stopped. */
  lemma FedToken(st0: Decoder.State, pre: seq<byte>, st: Decoder.State, token: seq<byte>)
    requires token != [] && Fed(st0, pre).ret == 1 && Fed(st0, pre).st == st
    ensures Fed(st0, pre + token) == Decoder.Emit(Fed(st0, pre).out, Decoder.Call(st, token))
  {
    hide Decoder.Call;
    FedSplit(st0, pre, token);
  }

  /** A refused beginning decides the whole read. */
  lemma RefusedRead(st0: Decoder.State, chunk: seq<byte>, n: nat, strip: bool)
    requires n <= |chunk| && Fed(st0, Stripped(chunk[..n], strip)).ret == 0
    ensures Fed(st0, Stripped(chunk, strip)).ret == 0
  {
    hide Fed, Stripped;
    assert chunk == chunk[..n] + chunk[n..];
    StrippedMore(chunk[..n], chunk[n..], strip);
    FedSplit(st0, Stripped(chunk[..n], strip), Stripped(chunk[n..], strip));
  }

  /** decode: what the stream decoder makes of the input, however it is read and however it is cut by newlines. */
  method Decode(codec: DecodeStream.Codec, input: Input, strip: bool, out: Output) returns (status: Status)
    requires !input.error
    modifies input, out
    ensures Run(status, out.data, out.script, input.data)
            == old(RunDecode(Decoder.INITIAL, out.data, out.script, input.data, input.script, false, strip))
    ensures Decodes(old(Sent(out.data, out.script, true)), old(input.data), strip,
                    Run(status, out.data, out.script, input.data))
    ensures status == ReadError ==> Faulty(old(input.script))
    ensures var t := Stripped(old(input.data), strip);
            var r := Decoder.Call(Decoder.INITIAL, t);
            && (r.ret == 1 <==> Decoder.Truncation(Decoder.INITIAL, t))
            && (status == Done ==> (Rfc4648.InLanguage(t) <==> |t| % 4 == 0))
            && r.out == Rfc4648.Decode(Decoder.Padded(t[..Decoder.AlphaPrefix(t)]))
  {
    hide Stripped, Decoder.Call, RunDecode, Fed, NextRead, Send, SentAs;
    Meaning(out.data, out.script, input.data, input.script, strip);
    var state := new Base64State(0);
    var raw := new byte[BUFFER_RAW_SIZE];
    while true
      invariant Decoder.Reachable(state.Decoding())
      invariant RunDecode(state.Decoding(), out.data, out.script, input.data, input.script, input.error, strip)
                == old(RunDecode(Decoder.INITIAL, out.data, out.script, input.data, input.script, false, strip))
      decreases |input.data|
    {
      OneRead(state.Decoding(), out.data, out.script, input.data, input.script, input.error, strip);
      var chunk := input.Read(BUFFER_RAW_SIZE);
      if chunk == [] {
        break;
      }
      var ok, ototal := DecodeRead(codec, state, chunk, strip, raw);
      if !ok {
        return DecodingError;
      }
      // What the tokens of this chunk decode to stands in raw[..ototal].
      ok := WriteStdout(out, raw[..ototal]);
      if !ok {
        return WriteError;
      }
    }
    status := if input.error then ReadError else Done;
  }

  lemma Meaning(data: seq<byte>, script: seq<Outcome>, coming: seq<byte>, answers: seq<Answer>, strip: bool)
    ensures var run := RunDecode(Decoder.INITIAL, data, script, coming, answers, false, strip);
            var t := Stripped(coming, strip);
            var r := Decoder.Call(Decoder.INITIAL, t);
            && Decodes(Sent(data, script, true), coming, strip, run)
            && (run.status == ReadError ==> Faulty(answers))
            && (r.ret == 1 <==> Decoder.Truncation(Decoder.INITIAL, t))
            && (run.status == Done ==> (Rfc4648.InLanguage(t) <==> |t| % 4 == 0))
            && r.out == Rfc4648.Decode(Decoder.Padded(t[..Decoder.AlphaPrefix(t)]))
  {
    hide Stripped, Decoder.Call, Decoder.Truncation, Rfc4648.InLanguage, Rfc4648.Decode, Decoder.Padded, RunDecode;
    Starting(data, script, coming, answers, strip);
    Decoder.OutputIsDecoding(Stripped(coming, strip));
    Decoder.SucceedsOnTruncations(Stripped(coming, strip));
  }
}
