/** `base64`: the reading loop of the encoder and its wrapped output. */
module CliEncode {
  import opened Tables
  import opened Memory
  import opened StreamState
  import opened Console
  import opened Wrapping
  import Rfc4648
  import Encoder
  import EncodeStream

  /** What has been emitted is the beginning of the encoding, whatever is read next. */
  lemma EmittedIsPrefix(s: seq<byte>, rest: seq<byte>)
    ensures Encoder.Call(Encoder.INITIAL, s).out <= Rfc4648.Encode(s + rest)
  {
    hide Encoder.Call, Encoder.Final, Rfc4648.Encode;
    Encoder.Split(Encoder.INITIAL, s, rest);
    Encoder.CallThenFinal(s + rest);
  }

  lemma BegunMore(e: seq<byte>, more: seq<byte>, wrap: nat)
    ensures Begun(e, wrap) + (if wrap == 0 then more else Wrapped(more, ColAfter(|e|, 0, wrap), wrap))
            == Begun(e + more, wrap)
    ensures Column(|e + more|, wrap) == NextColumn(|more|, Column(|e|, wrap), wrap)
  {
    hide Wrapped, ColAfter;
    if wrap > 0 {
      WrappedSplit(e, more, 0, wrap);
    }
  }

  /** The first lines of a part of a text are the beginning of the lines of the whole. */
  lemma LinesMore(e: seq<byte>, all: seq<byte>, wrap: nat)
    requires e <= all
    ensures Begun(e, wrap) <= Lines(all, wrap)
  {
    hide Wrapped, ColAfter;
    BegunMore(e, all[|e|..], wrap);
    assert all == e + all[|e|..];
  }

  // A whole run, as a function of what is read and of how the system answers.

  /** The end of `encode`: the last quantum and the last newline. */
  ghost function EndEncode(st: Encoder.State, col: nat, data: seq<byte>, script: seq<Outcome>, wrap: nat,
                           max: nat): Sent
    requires Encoder.Reachable(st) && (wrap == 0 || col < wrap)
  {
    var tail := Encoder.Final(st);
    var w := WriteWrapped(data, script, tail, col, wrap, max);
    if w.ok then Send(w.data, w.script, LastNewline(NextColumn(|tail|, col, wrap), wrap)) else w
  }

  /** The reading loop of `encode`: every read of at most a mebibyte is encoded and written before the next. */
  ghost function RunEncode(st: Encoder.State, col: nat, data: seq<byte>, script: seq<Outcome>,
                           coming: seq<byte>, answers: seq<Answer>, error: bool, wrap: nat, max: nat): Run
    requires Encoder.Reachable(st) && (wrap == 0 || col < wrap)
    decreases |coming|
  {
    var g := NextRead(coming, answers, 1048576);
    if g.buf == [] then
      if error || g.failed then Run(ReadError, data, script, g.data)
      else
        var w := EndEncode(st, col, data, script, wrap, max);
        Run(if w.ok then Done else WriteError, w.data, w.script, g.data)
    else
      var r := Encoder.Call(st, g.buf);
      var w := WriteWrapped(data, script, r.out, col, wrap, max);
      if !w.ok then Run(WriteError, w.data, w.script, g.data)
      else
        RunEncode(r.st, NextColumn(|r.out|, col, wrap), w.data, w.script, g.data, g.script,
                  error || g.failed, wrap, max)
  }

  // What such a run means.

  /** What has been written of `s` is a part of what is written of all. */
  lemma PartWritten(start: Sent, s: seq<byte>, rest: seq<byte>, r: Sent, wrap: nat)
    requires SentAs(start.data, start.script, Begun(Encoder.Call(Encoder.INITIAL, s).out, wrap), r)
    ensures Prefix(r.data, start.data + Lines(Rfc4648.Encode(s + rest), wrap))
    ensures !r.ok ==> SentAs(start.data, start.script, Lines(Rfc4648.Encode(s + rest), wrap), r)
    ensures r.ok ==> r.data == start.data + Begun(Encoder.Call(Encoder.INITIAL, s).out, wrap)
  {
    hide Encoder.Call, Rfc4648.Encode, Begun, Lines;
    var part := Begun(Encoder.Call(Encoder.INITIAL, s).out, wrap);
    var text := Lines(Rfc4648.Encode(s + rest), wrap);
    EmittedIsPrefix(s, rest);
    LinesMore(Encoder.Call(Encoder.INITIAL, s).out, Rfc4648.Encode(s + rest), wrap);
    assert text == part + text[|part|..];
    PrefixExtended(r.data, start.data, part, text[|part|..]);
    if !r.ok {
      SentLess(start.data, start.script, part, r, text[|part|..]);
    }
  }

  lemma EndMeans(start: Sent, s: seq<byte>, data: seq<byte>, script: seq<Outcome>, wrap: nat, max: nat)
    requires var e := Encoder.Call(Encoder.INITIAL, s).out;
             SentAs(start.data, start.script, Begun(e, wrap), Sent(data, script, true))
    ensures var r := Encoder.Call(Encoder.INITIAL, s);
            SentAs(start.data, start.script, Lines(Rfc4648.Encode(s), wrap),
                   EndEncode(r.st, Column(|r.out|, wrap), data, script, wrap, max))
  {
    hide Encoder.Call, Rfc4648.Encode, Begun, WriteWrapped, SentAs, Send;
    var r := Encoder.Call(Encoder.INITIAL, s);
    var tail, col := Encoder.Final(r.st), Column(|r.out|, wrap);
    Encoder.CallThenFinal(s);
    var w := WriteWrapped(data, script, tail, col, wrap, max);
    PieceMeans(start, r.out, tail, data, script, wrap, max);
    hide Column;
    var last := LastNewline(Column(|Rfc4648.Encode(s)|, wrap), wrap);
    if w.ok {
      SendMeans(w.data, w.script, last);
      SentAfter(start.data, start.script, Begun(r.out + tail, wrap), w, last, Send(w.data, w.script, last));
    } else {
      SentLess(start.data, start.script, Begun(r.out + tail, wrap), w, last);
    }
  }

  /** write_wrapped, seen from the beginning of the output. */
  lemma PieceMeans(start: Sent, e: seq<byte>, more: seq<byte>, data: seq<byte>, script: seq<Outcome>,
                   wrap: nat, max: nat)
    requires SentAs(start.data, start.script, Begun(e, wrap), Sent(data, script, true))
    ensures var col := Column(|e|, wrap);
            && SentAs(start.data, start.script, Begun(e + more, wrap), WriteWrapped(data, script, more, col, wrap, max))
            && NextColumn(|more|, col, wrap) == Column(|e + more|, wrap)
  {
    hide Wrapped, ColAfter, SentAs, WriteWrapped;
    var col := Column(|e|, wrap);
    BegunMore(e, more, wrap);
    WriteWrappedMeans(data, script, more, col, wrap, max);
    SentAfter(start.data, start.script, Begun(e, wrap), Sent(data, script, true),
              if wrap == 0 then more else Wrapped(more, col, wrap), WriteWrapped(data, script, more, col, wrap, max));
  }

  /** What a run of `encode` promises, given all of its input. */
  ghost predicate Encodes(start: Sent, all: seq<byte>, wrap: nat, run: Run) {
    var text := Lines(Rfc4648.Encode(all), wrap);
    && run.status != DecodingError
    && Prefix(run.data, start.data + text)
    && (run.status == Done ==> run.data == start.data + text)
    && (run.status == WriteError ==> |run.data| < |start.data + text| && !Ample(start.script, |text|))
    && |run.rest| <= |all|
    && (run.status == ReadError ==>
          var read := all[..|all| - |run.rest|];
          run.data == start.data + Begun(Encoder.Call(Encoder.INITIAL, read).out, wrap))
  }

  lemma {:induction false} RunEncodes(start: Sent, s: seq<byte>, data: seq<byte>, script: seq<Outcome>,
                                      coming: seq<byte>, answers: seq<Answer>, error: bool, wrap: nat, max: nat)
    requires var e := Encoder.Call(Encoder.INITIAL, s).out;
             SentAs(start.data, start.script, Begun(e, wrap), Sent(data, script, true))
    ensures var r := Encoder.Call(Encoder.INITIAL, s);
            var run := RunEncode(r.st, Column(|r.out|, wrap), data, script, coming, answers, error, wrap, max);
            Encodes(start, s + coming, wrap, run) && (run.status == ReadError ==> error || Faulty(answers))
    decreases |coming|
  {
    hide Encoder.Call, Rfc4648.Encode, Begun, Column, Lines, EndEncode, WriteWrapped, SentAs, Ample;
    var g := NextRead(coming, answers, 1048576);
    var all := s + coming;
    var r := Encoder.Call(Encoder.INITIAL, s);
    NextFaulty(coming, answers, 1048576);
    assert [] + g.data == g.data && all[..|s|] == s;
    if g.buf == [] {
      PartWritten(start, s, coming, Sent(data, script, true), wrap);
      if !(error || g.failed) {
        assert s + [] == s;
        EndMeans(start, s, data, script, wrap, max);
        Outcomes(start, Lines(Rfc4648.Encode(all), wrap),
                 EndEncode(r.st, Column(|r.out|, wrap), data, script, wrap, max));
      }
    } else {
      var r1 := Encoder.Call(r.st, g.buf);
      var w := WriteWrapped(data, script, r1.out, Column(|r.out|, wrap), wrap, max);
      Encoder.Split(Encoder.INITIAL, s, g.buf);
      PieceMeans(start, r.out, r1.out, data, script, wrap, max);
      assert all == (s + g.buf) + g.data;
      if w.ok {
        RunEncodes(start, s + g.buf, w.data, w.script, g.data, g.script, error || g.failed, wrap, max);
      } else {
        PartWritten(start, s + g.buf, g.data, w, wrap);
        Outcomes(start, Lines(Rfc4648.Encode(all), wrap), w);
      }
    }
  }

  lemma Outcomes(start: Sent, all: seq<byte>, r: Sent)
    requires SentAs(start.data, start.script, all, r)
    ensures Prefix(r.data, start.data + all) && (r.ok ==> r.data == start.data + all)
    ensures !r.ok ==> |r.data| < |start.data + all| && !Ample(start.script, |all|)
  {
  }

  /** One turn of the loop. */
  lemma OneRead(st: Encoder.State, col: nat, data: seq<byte>, script: seq<Outcome>, coming: seq<byte>,
                answers: seq<Answer>, error: bool, wrap: nat, max: nat)
    requires Encoder.Reachable(st) && (wrap == 0 || col < wrap)
    ensures var g := NextRead(coming, answers, 1048576);
            var r := Encoder.Call(st, g.buf);
            var w := WriteWrapped(data, script, r.out, col, wrap, max);
            var v := EndEncode(st, col, data, script, wrap, max);
            RunEncode(st, col, data, script, coming, answers, error, wrap, max) ==
            if g.buf == [] then
              if error || g.failed then Run(ReadError, data, script, g.data)
              else Run(if v.ok then Done else WriteError, v.data, v.script, g.data)
            else if !w.ok then Run(WriteError, w.data, w.script, g.data)
            else
              RunEncode(r.st, NextColumn(|r.out|, col, wrap), w.data, w.script, g.data, g.script,
                        error || g.failed, wrap, max)
  {
  }

  // The program.

  /** The encoded form of one read fits the buffer. */
  lemma EncodedFits(bytes: int, n: nat)
    requires 0 <= bytes <= 2 && n <= BUFFER_RAW_SIZE
    ensures EncodeStream.Extent(bytes, n) <= BUFFER_ENC_SIZE
  {
  }

  /** The body of the reading loop of `encode`; `st` is the encoder state up to its dead carry. */
  method EncodeRead(codec: EncodeStream.Codec, state: Base64State, raw: seq<byte>, enc: array<byte>, w: Writer,
                    ghost st: Encoder.State)
    returns (ok: bool, ghost r: Encoder.Result)
    requires codec.Valid() && |raw| <= BUFFER_RAW_SIZE && enc.Length == BUFFER_ENC_SIZE && w.Valid()
    requires Encoder.Reachable(st) && Encoder.Reachable(state.Encoding()) && Encoder.Same(st, state.Encoding())
    modifies state`bytes, state`carry, enc, w`col, w.out, w.iov
    ensures r == Encoder.Call(st, raw) && Encoder.Reachable(state.Encoding()) && Encoder.Same(r.st, state.Encoding())
    ensures Sent(w.out.data, w.out.script, ok)
            == old(WriteWrapped(w.out.data, w.out.script, r.out, w.col, w.wrap, w.iov.Length))
    ensures ok ==> w.Valid() && w.col == old(NextColumn(|r.out|, w.col, w.wrap))
  {
    hide Encoder.Call, EncodeStream.Extent, Replay, WriteWrapped, SentAs;
    EncodedFits(state.bytes, |raw|);
    r := Encoder.Call(st, raw);
    Encoder.DeadCarry(st, state.Encoding(), raw);
    var nout, log := EncodeStream.Encode(codec, state, raw, enc, 0);
    ok := w.Write(enc[0..0 + nout]);
  }

  method EncodeEnd(state: Base64State, enc: array<byte>, w: Writer, ghost st: Encoder.State) returns (ok: bool)
    requires enc.Length == BUFFER_ENC_SIZE && w.Valid()
    requires Encoder.Reachable(st) && Encoder.Reachable(state.Encoding()) && Encoder.Same(st, state.Encoding())
    modifies enc, w`col, w.out, w.iov
    ensures Sent(w.out.data, w.out.script, ok)
            == old(EndEncode(st, w.col, w.out.data, w.out.script, w.wrap, w.iov.Length))
  {
    hide Encoder.Call, Replay, WriteWrapped, SentAs, Send;
    Encoder.DeadCarry(st, state.Encoding(), []);
    var nout, log := EncodeStream.Final(state, enc, 0);
    ok := w.Write(enc[0..0 + nout]);
    if ok {
      ok := w.Finish();
    }
  }

  /** encode: every byte of the input, however it is read, encoded and wrapped. */
  method Encode(codec: EncodeStream.Codec, input: Input, wrap: nat, iovMax: nat, out: Output) returns (status: Status)
    requires codec.Valid() && iovMax > 0 && !input.error
    modifies input, out
    ensures Run(status, out.data, out.script, input.data)
            == old(RunEncode(Encoder.INITIAL, 0, out.data, out.script, input.data, input.script, false, wrap, iovMax))
    ensures Encodes(old(Sent(out.data, out.script, true)), old(input.data), wrap,
                    Run(status, out.data, out.script, input.data))
    ensures status == ReadError ==> Faulty(old(input.script))
    ensures var text := Rfc4648.Encode(old(input.data));
            status == Done && 0 < wrap <= |text| ==>
              |out.data| > |old(out.data)| + wrap && out.data[|old(out.data)| + wrap] == 10
  {
    hide RunEncode, EndEncode, Encodes, SentAs, WriteWrapped, Encoder.Call, NextRead;
    Starting(out.data, out.script, input.data, input.script, wrap, iovMax);
    var state := new Base64State(0);
    var enc := new byte[BUFFER_ENC_SIZE];
    var w := new Writer(wrap, iovMax, out);
    ghost var st := Encoder.INITIAL;
    while true
      invariant w.Valid() && Encoder.Reachable(st)
      invariant Encoder.Reachable(state.Encoding()) && Encoder.Same(st, state.Encoding())
      invariant RunEncode(st, w.col, out.data, out.script, input.data, input.script, input.error, wrap, iovMax)
                == old(RunEncode(Encoder.INITIAL, 0, out.data, out.script, input.data, input.script, false,
                                 wrap, iovMax))
      decreases |input.data|
    {
      OneRead(st, w.col, out.data, out.script, input.data, input.script, input.error, wrap, iovMax);
      var raw := input.Read(BUFFER_RAW_SIZE);
      if raw == [] {
        break;
      }
      var ok;
      ghost var r;
      ok, r := EncodeRead(codec, state, raw, enc, w, st);
      if !ok {
        return WriteError;
      }
      st := r.st;
    }
    if input.error {
      return ReadError;
    }
    var ok := EncodeEnd(state, enc, w, st);
    status := if ok then Done else WriteError;
  }

  /** What the whole run means, from its beginning. */
  lemma Starting(data: seq<byte>, script: seq<Outcome>, coming: seq<byte>, answers: seq<Answer>, wrap: nat, max: nat)
    ensures var run := RunEncode(Encoder.INITIAL, 0, data, script, coming, answers, false, wrap, max);
            && Encodes(Sent(data, script, true), coming, wrap, run)
            && (run.status == ReadError ==> Faulty(answers))
            && (run.status == Done && 0 < wrap <= |Rfc4648.Encode(coming)| ==>
                  |run.data| > |data| + wrap && run.data[|data| + wrap] == 10)
  {
    hide RunEncode, Encoder.Call, Rfc4648.Encode, Wrapped, ColAfter, SentAs;
    Beginning(data, script, wrap);
    assert [] + coming == coming;
    RunEncodes(Sent(data, script, true), [], data, script, coming, answers, false, wrap, max);
    var text := Rfc4648.Encode(coming);
    if 0 < wrap <= |text| {
      FullLine(text, wrap);
    }
  }

  lemma Beginning(data: seq<byte>, script: seq<Outcome>, wrap: nat)
    ensures Encoder.Call(Encoder.INITIAL, []) == Encoder.Result([], Encoder.INITIAL) && Column(0, wrap) == 0
    ensures SentAs(data, script, Begun([], wrap), Sent(data, script, true))
  {
    assert data + [] == data;
  }
}
