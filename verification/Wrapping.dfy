/** Writing encoded text in lines, with a column that is kept from one call to the next. */
module Wrapping {
  import opened Tables
  import opened Chunks
  import opened Console

  /** `s` written from column `col` in lines of `wrap` characters: a newline after every full line. */
  function Wrapped(s: seq<byte>, col: nat, wrap: nat): seq<byte>
    requires col < wrap
    decreases |s|
  {
    if s == [] then []
    else if col + 1 == wrap then [s[0], 10] + Wrapped(s[1..], 0, wrap)
    else [s[0]] + Wrapped(s[1..], col + 1, wrap)
  }

  /** The column after `n` more characters. */
  function ColAfter(n: nat, col: nat, wrap: nat): (c: nat)
    requires col < wrap
    ensures c < wrap
    decreases n
  {
    if n == 0 then col
    else if col + 1 == wrap then ColAfter(n - 1, 0, wrap)
    else ColAfter(n - 1, col + 1, wrap)
  }

  lemma {:induction false} WrappedSplit(a: seq<byte>, b: seq<byte>, col: nat, wrap: nat)
    requires col < wrap
    ensures Wrapped(a + b, col, wrap) == Wrapped(a, col, wrap) + Wrapped(b, ColAfter(|a|, col, wrap), wrap)
    ensures ColAfter(|a + b|, col, wrap) == ColAfter(|b|, ColAfter(|a|, col, wrap), wrap)
    decreases |a|
  {
    if a == [] {
      assert a + b == b;
    } else {
      assert (a + b)[0] == a[0] && (a + b)[1..] == a[1..] + b;
      WrappedSplit(a[1..], b, if col + 1 == wrap then 0 else col + 1, wrap);
    }
  }

  /** Characters that do not reach the end of the line, or reach it exactly. */
  lemma {:induction false} WithinLine(s: seq<byte>, col: nat, wrap: nat)
    requires col < wrap && s != [] && col + |s| <= wrap
    ensures Wrapped(s, col, wrap) == if col + |s| == wrap then s + [10] else s
    ensures ColAfter(|s|, col, wrap) == if col + |s| == wrap then 0 else col + |s|
    decreases |s|
  {
    if |s| == 1 {
      assert s == [s[0]];
      assert s[1..] == [];
    } else {
      WithinLine(s[1..], col + 1, wrap);
      assert s == [s[0]] + s[1..];
    }
  }

  /** Read line by line: `wrap` characters, a newline, and the rest from column 0 again. */
  lemma FullLine(s: seq<byte>, wrap: nat)
    requires 0 < wrap <= |s|
    ensures Wrapped(s, 0, wrap) == s[..wrap] + [10] + Wrapped(s[wrap..], 0, wrap)
  {
    var line, rest := s[..wrap], s[wrap..];
    assert s == line + rest;
    WrappedSplit(line, rest, 0, wrap);
    WithinLine(line, 0, wrap);
  }

  /** The first lines of a text, with the last one still open. */
  function Begun(s: seq<byte>, wrap: nat): seq<byte> {
    if wrap == 0 then s else Wrapped(s, 0, wrap)
  }

  /** The column in which `n` characters end. */
  function Column(n: nat, wrap: nat): (c: nat)
    ensures wrap == 0 || c < wrap
  {
    if wrap == 0 then 0 else ColAfter(n, 0, wrap)
  }

  /** What ends the last line, if one is open. */
  function LastNewline(col: nat, wrap: nat): seq<byte> {
    if wrap > 0 && col > 0 then [10] else []
  }

  /** All that is written for an encoded text: with `wrap` 0 the text itself, else lines that all end. */
  function Lines(s: seq<byte>, wrap: nat): seq<byte> {
    Begun(s, wrap) + LastNewline(Column(|s|, wrap), wrap)
  }

  /** Removing the newlines. */
  function Strip(s: seq<byte>): seq<byte> {
    if s == [] then []
    else if s[0] == 10 then Strip(s[1..])
    else [s[0]] + Strip(s[1..])
  }

  lemma {:induction false} StripAppend(a: seq<byte>, b: seq<byte>)
    ensures Strip(a + b) == Strip(a) + Strip(b)
    decreases |a|
  {
    if a == [] {
      assert a + b == b;
    } else {
      assert (a + b)[0] == a[0] && (a + b)[1..] == a[1..] + b;
      StripAppend(a[1..], b);
    }
  }

  lemma {:induction false} StripNothing(s: seq<byte>)
    requires forall i :: 0 <= i < |s| ==> s[i] != 10
    ensures Strip(s) == s
    decreases |s|
  {
    if s != [] {
      StripNothing(s[1..]);
    }
  }

  lemma StripChar(c: byte, rest: seq<byte>)
    ensures Strip([c] + rest) == if c == 10 then Strip(rest) else [c] + Strip(rest)
  {
    assert ([c] + rest)[1..] == rest;
  }

  /** Removing the newlines of wrapped text restores the text. */
  lemma {:induction false} StripWrapped(s: seq<byte>, col: nat, wrap: nat)
    requires col < wrap && forall i :: 0 <= i < |s| ==> s[i] != 10
    ensures Strip(Wrapped(s, col, wrap)) == s
    decreases |s|
  {
    if s == [] {
      return;
    }
    hide Strip;
    var next := if col + 1 == wrap then 0 else col + 1;
    var rest := Wrapped(s[1..], next, wrap);
    StripWrapped(s[1..], next, wrap);
    StripChar(10, rest);
    StripChar(s[0], rest);
    StripChar(s[0], [10] + rest);
    assert [s[0], 10] + rest == [s[0]] + ([10] + rest);
  }

  // Lines as vectors, and vectors in batches.

  /** The vectors that `s` is cut into from column `col` on: pieces of lines, and newlines. */
  function Vectors(s: seq<byte>, col: nat, wrap: nat): seq<seq<byte>>
    requires col < wrap
    decreases |s|
  {
    if s == [] then []
    else if |s| < wrap - col then [s]
    else [s[..wrap - col], [10]] + Vectors(s[wrap - col..], 0, wrap)
  }

  lemma {:induction false} VectorsMean(s: seq<byte>, col: nat, wrap: nat)
    requires col < wrap
    ensures Flatten(Vectors(s, col, wrap)) == Wrapped(s, col, wrap) && NonEmpty(Vectors(s, col, wrap))
    decreases |s|
  {
    if s == [] {
    } else if |s| < wrap - col {
      WithinLine(s, col, wrap);
      FlattenOne(s);
    } else {
      var line, rest := s[..wrap - col], s[wrap - col..];
      VectorsMean(rest, 0, wrap);
      WithinLine(line, col, wrap);
      assert s == line + rest;
      WrappedSplit(line, rest, col, wrap);
      FlattenTwo(line, [10], Vectors(rest, 0, wrap));
    }
  }

  /** The vectors behind a piece that ends at `end`. */
  function AfterPiece(end: nat, rest: seq<byte>, wrap: nat): seq<seq<byte>>
    requires 0 < wrap && end <= wrap
  {
    if end == wrap then [[10]] + Vectors(rest, 0, wrap) else Vectors(rest, end, wrap)
  }

  /** The first turn of the loop of write_wrapped: a piece, and a newline if it fills the line. */
  lemma VectorsStep(piece: seq<byte>, rest: seq<byte>, col: nat, wrap: nat)
    requires col < wrap && piece != [] && col + |piece| <= wrap && (col + |piece| < wrap ==> rest == [])
    ensures Vectors(piece + rest, col, wrap) ==
            [piece] + AfterPiece(col + |piece|, rest, wrap)
    ensures ColAfter(|piece + rest|, col, wrap) ==
            ColAfter(|rest|, if col + |piece| == wrap then 0 else col + |piece|, wrap)
  {
    hide Wrapped, ColAfter;
    WithinLine(piece, col, wrap);
    WrappedSplit(piece, rest, col, wrap);
    if rest == [] {
      assert piece + rest == piece;
    }
    assert (piece + rest)[..|piece|] == piece && (piece + rest)[|piece|..] == rest;
  }

  /** What write_wrapped makes of `vecs` behind the `pending` ones: whenever `max` have gathered they are sent. */
  ghost function Gather(data: seq<byte>, script: seq<Outcome>, pending: seq<seq<byte>>, vecs: seq<seq<byte>>,
                        max: nat): Sent
    decreases |vecs|
  {
    if vecs == [] then SendVectors(data, script, |pending|, Flatten(pending))
    else
      var p := pending + [vecs[0]];
      if |p| != max then Gather(data, script, p, vecs[1..], max)
      else
        var r := SendVectors(data, script, max, Flatten(p));
        if r.ok then Gather(r.data, r.script, [], vecs[1..], max) else r
  }

  /** Everything pending and to come is sent once and in order, or a part of it if the answers are not ample. */
  lemma {:induction false} GatherMeans(data: seq<byte>, script: seq<Outcome>, pending: seq<seq<byte>>,
                                       vecs: seq<seq<byte>>, max: nat)
    requires NonEmpty(pending) && NonEmpty(vecs)
    ensures var r := Gather(data, script, pending, vecs, max);
            var all := Flatten(pending) + Flatten(vecs);
            SentAs(data, script, all, r)
    decreases |vecs|
  {
    hide SentAs, SendVectors, Flatten;
    if vecs == [] {
      FlattenNone();
      assert Flatten(pending) + [] == Flatten(pending);
      SendVectorsMeans(data, script, pending);
      return;
    }
    var p, rest := pending + [vecs[0]], vecs[1..];
    FlattenAppend(pending, [vecs[0]]);
    FlattenOne(vecs[0]);
    FlattenAppend([vecs[0]], rest);
    assert vecs == [vecs[0]] + rest;
    assert Flatten(pending) + Flatten(vecs) == Flatten(p) + Flatten(rest);
    if |p| != max {
      GatherMeans(data, script, p, rest, max);
    } else {
      SendVectorsMeans(data, script, p);
      var r := SendVectors(data, script, max, Flatten(p));
      if r.ok {
        GatherMeans(r.data, r.script, [], rest, max);
        hide Gather;
        FlattenNone();
        assert [] + Flatten(rest) == Flatten(rest);
        SentAfter(data, script, Flatten(p), r, Flatten(rest), Gather(r.data, r.script, [], rest, max));
      } else {
        SentLess(data, script, Flatten(p), r, Flatten(rest));
      }
    }
  }

  /** What write_wrapped makes of a buffer. */
  ghost function WriteWrapped(data: seq<byte>, script: seq<Outcome>, s: seq<byte>, col: nat, wrap: nat, max: nat): Sent
    requires wrap == 0 || col < wrap
  {
    if wrap == 0 then Send(data, script, s) else Gather(data, script, [], Vectors(s, col, wrap), max)
  }

  lemma WriteWrappedMeans(data: seq<byte>, script: seq<Outcome>, s: seq<byte>, col: nat, wrap: nat, max: nat)
    requires wrap == 0 || col < wrap
    ensures var text := if wrap == 0 then s else Wrapped(s, col, wrap);
            SentAs(data, script, text, WriteWrapped(data, script, s, col, wrap, max))
  {
    hide SentAs, Gather, Vectors;
    if wrap == 0 {
      SendMeans(data, script, s);
    } else {
      VectorsMean(s, col, wrap);
      GatherMeans(data, script, [], Vectors(s, col, wrap), max);
      FlattenNone();
      assert [] + Wrapped(s, col, wrap) == Wrapped(s, col, wrap);
    }
  }

  lemma NothingMore(data: seq<byte>, script: seq<Outcome>, pending: seq<seq<byte>>, col: nat, wrap: nat, max: nat)
    requires col < wrap
    ensures Gather(data, script, pending, Vectors([], col, wrap), max)
            == SendVectors(data, script, |pending|, Flatten(pending))
    ensures ColAfter(0, col, wrap) == col
  {
  }

  /** The column that write_wrapped keeps after `n` characters. */
  function NextColumn(n: nat, col: nat, wrap: nat): (c: nat)
    requires wrap == 0 || col < wrap
    ensures wrap == 0 || c < wrap
  {
    if wrap == 0 then 0 else ColAfter(n, col, wrap)
  }

  /** The state of write_wrapped: the column, and the vector buffer. */
  class Writer {
    const wrap: nat
    const iov: array<seq<byte>>
    const out: Output
    var col: nat

    ghost predicate Valid()
      reads this
    {
      iov.Length > 0 && (if wrap == 0 then col == 0 else col < wrap)
    }

    constructor (wrap: nat, iovMax: nat, out: Output)
      requires iovMax > 0
      ensures Valid() && this.wrap == wrap && this.out == out && col == 0 && fresh(iov) && iov.Length == iovMax
    {
      this.wrap := wrap;
      this.out := out;
      iov := new seq<byte>[iovMax](_ => []);
      col := 0;
    }

    /** iov_append: add a vector, and flush the buffer if it is full; `more` are the vectors to come. */
    method Append(nvec0: nat, data: seq<byte>, ghost more: seq<seq<byte>>) returns (ok: bool, nvec: nat)
      requires nvec0 < iov.Length
      modifies out, iov
      ensures ok ==> nvec < iov.Length
      ensures ok ==> Gather(out.data, out.script, iov[..nvec], more, iov.Length)
                     == old(Gather(out.data, out.script, iov[..nvec0], [data] + more, iov.Length))
      ensures !ok ==> Sent(out.data, out.script, false)
                      == old(Gather(out.data, out.script, iov[..nvec0], [data] + more, iov.Length))
      ensures ok ==> out.data + Flatten(iov[..nvec]) == old(out.data + Flatten(iov[..nvec0])) + data
    {
      hide SendSome, Flatten;
      ghost var before := iov[..nvec0];
      assert ([data] + more)[1..] == more;
      iov[nvec0] := data;
      nvec := nvec0 + 1;
      assert iov[..nvec] == before + [data];
      FlattenAppend(before, [data]);
      FlattenOne(data);
      if nvec == iov.Length {
        SendSomeMeans(out.data, out.script, Flatten(iov[..nvec]));
        assert iov[..nvec] == iov[..iov.Length];
        ok := WritevRetry(out, iov, iov.Length);
        nvec := 0;
        FlattenNone();
        assert iov[..0] == [];
        return;
      }
      ok := true;
    }

    /** What writing `s` next amounts to. */
    ghost function Text(s: seq<byte>): seq<byte>
      requires Valid()
      reads this
    {
      if wrap == 0 then s else Wrapped(s, col, wrap)
    }

    /** One turn of the loop of write_wrapped: a piece of a line, and the newline if it fills the line. */
    method WritePiece(nvec0: nat, piece: seq<byte>, ghost rest: seq<byte>) returns (ok: bool, nvec: nat)
      requires Valid() && wrap > 0 && nvec0 < iov.Length
      requires piece != [] && col + |piece| <= wrap && (col + |piece| < wrap ==> rest == [])
      modifies this`col, out, iov
      ensures ok ==> Valid() && nvec < iov.Length
      ensures ok ==> ColAfter(|rest|, col, wrap) == old(ColAfter(|piece + rest|, col, wrap))
      ensures ok ==> Gather(out.data, out.script, iov[..nvec], Vectors(rest, col, wrap), iov.Length)
                     == old(Gather(out.data, out.script, iov[..nvec0], Vectors(piece + rest, col, wrap), iov.Length))
      ensures !ok ==> Sent(out.data, out.script, false)
                      == old(Gather(out.data, out.script, iov[..nvec0], Vectors(piece + rest, col, wrap), iov.Length))
    {
      hide Gather, Vectors, ColAfter, Flatten;
      VectorsStep(piece, rest, col, wrap);
      ok, nvec := Append(nvec0, piece, AfterPiece(col + |piece|, rest, wrap));
      if !ok {
        return;
      }
      col := col + |piece|;
      if col == wrap {
        ok, nvec := Append(nvec, [NEWLINE], Vectors(rest, 0, wrap));
        if !ok {
          return;
        }
        col := 0;
      }
    }

    /** write_wrapped, with a buffer: every byte once and in order, and a newline after every full line. */
    method Write(buf: seq<byte>) returns (ok: bool)
      requires Valid()
      modifies this`col, out, iov
      ensures Sent(out.data, out.script, ok) == old(WriteWrapped(out.data, out.script, buf, col, wrap, iov.Length))
      ensures ok ==> Valid() && col == old(NextColumn(|buf|, col, wrap))
      ensures SentAs(old(out.data), old(out.script), old(Text(buf)), Sent(out.data, out.script, ok))
    {
      WriteWrappedMeans(out.data, out.script, buf, col, wrap, iov.Length);
      if wrap == 0 {
        ok := WriteStdout(out, buf);
        return;
      }
      hide Gather, Vectors, Wrapped, ColAfter, Flatten, SentAs;
      var nvec, done := 0, 0;
      var len := |buf|;
      assert iov[..0] == [] && buf[0..] == buf;
      while len > 0
        invariant 0 <= len && done + len == |buf| && 0 <= nvec < iov.Length && col < wrap
        invariant Gather(out.data, out.script, iov[..nvec], Vectors(buf[done..], col, wrap), iov.Length)
                  == old(Gather(out.data, out.script, [], Vectors(buf, col, wrap), iov.Length))
        invariant ColAfter(|buf[done..]|, col, wrap) == old(ColAfter(|buf|, col, wrap))
      {
        // A piece that does not go beyond the end of the line.
        var nwrite := wrap - col;
        if nwrite > len {
          nwrite := len;
        }
        assert buf[done..] == buf[done..done + nwrite] + buf[done + nwrite..];
        ok, nvec := WritePiece(nvec, buf[done..done + nwrite], buf[done + nwrite..]);
        if !ok {
          return;
        }
        len := len - nwrite;
        done := done + nwrite;
      }
      assert buf[done..] == [];
      NothingMore(out.data, out.script, iov[..nvec], col, wrap, iov.Length);
      ok := WritevRetry(out, iov, nvec);
    }

    /** write_wrapped, without a buffer: the final newline. */
    method Finish() returns (ok: bool)
      requires Valid()
      modifies out
      ensures Sent(out.data, out.script, ok) == old(Send(out.data, out.script, LastNewline(col, wrap)))
      ensures SentAs(old(out.data), old(out.script), LastNewline(col, wrap), Sent(out.data, out.script, ok))
    {
      SendMeans(out.data, out.script, LastNewline(col, wrap));
      if wrap > 0 && col > 0 {
        ok := WriteStdout(out, [NEWLINE]);
      } else {
        ok := true;
      }
    }
  }
}
