/** Output buffers, the stores made to them, and interleavings of stores by several threads. */
module Memory {
  import opened Tables

  /** One store: `data` at offset `off` of the output buffer. */
  datatype Write = Write(off: nat, data: seq<byte>)

  predicate Hits(w: Write, p: int) {
    w.off <= p < w.off + |w.data|
  }

  /** The stores lie in [lo, hi). */
  ghost predicate Within(log: seq<Write>, lo: int, hi: int) {
    forall i :: 0 <= i < |log| ==> lo <= log[i].off && log[i].off + |log[i].data| <= hi
  }

  /** Memory after one store, and after a sequence of them. */
  function Put(m: seq<byte>, w: Write): (r: seq<byte>)
    requires w.off + |w.data| <= |m|
    ensures |r| == |m|
    ensures forall p :: 0 <= p < |m| ==> r[p] == if Hits(w, p) then w.data[p - w.off] else m[p]
  {
    m[..w.off] + w.data + m[w.off + |w.data|..]
  }

  ghost function Replay(m: seq<byte>, log: seq<Write>): (r: seq<byte>)
    requires Within(log, 0, |m|)
    ensures |r| == |m|
    decreases |log|
  {
    if log == [] then m
    else
      var n := |log| - 1;
      assert log[n].off + |log[n].data| <= |m|;
      Put(Replay(m, log[..n]), log[n])
  }

  /** Some store of the log reaches position `p`. */
  ghost predicate Touches(log: seq<Write>, p: int) {
    exists i :: 0 <= i < |log| && Hits(log[i], p)
  }

  /** A position that no store reaches keeps its value. */
  lemma {:induction false} Untouched(m: seq<byte>, log: seq<Write>, p: int)
    requires Within(log, 0, |m|) && 0 <= p < |m| && !Touches(log, p)
    ensures Replay(m, log)[p] == m[p]
    decreases |log|
  {
    if log != [] {
      var n := |log| - 1;
      var log' := log[..n];
      assert !Hits(log[n], p);
      assert forall i :: 0 <= i < n ==> log'[i] == log[i];
      Untouched(m, log', p);
    }
  }

  // Stores of several threads, in any order that keeps each thread's own order.

  /** A store tagged with the thread that makes it. */
  datatype Step = Step(thread: nat, write: Write)

  ghost function Stores(t: seq<Step>): (log: seq<Write>)
    ensures |log| == |t| && forall k :: 0 <= k < |t| ==> log[k] == t[k].write
  {
    seq(|t|, k requires 0 <= k < |t| => t[k].write)
  }

  /** The stores of one thread, in order. */
  ghost function Projection(t: seq<Step>, i: nat): seq<Write>
    decreases |t|
  {
    if t == [] then []
    else
      var n := |t| - 1;
      Projection(t[..n], i) + if t[n].thread == i then [t[n].write] else []
  }

  /** `t` interleaves the given logs: it holds every store of every thread, each thread's in its own order. */
  ghost predicate Interleaves(t: seq<Step>, logs: seq<seq<Write>>) {
    && (forall k :: 0 <= k < |t| ==> t[k].thread < |logs|)
    && (forall i :: 0 <= i < |logs| ==> Projection(t, i) == logs[i])
  }

  /** Every store of a thread occurs in its projection. */
  lemma {:induction false} InProjection(t: seq<Step>, k: nat)
    requires k < |t|
    ensures t[k].write in Projection(t, t[k].thread)
    decreases |t|
  {
    var n := |t| - 1;
    if k < n {
      InProjection(t[..n], k);
    }
  }

  /** Where no other thread stores, the final contents are those that the thread's own stores leave. */
  lemma {:induction false} Isolated(m: seq<byte>, t: seq<Step>, i: nat, p: int)
    requires Within(Stores(t), 0, |m|) && 0 <= p < |m|
    requires forall k :: 0 <= k < |t| && t[k].thread != i ==> !Hits(t[k].write, p)
    ensures Within(Projection(t, i), 0, |m|)
    ensures Replay(m, Stores(t))[p] == Replay(m, Projection(t, i))[p]
    decreases |t|
  {
    if t == [] {
      return;
    }
    var n := |t| - 1;
    var t', w := t[..n], t[n].write;
    StoresMore(t);
    hide Replay, Stores, Put;
    Isolated(m, t', i, p);
    ReplayMore(m, Stores(t'), w);
    if t[n].thread == i {
      ReplayMore(m, Projection(t', i), w);
    } else {
      assert Projection(t, i) == Projection(t', i);
    }
  }

  lemma StoresMore(t: seq<Step>)
    requires t != []
    ensures var n := |t| - 1;
            Stores(t) == Stores(t[..n]) + [t[n].write]
    ensures forall lo, hi :: Within(Stores(t), lo, hi) ==>
              var n := |t| - 1;
              Within(Stores(t[..n]), lo, hi) && lo <= t[n].write.off && t[n].write.off + |t[n].write.data| <= hi
  {
  }

  /** `bounds` separates the ranges of the threads: thread `i` stores between bounds[i] and bounds[i + 1]. */
  ghost predicate Separated(logs: seq<seq<Write>>, bounds: seq<nat>, size: nat) {
    && |bounds| == |logs| + 1
    && (forall i, j :: 0 <= i <= j < |bounds| ==> bounds[i] <= bounds[j] <= size)
    && (forall i :: 0 <= i < |logs| ==> Within(logs[i], bounds[i], bounds[i + 1]))
  }

  /** A store of an interleaving lies in the range of the thread that makes it. */
  lemma StepInRange(t: seq<Step>, logs: seq<seq<Write>>, bounds: seq<nat>, size: nat, k: nat)
    requires Interleaves(t, logs) && Separated(logs, bounds, size) && k < |t|
    ensures var i := t[k].thread;
            bounds[i] <= t[k].write.off && t[k].write.off + |t[k].write.data| <= bounds[i + 1]
  {
    InProjection(t, k);
    var i := t[k].thread;
    assert Projection(t, i) == logs[i] && Within(logs[i], bounds[i], bounds[i + 1]);
    var n :| 0 <= n < |logs[i]| && logs[i][n] == t[k].write;
  }

  lemma InterleavingWithin(t: seq<Step>, logs: seq<seq<Write>>, bounds: seq<nat>, size: nat)
    requires Interleaves(t, logs) && Separated(logs, bounds, size)
    ensures Within(Stores(t), 0, size)
  {
    forall k | 0 <= k < |t|
      ensures t[k].write.off + |t[k].write.data| <= size
    {
      StepInRange(t, logs, bounds, size, k);
    }
  }

  lemma RangesApart(bounds: seq<nat>, i: nat, j: nat, p: int)
    requires i + 1 < |bounds| && j + 1 < |bounds| && i != j
    requires forall a, b :: 0 <= a <= b < |bounds| ==> bounds[a] <= bounds[b]
    requires bounds[i] <= p < bounds[i + 1]
    ensures !(bounds[j] <= p < bounds[j + 1])
  {
  }

  /** One position after an interleaving: its owner's stores decide, and without an owner nothing changes. */
  lemma FinalValue(m: seq<byte>, t: seq<Step>, logs: seq<seq<Write>>, bounds: seq<nat>, p: int)
    requires Interleaves(t, logs) && Separated(logs, bounds, |m|) && 0 <= p < |m|
    ensures Within(Stores(t), 0, |m|)
    ensures forall i :: 0 <= i < |logs| && bounds[i] <= p < bounds[i + 1] ==>
              Within(logs[i], 0, |m|) && Replay(m, Stores(t))[p] == Replay(m, logs[i])[p]
    ensures (forall i :: 0 <= i < |logs| ==> !(bounds[i] <= p < bounds[i + 1])) ==> Replay(m, Stores(t))[p] == m[p]
  {
    hide Replay;
    InterleavingWithin(t, logs, bounds, |m|);
    forall i | 0 <= i < |logs| && bounds[i] <= p < bounds[i + 1]
      ensures Within(logs[i], 0, |m|) && Replay(m, Stores(t))[p] == Replay(m, logs[i])[p]
    {
      forall k | 0 <= k < |t| && t[k].thread != i
        ensures !Hits(t[k].write, p)
      {
        StepInRange(t, logs, bounds, |m|, k);
        RangesApart(bounds, i, t[k].thread, p);
      }
      Isolated(m, t, i, p);
    }
    if forall i :: 0 <= i < |logs| ==> !(bounds[i] <= p < bounds[i + 1]) {
      forall k | 0 <= k < |t|
        ensures !Hits(t[k].write, p)
      {
        StepInRange(t, logs, bounds, |m|, k);
      }
      assert !Touches(Stores(t), p);
      Untouched(m, Stores(t), p);
    }
  }

  /** Threads whose ranges do not overlap leave the same memory behind under every schedule. */
  lemma ScheduleIndependent(m: seq<byte>, t1: seq<Step>, t2: seq<Step>, logs: seq<seq<Write>>, bounds: seq<nat>)
    requires Interleaves(t1, logs) && Interleaves(t2, logs) && Separated(logs, bounds, |m|)
    ensures Within(Stores(t1), 0, |m|) && Within(Stores(t2), 0, |m|)
    ensures Replay(m, Stores(t1)) == Replay(m, Stores(t2))
  {
    hide Replay;
    InterleavingWithin(t1, logs, bounds, |m|);
    InterleavingWithin(t2, logs, bounds, |m|);
    var a, b := Replay(m, Stores(t1)), Replay(m, Stores(t2));
    forall p | 0 <= p < |m|
      ensures a[p] == b[p]
    {
      FinalValue(m, t1, logs, bounds, p);
      FinalValue(m, t2, logs, bounds, p);
    }
  }

  // The schedule that runs the threads one after the other.

  ghost function Tagged(i: nat, log: seq<Write>): (t: seq<Step>)
    ensures |t| == |log| && forall k :: 0 <= k < |t| ==> t[k] == Step(i, log[k])
  {
    seq(|log|, k requires 0 <= k < |log| => Step(i, log[k]))
  }

  lemma {:induction false} ProjectTagged(t: seq<Step>, i: nat, log: seq<Write>, j: nat)
    ensures Projection(t + Tagged(i, log), j) == Projection(t, j) + if i == j then log else []
    decreases |log|
  {
    var u := t + Tagged(i, log);
    if log == [] {
      assert u == t;
    } else {
      var n := |log| - 1;
      assert u[..|u| - 1] == t + Tagged(i, log[..n]);
      ProjectTagged(t, i, log[..n], j);
      assert log == log[..n] + [log[n]];
    }
  }

  /** One more thread after all the others. */
  lemma RunNext(t: seq<Step>, logs: seq<seq<Write>>, log: seq<Write>)
    requires Interleaves(t, logs)
    ensures Interleaves(t + Tagged(|logs|, log), logs + [log])
    ensures Stores(t + Tagged(|logs|, log)) == Stores(t) + log
  {
    var n := |logs|;
    var u := t + Tagged(n, log);
    forall i | 0 <= i <= n
      ensures Projection(u, i) == (logs + [log])[i]
    {
      ProjectTagged(t, n, log, i);
      if i == n {
        NoSteps(t, n);
      }
    }
  }

  lemma {:induction false} NoSteps(t: seq<Step>, i: nat)
    requires forall k :: 0 <= k < |t| ==> t[k].thread != i
    ensures Projection(t, i) == []
    decreases |t|
  {
    if t != [] {
      NoSteps(t[..|t| - 1], i);
    }
  }

  lemma {:induction false} ReplayAppend(m: seq<byte>, a: seq<Write>, b: seq<Write>)
    requires Within(a, 0, |m|) && Within(b, 0, |m|)
    ensures Within(a + b, 0, |m|)
    ensures Replay(m, a + b) == Replay(Replay(m, a), b)
    decreases |b|
  {
    if b == [] {
      assert a + b == a;
      return;
    }
    var n := |b| - 1;
    var b', w := b[..n], b[n];
    assert a + b == (a + b') + [w] && b == b' + [w];
    hide Replay, Put;
    ReplayAppend(m, a, b');
    ReplayMore(m, a + b', w);
    ReplayMore(Replay(m, a), b', w);
  }

  /** memcpy, and the unaligned vector stores. */
  method Memcpy(out: array<byte>, o: nat, data: seq<byte>)
    requires o + |data| <= out.Length
    modifies out
    ensures out[..] == Put(old(out[..]), Write(o, data))
  {
    for i := 0 to |data|
      invariant forall p :: 0 <= p < out.Length ==>
                  out[p] == if o <= p < o + i then data[p - o] else old(out[p])
    {
      out[o + i] := data[i];
    }
  }

  lemma TouchesMore(log: seq<Write>, w: Write, p: int)
    ensures Touches(log + [w], p) <==> Touches(log, p) || Hits(w, p)
  {
    var log' := log + [w];
    assert forall i :: 0 <= i < |log| ==> log'[i] == log[i];
    assert log'[|log|] == w;
    if Touches(log, p) {
      var i :| 0 <= i < |log| && Hits(log[i], p);
      assert Hits(log'[i], p);
    }
  }

  lemma ReplayMore(m: seq<byte>, log: seq<Write>, w: Write)
    requires Within(log, 0, |m|) && w.off + |w.data| <= |m|
    ensures Within(log + [w], 0, |m|)
    ensures Replay(m, log + [w]) == Put(Replay(m, log), w)
  {
  }

  function Max(a: int, b: int): int {
    if a > b then a else b
  }

  /** Where a codec stands: the next position to read, the next to write, and every store so far. */
  datatype Trace = Trace(s: nat, pos: nat, log: seq<Write>)

  /** Consecutive stores of `w` bytes each, the last one of what is left. */
  function Pieces(pos: nat, data: seq<byte>, w: nat): seq<Write>
    requires w > 0
    decreases |data|
  {
    if data == [] then []
    else if |data| <= w then [Write(pos, data)]
    else [Write(pos, data[..w])] + Pieces(pos + w, data[w..], w)
  }

  /** One load of `len` bytes. */
  datatype Read = Read(off: nat, len: nat)

  /** The source of an encoder call, which records the loads that are made from it. */
  class Source {
    const data: seq<byte>
    ghost var loads: seq<Read>

    constructor (src: seq<byte>)
      ensures data == src && loads == []
    {
      data, loads := src, [];
    }

    /** An unaligned load. */
    method Load(at: nat, len: nat) returns (v: seq<byte>)
      requires at + len <= |data|
      modifies this
      ensures v == data[at..at + len] && loads == old(loads) + [Read(at, len)]
    {
      v, loads := data[at..at + len], loads + [Read(at, len)];
    }
  }

  /** What an output pointer records about the buffer contents `m`. */
  ghost predicate Records(initial: seq<byte>, m: seq<byte>, log: seq<Write>, base: nat, pos: nat, top: nat,
                          written: seq<byte>) {
    && base <= pos <= top <= |m| == |initial|
    && Within(log, base, top)
    && m == Replay(initial, log)
    && m[base..pos] == written
    && (forall p :: base <= p < pos ==> Touches(log, p))
  }

  lemma WrittenMore(m: seq<byte>, base: nat, pos: nat, written: seq<byte>, data: seq<byte>, advance: nat)
    requires base <= pos && pos + |data| <= |m| && m[base..pos] == written && advance <= |data|
    ensures Put(m, Write(pos, data))[base..pos + advance] == written + data[..advance]
  {
  }

  lemma TouchedMore(log: seq<Write>, base: nat, pos: nat, data: seq<byte>, advance: nat)
    requires base <= pos && advance <= |data|
    requires forall p :: base <= p < pos ==> Touches(log, p)
    ensures forall p :: base <= p < pos + advance ==> Touches(log + [Write(pos, data)], p)
  {
    forall p | base <= p < pos + advance
      ensures Touches(log + [Write(pos, data)], p)
    {
      TouchesMore(log, Write(pos, data), p);
    }
  }

  lemma WithinMore(log: seq<Write>, w: Write, lo: nat, hi: nat, hi': nat, size: nat)
    requires Within(log, lo, hi) && lo <= w.off && w.off + |w.data| <= hi' && hi <= hi' <= size
    ensures Within(log + [w], lo, hi') && Within(log, 0, size)
  {
  }

  lemma RecordsMore(initial: seq<byte>, m: seq<byte>, log: seq<Write>, base: nat, pos: nat, top: nat,
                    written: seq<byte>, data: seq<byte>, advance: nat)
    requires Records(initial, m, log, base, pos, top, written)
    requires advance <= |data| && pos + |data| <= |m|
    ensures var w := Write(pos, data);
            var top' := if pos + |data| > top then pos + |data| else top;
            Records(initial, Put(m, w), log + [w], base, pos + advance, top', written + data[..advance])
  {
    hide Put, Replay, Touches, Within;
    var w := Write(pos, data);
    WithinMore(log, w, base, top, if pos + |data| > top then pos + |data| else top, |m|);
    ReplayMore(initial, log, w);
    WrittenMore(m, base, pos, written, data, advance);
    TouchedMore(log, base, pos, data, advance);
  }

  /**
   * The output pointer of a codec call: `*o++ = b` and wider stores through it.
   * `pos` is the pointer; the ghost fields record what has been written since `base`,
   * every store made, and the end of the furthest one.
   */
  class OutPtr {
    const buf: array<byte>
    const base: nat
    var pos: nat
    ghost const initial: seq<byte>
    ghost var written: seq<byte>
    ghost var log: seq<Write>
    ghost var top: nat

    ghost predicate Valid()
      reads this, buf
    {
      Records(initial, buf[..], log, base, pos, top, written)
    }

    constructor (out: array<byte>, o: nat)
      requires o <= out.Length
      ensures Valid() && buf == out && base == pos == top == o
      ensures written == [] && log == [] && initial == out[..]
    {
      buf := out;
      base := o;
      pos := o;
      initial := out[..];
      written := [];
      log := [];
      top := o;
    }

    /** Store a block at the pointer, then advance it past the part that is meant to stay. */
    method Store(data: seq<byte>, advance: nat)
      requires Valid()
      requires advance <= |data| && pos + |data| <= buf.Length
      modifies this, buf
      ensures Valid()
      ensures pos == old(pos) + advance
      ensures written == old(written) + data[..advance]
      ensures log == old(log) + [Write(old(pos), data)]
      ensures top == if old(pos) + |data| > old(top) then old(pos) + |data| else old(top)
    {
      hide Put, Replay, Touches, Within;
      RecordsMore(initial, buf[..], log, base, pos, top, written, data, advance);
      Memcpy(buf, pos, data);
      log := log + [Write(pos, data)];
      top := if pos + |data| > top then pos + |data| else top;
      written := written + data[..advance];
      pos := pos + advance;
    }
  }

  /** Stores one behind the other through the same pointer. */
  method StorePieces(o: OutPtr, data: seq<byte>, w: nat)
    requires o.Valid() && w > 0 && o.pos + |data| <= o.buf.Length
    modifies o, o.buf
    ensures o.Valid() && o.pos == old(o.pos) + |data| && o.written == old(o.written) + data
    ensures o.log == old(o.log) + Pieces(old(o.pos), data, w)
    ensures old(o.top) <= o.top <= Max(old(o.top), o.pos) && (old(o.top == o.pos) ==> o.top == o.pos)
  {
    hide Records, Pieces;
    var rest := data;
    assert o.written + rest == old(o.written) + data;
    while rest != []
      invariant o.Valid() && o.pos + |rest| == old(o.pos) + |data|
      invariant o.written + rest == old(o.written) + data
      invariant o.log + Pieces(o.pos, rest, w) == old(o.log) + Pieces(old(o.pos), data, w)
      invariant old(o.top) <= o.top <= Max(old(o.top), o.pos) && (old(o.top == o.pos) ==> o.top == o.pos)
      decreases |rest|
    {
      var n := if |rest| <= w then |rest| else w;
      assert rest == rest[..n] + rest[n..] && rest[..n][..n] == rest[..n];
      FirstPiece(o.pos, rest, w, n);
      o.Store(rest[..n], n);
      rest := rest[n..];
    }
    NoPieces(o.pos, w);
  }

  lemma FirstPiece(pos: nat, data: seq<byte>, w: nat, n: nat)
    requires data != [] && 0 < n <= w && n == (if |data| <= w then |data| else w)
    ensures Pieces(pos, data, w) == [Write(pos, data[..n])] + Pieces(pos + n, data[n..], w)
  {
    assert |data| <= w ==> data[..n] == data && data[n..] == [];
  }

  lemma NoPieces(pos: nat, w: nat)
    requires w > 0
    ensures Pieces(pos, [], w) == []
  {
  }
}
