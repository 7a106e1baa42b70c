/** The software-pipelined SSSE3 encoder written in inline assembly. */
module EncodeAsm {
  import opened Tables
  import opened Rfc4648
  import opened Simd
  import opened EncodeBlocks
  import opened EncodeLoops
  import opened Memory

  /** The six temporary registers. */
  datatype Reg = A | B | C | D | E | F

  // What the macros leave in the registers they are given.

  function SplitByte(v: Vec, i: nat): byte
    requires |v| == 16 && i < 16
  {
    BytesOf(SplitLane(LaneOf(Shuffle(v, SPLIT), i / 4)))[i % 4]
  }

  function SplitLowByte(v: Vec, i: nat): byte
    requires |v| == 16 && i < 16
  {
    BytesOf(SplitLow(LaneOf(Shuffle(v, SPLIT), i / 4)))[i % 4]
  }

  /** SHUF: the split values in R0, the pmullw result in R1. */
  function ShufR0(v: Vec): (r: Vec)
    requires |v| == 16
    ensures |r| == 16
  {
    seq(16, i requires 0 <= i < 16 => SplitByte(v, i))
  }

  function ShufR1(v: Vec): (r: Vec)
    requires |v| == 16
    ensures |r| == 16
  {
    seq(16, i requires 0 <= i < 16 => SplitLowByte(v, i))
  }

  /** TRAN: the characters in R0, the table indices in R1, the offsets in R2. */
  function TranR0(v: Vec): (r: Vec)
    requires |v| == 16
    ensures |r| == 16
  {
    seq(16, i requires 0 <= i < 16 => EncTranslate(v[i]))
  }

  function TranR1(v: Vec): (r: Vec)
    requires |v| == 16
    ensures |r| == 16
  {
    seq(16, i requires 0 <= i < 16 => EncIndex(v[i]))
  }

  function EncOffset(v: byte): byte {
    LookupByte(ENC_OFFSETS, EncIndex(v))
  }

  function TranR2(v: Vec): (r: Vec)
    requires |v| == 16
    ensures |r| == 16
  {
    seq(16, i requires 0 <= i < 16 => EncOffset(v[i]))
  }

  /** SHUF and then TRAN compute the register that the plain loop stores. */
  lemma MacrosEncode(v: Vec)
    requires |v| == 16
    ensures TranR0(ShufR0(v)) == RoundSsse3(v)
  {
    hide EncTranslate, SplitLane, Shuffle;
    forall i | 0 <= i < 16
      ensures TranR0(ShufR0(v))[i] == RoundSsse3(v)[i]
    {
      assert i % 4 == 0 || i % 4 == 1 || i % 4 == 2 || i % 4 == 3;
    }
  }

  function BlockAt(src: seq<byte>, p: nat): (v: Vec)
    requires p + 16 <= |src|
    ensures |v| == 16
  {
    src[p..p + 16]
  }

  /** The two register assignments for which the round macros are expanded: type A and type B. */
  ghost predicate Assigned(a: Reg, b: Reg, c: Reg, d: Reg, e: Reg, f: Reg) {
    || (a == A && b == B && c == C && d == D && e == E && f == F)
    || (a == D && b == E && c == F && d == A && e == B && f == C)
  }

  /** The pointers, the output and its extent when the loop was entered. */
  datatype Start = Start(s: nat, dst: nat, mark: seq<byte>, top: nat)

  class Machine {
    const input: Source
    const src: seq<byte>
    const out: OutPtr
    var reg: map<Reg, Vec>
    /** %[src] and %[dst] */
    var s: nat
    var dst: nat
    /** Blocks stored, and the output at hand, since the two pointers were last advanced. */
    ghost var stored: nat
    ghost var mark: seq<byte>
    /** Where the loop began, and the blocks stored and loaded since. */
    ghost const origin: Trace
    ghost var done: nat
    ghost var loaded: nat

    /** The stores are those of `done` rounds of the plain loop in order, the loads those of `loaded` rounds. */
    ghost predicate Traced()
      reads this`s, this`stored, this`done, this`loaded, input, out`pos, out`log
    {
      && src == input.data
      && s + 12 * stored == origin.s + 12 * done
      && Trace(s + 12 * stored, out.pos, out.log) == RoundsTrace(src, origin, 12, 16, done)
      && input.loads == Loads(origin.s, 12, 16, loaded)
    }

    ghost predicate Valid()
      reads this, input, out, out.buf
    {
      && Traced()
      && out.Valid()
      && (forall r: Reg :: r in reg && |reg[r]| == 16)
      && out.pos == dst + 16 * stored
      && Advanced(src, s, s + 12 * stored, mark, out.written)
    }

    /** Entering the assembly: the registers hold anything. */
    constructor (source: Source, s0: nat, o: OutPtr, garbage: map<Reg, Vec>)
      requires o.Valid() && s0 <= |source.data| && source.loads == []
      requires forall r: Reg :: r in garbage && |garbage[r]| == 16
      ensures Valid() && input == source && src == source.data && s == s0 && out == o && dst == o.pos
      ensures stored == 0 && mark == o.written && origin == Trace(s0, o.pos, o.log) && done == loaded == 0
    {
      AdvancedNothing(source.data, s0, o.written);
      input, src, s, out, dst, reg := source, source.data, s0, o, o.pos, garbage;
      stored, mark, origin, done, loaded := 0, o.written, Trace(s0, o.pos, o.log), 0, 0;
    }

    /** The block that round `k` loads. */
    ghost function Block(k: nat): (v: Vec)
      requires s + 12 * k + 16 <= |src|
      reads this`s
      ensures |v| == 16
    {
      BlockAt(src, s + 12 * k)
    }

    /** LOAD: the next block that has not been loaded yet. */
    method Load(r0: Reg, k: nat)
      requires Valid() && s + 12 * k + 16 <= |src| && k + done == stored + loaded
      modifies this`reg, this`loaded, input
      ensures Valid() && reg == old(reg)[r0 := Block(k)] && loaded == old(loaded) + 1
    {
      hide Records, Advanced, RoundsTrace, Loads;
      LoadsMore(origin.s, loaded);
      var v := input.Load(s + 12 * k, 16);
      reg := reg[r0 := v];
      loaded := loaded + 1;
    }

    method Shuf(r0: Reg, r1: Reg)
      requires Valid() && r0 != r1
      modifies this`reg
      ensures Valid() && reg == old(reg)[r0 := ShufR0(old(reg)[r0])][r1 := ShufR1(old(reg)[r0])]
    {
      hide Records, Advanced, Traced;
      var v := reg[r0];
      reg := reg[r0 := ShufR0(v)][r1 := ShufR1(v)];
    }

    method Tran(r0: Reg, r1: Reg, r2: Reg)
      requires Valid() && r0 != r1 && r0 != r2 && r1 != r2
      modifies this`reg
      ensures Valid()
      ensures reg == old(reg)[r0 := TranR0(old(reg)[r0])][r1 := TranR1(old(reg)[r0])][r2 := TranR2(old(reg)[r0])]
    {
      hide Records, Advanced, Traced;
      var v := reg[r0];
      reg := reg[r0 := TranR0(v)][r1 := TranR1(v)][r2 := TranR2(v)];
    }

    method Stor(r0: Reg, k: nat)
      requires Valid() && s + 12 * k + 16 <= |src| && dst + 16 * k + 16 <= out.buf.Length
      requires k == stored && reg[r0] == RoundSsse3(Block(k))
      modifies this`stored, this`done, out, out.buf
      ensures Valid() && stored == old(stored) + 1 && done == old(done) + 1
      ensures old(out.top) <= out.top <= Max(old(out.top), out.pos)
    {
      hide Records, Advanced, RoundSsse3, BlockAt, RoundsTrace, AfterBlock, Loads;
      RoundsMore(src, origin, 12, 16, done);
      ghost var v := Block(k);
      StoredBlock(src, s + 12 * k, out.written, out.written + reg[r0]);
      AdvancedTransitive(src, s, s + 12 * k, s + 12 * k + 12, mark, out.written, out.written + reg[r0]);
      assert reg[r0][..16] == reg[r0];
      out.Store(reg[r0], 16);
      stored := stored + 1;
      done := done + 1;
    }

    /** `a` holds the finished block `k`; `b` and `c` hold the two blocks after it, as loaded. */
    ghost predicate Holds(k: nat, a: Reg, b: Reg, c: Reg)
      requires s + 12 * (k + 2) + 16 <= |src|
      reads this`s, this`reg
    {
      && a in reg && b in reg && c in reg
      && reg[a] == RoundSsse3(Block(k))
      && reg[b] == Block(k + 1)
      && reg[c] == Block(k + 2)
    }

    method Round3Init()
      requires Valid() && stored == 0 && s + 12 * 2 + 16 <= |src| && loaded == done
      modifies this`reg, this`loaded, input
      ensures Valid() && Holds(0, A, B, C) && loaded == done + 3
    {
      hide Records, Advanced, RoundSsse3, BlockAt, ShufR0, ShufR1, TranR0, TranR1, TranR2, Traced;
      Load(A, 0);
      Shuf(A, D);
      Load(B, 1);
      Tran(A, D, E);
      Load(C, 2);
      MacrosEncode(Block(0));
    }

    /** Register `x` is none of the four that a step uses. */
    ghost predicate Apart(x: Reg, r0: Reg, r1: Reg, r2: Reg) {
      x != r0 && x != r1 && x != r2
    }

    /** SHUF(next, t1) STOR(ready, k) TRAN(next, t1, t2): store one block and finish the next. */
    method Finish(k: nat, ready: Reg, next: Reg, t1: Reg, t2: Reg)
      requires Valid() && stored == k && next != t1 && next != t2 && t1 != t2 && Apart(ready, next, t1, next)
      requires s + 12 * (k + 1) + 16 <= |src| && dst + 16 * (k + 1) <= out.buf.Length
      requires reg[ready] == RoundSsse3(Block(k)) && reg[next] == Block(k + 1)
      modifies this`reg, this`stored, this`done, out, out.buf
      ensures Valid() && stored == k + 1 && done == old(done) + 1 && reg[next] == RoundSsse3(Block(k + 1))
      ensures forall x: Reg :: Apart(x, next, t1, t2) ==> reg[x] == old(reg[x])
      ensures old(out.top) <= out.top <= Max(old(out.top), out.pos)
    {
      hide Records, Advanced, RoundSsse3, BlockAt, ShufR0, ShufR1, TranR0, TranR1, TranR2, Traced;
      MacrosEncode(Block(k + 1));
      Shuf(next, t1);
      Stor(ready, k);
      Tran(next, t1, t2);
    }

    /** A third of ROUND_3: the same, with block k + 3 loaded first. */
    method Third(k: nat, ready: Reg, next: Reg, load: Reg, t1: Reg, t2: Reg)
      requires Valid() && stored == k && loaded == done + 3
      requires next != t1 && next != t2 && t1 != t2 && Apart(ready, next, t1, load) && Apart(load, next, t1, t2)
      requires s + 12 * (k + 3) + 16 <= |src| && dst + 16 * (k + 1) <= out.buf.Length
      requires reg[ready] == RoundSsse3(Block(k)) && reg[next] == Block(k + 1)
      modifies this`reg, this`stored, this`done, this`loaded, input, out, out.buf
      ensures done == old(done) + 1 && loaded == done + 3
      ensures Valid() && stored == k + 1 && reg[next] == RoundSsse3(Block(k + 1)) && reg[load] == Block(k + 3)
      ensures forall x: Reg :: Apart(x, next, t1, t2) && x != load ==> reg[x] == old(reg[x])
      ensures old(out.top) <= out.top <= Max(old(out.top), out.pos)
    {
      hide Records, Advanced, RoundSsse3, BlockAt, Traced;
      Load(load, k + 3);
      Finish(k, ready, next, t1, t2);
    }

    /** ROUND_3: store three blocks, preload and begin the next three. */
    method Round3(k: nat, a: Reg, b: Reg, c: Reg, d: Reg, e: Reg, f: Reg)
      requires Valid() && Assigned(a, b, c, d, e, f) && stored == k && loaded == done + 3
      requires s + 12 * (k + 5) + 16 <= |src| && dst + 16 * (k + 3) <= out.buf.Length
      requires Holds(k, a, b, c)
      modifies this`reg, this`stored, this`done, this`loaded, input, out, out.buf
      ensures done == old(done) + 3 && loaded == done + 3
      ensures Valid() && stored == k + 3 && Holds(k + 3, d, e, f)
      ensures old(out.top) <= out.top <= Max(old(out.top), out.pos)
    {
      hide Records, Advanced, RoundSsse3, BlockAt, Traced;
      Third(k, a, b, d, e, f);
      Third(k + 1, b, c, e, a, f);
      Third(k + 2, c, d, f, a, b);
    }

    /** ROUND_3_END: finish and store the three blocks in flight. */
    method Round3End(k: nat, a: Reg, b: Reg, c: Reg, d: Reg, e: Reg, f: Reg)
      requires Valid() && Assigned(a, b, c, d, e, f) && stored == k + 3
      requires s + 12 * (k + 5) + 16 <= |src| && dst + 16 * (k + 6) <= out.buf.Length
      requires Holds(k + 3, d, e, f)
      modifies this`reg, this`stored, this`done, out, out.buf
      ensures Valid() && stored == k + 6 && done == old(done) + 3
      ensures old(out.top) <= out.top <= Max(old(out.top), out.pos)
    {
      hide Records, Advanced, RoundSsse3, BlockAt, Traced;
      Finish(k + 3, d, e, a, b);
      Finish(k + 4, e, f, c, d);
      Stor(f, k + 5);
    }

    /** The two additions to %[src] and %[dst]. */
    method Advance(n: nat)
      requires Valid() && stored == n
      modifies this`s, this`dst, this`stored, this`mark
      ensures Valid() && stored == 0 && s == old(s) + 12 * n && dst == old(dst) + 16 * n && mark == out.written
    {
      hide Records;
      s, dst := s + 12 * n, dst + 16 * n;
      AdvancedNothing(src, s, out.written);
      stored, mark := 0, out.written;
    }

    /** `m` daisy-chained ROUND_3, of alternating type. */
    method DaisyChain(m: nat)
      requires Valid() && stored == 0 && m > 0 && loaded == done
      requires s + 12 * (3 * m + 3) + 4 <= |src| && dst + 16 * (3 * m) <= out.buf.Length
      modifies this`reg, this`stored, this`done, this`loaded, input, out, out.buf
      ensures Valid() && stored == 3 * m && done == old(done) + 3 * m && loaded == done + 3
      ensures if m % 2 == 0 then Holds(3 * m, A, B, C) else Holds(3 * m, D, E, F)
      ensures old(out.top) <= out.top <= Max(old(out.top), out.pos)
    {
      hide Records, Advanced, RoundSsse3, BlockAt, Holds, Traced;
      Round3Init();
      for i := 0 to m
        invariant Valid() && stored == 3 * i && done == old(done) + 3 * i && loaded == done + 3
        invariant if i % 2 == 0 then Holds(3 * i, A, B, C) else Holds(3 * i, D, E, F)
        invariant old(out.top) <= out.top <= Max(old(out.top), out.pos)
      {
        if i % 2 == 0 {
          Round3(3 * i, A, B, C, D, E, F);
        } else {
          Round3(3 * i, D, E, F, A, B, C);
        }
      }
    }

    /** An unrolled block: the chain, the macro that terminates its last round, and the new pointers. */
    method Chain(m: nat)
      requires Valid() && stored == 0 && m > 0 && loaded == done
      requires Fits(3 * m + 3)
      modifies this`reg, this`s, this`dst, this`stored, this`mark, this`done, this`loaded, input, out, out.buf
      ensures Valid() && stored == 0 && done == loaded == old(done) + (3 * m + 3)
      ensures s == old(s) + 12 * (3 * m + 3) && dst == old(dst) + 16 * (3 * m + 3)
      ensures Advanced(src, old(s), s, old(mark), mark) && mark == out.written
      ensures old(out.top) <= out.top <= Max(old(out.top), out.pos)
    {
      hide Records, Advanced, RoundSsse3, BlockAt, Holds, Traced;
      DaisyChain(m);
      if m % 2 == 1 {
        Round3End(3 * m - 3, A, B, C, D, E, F);
      } else {
        Round3End(3 * m - 3, D, E, F, A, B, C);
      }
      Advance(3 * m + 3);
    }

    /** What `n` more rounds from the current pointers find: room to load and to store. */
    ghost predicate Fits(n: nat)
      reads this`s, this`dst
    {
      s + 12 * n + 4 <= |src| && dst + 16 * n <= out.buf.Length
    }

    /** All but `left` of `total` rounds are done since the start. */
    ghost predicate Progress(start: Start, total: nat, left: int)
      reads this, input, out, out.buf
    {
      && Valid() && stored == 0 && done == loaded == total - left && 0 <= left <= total && Fits(left)
      && s == start.s + 12 * (total - left) && dst == start.dst + 16 * (total - left)
      && Advanced(src, start.s, s, start.mark, mark) && mark == out.written
      && start.top <= out.top <= Max(start.top, out.pos)
    }

    /** An unrolled block as a step of the whole loop. */
    method Chained(m: nat, ghost start: Start, ghost total: nat, ghost left: nat)
      requires Progress(start, total, left) && m > 0 && 3 * m + 3 <= left
      modifies this`reg, this`s, this`dst, this`stored, this`mark, this`done, this`loaded, input, out, out.buf
      ensures Progress(start, total, left - (3 * m + 3))
    {
      hide Records, Advanced, Traced;
      Chain(m);
      AdvancedTransitive(src, start.s, old(s), s, start.mark, old(mark), mark);
    }

    /** A single round as a step of the whole loop. */
    method Single(ghost start: Start, ghost total: nat, ghost left: nat)
      requires Progress(start, total, left) && 1 <= left
      modifies this`reg, this`s, this`dst, this`stored, this`mark, this`done, this`loaded, input, out, out.buf
      ensures Progress(start, total, left - 1)
    {
      hide Records, Advanced, Traced;
      Round();
      AdvancedTransitive(src, start.s, old(s), s, start.mark, old(mark), mark);
    }

    /** The control flow around the unrolled blocks. */
    method Dispatch(loops0: nat, rounds0: nat, ghost start: Start, ghost total: nat)
      requires total == 36 * loops0 + rounds0 && rounds0 < 36 && Progress(start, total, total)
      modifies this`reg, this`s, this`dst, this`stored, this`mark, this`done, this`loaded, input, out, out.buf
      ensures Progress(start, total, 0)
    {
      hide Records, Progress, Traced;
      var loops, rounds := loops0, rounds0;
      while loops > 0
        invariant Progress(start, total, 36 * loops + rounds)
        decreases loops
      {
        Chained(11, start, total, 36 * loops + rounds);
        loops := loops - 1;
      }
      if rounds >= 18 {
        Chained(5, start, total, rounds);
        rounds := rounds - 18;
      }
      if rounds >= 9 {
        Chained(2, start, total, rounds);
        rounds := rounds - 9;
      }
      if rounds >= 6 {
        Chained(1, start, total, rounds);
        rounds := rounds - 6;
      }
      // The jump table, and the fall-through from the label it selects.
      var entry :=
        if rounds > 3 then (if rounds == 4 then 4 else 5)
        else if rounds == 3 then 3
        else if rounds > 1 then 2
        else if rounds == 1 then 1
        else 0;
      while entry > 0
        invariant Progress(start, total, entry)
        decreases entry
      {
        Single(start, total, entry);
        entry := entry - 1;
      }
    }

    /** ROUND: one self-contained round. */
    method Round()
      requires Valid() && stored == 0 && loaded == done && s + 16 <= |src| && dst + 16 <= out.buf.Length
      modifies this`reg, this`s, this`dst, this`stored, this`mark, this`done, this`loaded, input, out, out.buf
      ensures done == loaded == old(done) + 1
      ensures Valid() && stored == 0 && s == old(s) + 12 && dst == old(dst) + 16
      ensures Advanced(src, old(s), s, old(mark), mark) && mark == out.written
      ensures old(out.top) <= out.top <= Max(old(out.top), out.pos)
    {
      hide Records, RoundSsse3, BlockAt, ShufR0, ShufR1, TranR0, TranR1, TranR2, Traced;
      MacrosEncode(Block(0));
      Load(A, 0);
      Shuf(A, B);
      Tran(A, B, C);
      Stor(A, 0);
      Advance(1);
    }
  }

  lemma StoredBlock(src: seq<byte>, s: nat, w0: seq<byte>, w: seq<byte>)
    requires s + 16 <= |src| && w == w0 + RoundSsse3(BlockAt(src, s))
    ensures Advanced(src, s, s + 12, w0, w)
    ensures forall pos: nat, log: seq<Write> ::
              AfterBlock(src, Trace(s, pos, log), 12, 16)
              == Trace(s + 12, pos + 16, log + [Write(pos, RoundSsse3(BlockAt(src, s)))])
  {
    hide RoundSsse3, Encode;
    EncodeLength(src[s..s + 12]);
    RoundSsse3Encodes(src[s..s + 16]);
    assert src[s..s + 16][..12] == src[s..s + 12];
  }

  lemma {:induction false} RoundsMore(src: seq<byte>, t: Trace, m: nat, w: nat, n: nat)
    requires w > 0
    ensures RoundsTrace(src, t, m, w, n + 1) == AfterBlock(src, RoundsTrace(src, t, m, w, n), m, w)
    decreases n
  {
    if n > 0 {
      RoundsMore(src, AfterBlock(src, t, m, w), m, w, n - 1);
    }
  }

  lemma {:induction false} LoadsMore(s: nat, n: nat)
    ensures Loads(s, 12, 16, n + 1) == Loads(s, 12, 16, n) + [Read(s + 12 * n, 16)]
    decreases n
  {
    if n > 0 {
      LoadsMore(s + 12, n - 1);
    }
  }

  /** enc_loop_ssse3: the 36x loop, then blocks of 18, 9 and 6 rounds, then a jump into five single rounds. */
  method LoopAsm(src: seq<byte>, s0: nat, slen0: nat, o: OutPtr, olen0: nat, garbage: map<Reg, Vec>)
    returns (s: nat, slen: nat, olen: nat, ghost loads: seq<Read>)
    requires o.Valid() && s0 + slen0 == |src| && o.pos + Room(slen0) <= o.buf.Length
    requires forall r: Reg :: r in garbage && |garbage[r]| == 16
    modifies o, o.buf
    ensures o.Valid() && s0 <= s && s + slen == |src|
    ensures Advanced(src, s0, s, old(o.written), o.written)
    ensures o.pos - old(o.pos) == olen - olen0 && 3 * (o.pos - old(o.pos)) == 4 * (s - s0)
    ensures s == s0 + BytesIn(Ssse3, Planned(Ssse3, slen0))
    ensures Trace(s, o.pos, o.log)
            == old(RoundsTrace(src, Trace(s0, o.pos, o.log), BytesIn(Ssse3, 1), StoreLen(Ssse3), Planned(Ssse3, slen0)))
    ensures loads == Loads(s0, BytesIn(Ssse3, 1), LoadLen(Ssse3), Planned(Ssse3, slen0))
    ensures old(o.top) <= o.top <= Max(old(o.top), o.pos)
  {
    hide Records, Advanced, RoundsTrace, Loads;
    s, slen, olen, loads := s0, slen0, olen0, [];
    AdvancedNothing(src, s0, o.written);
    NoRounds(src, Trace(s0, o.pos, o.log), 12, 16, 16);
    if slen0 < 16 {
      return;
    }
    var rounds := (slen0 - 4) / 12;
    ghost var all := rounds;
    slen := slen - rounds * 12;
    olen := olen + rounds * 16;
    var loops := rounds / 36;
    rounds := rounds % 36;
    var input := new Source(src);
    var m := new Machine(input, s0, o, garbage);
    m.Dispatch(loops, rounds, Start(s0, o.pos, o.written, o.top), all);
    s := m.s;
    loads := input.loads;
  }
}
