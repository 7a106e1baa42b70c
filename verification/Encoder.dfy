/** The bytewise encoder as a function of its state and input, and what that function promises. */
module Encoder {
  import opened Chunks
  import opened Tables
  import opened Rfc4648

  datatype State = State(bytes: int, carry: byte)

  /** What one call emits and leaves behind. */
  datatype Result = Result(out: seq<byte>, st: State)

  const INITIAL := State(0, 0)

  /** The carry never reaches beyond the bits that the table index leaves free for it. */
  predicate Reachable(st: State) {
    && 0 <= st.bytes <= 2
    && (st.bytes == 1 ==> st.carry & 0x30 == st.carry)
    && (st.bytes == 2 ==> st.carry & 0x3C == st.carry)
  }

  /** The carry is dead between groups: the bytewise code leaves it stale there, fast loops never touch it. */
  predicate Same(a: State, b: State) {
    a.bytes == b.bytes && (a.bytes != 0 ==> a.carry == b.carry)
  }

  function Emit(out: seq<byte>, r: Result): Result {
    r.(out := out + r.out)
  }

  /** The table indices of a group's four characters, and what is carried between its bytes. */
  function Index0(c: byte): (i: byte)
    ensures i < 64
  {
    c >> 2
  }

  function Index1(carry: byte, c: byte): (i: byte)
    requires carry & 0x30 == carry
    ensures i < 64
  {
    carry | (c >> 4)
  }

  function Index2(carry: byte, c: byte): (i: byte)
    requires carry & 0x3C == carry
    ensures i < 64
  {
    carry | (c >> 6)
  }

  function Index3(c: byte): (i: byte)
    ensures i < 64
  {
    c & 0x3F
  }

  function Carry1(c: byte): (k: byte)
    ensures k & 0x30 == k
  {
    (c << 4) & 0x30
  }

  function Carry2(c: byte): (k: byte)
    ensures k & 0x3C == k
  {
    (c << 2) & 0x3C
  }

  function Output(st: State, c: byte): (r: seq<byte>)
    requires Reachable(st)
  {
    match st.bytes
    case 0 => [Enc6(Index0(c))]
    case 1 => [Enc6(Index1(st.carry, c))]
    case _ => [Enc6(Index2(st.carry, c)), Enc6(Index3(c))]
  }

  function Next(st: State, c: byte): (r: State)
    requires Reachable(st)
    ensures Reachable(r) && r.bytes == (if st.bytes == 2 then 0 else st.bytes + 1)
  {
    match st.bytes
    case 0 => State(1, Carry1(c))
    case 1 => State(2, Carry2(c))
    case _ => State(0, st.carry)
  }

  /** One call of the stream encoder, bytewise: the machine of enc_head.c and enc_tail.c. */
  function Call(st: State, s: seq<byte>): (r: Result)
    requires Reachable(st)
    ensures Reachable(r.st)
    decreases |s|
  {
    if s == [] then Result([], st)
    else Emit(Output(st, s[0]), Call(Next(st, s[0]), s[1..]))
  }

  /** base64_stream_encode_final. */
  function Final(st: State): seq<byte>
    requires Reachable(st)
  {
    match st.bytes
    case 0 => []
    case 1 => [Enc6(st.carry), PAD, PAD]
    case _ => [Enc6(st.carry), PAD]
  }

  /** Equality up to the dead carry. */
  predicate Agree(a: Result, b: Result) {
    a.out == b.out && Same(a.st, b.st)
  }

  lemma EmitEmit(x: seq<byte>, y: seq<byte>, r: Result)
    ensures Emit(x, Emit(y, r)) == Emit(x + y, r)
  {
  }

  // Splitting the input into calls.

  lemma {:induction false} Split(st: State, a: seq<byte>, b: seq<byte>)
    requires Reachable(st)
    ensures var r := Call(st, a); Call(st, a + b) == Emit(r.out, Call(r.st, b))
    decreases |a|
  {
    if a == [] {
      assert a + b == b;
      assert [] + Call(st, b).out == Call(st, b).out;
    } else {
      assert (a + b)[0] == a[0] && (a + b)[1..] == a[1..] + b;
      var st' := Next(st, a[0]);
      Split(st', a[1..], b);
      hide Call, Output, Next, Reachable;
      EmitEmit(Output(st, a[0]), Call(st', a[1..]).out, Call(Call(st', a[1..]).st, b));
    }
  }

  /** States that differ only in a dead carry cannot be told apart. */
  lemma DeadCarry(a: State, b: State, s: seq<byte>)
    requires Reachable(a) && Reachable(b) && Same(a, b)
    ensures Agree(Call(a, s), Call(b, s)) && Final(a) == Final(b)
    decreases |s|
  {
  }

  function Run(st: State, chunks: seq<seq<byte>>): (r: Result)
    requires Reachable(st)
    ensures Reachable(r.st)
    decreases |chunks|
  {
    if chunks == [] then Result([], st)
    else
      var r := Call(st, chunks[0]);
      Emit(r.out, Run(r.st, chunks[1..]))
  }

  lemma {:induction false} RunIsCall(st: State, chunks: seq<seq<byte>>)
    requires Reachable(st)
    ensures Run(st, chunks) == Call(st, Flatten(chunks))
    decreases |chunks|
  {
    if chunks != [] {
      RunIsCall(Call(st, chunks[0]).st, chunks[1..]);
      Split(st, chunks[0], Flatten(chunks[1..]));
    }
  }

  // Whole groups.

  lemma OneStep(st: State, s: seq<byte>)
    requires Reachable(st) && s != []
    ensures Call(st, s) == Emit(Output(st, s[0]), Call(Next(st, s[0]), s[1..]))
  {
  }

  lemma ThreeOutputs(st: State, a: byte, b: byte, c: byte)
    requires st.bytes == 0
    ensures var s1 := Next(st, a);
            var s2 := Next(s1, b);
            Next(s2, c).bytes == 0 && Output(st, a) + (Output(s1, b) + Output(s2, c)) == EncodeQuad(a, b, c)
  {
  }

  lemma GroupStep(st: State, q: seq<byte>, rest: seq<byte>)
    requires st.bytes == 0 && |q| == 3
    ensures Agree(Call(st, q + rest), Emit(EncodeQuad(q[0], q[1], q[2]), Call(st, rest)))
  {
    hide Call, Output, Next, EncodeQuad;
    var s := q + rest;
    var s1 := Next(st, q[0]);
    var s2 := Next(s1, q[1]);
    var s3 := Next(s2, q[2]);
    ThreeOutputs(st, q[0], q[1], q[2]);
    OneStep(st, s);
    OneStep(s1, s[1..]);
    OneStep(s2, s[2..]);
    assert s[1..][0] == q[1] && s[2..][0] == q[2] && s[3..] == rest;
    assert s[1..][1..] == s[2..] && s[2..][1..] == s[3..];
    DeadCarry(s3, st, rest);
    EmitEmit(Output(s1, q[1]), Output(s2, q[2]), Call(s3, rest));
    EmitEmit(Output(st, q[0]), Output(s1, q[1]) + Output(s2, q[2]), Call(s3, rest));
  }

  lemma AgreeTransitive(whole: Result, x: seq<byte>, middle: Result, y: seq<byte>, r: Result)
    requires Agree(whole, Emit(x, middle)) && Agree(middle, Emit(y, r))
    ensures Agree(whole, Emit(x + y, r))
  {
    EmitEmit(x, y, r);
  }

  lemma {:induction false} GroupRun(st: State, q: seq<byte>, rest: seq<byte>)
    requires st.bytes == 0 && |q| % 3 == 0
    ensures Agree(Call(st, q + rest), Emit(Encode(q), Call(st, rest)))
    decreases |q|
  {
    if q == [] {
      assert q + rest == rest;
      assert [] + Call(st, rest).out == Call(st, rest).out;
      return;
    }
    hide Call, Encode, EncodeQuad, Final, Reachable;
    var q0, q1 := q[..3], q[3..];
    GroupRun(st, q1, rest);
    assert q + rest == q0 + (q1 + rest);
    assert q == q0 + q1;
    EncodeCons(q0, q1);
    GroupStep(st, q0, q1 + rest);
    AgreeTransitive(Call(st, q + rest), EncodeQuad(q[0], q[1], q[2]), Call(st, q1 + rest), Encode(q1), Call(st, rest));
  }

  lemma LastOne(a: byte)
    ensures Output(INITIAL, a) + Final(Next(INITIAL, a)) == Encode([a])
  {
  }

  lemma LastTwo(a: byte, b: byte)
    ensures var s1 := Next(INITIAL, a);
            Output(INITIAL, a) + Output(s1, b) + Final(Next(s1, b)) == Encode([a, b])
  {
    EncodeBits(a, b, 0);
  }

  lemma ShortFinal(s: seq<byte>)
    requires 1 <= |s| <= 2
    ensures var r := Call(INITIAL, s); r.out + Final(r.st) == Encode(s)
  {
    hide Call, Next, Output, Encode, Final, Enc6;
    Unfold(s);
    if |s| == 1 {
      assert s == [s[0]];
      LastOne(s[0]);
    } else {
      assert s == [s[0], s[1]];
      LastTwo(s[0], s[1]);
    }
  }

  lemma Unfold(s: seq<byte>)
    requires 1 <= |s| <= 2
    ensures var s1 := Next(INITIAL, s[0]);
            Call(INITIAL, s) ==
            if |s| == 1 then Result(Output(INITIAL, s[0]), s1)
            else Result(Output(INITIAL, s[0]) + Output(s1, s[1]), Next(s1, s[1]))
  {
    hide Call, Next, Output, Enc6;
    OneStep(INITIAL, s);
    var s1 := Next(INITIAL, s[0]);
    if |s| == 1 {
      EmptyCall(s1);
      assert s[1..] == [] && Output(INITIAL, s[0]) + [] == Output(INITIAL, s[0]);
    } else {
      OneStep(s1, s[1..]);
      EmptyCall(Next(s1, s[1]));
      assert s[1..][1..] == [] && Output(s1, s[1]) + [] == Output(s1, s[1]);
    }
  }

  lemma EmptyCall(st: State)
    requires Reachable(st)
    ensures Call(st, []) == Result([], st)
  {
  }

  /** One call followed by `final` emits the encoding of section 4 of RFC 4648. */
  lemma {:induction false} CallThenFinal(s: seq<byte>)
    ensures var r := Call(INITIAL, s); r.out + Final(r.st) == Encode(s)
    decreases |s|
  {
    if |s| >= 3 {
      var q, rest := s[..3], s[3..];
      assert s == q + rest;
      CallThenFinal(rest);
      GroupStep(INITIAL, q, rest);
      EncodeCons(q, rest);
      DeadCarry(Call(INITIAL, s).st, Call(INITIAL, rest).st, []);
    } else if s != [] {
      ShortFinal(s);
    }
  }

  /** So does any list of calls, empty ones included. */
  lemma ChunkInvariance(chunks: seq<seq<byte>>)
    ensures var r := Run(INITIAL, chunks); r.out + Final(r.st) == Encode(Flatten(chunks))
  {
    RunIsCall(INITIAL, chunks);
    CallThenFinal(Flatten(chunks));
  }

  /** Every call emits exactly the characters that its bytes complete. */
  lemma {:induction false} OutputLength(st: State, s: seq<byte>)
    requires Reachable(st)
    ensures var r := Call(st, s);
            |r.out| == 4 * (st.bytes + |s|) / 3 - 4 * st.bytes / 3 && r.st.bytes == (st.bytes + |s|) % 3
    decreases |s|
  {
    if s != [] {
      OutputLength(Next(st, s[0]), s[1..]);
      hide Call, Next;
      OneStep(st, s);
    }
  }
}
