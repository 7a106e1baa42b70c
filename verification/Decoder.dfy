/** The bytewise decoder as a function of its state and input, and what that function promises. */
module Decoder {
  import opened Chunks
  import opened Tables
  import opened Rfc4648

  /** Values of the `eof` field. */
  const AEOF := 1
  const EOF := 2

  datatype State = State(eof: int, bytes: int, carry: byte)

  /** What one call returns, emits and leaves behind. */
  datatype Result = Result(ret: int, out: seq<byte>, st: State)

  const INITIAL := State(0, 0, 0)

  ghost predicate Reachable(st: State) {
    && (st.eof == 0 || st.eof == AEOF || st.eof == EOF)
    && 0 <= st.bytes <= 3
    && (st.eof == 0 && st.bytes == 0 ==> st.carry == 0)
  }

  function Emit(out: seq<byte>, r: Result): Result {
    r.(out := out + r.out)
  }

  /** The character in the place of the last '=': it must be '=' and nothing may follow it. */
  function LastPad(st: State, c: byte, last: bool): Result {
    Result(if c == PAD && last then 1 else 0, [], State(EOF, 0, st.carry))
  }

  /** Completing a byte with the upper bits of `q`, and keeping the lower ones for the next. */
  function Top4(carry: byte, q: byte): byte { carry | (q >> 4) }

  function Top2(carry: byte, q: byte): byte { carry | (q >> 2) }

  function All6(carry: byte, q: byte): byte { carry | q }

  function Keep6(q: byte): byte { q << 2 }

  function Keep4(q: byte): byte { q << 4 }

  function Keep2(q: byte): byte { q << 6 }

  /** The byte, if any, that an alphabet character completes. */
  function Output(st: State, c: byte): seq<byte> {
    var q := Dec8(c);
    match st.bytes
    case 0 => []
    case 1 => [Top4(st.carry, q)]
    case 2 => [Top2(st.carry, q)]
    case _ => [All6(st.carry, q)]
  }

  /** The state after an alphabet character. */
  function Next(st: State, c: byte): State {
    var q := Dec8(c);
    match st.bytes
    case 0 => State(st.eof, 1, Keep6(q))
    case 1 => State(st.eof, 2, Keep4(q))
    case 2 => State(st.eof, 3, Keep2(q))
    case _ => State(st.eof, 0, 0)
  }

  /** The four ways in which a character outside the alphabet ends the call. */
  function Stop(st: State, s: seq<byte>): Result
    requires s != []
  {
    match st.bytes
    case 0 => Result(0, [], State(EOF, 0, st.carry))
    case 1 => Result(0, [], State(EOF, 1, st.carry))
    case 2 =>
      if s[0] != PAD then Result(0, [], State(st.eof, 3, st.carry))
      else if |s| == 1 then Result(1, [], State(AEOF, 3, st.carry))
      else LastPad(st, s[1], |s| == 2)
    case _ => LastPad(st, s[0], |s| == 1)
  }

  /** The machine of dec_tail.c, entered with `eof` clear. */
  function Tail(st: State, s: seq<byte>): (r: Result)
    ensures r.ret == 0 || r.ret == 1
    decreases |s|
  {
    if s == [] then Result(1, [], st)
    else if !IsAlpha(s[0]) then Stop(st, s)
    else Emit(Output(st, s[0]), Tail(Next(st, s[0]), s[1..]))
  }

  /** One call of the stream decoder, bytewise: dec_head.c, then dec_tail.c. */
  function Call(st: State, s: seq<byte>): (r: Result)
    ensures r.ret == 0 || r.ret == 1
  {
    if st.eof == 0 then Tail(st, s)
    else if s != [] && st.eof == AEOF then LastPad(st, s[0], |s| == 1)
    else Result(0, [], st)
  }

  lemma {:induction false} CallReachable(st: State, s: seq<byte>)
    requires Reachable(st)
    ensures Reachable(Call(st, s).st)
    decreases |s|
  {
    if st.eof == 0 && s != [] && IsAlpha(s[0]) {
      CallReachable(Next(st, s[0]), s[1..]);
    }
  }

  // Splitting the input into calls.

  /** Continue with `b` if the previous call returned 1. */
  function Then(r: Result, b: seq<byte>): Result {
    if r.ret == 0 then r else Emit(r.out, Call(r.st, b))
  }

  /** Two calls agree with one on the concatenation; an empty call is harmless only before the end of file. */
  lemma {:induction false} Split(st: State, a: seq<byte>, b: seq<byte>)
    requires b != [] && (a != [] || st.eof == 0)
    ensures Call(st, a + b) == Then(Call(st, a), b)
    decreases |a|
  {
    if a == [] {
      assert a + b == b;
      EmitNothing(Call(st, b));
    } else {
      assert (a + b)[0] == a[0] && (a + b)[1..] == a[1..] + b;
      if st.eof != 0 {
      } else if IsAlpha(a[0]) {
        var st' := Next(st, a[0]);
        Split(st', a[1..], b);
        EmitEmit(Output(st, a[0]), Tail(st', a[1..]).out, Call(Tail(st', a[1..]).st, b));
      } else {
        SplitStop(st, a, b);
      }
    }
  }

  lemma EmitNothing(r: Result)
    ensures Emit([], r) == r
  {
  }

  lemma EmitEmit(x: seq<byte>, y: seq<byte>, r: Result)
    ensures Emit(x, Emit(y, r)) == Emit(x + y, r)
  {
  }

  lemma SplitStop(st: State, a: seq<byte>, b: seq<byte>)
    requires a != [] && b != [] && st.eof == 0 && !IsAlpha(a[0])
    ensures Stop(st, a + b) == Then(Stop(st, a), b)
  {
  }

  /** Feed non-empty chunks, stopping at the first call that returns 0. */
  function Run(st: State, chunks: seq<seq<byte>>): Result
    decreases |chunks|
  {
    if chunks == [] then Result(1, [], st)
    else
      var r := Call(st, chunks[0]);
      if r.ret == 0 then r else Emit(r.out, Run(r.st, chunks[1..]))
  }

  /** Any split of the input into non-empty calls returns, emits and leaves what a single call does. */
  lemma {:induction false} ChunkInvariance(st: State, chunks: seq<seq<byte>>)
    requires chunks != [] && NonEmpty(chunks)
    ensures Run(st, chunks) == Call(st, Flatten(chunks))
    decreases |chunks|
  {
    var a, rest := chunks[0], chunks[1..];
    var r := Call(st, a);
    if rest == [] {
      assert Flatten(chunks) == a;
      assert r.out + [] == r.out;
    } else {
      ChunkInvariance(r.st, rest);
      assert Flatten(rest)[..|rest[0]|] == rest[0];
      Split(st, a, Flatten(rest));
    }
  }

  /** An empty call succeeds, and changes nothing, exactly while the end of file has not been seen. */
  lemma EmptyCall(st: State)
    ensures Call(st, []) == Result(if st.eof == 0 then 1 else 0, [], st)
  {
  }

  // Whole quanta, and the strings that a one-shot decode accepts.

  /** The shifts of the machine put together the octets of the 24-bit group. */
  lemma Shifts(p: byte, q: byte, r: byte, t: byte)
    requires p < 64 && q < 64 && r < 64 && t < 64
    ensures var g := Join(p, q, r, t);
            Octet(g, 0) == Top4(Keep6(p), q) && Octet(g, 1) == Top2(Keep4(q), r) && Octet(g, 2) == All6(Keep2(r), t)
  {
  }

  lemma QuadStep(q: seq<byte>, rest: seq<byte>)
    requires |q| == 4 && AllAlpha(q)
    ensures Tail(INITIAL, q + rest) == Emit(DecodeQuad(q[0], q[1], q[2], q[3]), Tail(INITIAL, rest))
  {
    hide Tail, Dec8, IsAlpha, Octet, Join, Top4, Top2, All6, Keep6, Keep4, Keep2;
    var s := q + rest;
    assert s[0] == q[0] && s[1] == q[1] && s[2] == q[2] && s[3] == q[3];
    var s3 := State(0, 3, Keep2(Dec8(q[2])));
    ThreeSteps(s);
    OneStep(s3, s[3..]);
    assert s[3..][0] == q[3] && s[3..][1..] == rest;
    Shifts(Dec8(q[0]), Dec8(q[1]), Dec8(q[2]), Dec8(q[3]));
  }

  /** A run of alphabet characters at a quantum boundary is decoded as section 4 of RFC 4648 says. */
  lemma {:induction false} AlphaRun(q: seq<byte>, rest: seq<byte>)
    requires |q| % 4 == 0 && AllAlpha(q)
    ensures Tail(INITIAL, q + rest) == Emit(Decode(q), Tail(INITIAL, rest))
    decreases |q|
  {
    if q == [] {
      assert q + rest == rest;
      EmitNothing(Tail(INITIAL, rest));
      return;
    }
    hide Tail, Decode, DecodeQuad, IsAlpha;
    var q0, q1 := q[..4], q[4..];
    AlphaRun(q1, rest);
    assert q == q0 + q1;
    Assoc(q0, q1, rest);
    QuadStep(q0, q1 + rest);
    DecodeCons(q0, q1);
    EmitEmit(DecodeQuad(q[0], q[1], q[2], q[3]), Decode(q1), Tail(INITIAL, rest));
  }

  /** The success test of a one-shot decode. */
  predicate Accepts(s: seq<byte>) {
    var r := Call(INITIAL, s);
    r.ret == 1 && r.st.bytes == 0
  }

  lemma {:induction false} AcceptsQuanta(s: seq<byte>)
    ensures Accepts(s) <==> Quanta(s)
    ensures Accepts(s) ==> Call(INITIAL, s).out == Decode(s)
    decreases |s|
  {
    if |s| >= 4 && AllAlpha(s[..4]) {
      var q, rest := s[..4], s[4..];
      assert s == q + rest;
      AcceptsQuanta(rest);
      QuadStep(q, rest);
      QuantaCons(q, rest);
      DecodeCons(q, rest);
    } else {
      LastQuantum(s);
    }
  }

  lemma LastQuantum(s: seq<byte>)
    requires |s| < 4 || !AllAlpha(s[..4])
    ensures Accepts(s) <==> Quanta(s)
    ensures Accepts(s) ==> Call(INITIAL, s).out == Decode(s)
  {
    if |s| == 4 && IsAlpha(s[0]) && IsAlpha(s[1]) && s[3] == PAD {
      DecodePadded(s);
    }
    if |s| < 2 || !IsAlpha(s[0]) || !IsAlpha(s[1]) {
      StopEarly(s);
    } else if |s| == 2 || !IsAlpha(s[2]) {
      StopThird(s);
    } else {
      StopFourth(s);
    }
  }

  lemma StopEarly(s: seq<byte>)
    requires |s| < 2 || !IsAlpha(s[0]) || !IsAlpha(s[1])
    ensures Accepts(s) <==> s == []
    ensures Call(INITIAL, s).out == []
  {
    if s != [] && IsAlpha(s[0]) {
      var s1 := Next(INITIAL, s[0]);
      assert Tail(s1, s[1..]).out == [] && (Tail(s1, s[1..]).ret == 0 || Tail(s1, s[1..]).st.bytes == 1);
    }
  }

  lemma OneStep(st: State, t: seq<byte>)
    requires t != [] && IsAlpha(t[0])
    ensures Tail(st, t) == Emit(Output(st, t[0]), Tail(Next(st, t[0]), t[1..]))
  {
  }

  lemma TwoSteps(s: seq<byte>)
    requires |s| >= 2 && IsAlpha(s[0]) && IsAlpha(s[1])
    ensures var p, q := Dec8(s[0]), Dec8(s[1]);
            Tail(INITIAL, s) == Emit([Top4(Keep6(p), q)], Tail(State(0, 2, Keep4(q)), s[2..]))
  {
  }

  lemma ThreeSteps(s: seq<byte>)
    requires |s| >= 3 && IsAlpha(s[0]) && IsAlpha(s[1]) && IsAlpha(s[2])
    ensures var p, q, r := Dec8(s[0]), Dec8(s[1]), Dec8(s[2]);
            Tail(INITIAL, s) == Emit([Top4(Keep6(p), q), Top2(Keep4(q), r)], Tail(State(0, 3, Keep2(r)), s[3..]))
  {
    hide Tail, Dec8, IsAlpha, Top4, Top2, Keep6, Keep4, Keep2;
    TwoSteps(s);
    var s2 := State(0, 2, Keep4(Dec8(s[1])));
    OneStep(s2, s[2..]);
    assert s[2..][1..] == s[3..];
    EmitEmit([Top4(Keep6(Dec8(s[0])), Dec8(s[1]))], Output(s2, s[2]), Tail(Next(s2, s[2]), s[3..]));
  }

  lemma StopAtThird(c: byte, t: seq<byte>)
    requires t == [] || !IsAlpha(t[0])
    ensures var r := Tail(State(0, 2, c), t);
            r.out == [] && (r.ret == 1 && r.st.bytes == 0 <==> |t| == 2 && t[0] == PAD && t[1] == PAD)
  {
  }

  lemma StopAtFourth(c: byte, t: seq<byte>)
    requires t == [] || !IsAlpha(t[0])
    ensures var r := Tail(State(0, 3, c), t);
            r.out == [] && (r.ret == 1 && r.st.bytes == 0 <==> t == [PAD])
  {
  }

  lemma StopThird(s: seq<byte>)
    requires |s| >= 2 && IsAlpha(s[0]) && IsAlpha(s[1]) && (|s| == 2 || !IsAlpha(s[2]))
    ensures Accepts(s) <==> |s| == 4 && s[2] == PAD && s[3] == PAD
    ensures Call(INITIAL, s).out == [Top4(Keep6(Dec8(s[0])), Dec8(s[1]))]
  {
    hide Tail, Dec8, IsAlpha, Top4, Keep6, Keep4;
    var c, t := Keep4(Dec8(s[1])), s[2..];
    TwoSteps(s);
    StopAtThird(c, t);
    assert |t| >= 1 ==> t[0] == s[2];
    assert |t| >= 2 ==> t[1] == s[3];
  }

  lemma StopFourth(s: seq<byte>)
    requires |s| >= 3 && IsAlpha(s[0]) && IsAlpha(s[1]) && IsAlpha(s[2]) && (|s| == 3 || !IsAlpha(s[3]))
    ensures Accepts(s) <==> |s| == 4 && s[3] == PAD
    ensures var p, q, r := Dec8(s[0]), Dec8(s[1]), Dec8(s[2]);
            Call(INITIAL, s).out == [Top4(Keep6(p), q), Top2(Keep4(q), r)]
  {
    hide Tail, Dec8, IsAlpha, Top4, Top2, Keep6, Keep4, Keep2;
    ThreeSteps(s);
    StopAtFourth(Keep2(Dec8(s[2])), s[3..]);
    assert s[3..] == [PAD] <==> |s| == 4 && s[3] == PAD;
  }

  lemma DecodePadded(s: seq<byte>)
    requires |s| == 4 && IsAlpha(s[0]) && IsAlpha(s[1]) && s[3] == PAD
    ensures s[2] == PAD ==> Decode(s) == [Top4(Keep6(Dec8(s[0])), Dec8(s[1]))]
    ensures IsAlpha(s[2]) ==>
              var p, q, r := Dec8(s[0]), Dec8(s[1]), Dec8(s[2]);
              Decode(s) == [Top4(Keep6(p), q), Top2(Keep4(q), r)]
  {
    hide Dec8, IsAlpha, Octet, Join, Top4, Top2, Keep6, Keep4;
    Shifts(Value(s[0]), Value(s[1]), Value(s[2]), 0);
  }

  /** The acceptance language of a one-shot decode, and the octets it then produces. */
  lemma Acceptance(s: seq<byte>)
    ensures Accepts(s) <==> InLanguage(s)
    ensures Accepts(s) ==> Call(INITIAL, s).out == Decode(s)
  {
    AcceptsQuanta(s);
    QuantaIsLanguage(s);
  }

  /** What would complete the input, seen from a state after a call that returned 1. */
  function Completion(st: State): seq<byte> {
    if st.eof == AEOF then [PAD]
    else if st.eof == EOF || st.bytes == 0 then []
    else if st.bytes == 1 then [65, 65, 65]
    else if st.bytes == 2 then [65, 65]
    else [65]
  }

  lemma CompletionCompletes(st: State)
    requires Reachable(st) && st.eof != EOF && Completion(st) != []
    ensures var r := Call(st, Completion(st)); r.ret == 1 && r.st.bytes == 0
  {
    if st.eof == 0 {
      var t := Completion(st);
      OneStep(st, t);
      if st.bytes < 3 {
        var st1 := Next(st, 65);
        OneStep(st1, t[1..]);
        if st.bytes < 2 {
          OneStep(Next(st1, 65), t[1..][1..]);
        }
      }
    }
  }

  lemma {:induction false} EndOfFile(st: State, s: seq<byte>)
    requires Reachable(st) && st.eof == 0 && Tail(st, s).ret == 1
    ensures var r := Tail(st, s); (r.st.eof == EOF ==> r.st.bytes == 0) && (r.st.eof == AEOF ==> r.st.bytes == 3)
    decreases |s|
  {
    if s != [] && IsAlpha(s[0]) {
      EndOfFile(Next(st, s[0]), s[1..]);
    }
  }

  /** A stream is still good exactly if what it has been fed can be completed to a string of the language. */
  lemma ViablePrefix(s: seq<byte>)
    ensures Call(INITIAL, s).ret == 1 <==> exists t :: InLanguage(s + t)
  {
    hide Tail, InLanguage, Dec8, IsAlpha, Completion;
    var r := Call(INITIAL, s);
    if r.ret == 1 {
      EndOfFile(INITIAL, s);
      CallReachable(INITIAL, s);
      var t := Completion(r.st);
      Acceptance(s + t);
      assert InLanguage(s + t) by {
        CompletedAccepts(s, r.st);
      }
    }
    forall t | InLanguage(s + t)
      ensures r.ret == 1
    {
      Acceptance(s + t);
      if t == [] {
        assert s + t == s;
      } else {
        Split(INITIAL, s, t);
      }
    }
  }

  lemma CompletedAccepts(s: seq<byte>, st: State)
    requires Call(INITIAL, s).ret == 1 && Call(INITIAL, s).st == st && Reachable(st)
    requires (st.eof == EOF ==> st.bytes == 0) && (st.eof == AEOF ==> st.bytes == 3)
    ensures Accepts(s + Completion(st))
  {
    hide Tail, Dec8, IsAlpha;
    var t := Completion(st);
    if t == [] {
      assert s + t == s;
    } else {
      hide Completion;
      CompletionCompletes(st);
      Split(INITIAL, s, t);
    }
  }

  /** Every encoding is accepted, and decoding it returns the input. */
  lemma RoundTrip(b: seq<byte>)
    ensures Accepts(Encode(b)) && Call(INITIAL, Encode(b)).out == b
  {
    DecodeEncode(b);
    AcceptsQuanta(Encode(b));
  }

  // How much a call can emit.

  /** The bytes that `n` characters can complete when `b` characters of a quantum are already in. */
  function Extent(b: int, n: nat): int {
    3 * (b + n) / 4 - 3 * b / 4
  }

  /** What remains of that extent if the last quantum is padded as far as it can be. */
  function Least(b: int, n: nat): int {
    Extent(b, n) - (if (b + n) % 4 == 0 then 2 else if (b + n) % 4 == 3 then 1 else 0)
  }

  lemma ExtentStep(b: int, n: nat)
    requires 0 <= b <= 3 && n > 0
    ensures b == 0 ==> Extent(0, n) == Extent(1, n - 1) && Least(0, n) == Least(1, n - 1)
    ensures 0 < b < 3 ==> Extent(b, n) == 1 + Extent(b + 1, n - 1) && Least(b, n) == 1 + Least(b + 1, n - 1)
    ensures b == 3 ==> Extent(b, n) == 1 + Extent(0, n - 1) && Least(b, n) == 1 + Least(0, n - 1)
    ensures Extent(b, n) >= 0 && Extent(b, 0) == 0 && Least(b, 0) <= 0
  {
  }

  lemma {:induction false} OutputBounds(st: State, s: seq<byte>)
    requires Reachable(st) && st.eof == 0
    ensures |Tail(st, s).out| <= Extent(st.bytes, |s|)
    ensures Tail(st, s).ret == 1 ==> |Tail(st, s).out| >= Least(st.bytes, |s|)
    decreases |s|
  {
    hide IsAlpha, Dec8, Top4, Top2, All6, Keep6, Keep4, Keep2, Extent, Least, Stop;
    if s == [] {
      ExtentStep(st.bytes, 1);
    } else if IsAlpha(s[0]) {
      ExtentStep(st.bytes, |s|);
      OutputBounds(Next(st, s[0]), s[1..]);
    } else {
      StopBounds(st, s);
    }
  }

  lemma StopBounds(st: State, s: seq<byte>)
    requires Reachable(st) && s != []
    ensures Stop(st, s).out == [] && Extent(st.bytes, |s|) >= 0
    ensures Stop(st, s).ret == 1 ==> Least(st.bytes, |s|) <= 0
  {
  }

  // Which errors are remembered.

  function AlphaPrefix(s: seq<byte>): (k: nat)
    ensures k <= |s|
    ensures AllAlpha(s[..k])
    ensures k < |s| ==> !IsAlpha(s[k])
  {
    if s == [] || !IsAlpha(s[0]) then 0
    else
      var k := AlphaPrefix(s[1..]);
      assert s[..1 + k] == [s[0]] + s[1..][..k];
      1 + k
  }

  /** The first character outside the alphabet is in third position of its quantum and is not '='. */
  predicate BadThird(st: State, s: seq<byte>) {
    var k := AlphaPrefix(s);
    k < |s| && (st.bytes + k) % 4 == 2 && s[k] != PAD
  }

  /**
   * The whole state after a failing call: an invalid third character leaves `eof` clear and counts as third,
   * an invalid second one leaves one character of a quantum, and the carry is that of the alphabet characters.
   */
  lemma {:induction false} StopState(st: State, s: seq<byte>)
    requires Reachable(st) && st.eof == 0 && Tail(st, s).ret == 0
    ensures Tail(st, s).st == StoppedState(BadThird(st, s), (st.bytes + AlphaPrefix(s)) % 4,
                                           Tail(st, s[..AlphaPrefix(s)]).st.carry)
    decreases |s|
  {
    hide Tail, BadThird, Next, StoppedState;
    FailedTail(st, s);
    if IsAlpha(s[0]) {
      StopPrefix(st, s);
      TailStep(st, s);
      TailStep(st, s[..AlphaPrefix(s)]);
      assert s[..AlphaPrefix(s)][1..] == s[1..][..AlphaPrefix(s) - 1];
      StopState(Next(st, s[0]), s[1..]);
    } else {
      StopHere(st, s);
    }
  }

  function StoppedState(badThird: bool, place: int, carry: byte): State {
    if badThird then State(0, 3, carry) else State(2, if place == 1 then 1 else 0, carry)
  }

  /** One alphabet character moves on in the quantum and leaves the rest of the prefix. */
  lemma StopPrefix(st: State, s: seq<byte>)
    requires Reachable(st) && st.eof == 0 && s != [] && IsAlpha(s[0])
    ensures var st', k := Next(st, s[0]), AlphaPrefix(s);
            && Reachable(st') && st'.eof == 0
            && k == 1 + AlphaPrefix(s[1..]) && BadThird(st, s) == BadThird(st', s[1..])
            && (st.bytes + k) % 4 == (st'.bytes + AlphaPrefix(s[1..])) % 4
  {
    hide Next, BadThird, Reachable, IsAlpha, AlphaPrefix;
    PrefixStep(s);
    NextInQuantum(st, s[0]);
    SamePlace(st.bytes, Next(st, s[0]).bytes, AlphaPrefix(s), AlphaPrefix(s[1..]));
    SameThird(st, Next(st, s[0]), s);
  }

  lemma SameThird(st: State, st': State, s: seq<byte>)
    requires s != [] && AlphaPrefix(s) == 1 + AlphaPrefix(s[1..])
    requires (st.bytes + AlphaPrefix(s)) % 4 == (st'.bytes + AlphaPrefix(s[1..])) % 4
    ensures BadThird(st, s) == BadThird(st', s[1..])
  {
    hide AlphaPrefix;
  }

  lemma PrefixStep(s: seq<byte>)
    requires s != [] && IsAlpha(s[0])
    ensures AlphaPrefix(s) == 1 + AlphaPrefix(s[1..])
  {
  }

  lemma SamePlace(b: int, b': int, k: nat, k': nat)
    requires (b + 1) % 4 == b' && k == 1 + k'
    ensures (b + k) % 4 == (b' + k') % 4
  {
  }

  lemma NextInQuantum(st: State, c: byte)
    requires Reachable(st) && st.eof == 0
    ensures Reachable(Next(st, c)) && Next(st, c).eof == 0 && (st.bytes + 1) % 4 == Next(st, c).bytes
  {
  }

  lemma FailedTail(st: State, s: seq<byte>)
    requires Tail(st, s).ret == 0
    ensures s != []
  {
  }

  lemma StopHere(st: State, s: seq<byte>)
    requires Reachable(st) && st.eof == 0 && Tail(st, s).ret == 0 && s != [] && !IsAlpha(s[0])
    ensures Tail(st, s).st == StoppedState(BadThird(st, s), (st.bytes + AlphaPrefix(s)) % 4,
                                           Tail(st, s[..AlphaPrefix(s)]).st.carry)
  {
    assert s[..0] == [];
  }

  lemma TailStep(st: State, s: seq<byte>)
    requires s != [] && IsAlpha(s[0])
    ensures Tail(st, s).ret == Tail(Next(st, s[0]), s[1..]).ret && Tail(st, s).st == Tail(Next(st, s[0]), s[1..]).st
  {
  }

  /**
   * After a failed call every later call fails too, unless the failure was an invalid third character,
   * or an empty call while the second '=' was still awaited.
   */
  lemma ErrorsLatch(st: State, s: seq<byte>)
    requires Reachable(st) && Call(st, s).ret == 0
    ensures (forall t :: Call(Call(st, s).st, t).ret == 0) <==>
            !(st.eof == 0 && BadThird(st, s)) && !(st.eof == AEOF && s == [])
  {
    var st' := Call(st, s).st;
    if st.eof == 0 {
      StopState(st, s);
      if BadThird(st, s) {
        assert Call(st', []).ret == 1;
      }
    } else if st.eof == AEOF && s == [] {
      assert Call(st', [PAD]).ret == 1;
    }
  }

  /** "AA*" is rejected, and yet a following "A" is decoded as if it completed the quantum. */
  lemma ErrorForgotten()
    ensures var s := [65, 65, 42];
            var r := Call(INITIAL, s);
            r.ret == 0 && Call(r.st, [65]) == Result(1, [0], INITIAL)
  {
  }

  /** After "QQ=" an empty call fails, and yet a following "=" is accepted. */
  lemma EmptyCallForgotten()
    ensures var st := Call(INITIAL, [81, 81, PAD]).st;
            Call(INITIAL, [81, 81, PAD]).ret == 1 && Call(st, []).ret == 0 && Call(Call(st, []).st, [PAD]).ret == 1
  {
    assert [81, 81, PAD][1..] == [81, PAD] && [81, PAD][1..] == [PAD];
    var s1 := Next(INITIAL, 81);
    OneStep(INITIAL, [81, 81, PAD]);
    OneStep(s1, [81, PAD]);
  }

  // Which inputs a stream accepts so far.

  /** Alphabet characters, and then as much of the padding that their number calls for as has arrived. */
  predicate Truncation(st: State, s: seq<byte>) {
    var k := AlphaPrefix(s);
    || k == |s|
    || ((st.bytes + k) % 4 == 2 && (s[k..] == [PAD] || s[k..] == [PAD, PAD]))
    || ((st.bytes + k) % 4 == 3 && s[k..] == [PAD])
  }

  lemma {:induction false} TailTruncation(st: State, s: seq<byte>)
    requires Reachable(st) && st.eof == 0
    ensures Tail(st, s).ret == 1 <==> Truncation(st, s)
    decreases |s|
  {
    hide IsAlpha, Dec8, Stop, Output, Keep6, Keep4, Keep2;
    if s == [] {
    } else if IsAlpha(s[0]) {
      TailTruncation(Next(st, s[0]), s[1..]);
      assert s[AlphaPrefix(s)..] == s[1..][AlphaPrefix(s[1..])..];
    } else {
      StopTruncation(st, s);
    }
  }

  lemma StopTruncation(st: State, s: seq<byte>)
    requires Reachable(st) && s != [] && !IsAlpha(s[0])
    ensures Stop(st, s).ret == 1 <==> Truncation(st, s)
  {
    hide IsAlpha;
    assert s[0..] == s;
    assert s == [PAD] <==> |s| == 1 && s[0] == PAD;
    assert s == [PAD, PAD] <==> |s| == 2 && s[0] == PAD && s[1] == PAD;
  }

  /** A stream call succeeds exactly on truncations; of those, the language has the ones of whole quanta. */
  lemma SucceedsOnTruncations(s: seq<byte>)
    ensures Call(INITIAL, s).ret == 1 <==> Truncation(INITIAL, s)
    ensures Call(INITIAL, s).ret == 1 ==> (InLanguage(s) <==> |s| % 4 == 0)
  {
    TailTruncation(INITIAL, s);
    if Truncation(INITIAL, s) && |s| % 4 == 0 {
      WholeTruncation(s);
    }
  }

  lemma WholeTruncation(s: seq<byte>)
    requires Truncation(INITIAL, s) && |s| % 4 == 0
    ensures InLanguage(s)
  {
    hide IsAlpha;
    var k := AlphaPrefix(s);
    assert forall i :: 0 <= i < k ==> s[i] == s[..k][i];
    assert forall i :: k <= i < |s| ==> s[i] == s[k..][i - k];
    assert PaddedBy(s, |s| - k);
  }

  /** "QQ" is accepted as far as it goes, but is not a string of the language. */
  lemma TruncatedAccepted()
    ensures Call(INITIAL, [81, 81]).ret == 1 && !InLanguage([81, 81])
  {
    TailTruncation(INITIAL, [81, 81]);
    assert AlphaPrefix([81, 81][1..]) == 1;
  }

  // What is emitted for any input at all.

  /** Alphabet characters completed to whole quanta; a single one in the last quantum holds no octet. */
  function Padded(a: seq<byte>): seq<byte> {
    if |a| % 4 == 0 then a
    else if |a| % 4 == 1 then a[..|a| - 1]
    else if |a| % 4 == 2 then a + [PAD, PAD]
    else a + [PAD]
  }

  /** The last quantum, of fewer than four alphabet characters, and what stops the machine in it. */
  lemma ShortOutput(t: seq<byte>, n: nat)
    requires n <= |t| && n < 4 && AllAlpha(t[..n]) && (n < |t| ==> !IsAlpha(t[n]))
    ensures Call(INITIAL, t).out == Decode(Padded(t[..n]))
  {
    hide IsAlpha, Dec8, Tail, Decode, Top4, Top2, Keep6, Keep4;
    assert forall i :: 0 <= i < n ==> t[i] == t[..n][i];
    DecodeNothing();
    if n < 2 {
      StopEarly(t);
      assert n == 1 ==> t[..n][..n - 1] == [];
    } else if n == 2 {
      StopThird(t);
      DecodePadded(t[..2] + [PAD, PAD]);
    } else {
      StopFourth(t);
      DecodePadded(t[..3] + [PAD]);
    }
  }

  lemma DecodeNothing()
    ensures Decode([]) == []
  {
  }

  /**
   * Whether a call succeeds or not, it emits what the alphabet characters up to the first other one
   * decode to, padded as their number calls for.
   */
  lemma OutputIsDecoding(s: seq<byte>)
    ensures Call(INITIAL, s).out == Decode(Padded(s[..AlphaPrefix(s)]))
  {
    hide IsAlpha, Tail, Decode, AlphaPrefix;
    var k := AlphaPrefix(s);
    var n := k % 4;
    var q, t := s[..k - n], s[k - n..];
    assert s == q + t;
    AlphaSplit(s, k, n);
    AlphaRun(q, t);
    ShortOutput(t, n);
    assert s[..k] == q + t[..n];
    PaddedSplits(q, t[..n]);
    DecodeAppend(q, Padded(t[..n]));
  }

  lemma AlphaSplit(s: seq<byte>, k: nat, n: nat)
    requires n <= k <= |s| && AllAlpha(s[..k]) && (k < |s| ==> !IsAlpha(s[k]))
    ensures var q, t := s[..k - n], s[k - n..];
            AllAlpha(q) && AllAlpha(t[..n]) && (n < |t| ==> !IsAlpha(t[n]))
  {
    hide IsAlpha;
    assert s[..k - n] == s[..k][..k - n] && s[k - n..][..n] == s[..k][k - n..];
  }

  lemma PaddedSplits(q: seq<byte>, r: seq<byte>)
    requires |q| % 4 == 0 && |r| < 4
    ensures Padded(q + r) == q + Padded(r)
  {
    var m := |q| / 4;
    assert |q| == 4 * m && |q + r| % 4 == |r|;
    if |r| == 1 {
      assert (q + r)[..|q + r| - 1] == q + r[..0];
    }
  }
}
