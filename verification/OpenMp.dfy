/** lib_openmp.c: the input is cut into one part for every thread and a remainder. */
module OpenMp {
  import opened Tables
  import opened Memory
  import opened StreamState
  import Rfc4648
  import Encoder
  import Decoder
  import EncodeStream
  import DecodeStream
  import opened OneShot

  // Cutting the input.

  /** Length of each part: a multiple of `q`. */
  function PartLen(n: nat, threads: nat, q: nat): nat
    requires threads > 0 && q > 0
  {
    n / (threads * q) * q
  }

  /** Where part `i` begins, if each has `k` bytes. */
  function At(i: nat, k: nat): (at: nat) {
    i * k
  }

  lemma AtZero(k: nat)
    ensures At(0, k) == 0
  {
  }

  /** Part `i` of the input. */
  function Part(src: seq<byte>, len: nat, i: nat): (p: seq<byte>)
    ensures At(i, len) + len <= |src| ==> |p| == len
  {
    var at := At(i, len);
    if at + len <= |src| then src[at..at + len] else []
  }

  /** The parts are as long as they can be: with one more group each they would exceed the input. */
  lemma PartsFit(n: nat, threads: nat, q: nat)
    requires threads > 0 && q > 0
    ensures var len := PartLen(n, threads, q);
            len % q == 0 && At(threads, len) <= n < At(threads, len + q)
  {
    var d := threads * q;
    var k := n / d;
    assert n == k * d + n % d;
    assert k * d == threads * (k * q);
    assert threads * (k * q + q) == k * d + d;
    Multiple(k, q);
  }

  lemma Multiple(k: nat, q: nat)
    requires q > 0
    ensures k * q % q == 0
  {
    var x := k * q;
    var m, rest := x / q, x % q;
    assert x == q * m + rest;
    NoMultipleBetween(k - m, q);
    assert (k - m) * q == rest;
  }

  lemma NoMultipleBetween(d: int, q: nat)
    ensures d * q <= 0 || d * q >= q
  {
  }

  /** The ranges of the first `i` parts, each `k` bytes long. */
  function Bounds(i: nat, k: nat): (b: seq<nat>)
    ensures |b| == i + 1 && forall j :: 0 <= j <= i ==> b[j] == At(j, k)
    decreases i
  {
    if i == 0 then [0] else Bounds(i - 1, k) + [At(i, k)]
  }

  lemma BoundsIncrease(i: nat, k: nat)
    ensures forall a, b :: 0 <= a <= b <= i ==> Bounds(i, k)[a] <= Bounds(i, k)[b] <= At(i, k)
  {
  }

  /** The parts so far keep to their ranges; so does one more. */
  lemma OneMorePart(parts: seq<seq<Write>>, log: seq<Write>, k: nat, size: nat)
    requires Separated(parts, Bounds(|parts|, k), size)
    requires Within(log, At(|parts|, k), At(|parts| + 1, k)) && At(|parts| + 1, k) <= size
    ensures Separated(parts + [log], Bounds(|parts| + 1, k), size)
  {
    var n := |parts|;
    BoundsIncrease(n + 1, k);
    forall i | 0 <= i <= n
      ensures Within((parts + [log])[i], Bounds(n + 1, k)[i], Bounds(n + 1, k)[i + 1])
    {
      if i < n {
        assert Within(parts[i], Bounds(n, k)[i], Bounds(n, k)[i + 1]);
      }
    }
  }

  // The parallel region, as a set of schedules.

  /** The contents `m` are what the parts' stores leave, in the order of `t` and so in any other. */
  ghost predicate Region(m0: seq<byte>, m: seq<byte>, parts: seq<seq<Write>>, t: seq<Step>, k: nat) {
    && |m| == |m0|
    && Separated(parts, Bounds(|parts|, k), |m0|)
    && Interleaves(t, parts)
    && Within(Stores(t), 0, |m0|)
    && m == Replay(m0, Stores(t))
  }

  lemma RegionStart(m: seq<byte>, k: nat)
    ensures Region(m, m, [], [], k)
  {
  }

  lemma RegionNext(m0: seq<byte>, m: seq<byte>, parts: seq<seq<Write>>, t: seq<Step>, k: nat, log: seq<Write>)
    requires Region(m0, m, parts, t, k)
    requires Within(log, At(|parts|, k), At(|parts| + 1, k)) && At(|parts| + 1, k) <= |m0|
    ensures Within(log, 0, |m|)
    ensures Region(m0, Replay(m, log), parts + [log], t + Tagged(|parts|, log), k)
  {
    hide Replay;
    OneMorePart(parts, log, k, |m0|);
    RunNext(t, parts, log);
    ReplayAppend(m0, Stores(t), log);
  }

  /** Whatever order the threads' stores are made in, the same contents are left. */
  lemma EverySchedule(m0: seq<byte>, m: seq<byte>, parts: seq<seq<Write>>, t: seq<Step>, k: nat)
    requires Region(m0, m, parts, t, k)
    ensures AnySchedule(m0, m, parts)
  {
    hide Replay;
    forall u | Interleaves(u, parts)
      ensures Within(Stores(u), 0, |m0|) && Replay(m0, Stores(u)) == m
    {
      ScheduleIndependent(m0, t, u, parts, Bounds(|parts|, k));
    }
  }

  /** The region stores nothing behind the last part. */
  lemma RegionFramed(m0: seq<byte>, m: seq<byte>, parts: seq<seq<Write>>, t: seq<Step>, k: nat)
    requires Region(m0, m, parts, t, k)
    ensures At(|parts|, k) <= |m| && m[At(|parts|, k)..] == m0[At(|parts|, k)..]
  {
    hide At, Replay;
    var n := At(|parts|, k);
    BoundsIncrease(|parts|, k);
    assert Bounds(|parts|, k)[|parts|] == n;
    InterleavingWithin(t, parts, Bounds(|parts|, k), n);
    Framed(m0, Stores(t), 0, n);
  }

  /**
   * The parts store in `threads` separate ranges of `k` bytes; every interleaving of their stores leaves
   * `region` of `m0`, and what then follows leaves those ranges as they are.
   */
  ghost predicate InParallel(m0: seq<byte>, m: seq<byte>, region: seq<byte>, parts: seq<seq<Write>>,
                             threads: nat, k: nat)
  {
    && |parts| == threads && Separated(parts, Bounds(threads, k), |m0|)
    && AnySchedule(m0, region, parts)
    && At(threads, k) <= |m| == |region| && m[..At(threads, k)] == region[..At(threads, k)]
  }

  ghost predicate AnySchedule(m0: seq<byte>, m: seq<byte>, parts: seq<seq<Write>>) {
    forall u :: Interleaves(u, parts) ==> Within(Stores(u), 0, |m0|) && Replay(m0, Stores(u)) == m
  }

  // Encoding.

  lemma WholeGroups(part: seq<byte>)
    requires |part| % 3 == 0
    ensures Encoder.Call(Encoder.INITIAL, part).out == Rfc4648.Encode(part)
  {
    Encoder.CallThenFinal(part);
    Encoder.OutputLength(Encoder.INITIAL, part);
    hide Encoder.Call, Rfc4648.Encode;
    var r := Encoder.Call(Encoder.INITIAL, part);
    assert Encoder.Final(r.st) == [] && r.out + [] == r.out;
  }

  /** One part: a fresh copy of the initial state, and nothing touched outside the part's own output. */
  method EncodePart(codec: EncodeStream.Codec, part: seq<byte>, out: array<byte>, o: nat, flags: int)
    returns (s: nat, ghost log: seq<Write>)
    requires codec.Valid() && |part| % 3 == 0 && o + |part| / 3 * 4 <= out.Length
    modifies out
    ensures s == |part| / 3 * 4 && Within(log, o, o + s) && out[..] == Replay(old(out[..]), log)
    ensures log == EncodeStream.CallLog(codec, Encoder.INITIAL, part, o)
    ensures out[..o] == old(out[..o]) && out[o..o + s] == Rfc4648.Encode(part) && out[o + s..] == old(out[o + s..])
  {
    hide Replay, Encoder.Call, Rfc4648.Encode;
    var state := new Base64State(flags);
    assert state.Encoding() == Encoder.INITIAL;
    ghost var m := out[..];
    s, log := EncodeStream.Encode(codec, state, part, out, o);
    WholeGroups(part);
    Framed(m, log, o, o + s);
    assert out[..o] == out[..][..o] && m[..o] == old(out[..o]);
  }

  /** Offsets are computed as `At(i, len) * 4 / 3`, lengths per part as multiples. */
  lemma PartOffset(i: nat, len: nat)
    requires len % 3 == 0
    ensures At(i, len) * 4 / 3 == At(i, len / 3 * 4) && At(i, len) % 3 == 0
  {
    var l := len / 3;
    assert len == 3 * l;
    assert At(i, len) == 3 * (i * l);
    assert i * (l * 4) == 4 * (i * l);
  }

  lemma NextOffset(i: nat, threads: nat, len: nat)
    requires i < threads
    ensures At(i + 1, len) == At(i, len) + len && At(i + 1, len) <= At(threads, len)
  {
    hide At;
    Distribute(i, 1, len);
    Distribute(i + 1, threads - (i + 1), len);
  }

  lemma Distribute(a: nat, b: nat, k: nat)
    ensures At(a + b, k) == At(a, k) + At(b, k) && At(1, k) == k
  {
  }

  lemma AppendPart(src: seq<byte>, a: nat, b: nat)
    requires a <= b <= |src| && a % 3 == 0
    ensures Rfc4648.Encode(src[..b]) == Rfc4648.Encode(src[..a]) + Rfc4648.Encode(src[a..b])
  {
    hide Rfc4648.Encode;
    assert src[..b] == src[..a] + src[a..b];
    Rfc4648.EncodeAppend(src[..a], src[a..b]);
  }

  /** The stores of a part are fixed by the codec, the part and its offset, whatever the memory holds. */
  ghost predicate EncodeStores(codec: EncodeStream.Codec, src: seq<byte>, len: nat, i: nat, log: seq<Write>) {
    log == EncodeStream.CallLog(codec, Encoder.INITIAL, Part(src, len, i), At(i, len / 3 * 4))
  }

  ghost predicate EncodeLogs(codec: EncodeStream.Codec, src: seq<byte>, threads: nat, len: nat,
                             parts: seq<seq<Write>>)
  {
    && |parts| == threads && At(threads, len) <= |src|
    && forall i :: 0 <= i < threads ==> EncodeStores(codec, src, len, i, parts[i])
  }

  /** The parallel loop, in one of its schedules; its contract speaks of all of them. */
  method EncodeParts(codec: EncodeStream.Codec, src: seq<byte>, threads: nat, len: nat, out: array<byte>, flags: int)
    returns (sum: nat, ghost parts: seq<seq<Write>>)
    requires codec.Valid() && len % 3 == 0 && At(threads, len) <= |src| && At(threads, len / 3 * 4) <= out.Length
    modifies out
    ensures |parts| == threads && Separated(parts, Bounds(threads, len / 3 * 4), out.Length)
    ensures EncodeLogs(codec, src, threads, len, parts)
    ensures AnySchedule(old(out[..]), out[..], parts)
    ensures sum == At(threads, len / 3 * 4) && out[..sum] == Rfc4648.Encode(src[..At(threads, len)])
    ensures out[sum..] == old(out[sum..])
  {
    hide At, Replay, Region, Rfc4648.Encode, EncodeStores, EncodeStream.CallLog, Separated, AnySchedule;
    ghost var m0, k, t := out[..], len / 3 * 4, [];
    parts, sum := [], 0;
    RegionStart(m0, k);
    AtZero(k);
    AtZero(len);
    EncodedNothing(src, out[..]);
    for i := 0 to threads
      invariant |parts| == i && Region(m0, out[..], parts, t, k)
      invariant forall j :: 0 <= j < i ==> EncodeStores(codec, src, len, j, parts[j])
      invariant At(i, len) <= |src| && At(i, k) <= out.Length
      invariant sum == At(i, k) && out[..sum] == Rfc4648.Encode(src[..At(i, len)])
    {
      NextOffset(i, threads, len);
      NextOffset(i, threads, k);
      PartOffset(i, len);
      ghost var m := out[..];
      var s, log := EncodePart(codec, src[At(i, len)..At(i + 1, len)], out, At(i, len) * 4 / 3, flags);
      RegionNext(m0, m, parts, t, k, log);
      AppendPart(src, At(i, len), At(i + 1, len));
      Joined(m, out[..], sum, sum + s);
      StoresOfPart(codec, src, threads, len, i, log);
      t := t + Tagged(i, log);
      parts := parts + [log];
      sum := sum + s;
    }
    RegionSeparated(m0, out[..], parts, t, k);
    RegionFramed(m0, out[..], parts, t, k);
    EverySchedule(m0, out[..], parts, t, k);
  }

  lemma StoresOfPart(codec: EncodeStream.Codec, src: seq<byte>, threads: nat, len: nat, i: nat, log: seq<Write>)
    requires i < threads && At(threads, len) <= |src| && len % 3 == 0 && At(i + 1, len) == At(i, len) + len <= |src|
    requires log == EncodeStream.CallLog(codec, Encoder.INITIAL, src[At(i, len)..At(i + 1, len)], At(i, len) * 4 / 3)
    ensures EncodeStores(codec, src, len, i, log)
  {
    hide At;
    PartOffset(i, len);
  }

  /** What was written before `a` and what has been written behind it. */
  lemma Joined(m1: seq<byte>, m2: seq<byte>, a: nat, b: nat)
    requires a <= b <= |m2| && a <= |m1| && m2[..a] == m1[..a]
    ensures m2[..b] == m1[..a] + m2[a..b]
  {
    assert m2[..b] == m2[..a] + m2[a..b];
  }

  lemma EncodedNothing(src: seq<byte>, m: seq<byte>)
    ensures m[..0] == Rfc4648.Encode(src[..0])
  {
  }

  lemma RegionSeparated(m0: seq<byte>, m: seq<byte>, parts: seq<seq<Write>>, t: seq<Step>, k: nat)
    requires Region(m0, m, parts, t, k)
    ensures Separated(parts, Bounds(|parts|, k), |m|)
  {
  }

  /** What the parts and the remainder write add up to the length of the whole encoding. */
  lemma EncodedSizes(n: nat, threads: nat, len: nat)
    requires threads > 0 && len == PartLen(n, threads, 3)
    ensures len % 3 == 0 && At(threads, len) <= n && At(threads, len) % 3 == 0
    ensures At(threads, len) * 4 / 3 == At(threads, len / 3 * 4)
    ensures At(threads, len / 3 * 4) + (n - At(threads, len) + 2) / 3 * 4 == (n + 2) / 3 * 4
  {
    hide At;
    PartsFit(n, threads, 3);
    PartOffset(threads, len);
    GroupsBefore(n, At(threads, len), At(threads, len / 3 * 4));
  }

  lemma GroupsBefore(n: nat, a: nat, o: nat)
    requires a <= n && a % 3 == 0 && a * 4 / 3 == o
    ensures o + (n - a + 2) / 3 * 4 == (n + 2) / 3 * 4
  {
    var k := a / 3;
    assert a == 3 * k && o == 4 * k;
    assert (n + 2) / 3 == k + (n - a + 2) / 3;
  }

  /** base64_encode_openmp */
  method Encode(codec: EncodeStream.Codec, src: seq<byte>, threads: nat, out: array<byte>, flags: int)
    returns (outlen: nat, ghost parts: seq<seq<Write>>, ghost region: seq<byte>)
    requires codec.Valid() && threads > 0 && (|src| + 2) / 3 * 4 <= out.Length
    modifies out
    ensures outlen <= out.Length && out[..outlen] == Rfc4648.Encode(src) && out[outlen..] == old(out[outlen..])
    ensures var len := PartLen(|src|, threads, 3);
            && EncodeLogs(codec, src, threads, len, parts)
            && InParallel(old(out[..]), out[..], region, parts, threads, len / 3 * 4)
            && At(threads, len / 3 * 4) <= outlen
  {
    hide At, Rfc4648.Encode, Separated, AnySchedule, Bounds, EncodeLogs;
    ghost var m0 := out[..];
    var len := PartLen(|src|, threads, 3);
    EncodedSizes(|src|, threads, len);
    var sum: nat;
    sum, parts := EncodeParts(codec, src, threads, len, out, flags);
    region := out[..];
    ghost var n := At(threads, len);
    outlen := EncodeWhole(codec, src[At(threads, len)..], out, At(threads, len) * 4 / 3, flags);
    AppendPart(src, n, |src|);
    assert src[..|src|] == src && src[n..|src|] == src[n..];
    outlen := sum + outlen;
    Extended(region, out[..], 0, sum, outlen);
    StillUnchanged(m0, region, out[..], sum, outlen);
    assert region[0..sum] == region[..sum] && out[..][0..outlen] == out[..outlen];
  }

  // Decoding.

  /** A call that returns 1 leaves `bytes` where the number of characters says, except at the padding. */
  lemma {:induction false} BytesAfter(st: Decoder.State, s: seq<byte>)
    requires Decoder.Reachable(st) && st.eof == 0 && Decoder.Tail(st, s).ret == 1
    ensures (st.bytes + |s|) % 4 == 0 ==> Decoder.Tail(st, s).st.bytes == 0
    decreases |s|
  {
    if s != [] && IsAlpha(s[0]) {
      BytesAfter(Decoder.Next(st, s[0]), s[1..]);
    }
  }

  /** A part of whole quanta returns 1 exactly if it is a string of the language by itself. */
  lemma PartAccepted(part: seq<byte>)
    requires |part| % 4 == 0
    ensures Decoder.Call(Decoder.INITIAL, part).ret == 1 <==> Rfc4648.Quanta(part)
    ensures Rfc4648.Quanta(part) ==> Decoder.Call(Decoder.INITIAL, part).out == Rfc4648.Decode(part)
  {
    hide Decoder.Tail, Rfc4648.Quanta, Rfc4648.Decode;
    Decoder.AcceptsQuanta(part);
    if Decoder.Call(Decoder.INITIAL, part).ret == 1 {
      BytesAfter(Decoder.INITIAL, part);
    }
  }

  /** The parallel decoder's verdict: every part by itself, then the remainder. */
  ghost predicate ParallelAccepts(src: seq<byte>, threads: nat)
    requires threads > 0
  {
    var len := PartLen(|src|, threads, 4);
    PartsFit(|src|, threads, 4);
    && (forall i :: 0 <= i < threads ==> PartOk(src, len, i))
    && Rfc4648.Quanta(src[At(threads, len)..])
  }

  ghost predicate PartOk(src: seq<byte>, len: nat, i: nat) {
    Rfc4648.Quanta(Part(src, len, i))
  }

  /** The padding that the parallel decoder does not see: at the end of a part, but not of the input. */
  ghost predicate HiddenPadding(src: seq<byte>, len: nat, i: nat) {
    len > 0 && At(i, len) + len < |src| && src[At(i, len) + len - 1] == PAD
  }

  /** Only the last quantum can be padded. */
  lemma FirstQuantum(s: seq<byte>)
    requires |s| > 4 && Rfc4648.Quanta(s)
    ensures AllAlpha(s[..4])
  {
    hide IsAlpha;
  }

  lemma {:induction false} QuantaAppend(a: seq<byte>, b: seq<byte>)
    requires |a| % 4 == 0 && b != []
    ensures Rfc4648.Quanta(a + b) <==> AllAlpha(a) && Rfc4648.Quanta(b)
    decreases |a|
  {
    if a == [] {
      assert a + b == b;
      return;
    }
    hide IsAlpha, Rfc4648.Quanta;
    var q, a' := a[..4], a[4..];
    QuantaAppend(a', b);
    assert a == q + a' && (a + b)[..4] == q;
    assert a + b == q + (a' + b);
    assert AllAlpha(a) <==> AllAlpha(q) && AllAlpha(a');
    if Rfc4648.Quanta(a + b) {
      FirstQuantum(a + b);
    }
    if AllAlpha(q) {
      Rfc4648.QuantaCons(q, a' + b);
    }
  }

  /** A string of quanta is unpadded exactly if its last character is not '='. */
  lemma {:induction false} Unpadded(a: seq<byte>)
    requires Rfc4648.Quanta(a)
    ensures AllAlpha(a) <==> a == [] || a[|a| - 1] != PAD
    decreases |a|
  {
    if |a| > 4 {
      var a' := a[4..];
      Unpadded(a');
      assert a == a[..4] + a';
    }
  }

  lemma {:induction false} AlphaIsQuanta(a: seq<byte>)
    requires |a| % 4 == 0 && AllAlpha(a)
    ensures Rfc4648.Quanta(a)
    decreases |a|
  {
    if a != [] {
      AlphaIsQuanta(a[4..]);
    }
  }

  /** A part is alphabet characters only if it is accepted and hides no padding. */
  lemma PartIsAlpha(src: seq<byte>, threads: nat, len: nat, i: nat)
    requires i < threads && At(threads, len) <= |src| && len % 4 == 0 && At(i, len) + len < |src|
    ensures At(i + 1, len) == At(i, len) + len
    ensures AllAlpha(Part(src, len, i)) <==> PartOk(src, len, i) && !HiddenPadding(src, len, i)
  {
    hide At;
    NextOffset(i, threads, len);
    var part := Part(src, len, i);
    hide IsAlpha, Rfc4648.Quanta;
    if AllAlpha(part) {
      AlphaIsQuanta(part);
    }
    if Rfc4648.Quanta(part) {
      Unpadded(part);
    }
  }

  ghost predicate QuantaFrom(src: seq<byte>, at: int) {
    0 <= at <= |src| && Rfc4648.Quanta(src[at..])
  }

  /** The string from part `i` on, seen as that part and the string after it. */
  lemma SuffixStep(src: seq<byte>, threads: nat, len: nat, i: nat)
    requires i < threads && At(threads, len) <= |src| && len % 4 == 0
    ensures QuantaFrom(src, At(i, len)) <==>
            QuantaFrom(src, At(i + 1, len)) && PartOk(src, len, i) && !HiddenPadding(src, len, i)
  {
    hide At, Rfc4648.Quanta, HiddenPadding, IsAlpha;
    NextOffset(i, threads, len);
    var part, rest := Part(src, len, i), src[At(i + 1, len)..];
    assert src[At(i, len)..] == part + rest;
    if rest == [] {
      assert part + rest == part;
      QuantaEmpty();
      NothingHidden(src, len, i);
    } else {
      QuantaAppend(part, rest);
      PartIsAlpha(src, threads, len, i);
    }
  }

  lemma {:induction false} SuffixAccepted(src: seq<byte>, threads: nat, len: nat, i: nat)
    requires i <= threads && At(threads, len) <= |src| && len % 4 == 0
    ensures QuantaFrom(src, At(i, len)) <==>
            QuantaFrom(src, At(threads, len)) &&
            forall j :: i <= j < threads ==> PartOk(src, len, j) && !HiddenPadding(src, len, j)
    decreases threads - i
  {
    hide At, QuantaFrom, PartOk, HiddenPadding;
    if i < threads {
      SuffixStep(src, threads, len, i);
      SuffixAccepted(src, threads, len, i + 1);
    }
  }

  lemma QuantaEmpty()
    ensures Rfc4648.Quanta([])
  {
  }

  lemma NothingHidden(src: seq<byte>, len: nat, i: nat)
    requires At(i, len) + len >= |src|
    ensures !HiddenPadding(src, len, i)
  {
    hide At;
  }

  /**
   * Parallel and sequential decoding accept the same strings except those with padding at the end
   * of a part that is not the end of the input, which only the parallel decoder accepts.
   */
  lemma ParallelVersusSequential(src: seq<byte>, threads: nat)
    requires threads > 0
    ensures var len := PartLen(|src|, threads, 4);
            Decoder.Accepts(src) <==>
            ParallelAccepts(src, threads) && forall i :: 0 <= i < threads ==> !HiddenPadding(src, len, i)
  {
    hide At;
    var len := PartLen(|src|, threads, 4);
    PartsFit(|src|, threads, 4);
    hide Rfc4648.Quanta, Decoder.Accepts;
    AtZero(len);
    assert src[At(0, len)..] == src;
    SuffixAccepted(src, threads, len, 0);
    Decoder.AcceptsQuanta(src);
  }

  /** Without '=' the two verdicts are the same. */
  lemma SameWithoutPadding(src: seq<byte>, threads: nat)
    requires threads > 0 && forall i :: 0 <= i < |src| ==> src[i] != PAD
    ensures Decoder.Accepts(src) <==> ParallelAccepts(src, threads)
  {
    hide At;
    ParallelVersusSequential(src, threads);
  }

  lemma PaddedHalf(a: seq<byte>)
    requires |a| % 4 == 2 && AllAlpha(a)
    ensures Rfc4648.Quanta(a + [PAD, PAD])
  {
    hide Rfc4648.Quanta, IsAlpha;
    assert Rfc4648.PaddedBy(a + [PAD, PAD], 2);
    Rfc4648.QuantaIsLanguage(a + [PAD, PAD]);
  }

  /** A padded half and another one, cut in two, are accepted part by part, but are no string of the language. */
  lemma HiddenPaddingAccepted(a: seq<byte>, b: seq<byte>, k: nat)
    requires k > 0 && |a| == 4 * k - 2 && |b| == 4 * k && AllAlpha(a) && AllAlpha(b)
    ensures var src := a + [PAD, PAD] + b;
            ParallelAccepts(src, 2) && !Decoder.Accepts(src)
  {
    hide Rfc4648.Quanta, IsAlpha, Decoder.Accepts, At, PartLen, AllAlpha;
    var src := a + [PAD, PAD] + b;
    PartLenOfTwo(k);
    assert Part(src, 4 * k, 0) == a + [PAD, PAD] && Part(src, 4 * k, 1) == b;
    PaddedHalf(a);
    AlphaIsQuanta(b);
    assert src[8 * k..] == [];
    QuantaEmpty();
    assert HiddenPadding(src, 4 * k, 0);
    ParallelVersusSequential(src, 2);
  }

  lemma PartLenOfTwo(k: nat)
    ensures PartLen(8 * k, 2, 4) == 4 * k && At(0, 4 * k) == 0 && At(1, 4 * k) == 4 * k && At(2, 4 * k) == 8 * k
  {
  }

  method DecodePart(codec: DecodeStream.Codec, part: seq<byte>, out: array<byte>, o: nat, flags: int)
    returns (ret: int, s: nat, ghost log: seq<Write>)
    requires |part| % 4 == 0 && o + |part| / 4 * 3 <= out.Length
    modifies out
    ensures ret == if Rfc4648.Quanta(part) then 1 else 0
    ensures log == DecodeStream.CallLog(codec, Decoder.INITIAL, part, o)
    ensures Within(log, o, o + |part| / 4 * 3) && out[..] == Replay(old(out[..]), log)
    ensures out[..o] == old(out[..o]) && out[o + |part| / 4 * 3..] == old(out[o + |part| / 4 * 3..])
    ensures ret == 1 ==> o + s <= out.Length && out[o..o + s] == Rfc4648.Decode(part)
  {
    hide Replay, Decoder.Tail, Rfc4648.Quanta, Rfc4648.Decode;
    var state := new Base64State(flags);
    assert state.Decoding() == Decoder.INITIAL;
    PartAccepted(part);
    ghost var m := out[..];
    ret, s, log := DecodeStream.Decode(codec, state, part, out, o);
    Framed(m, log, o, o + |part| / 4 * 3);
    assert out[..o] == out[..][..o] && m[..o] == old(out[..o]);
  }

  /** What `n` of the parts have decoded to, if the whole input is a string of the language. */
  ghost predicate DecodedSoFar(src: seq<byte>, m: seq<byte>, sum: nat, at: nat) {
    && at <= |src| && sum <= |m|
    && m[..sum] == Rfc4648.Decode(src[..at])
    && (at < |src| ==> 4 * sum == 3 * at)
  }

  lemma {:induction false} DecodeLength(a: seq<byte>)
    requires |a| % 4 == 0 && AllAlpha(a)
    ensures 4 * |Rfc4648.Decode(a)| == 3 * |a|
    decreases |a|
  {
    if a != [] {
      var q, a' := a[..4], a[4..];
      assert a == q + a';
      Rfc4648.DecodeCons(q, a');
      DecodeLength(a');
    }
  }

  /** Another piece of the input, decoded where its offset says. */
  lemma DecodedMore(src: seq<byte>, m1: seq<byte>, m2: seq<byte>, sum: nat, at: nat, to: nat, o: nat, s: nat)
    requires Rfc4648.Quanta(src) && DecodedSoFar(src, m1, sum, at)
    requires at % 4 == 0 && (to - at) % 4 == 0 && at < to <= |src| && 4 * o == 3 * at
    requires o + s <= |m2| && o <= |m1| && m2[..o] == m1[..o] && m2[o..o + s] == Rfc4648.Decode(src[at..to])
    ensures DecodedSoFar(src, m2, sum + s, to)
  {
    hide Rfc4648.Quanta, Rfc4648.Decode, IsAlpha;
    var a, b := src[..at], src[at..to];
    assert src == a + src[at..];
    QuantaAppend(a, src[at..]);
    assert src[..to] == a + b;
    Rfc4648.DecodeAppend(a, b);
    Extended(m1, m2, 0, o, o + s);
    assert m1[0..o] == m1[..o] && m2[0..o + s] == m2[..o + s];
    if to < |src| {
      assert src == src[..to] + src[to..];
      QuantaAppend(src[..to], src[to..]);
      DecodeLength(src[..to]);
    }
  }

  lemma DecodedNothing(src: seq<byte>, m: seq<byte>)
    ensures DecodedSoFar(src, m, 0, 0)
  {
  }

  lemma DecodedEmptyPart(src: seq<byte>, m1: seq<byte>, m2: seq<byte>, sum: nat, w: seq<byte>)
    requires DecodedSoFar(src, m1, sum, 0) && w == Rfc4648.Decode([])
    ensures DecodedSoFar(src, m2, sum + |w|, 0)
  {
  }

  /** If the whole input is a string of the language, so is every part by itself. */
  lemma PartOfQuanta(src: seq<byte>, threads: nat, len: nat, i: nat)
    requires i < threads && At(threads, len) <= |src| && len % 4 == 0 && Rfc4648.Quanta(src)
    ensures PartOk(src, len, i)
  {
    hide At, Rfc4648.Quanta;
    AtZero(len);
    assert src[At(0, len)..] == src;
    SuffixAccepted(src, threads, len, 0);
  }

  /** The bookkeeping of one iteration, for an input that is a string of the language. */
  lemma AfterPart(src: seq<byte>, threads: nat, len: nat, i: nat, m1: seq<byte>, m2: seq<byte>, sum: nat, s: nat,
                  ret: int)
    requires i < threads && At(threads, len) <= |src| && len % 4 == 0 && At(i + 1, len) <= |src|
    requires Rfc4648.Quanta(src) ==> DecodedSoFar(src, m1, sum, At(i, len))
    requires var o := At(i, len / 4 * 3);
             && o <= |m1| && o <= |m2| && m2[..o] == m1[..o]
             && (ret == 1 ==> o + s <= |m2| && m2[o..o + s] == Rfc4648.Decode(Part(src, len, i)))
    requires ret == if PartOk(src, len, i) then 1 else 0
    ensures Rfc4648.Quanta(src) ==> DecodedSoFar(src, m2, sum + s, At(i + 1, len))
  {
    hide At, Rfc4648.Quanta, Rfc4648.Decode, DecodedSoFar, PartOk;
    if Rfc4648.Quanta(src) {
      PartOfQuanta(src, threads, len, i);
      NextOffset(i, threads, len);
      DecodeOffset(i, len);
      var o := At(i, len / 4 * 3);
      if len > 0 {
        DecodedMore(src, m1, m2, sum, At(i, len), At(i + 1, len), o, s);
      } else {
        assert Part(src, len, i) == [];
        DecodedEmptyPart(src, m1, m2, sum, m2[o..o + s]);
      }
    }
  }

  lemma DecodeOffset(i: nat, len: nat)
    requires len % 4 == 0
    ensures At(i, len) * 3 / 4 == At(i, len / 4 * 3) && At(i, len) % 4 == 0 && 4 * At(i, len / 4 * 3) == 3 * At(i, len)
  {
    var l := len / 4;
    assert len == 4 * l;
    assert At(i, len) == 4 * (i * l);
    assert i * (l * 3) == 3 * (i * l);
  }

  /** The stores of a part are fixed by the codec, the part and its offset, whatever the memory holds. */
  ghost predicate DecodeStores(codec: DecodeStream.Codec, src: seq<byte>, len: nat, i: nat, log: seq<Write>) {
    log == DecodeStream.CallLog(codec, Decoder.INITIAL, Part(src, len, i), At(i, len / 4 * 3))
  }

  ghost predicate DecodeLogs(codec: DecodeStream.Codec, src: seq<byte>, threads: nat, len: nat,
                             parts: seq<seq<Write>>)
  {
    && |parts| == threads && At(threads, len) <= |src|
    && forall i :: 0 <= i < threads ==> DecodeStores(codec, src, len, i, parts[i])
  }

  /** What part `i` decodes to stands at the beginning of the part's own output. */
  ghost predicate PartDecoded(src: seq<byte>, len: nat, i: nat, m: seq<byte>) {
    var o, d := At(i, len / 4 * 3), Rfc4648.Decode(Part(src, len, i));
    o + |d| <= |m| && m[o..o + |d|] == d
  }

  /** The lengths of what the first `n` parts decode to, added up. */
  ghost function DecodedLength(src: seq<byte>, len: nat, n: nat): nat
    decreases n
  {
    if n == 0 then 0 else DecodedLength(src, len, n - 1) + |Rfc4648.Decode(Part(src, len, n - 1))|
  }

  /** The first `n` parts have been decoded, each in its place. */
  ghost predicate InPlace(src: seq<byte>, len: nat, n: nat, m: seq<byte>, sum: nat) {
    && sum == DecodedLength(src, len, n)
    && forall i :: 0 <= i < n ==> PartDecoded(src, len, i, m)
  }

  lemma {:induction false} DecodeBound(s: seq<byte>)
    ensures 4 * |Rfc4648.Decode(s)| <= 3 * |s|
    decreases |s|
  {
    if |s| >= 4 {
      DecodeBound(s[4..]);
    }
  }

  /** Stores behind the output of a part do not disturb it. */
  lemma StillDecoded(src: seq<byte>, len: nat, i: nat, n: nat, m1: seq<byte>, m2: seq<byte>)
    requires i < n && len % 4 == 0
    requires At(n, len / 4 * 3) <= |m1| && At(n, len / 4 * 3) <= |m2|
    requires m2[..At(n, len / 4 * 3)] == m1[..At(n, len / 4 * 3)]
    requires PartDecoded(src, len, i, m1)
    ensures PartDecoded(src, len, i, m2)
  {
    hide At, Rfc4648.Decode;
    NextOffset(i, n, len / 4 * 3);
    var d := Rfc4648.Decode(Part(src, len, i));
    DecodeBound(Part(src, len, i));
    SameSlice(m1, m2, At(i, len / 4 * 3), At(i, len / 4 * 3) + |d|, At(n, len / 4 * 3));
  }

  lemma SameSlice(m1: seq<byte>, m2: seq<byte>, a: nat, b: nat, n: nat)
    requires a <= b <= n && n <= |m1| && n <= |m2| && m2[..n] == m1[..n]
    ensures m2[a..b] == m1[a..b]
  {
    assert m1[..n][a..b] == m1[a..b] && m2[..n][a..b] == m2[a..b];
  }

  /** Parts that were in place stay there while later output changes. */
  lemma StillInPlace(src: seq<byte>, len: nat, n: nat, o: nat, m1: seq<byte>, m2: seq<byte>, sum: nat)
    requires len % 4 == 0 && o == At(n, len / 4 * 3)
    requires o <= |m1| && o <= |m2| && m2[..o] == m1[..o]
    requires InPlace(src, len, n, m1, sum)
    ensures InPlace(src, len, n, m2, sum)
  {
    hide At, PartDecoded;
    forall i | 0 <= i < n
      ensures PartDecoded(src, len, i, m2)
    {
      StillDecoded(src, len, i, n, m1, m2);
    }
  }

  /** One more part. */
  lemma NextInPlace(src: seq<byte>, len: nat, i: nat, o: nat, m1: seq<byte>, m2: seq<byte>, sum: nat, s: nat)
    requires len % 4 == 0 && o == At(i, len / 4 * 3)
    requires o <= |m1| && o + s <= |m2| && m2[..o] == m1[..o]
    requires InPlace(src, len, i, m1, sum) && m2[o..o + s] == Rfc4648.Decode(Part(src, len, i))
    ensures InPlace(src, len, i + 1, m2, sum + s)
  {
    hide At, Rfc4648.Decode;
    StillInPlace(src, len, i, o, m1, m2, sum);
    assert |m2[o..o + s]| == s;
    assert PartDecoded(src, len, i, m2);
  }

  lemma NothingInPlace(src: seq<byte>, threads: nat, len: nat, m: seq<byte>)
    requires At(threads, len) <= |src|
    ensures InPlace(src, len, 0, m, 0)
  {
    hide At;
  }

  lemma DecodeStoresOfPart(codec: DecodeStream.Codec, src: seq<byte>, threads: nat, len: nat, i: nat, log: seq<Write>)
    requires i < threads && At(threads, len) <= |src| && len % 4 == 0 && At(i + 1, len) == At(i, len) + len <= |src|
    requires log == DecodeStream.CallLog(codec, Decoder.INITIAL, src[At(i, len)..At(i + 1, len)], At(i, len) * 3 / 4)
    ensures DecodeStores(codec, src, len, i, log)
  {
    hide At;
    DecodeOffset(i, len);
  }

  lemma PartVerdict(src: seq<byte>, threads: nat, len: nat, i: nat)
    requires i < threads && At(threads, len) <= |src| && At(i + 1, len) == At(i, len) + len <= |src|
    ensures PartOk(src, len, i) <==> Rfc4648.Quanta(src[At(i, len)..At(i + 1, len)])
    ensures Part(src, len, i) == src[At(i, len)..At(i + 1, len)]
  {
    hide At;
  }

  /** The parallel loop, in one of its schedules; its contract speaks of all of them. */
  method DecodeParts(codec: DecodeStream.Codec, src: seq<byte>, threads: nat, len: nat, out: array<byte>, flags: int)
    returns (result: int, sum: nat, ghost parts: seq<seq<Write>>)
    requires len % 4 == 0 && At(threads, len) <= |src| && At(threads, len / 4 * 3) <= out.Length
    modifies out
    ensures |parts| == threads && Separated(parts, Bounds(threads, len / 4 * 3), out.Length)
    ensures DecodeLogs(codec, src, threads, len, parts)
    ensures AnySchedule(old(out[..]), out[..], parts)
    ensures result == threads ==> InPlace(src, len, threads, out[..], sum)
    ensures result == threads <==> forall j :: 0 <= j < threads ==> PartOk(src, len, j)
    ensures Rfc4648.Quanta(src) ==> DecodedSoFar(src, out[..], sum, At(threads, len))
    ensures out[At(threads, len / 4 * 3)..] == old(out[At(threads, len / 4 * 3)..])
  {
    hide At, Replay, Region, Rfc4648.Decode, Rfc4648.Quanta, DecodedSoFar, PartOk, Separated, AnySchedule;
    hide DecodeStores, DecodeStream.CallLog, InPlace;
    ghost var m0, k, t := out[..], len / 4 * 3, [];
    parts, sum, result := [], 0, 0;
    RegionStart(m0, k);
    AtZero(k);
    AtZero(len);
    DecodedNothing(src, out[..]);
    NothingInPlace(src, threads, len, out[..]);
    for i := 0 to threads
      invariant |parts| == i && Region(m0, out[..], parts, t, k)
      invariant result <= i && (result == i <==> forall j :: 0 <= j < i ==> PartOk(src, len, j))
      invariant forall j :: 0 <= j < i ==> DecodeStores(codec, src, len, j, parts[j])
      invariant result == i ==> InPlace(src, len, i, out[..], sum)
      invariant At(i, len) <= |src| && At(i, k) <= out.Length
      invariant Rfc4648.Quanta(src) ==> DecodedSoFar(src, out[..], sum, At(i, len))
    {
      NextOffset(i, threads, len);
      NextOffset(i, threads, k);
      DecodeOffset(i, len);
      PartVerdict(src, threads, len, i);
      ghost var m := out[..];
      var ret, s, log := DecodePart(codec, src[At(i, len)..At(i + 1, len)], out, At(i, len) * 3 / 4, flags);
      RegionNext(m0, m, parts, t, k, log);
      AfterPart(src, threads, len, i, m, out[..], sum, s, ret);
      DecodeStoresOfPart(codec, src, threads, len, i, log);
      if result == i && ret == 1 {
        NextInPlace(src, len, i, At(i, k), m, out[..], sum, s);
      }
      t := t + Tagged(i, log);
      parts := parts + [log];
      result := result + ret;
      sum := sum + s;
    }
    RegionSeparated(m0, out[..], parts, t, k);
    RegionFramed(m0, out[..], parts, t, k);
    EverySchedule(m0, out[..], parts, t, k);
  }

  /** Every part is accepted by itself. */
  ghost predicate AllPartsOk(src: seq<byte>, threads: nat, len: nat) {
    forall i :: 0 <= i < threads ==> PartOk(src, len, i)
  }

  /** What one call emits for the remainder, accepted or not. */
  ghost function RestOut(src: seq<byte>, threads: nat, len: nat): seq<byte> {
    if At(threads, len) <= |src| then Decoder.Call(Decoder.INITIAL, src[At(threads, len)..]).out else []
  }

  /** The whole output, if every part is accepted: the parts and the remainder in place, and the lengths added up. */
  ghost predicate AllInPlace(src: seq<byte>, threads: nat, len: nat, m: seq<byte>, outlen: nat)
  {
    var o, d := At(threads, len / 4 * 3), RestOut(src, threads, len);
    && outlen == DecodedLength(src, len, threads) + |d|
    && (forall i :: 0 <= i < threads ==> PartDecoded(src, len, i, m))
    && o + |d| <= |m| && m[o..o + |d|] == d
  }

  lemma RestInPlace(src: seq<byte>, threads: nat, len: nat, o: nat, m1: seq<byte>, m2: seq<byte>, sum: nat, s: nat)
    requires o == At(threads, len / 4 * 3) && len % 4 == 0
    requires o <= |m1| && o + s <= |m2| && m2[..o] == m1[..o]
    requires InPlace(src, len, threads, m1, sum) && m2[o..o + s] == RestOut(src, threads, len)
    ensures AllInPlace(src, threads, len, m2, sum + s)
  {
    hide At, PartDecoded, DecodedLength, RestOut;
    StillInPlace(src, len, threads, o, m1, m2, sum);
    assert |m2[o..o + s]| == s;
  }

  /** base64_decode_openmp; a call with a refused part leaves the output length as `outlen0`. */
  method Decode(codec: DecodeStream.Codec, src: seq<byte>, threads: nat, out: array<byte>, outlen0: nat, flags: int)
    returns (ret: int, outlen: nat, ghost parts: seq<seq<Write>>, ghost region: seq<byte>)
    requires threads > 0 && Decoder.Extent(0, |src|) <= out.Length
    modifies out
    ensures ret == if ParallelAccepts(src, threads) then 1 else 0
    ensures Decoder.Accepts(src) ==> ret == 1 && outlen <= out.Length && out[..outlen] == Rfc4648.Decode(src)
    ensures out[Decoder.Extent(0, |src|)..] == old(out[Decoder.Extent(0, |src|)..])
    ensures var len := PartLen(|src|, threads, 4);
            && DecodeLogs(codec, src, threads, len, parts)
            && InParallel(old(out[..]), out[..], region, parts, threads, len / 4 * 3)
            && (AllPartsOk(src, threads, len) ==> AllInPlace(src, threads, len, out[..], outlen))
            && (!AllPartsOk(src, threads, len) ==> outlen == outlen0 && out[..] == region)
  {
    hide At, Replay, Rfc4648.Decode, Rfc4648.Quanta, DecodedSoFar, Decoder.Tail, Decoder.Extent;
    hide Separated, AnySchedule, PartOk, DecodeLogs, InPlace, AllInPlace;
    ghost var m0 := out[..];
    Decoder.AcceptsQuanta(src);
    ParallelVersusSequential(src, threads);
    var len := PartLen(|src|, threads, 4);
    ghost var o := At(threads, len / 4 * 3);
    DecodedSizes(|src|, threads, len, o);
    var result: int;
    var sum: nat;
    result, sum, parts := DecodeParts(codec, src, threads, len, out, flags);
    region := out[..];
    if result != threads {
      StillUnchanged(m0, region, region, o, Decoder.Extent(0, |src|));
      ret, outlen := 0, outlen0;
      return;
    }
    var rest := src[At(threads, len)..];
    var s: nat;
    ret, s := DecodeWhole(codec, rest, out, At(threads, len) * 3 / 4, flags);
    StillUnchanged(m0, region, out[..], o, Decoder.Extent(0, |src|));
    RestInPlace(src, threads, len, o, region, out[..], sum, s);
    DecodedRest(src, region, out[..], sum, At(threads, len), o, s, ret);
    outlen := sum + s;
  }

  /** Where the parts end in the input and in the output. */
  lemma DecodedSizes(n: nat, threads: nat, len: nat, o: nat)
    requires threads > 0 && len == PartLen(n, threads, 4) && o == At(threads, len / 4 * 3)
    ensures len % 4 == 0 && At(threads, len) <= n && At(threads, len) % 4 == 0
    ensures At(threads, len) * 3 / 4 == o && 4 * o == 3 * At(threads, len)
    ensures o + Decoder.Extent(0, n - At(threads, len)) == Decoder.Extent(0, n)
    ensures Decoder.Extent(0, n - At(threads, len)) >= 0
  {
    hide At;
    PartsFit(n, threads, 4);
    DecodeOffset(threads, len);
    DecodeStream.ExtentOfQuanta(n, At(threads, len), o);
  }

  /** The remainder decoded behind the parts, if the whole input is a string of the language. */
  lemma DecodedRest(src: seq<byte>, m1: seq<byte>, m2: seq<byte>, sum: nat, at: nat, o: nat, s: nat, ret: int)
    requires Rfc4648.Quanta(src) ==> DecodedSoFar(src, m1, sum, at)
    requires at <= |src| && at % 4 == 0 && 4 * o == 3 * at && |m1| == |m2| && o + s <= |m2| && m2[..o] == m1[..o]
    requires ret == if Rfc4648.Quanta(src[at..]) then 1 else 0
    requires m2[o..o + s] == Decoder.Call(Decoder.INITIAL, src[at..]).out
    requires ret == 1 ==> m2[o..o + s] == Rfc4648.Decode(src[at..])
    requires o + Decoder.Extent(0, |src| - at) <= |m2| && Decoder.Extent(0, |src| - at) >= 0
    requires m2[o + Decoder.Extent(0, |src| - at)..] == m1[o + Decoder.Extent(0, |src| - at)..]
    ensures Rfc4648.Quanta(src) ==> ret == 1 && sum + s <= |m2| && m2[..sum + s] == Rfc4648.Decode(src)
  {
    hide Rfc4648.Quanta, Rfc4648.Decode, DecodedSoFar, Decoder.Call, Decoder.Extent;
    if Rfc4648.Quanta(src) {
      if at == |src| {
        assert src[at..] == [];
        NothingLeft(m1, m2, o, s);
      }
      DecodedAll(src, m1, m2, sum, at, o, s, ret);
    }
  }

  /** The remainder may be empty, and then decoding it changes nothing. */
  lemma NothingLeft(m1: seq<byte>, m2: seq<byte>, o: nat, s: nat)
    requires |m1| == |m2| && o + s <= |m2| && m2[..o] == m1[..o]
    requires m2[o + Decoder.Extent(0, 0)..] == m1[o + Decoder.Extent(0, 0)..]
    requires m2[o..o + s] == Decoder.Call(Decoder.INITIAL, []).out
    ensures m2 == m1 && s == 0
  {
  }

  lemma {:induction false} QuantaLength(s: seq<byte>)
    requires Rfc4648.Quanta(s)
    ensures |s| % 4 == 0
    decreases |s|
  {
    if |s| > 4 {
      QuantaLength(s[4..]);
    }
  }

  /** The whole output, once the remainder has been decoded behind the parts. */
  lemma DecodedAll(src: seq<byte>, m1: seq<byte>, m2: seq<byte>, sum: nat, at: nat, o: nat, s: nat, ret: int)
    requires Rfc4648.Quanta(src) && DecodedSoFar(src, m1, sum, at) && at <= |src| && at % 4 == 0 && 4 * o == 3 * at
    requires ret == if Rfc4648.Quanta(src[at..]) then 1 else 0
    requires ret == 1 ==> o + s <= |m2| && m2[o..o + s] == Rfc4648.Decode(src[at..])
    requires o <= |m1| && o <= |m2| && m2[..o] == m1[..o] && (at == |src| ==> m2 == m1 && s == 0)
    ensures ret == 1 && sum + s <= |m2| && m2[..sum + s] == Rfc4648.Decode(src)
  {
    hide Rfc4648.Quanta, Rfc4648.Decode, IsAlpha, DecodedSoFar;
    if at < |src| {
      RestAccepted(src, at);
      DecodedMore(src, m1, m2, sum, at, |src|, o, s);
    } else {
      assert src[at..] == [];
      QuantaEmpty();
    }
    DecodedEnd(src, m2, sum + s);
  }

  lemma RestAccepted(src: seq<byte>, at: nat)
    requires Rfc4648.Quanta(src) && at < |src| && at % 4 == 0
    ensures Rfc4648.Quanta(src[at..]) && (|src| - at) % 4 == 0 && src[at..|src|] == src[at..]
  {
    hide Rfc4648.Quanta, AllAlpha;
    var a, b := src[..at], src[at..];
    assert src == a + b && b != [];
    QuantaAppend(a, b);
    QuantaLength(b);
  }

  lemma DecodedEnd(src: seq<byte>, m: seq<byte>, sum: nat)
    requires DecodedSoFar(src, m, sum, |src|)
    ensures sum <= |m| && m[..sum] == Rfc4648.Decode(src)
  {
    assert src[..|src|] == src;
  }
}
