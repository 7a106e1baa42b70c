/** The two directions of the command-line tool together. */
module Cli {
  import opened Tables
  import opened Console
  import opened Wrapping
  import Rfc4648
  import Decoder
  import EncodeStream
  import DecodeStream
  import CliEncode
  import opened CliDecode

  /** An encoding contains no newline, so removing those of the wrapped text restores it. */
  lemma StripLines(b: seq<byte>, wrap: nat)
    ensures Strip(Lines(Rfc4648.Encode(b), wrap)) == Rfc4648.Encode(b)
  {
    hide Rfc4648.Encode, Rfc4648.Quanta, Wrapped, ColAfter, Strip;
    var s := Rfc4648.Encode(b);
    Rfc4648.DecodeEncode(b);
    Rfc4648.QuantaIsLanguage(s);
    StripNothing(s);
    assert s + [] == s;
    if wrap > 0 {
      StripWrapped(s, 0, wrap);
      StripAppend(Begun(s, wrap), LastNewline(Column(|s|, wrap), wrap));
      StripNewline();
      StripNothing([]);
    }
  }

  /** A call that returns 1 has seen alphabet characters and padding only. */
  lemma {:induction false} NothingForeign(st: Decoder.State, s: seq<byte>)
    requires Decoder.Tail(st, s).ret == 1
    ensures forall i :: 0 <= i < |s| ==> IsAlpha(s[i]) || s[i] == PAD
    decreases |s|
  {
    if s != [] && IsAlpha(s[0]) {
      NothingForeign(Decoder.Next(st, s[0]), s[1..]);
    }
  }

  /** Every wrapped text but the empty one contains a newline. */
  lemma SomeNewline(s: seq<byte>, wrap: nat)
    requires wrap > 0 && s != []
    ensures 10 in Lines(s, wrap)
  {
    hide Wrapped, ColAfter;
    if |s| < wrap {
      WithinLine(s, 0, wrap);
      assert Lines(s, wrap)[|s|] == 10;
    } else {
      FullLine(s, wrap);
      assert Lines(s, wrap)[wrap] == 10;
    }
  }

  /** Of an empty text nothing is written. */
  lemma NoLines(wrap: nat)
    ensures Lines([], wrap) == []
  {
  }

  /**
   * What `encode` writes, `decode` restores, if newlines are stripped or none has been written;
   * otherwise it is refused.
   */
  lemma EndToEnd(b: seq<byte>, wrap: nat, strip: bool)
    ensures var r := Decoder.Call(Decoder.INITIAL, Stripped(Lines(Rfc4648.Encode(b), wrap), strip));
            && (strip || wrap == 0 || b == [] ==> r.ret == 1 && r.out == b && r.st.bytes == 0)
            && (!(strip || wrap == 0 || b == []) ==> r.ret == 0)
  {
    hide Decoder.Tail, Rfc4648.Encode, Rfc4648.Quanta, Wrapped, ColAfter, Strip;
    Rfc4648.EncodeLength(b);
    var s := Rfc4648.Encode(b);
    if strip || wrap == 0 {
      Decoder.RoundTrip(b);
      if strip {
        StripLines(b, wrap);
      } else {
        assert s + [] == s;
      }
    } else if b == [] {
      NoLines(wrap);
      Decoder.EmptyCall(Decoder.INITIAL);
    } else {
      SomeNewline(s, wrap);
      if Decoder.Tail(Decoder.INITIAL, Lines(s, wrap)).ret == 1 {
        NothingForeign(Decoder.INITIAL, Lines(s, wrap));
      }
    }
  }

  /** Whatever part of that text has been written, decoding it restores the beginning of the input. */
  lemma PrefixRestores(b: seq<byte>, wrap: nat, strip: bool, text: seq<byte>)
    requires (strip || wrap == 0) && Prefix(text, Lines(Rfc4648.Encode(b), wrap))
    ensures var r := Decoder.Call(Decoder.INITIAL, Stripped(text, strip));
            r.ret == 1 && Prefix(r.out, b)
  {
    hide Decoder.Call, Rfc4648.Encode, Lines, Stripped;
    var lines := Lines(Rfc4648.Encode(b), wrap);
    var p, q := Stripped(text, strip), Stripped(lines[|text|..], strip);
    EndToEnd(b, wrap, strip);
    assert lines == text + lines[|text|..];
    StrippedMore(text, lines[|text|..], strip);
    if q == [] {
      assert p + q == p;
    } else {
      Decoder.Split(Decoder.INITIAL, p, q);
    }
  }

  /**
   * `encode` into a pipe and `decode` from it: whatever the codecs, the wrap width, the pieces that
   * are read and the pieces that are written, a run that ends well leaves the input as the output,
   * and every other run the beginning of it.
   */
  method EncodeThenDecode(enc: EncodeStream.Codec, dec: DecodeStream.Codec, input: Input, wrap: nat, iovMax: nat,
                          pipe: Output, answers: seq<Answer>, strip: bool, out: Output)
    returns (first: Status, second: Status)
    requires enc.Valid() && iovMax > 0 && !input.error && pipe != out && pipe.data == [] && out.data == []
    requires strip || wrap == 0
    modifies input, pipe, out
    ensures first != DecodingError && second != DecodingError
    ensures first == Done && second == Done ==> out.data == old(input.data)
    ensures first == WriteError ==> !Ample(old(pipe.script), |Lines(Rfc4648.Encode(old(input.data)), wrap)|)
    ensures first == ReadError ==> Faulty(old(input.script))
    ensures second == WriteError ==> !Ample(old(out.script), |old(input.data)|)
    ensures second == ReadError ==> Faulty(answers)
    ensures Prefix(out.data, old(input.data))
  {
    hide Decoder.Call, Stripped, Lines, Rfc4648.Encode, Decoder.Truncation, Rfc4648.InLanguage;
    ghost var b := input.data;
    first := CliEncode.Encode(enc, input, wrap, iovMax, pipe);
    assert [] + Lines(Rfc4648.Encode(b), wrap) == Lines(Rfc4648.Encode(b), wrap);
    EndToEnd(b, wrap, strip);
    PrefixRestores(b, wrap, strip, pipe.data);
    ghost var r := Decoder.Call(Decoder.INITIAL, Stripped(pipe.data, strip));
    assert [] + r.out == r.out;
    var back := new Input(pipe.data, answers);
    second := CliDecode.Decode(dec, back, strip, out);
    PrefixTransitive(out.data, r.out, b);
  }

  lemma PrefixTransitive(x: seq<byte>, y: seq<byte>, z: seq<byte>)
    requires Prefix(x, y) && Prefix(y, z)
    ensures Prefix(x, z)
  {
    assert z[..|y|][..|x|] == z[..|x|];
  }
}
