/** Whole texts through the codec: the loops over `Decode` and `Encode`, and what they promise about each other. */
module Utf8Texts {
  import opened Wrappers
  import opened Utf8

  ghost predicate AllValid(cs: seq<CodePoint>) {
    forall c <- cs :: IsValid(c)
  }

  /** An illegal sequence shows as the replacement character with length 1; the genuine one has length 3. */
  function Decoded(input: seq<Byte>): Option<seq<CodePoint>>
    decreases |input|
  {
    if input == [] then Some([])
    else
      var (c, n) := Decode(input);
      if c == REPLACEMENT_CHARACTER && n == 1 then None
      else
        var rest := Decoded(input[n..]);
        if rest.None? then None else Some([c] + rest.value)
  }

  function DecodedLeniently(input: seq<Byte>): seq<CodePoint>
    decreases |input|
  {
    if input == [] then []
    else
      var (c, n) := Decode(input);
      [c] + DecodedLeniently(input[n..])
  }

  function Encoded(cs: seq<CodePoint>): seq<Byte> {
    if cs == [] then [] else Encode(cs[0]) + Encoded(cs[1..])
  }

  // ---------------------------------------------------------------- laws

  lemma {:induction false} EncodedConcat(a: seq<CodePoint>, b: seq<CodePoint>)
    ensures Encoded(a + b) == Encoded(a) + Encoded(b)
  {
    if a == [] {
      assert a + b == b;
    } else {
      assert (a + b)[0] == a[0] && (a + b)[1..] == a[1..] + b;
      EncodedConcat(a[1..], b);
    }
  }

  /** Strict decoding succeeds exactly on the texts of the grammar. */
  lemma DecodesExactlyTexts(s: seq<Byte>)
    ensures Decoded(s).Some? <==> IsText(s)
  {
    if IsText(s) {
      var cs :| SplitsInto(s, cs);
      TextDecodes(cs);
    }
    if Decoded(s).Some? {
      var cs := DecodedSplits(s);
      assert SplitsInto(s, cs);
    }
  }

  lemma {:induction false} TextDecodes(cs: seq<seq<Byte>>)
    requires forall c <- cs :: IsChar(c)
    ensures Decoded(Flatten(cs)).Some?
  {
    if cs != [] {
      var s, rest := Flatten(cs), Flatten(cs[1..]);
      DecodeChar(cs[0], rest);
      TextDecodes(cs[1..]);
      assert s[|cs[0]|..] == rest;
      ReplacementIsLong(Decode(s).0);
    }
  }

  /** Only a character of more than one byte encodes to the replacement character. */
  lemma ReplacementIsLong(c: CodePoint)
    ensures c == REPLACEMENT_CHARACTER ==> |Encode(c)| == 3
  {
  }

  lemma {:induction false} DecodedSplits(s: seq<Byte>) returns (cs: seq<seq<Byte>>)
    requires Decoded(s).Some?
    ensures Flatten(cs) == s && forall c <- cs :: IsChar(c)
    decreases |s|
  {
    if s == [] {
      cs := [];
    } else {
      var n := Decode(s).1;
      DecodedIsChar(s);
      var rest := DecodedSplits(s[n..]);
      cs := [s[..n]] + rest;
      assert cs[1..] == rest && s[..n] + s[n..] == s;
    }
  }

  /** What strict decoding yields is valid and encodes to the identical bytes. */
  lemma {:induction false} DecodedEncodesBack(s: seq<Byte>)
    requires Decoded(s).Some?
    ensures AllValid(Decoded(s).value) && Encoded(Decoded(s).value) == s
    decreases |s|
  {
    if s != [] {
      var (c, n) := Decode(s);
      DecodedIsChar(s);
      assert s == s[..n] + s[n..];
      DecodeChar(s[..n], s[n..]);
      DecodedEncodesBack(s[n..]);
      var rest := Decoded(s[n..]).value;
      assert ([c] + rest)[1..] == rest;
    }
  }

  /** Encoding valid code points and decoding strictly returns them. */
  lemma {:induction false} EncodedDecodesBack(cs: seq<CodePoint>)
    requires AllValid(cs)
    ensures Decoded(Encoded(cs)) == Some(cs)
  {
    if cs != [] {
      var rest := Encoded(cs[1..]);
      var s := Encode(cs[0]) + rest;
      DecodeEncoded(cs[0], rest);
      ReplacementIsLong(cs[0]);
      assert s[|Encode(cs[0])|..] == rest;
      EncodedDecodesBack(cs[1..]);
      assert cs == [cs[0]] + cs[1..];
    }
  }

  /** Different texts have different code points, and the other way round. */
  lemma CodecIsInjective(a: seq<CodePoint>, b: seq<CodePoint>)
    requires AllValid(a) && AllValid(b) && Encoded(a) == Encoded(b)
    ensures a == b
  {
    EncodedDecodesBack(a);
    EncodedDecodesBack(b);
  }

  /** Lenient decoding always yields encodable code points, and agrees with strict decoding where that succeeds. */
  lemma {:induction false} LenientIsValid(s: seq<Byte>)
    ensures AllValid(DecodedLeniently(s))
    ensures Decoded(s).Some? ==> DecodedLeniently(s) == Decoded(s).value
    decreases |s|
  {
    if s != [] {
      var (c, n) := Decode(s);
      DecodedIsChar(s);
      if !(c == REPLACEMENT_CHARACTER && n == 1) {
        assert s == s[..n] + s[n..];
        DecodeChar(s[..n], s[n..]);
      }
      LenientIsValid(s[n..]);
    }
  }

  // ---------------------------------------------------------------- the loops

  function Prepend(cs: seq<CodePoint>, rest: Option<seq<CodePoint>>): Option<seq<CodePoint>> {
    if rest.None? then None else Some(cs + rest.value)
  }

  method StrictDecode(input: seq<Byte>) returns (output: Option<seq<CodePoint>>)
    ensures output == Decoded(input)
  {
    var out: seq<CodePoint> := [];
    var index := 0;
    assert input[0..] == input;
    PrependNothing(Decoded(input));
    while index < |input|
      invariant 0 <= index <= |input|
      invariant Decoded(input) == Prepend(out, Decoded(input[index..]))
    {
      var (codePoint, codeUnits) := Decode(input[index..]);
      StrictNext(input[index..], out);
      DropTwice(input, index, codeUnits);
      if codePoint == REPLACEMENT_CHARACTER && codeUnits == 1 {
        return None;
      }
      out := out + [codePoint];
      index := index + codeUnits;
    }
    assert out + [] == out;
    output := Some(out);
  }

  lemma PrependNothing(rest: Option<seq<CodePoint>>)
    ensures Prepend([], rest) == rest
  {
    if rest.Some? {
      assert [] + rest.value == rest.value;
    }
  }

  /** One turn of the strict loop. */
  lemma StrictNext(s: seq<Byte>, out: seq<CodePoint>)
    requires s != []
    ensures var (c, n) := Decode(s);
            Prepend(out, Decoded(s))
            == if c == REPLACEMENT_CHARACTER && n == 1 then None else Prepend(out + [c], Decoded(s[n..]))
  {
    var (c, n) := Decode(s);
    PrependTwice(out, c, Decoded(s[n..]));
  }

  lemma PrependTwice(out: seq<CodePoint>, c: CodePoint, rest: Option<seq<CodePoint>>)
    ensures Prepend(out, Prepend([c], rest)) == Prepend(out + [c], rest)
  {
    if rest.Some? {
      assert out + ([c] + rest.value) == out + [c] + rest.value;
    }
  }

  lemma DropTwice(s: seq<Byte>, i: nat, n: nat)
    requires i + n <= |s|
    ensures s[i..][n..] == s[i + n..]
  {
  }

  /** The lenient loop at `index`: what is out, and what is still to come. */
  ghost predicate LenientSoFar(input: seq<Byte>, index: nat, output: seq<CodePoint>) {
    index <= |input| && DecodedLeniently(input) == output + DecodedLeniently(input[index..])
  }

  lemma LenientStep(input: seq<Byte>, index: nat, output: seq<CodePoint>)
    requires index < |input| && LenientSoFar(input, index, output)
    ensures var (c, n) := Decode(input[index..]);
            LenientSoFar(input, index + n, output + [c])
  {
    var (c, n) := Decode(input[index..]);
    DropTwice(input, index, n);
    var rest := DecodedLeniently(input[index + n..]);
    assert output + ([c] + rest) == output + [c] + rest;
  }

  lemma LenientDone(input: seq<Byte>, output: seq<CodePoint>)
    requires LenientSoFar(input, |input|, output)
    ensures output == DecodedLeniently(input)
  {
    assert input[|input|..] == [];
    assert output + [] == output;
  }

  method LenientDecode(input: seq<Byte>) returns (output: seq<CodePoint>)
    ensures output == DecodedLeniently(input)
  {
    output := [];
    var index := 0;
    assert input[0..] == input;
    while index < |input|
      invariant 0 <= index <= |input|
      invariant LenientSoFar(input, index, output)
    {
      var (codePoint, codeUnits) := Decode(input[index..]);
      LenientStep(input, index, output);
      output := output + [codePoint];
      index := index + codeUnits;
    }
    LenientDone(input, output);
  }

  /** Fails exactly when some code point is invalid. */
  method StrictEncode(input: seq<CodePoint>) returns (output: Option<seq<Byte>>)
    ensures output == if AllValid(input) then Some(Encoded(input)) else None
  {
    var out: seq<Byte> := [];
    for index := 0 to |input|
      invariant AllValid(input[..index])
      invariant Encoded(input[..index]) == out
    {
      var codePoint := input[index];
      if !IsValid(codePoint) {
        return None;
      }
      EncodedNext(input, index);
      out := out + Encode(codePoint);
    }
    assert input[..|input|] == input;
    output := Some(out);
  }

  function Repaired(cs: seq<CodePoint>): seq<CodePoint> {
    seq(|cs|, i requires 0 <= i < |cs| => if IsValid(cs[i]) then cs[i] else REPLACEMENT_CHARACTER)
  }

  method LenientEncode(input: seq<CodePoint>) returns (output: seq<Byte>)
    ensures output == Encoded(Repaired(input))
    ensures Decoded(output) == Some(Repaired(input))
  {
    output := [];
    ghost var repaired := Repaired(input);
    for index := 0 to |input|
      invariant Encoded(repaired[..index]) == output
    {
      var codePoint := input[index];
      if !IsValid(codePoint) {
        codePoint := REPLACEMENT_CHARACTER;
      }
      EncodedNext(repaired, index);
      output := output + Encode(codePoint);
    }
    assert repaired[..|input|] == repaired;
    EncodedDecodesBack(repaired);
  }

  lemma EncodedNext(cs: seq<CodePoint>, i: nat)
    requires i < |cs|
    ensures Encoded(cs[..i + 1]) == Encoded(cs[..i]) + Encode(cs[i])
  {
    assert cs[..i + 1] == cs[..i] + [cs[i]];
    EncodedConcat(cs[..i], [cs[i]]);
    assert Encoded([cs[i]]) == Encode(cs[i]) + Encoded([]);
  }
}
