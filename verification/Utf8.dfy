/** The UTF-8 codec: a table-driven decoder and a bit-packing encoder.
  *
  * `IsChar` and `IsText` are the grammar of section 4 of RFC 3629, written down without the tables.
  */
module Utf8 {

  type Byte = bv8
  type CodePoint = bv32

  const REPLACEMENT_CHARACTER: CodePoint := 0xFFFD

  /** Unicode scalar values: no surrogates, nothing above 0x10FFFF. */
  predicate IsValid(c: CodePoint) {
    c < 0xD800 || (c > 0xDFFF && c <= 0x10FFFF)
  }

  // ---------------------------------------------------------------- section 4 of RFC 3629

  predicate Tail(b: Byte) {
    0x80 <= b <= 0xBF
  }

  predicate Char2(b0: Byte, b1: Byte) {
    0xC2 <= b0 <= 0xDF && Tail(b1)
  }

  predicate Char3(b0: Byte, b1: Byte, b2: Byte) {
    && Tail(b2)
    && (|| (b0 == 0xE0 && 0xA0 <= b1 <= 0xBF)
        || (0xE1 <= b0 <= 0xEC && Tail(b1))
        || (b0 == 0xED && 0x80 <= b1 <= 0x9F)
        || (0xEE <= b0 <= 0xEF && Tail(b1)))
  }

  predicate Char4(b0: Byte, b1: Byte, b2: Byte, b3: Byte) {
    && Tail(b2) && Tail(b3)
    && (|| (b0 == 0xF0 && 0x90 <= b1 <= 0xBF)
        || (0xF1 <= b0 <= 0xF3 && Tail(b1))
        || (b0 == 0xF4 && 0x80 <= b1 <= 0x8F))
  }

  /** One character of the grammar. */
  predicate IsChar(s: seq<Byte>) {
    || (|s| == 1 && s[0] <= 0x7F)
    || (|s| == 2 && Char2(s[0], s[1]))
    || (|s| == 3 && Char3(s[0], s[1], s[2]))
    || (|s| == 4 && Char4(s[0], s[1], s[2], s[3]))
  }

  function Flatten(cs: seq<seq<Byte>>): seq<Byte> {
    if cs == [] then [] else cs[0] + Flatten(cs[1..])
  }

  ghost predicate SplitsInto(s: seq<Byte>, cs: seq<seq<Byte>>) {
    Flatten(cs) == s && forall c <- cs :: IsChar(c)
  }

  /** The grammar's texts: concatenations of its characters. */
  ghost predicate IsText(s: seq<Byte>) {
    exists cs: seq<seq<Byte>> :: SplitsInto(s, cs)
  }

  // ---------------------------------------------------------------- the decoder's tables

  const XX: Byte := 0xF1
  const AS: Byte := 0xF0

  /** The table of leading bytes, by its runs. The low bits give the length, the high nibble a row of `Accept`. */
  function Leading(b: Byte): Byte {
    if b <= 0x7F then AS
    else if b <= 0xC1 then XX
    else if b <= 0xDF then 0x02
    else if b == 0xE0 then 0x13
    else if b == 0xED then 0x23
    else if b <= 0xEF then 0x03
    else if b == 0xF0 then 0x34
    else if b <= 0xF3 then 0x04
    else if b == 0xF4 then 0x44
    else XX
  }

  /** The length in the low three bits, less the leading byte. */
  function Continuations(leading: Byte): (n: nat)
    ensures 1 <= n <= 3
  {
    var bits := leading & 7;
    if bits == 2 then 1 else if bits == 3 then 2 else 3
  }

  /** The range of second bytes for each row. */
  function Accept(row: Byte): (Byte, Byte) {
    if row == 0 then (0x80, 0xBF)
    else if row == 1 then (0xA0, 0xBF)
    else if row == 2 then (0x80, 0x9F)
    else if row == 3 then (0x90, 0xBF)
    else if row == 4 then (0x80, 0x8F)
    else (0, 0)
  }

  function Join2(b0: Byte, b1: Byte): CodePoint {
    (((b0 & 0x1F) as CodePoint) << 6) | ((b1 & 0x3F) as CodePoint)
  }

  function Join3(b0: Byte, b1: Byte, b2: Byte): CodePoint {
    (((b0 & 0xF) as CodePoint) << 12) | (((b1 & 0x3F) as CodePoint) << 6) | ((b2 & 0x3F) as CodePoint)
  }

  function Join4(b0: Byte, b1: Byte, b2: Byte, b3: Byte): CodePoint {
    (((b0 & 0x7) as CodePoint) << 18) | (((b1 & 0x3F) as CodePoint) << 12)
    | (((b2 & 0x3F) as CodePoint) << 6) | ((b3 & 0x3F) as CodePoint)
  }

  /** The first character of the input and its length, or the replacement character and 1. */
  function Decode(input: seq<Byte>): (r: (CodePoint, nat))
    requires |input| > 0
    ensures 1 <= r.1 <= |input|
  {
    var b := input[0];
    if b < 0x80 then (b as CodePoint, 1)
    else
      var leading := Leading(b);
      if leading == XX then (REPLACEMENT_CHARACTER, 1)
      else
        var size := Continuations(leading);
        if size > |input| - 1 then (REPLACEMENT_CHARACTER, 1)
        else
          var accept := Accept(leading >> 4);
          var b1 := input[1];
          if b1 < accept.0 || b1 > accept.1 then (REPLACEMENT_CHARACTER, 1)
          else if size <= 1 then (Join2(b, b1), 2)
          else if input[2] < 0x80 || input[2] > 0xBF then (REPLACEMENT_CHARACTER, 1)
          else if size <= 2 then (Join3(b, b1, input[2]), 3)
          else if input[3] < 0x80 || input[3] > 0xBF then (REPLACEMENT_CHARACTER, 1)
          else (Join4(b, b1, input[2], input[3]), 4)
  }

  // ---------------------------------------------------------------- the encoder

  function Low(c: CodePoint): Byte {
    (c & 0xFF) as Byte
  }

  /** An invalid code point is written as the replacement character. */
  function Encode(codePoint: CodePoint): (bytes: seq<Byte>)
    ensures IsChar(bytes)
  {
    var c := if IsValid(codePoint) then codePoint else REPLACEMENT_CHARACTER;
    if c <= 0x7F then [Low(c)]
    else if c <= 0x7FF then var (b0, b1) := Encode2(c); [b0, b1]
    else if c <= 0xFFFF then var (b0, b1, b2) := Encode3(c); [b0, b1, b2]
    else var (b0, b1, b2, b3) := Encode4(c); [b0, b1, b2, b3]
  }

  function Encode2(c: CodePoint): (Byte, Byte) {
    (0xC0 | Low(c >> 6), 0x80 | (Low(c) & 0x3F))
  }

  function Encode3(c: CodePoint): (Byte, Byte, Byte) {
    (0xE0 | Low(c >> 12), 0x80 | (Low(c >> 6) & 0x3F), 0x80 | (Low(c) & 0x3F))
  }

  function Encode4(c: CodePoint): (Byte, Byte, Byte, Byte) {
    (0xF0 | Low(c >> 18), 0x80 | (Low(c >> 12) & 0x3F), 0x80 | (Low(c >> 6) & 0x3F), 0x80 | (Low(c) & 0x3F))
  }

  // ---------------------------------------------------------------- bits

  lemma Pack2(c: CodePoint)
    requires 0x80 <= c <= 0x7FF
    ensures var (b0, b1) := Encode2(c); Char2(b0, b1) && Join2(b0, b1) == c
  {
  }

  /** A continuation byte carries six bits. */
  lemma LowSix(x: CodePoint)
    ensures var b := 0x80 | (Low(x) & 0x3F); Tail(b) && ((b & 0x3F) as CodePoint) == x & 0x3F
  {
  }

  lemma LeadThree(x: CodePoint)
    requires x <= 0xF
    ensures var b := 0xE0 | Low(x); 0xE0 <= b <= 0xEF && ((b & 0xF) as CodePoint) == x && b == 0xE0 + Low(x)
  {
  }

  lemma LeadFour(x: CodePoint)
    requires x <= 0x4
    ensures var b := 0xF0 | Low(x); 0xF0 <= b <= 0xF4 && ((b & 0x7) as CodePoint) == x && b == 0xF0 + Low(x)
  {
  }

  lemma JoinThree(c: CodePoint)
    requires c <= 0xFFFF
    ensures ((c >> 12) << 12) | (((c >> 6) & 0x3F) << 6) | (c & 0x3F) == c
  {
  }

  lemma JoinFour(c: CodePoint)
    requires c <= 0x1FFFFF
    ensures ((c >> 18) << 18) | (((c >> 12) & 0x3F) << 12) | (((c >> 6) & 0x3F) << 6) | (c & 0x3F) == c
  {
  }

  lemma Pack3(c: CodePoint)
    requires 0x800 <= c <= 0xFFFF && IsValid(c)
    ensures var (b0, b1, b2) := Encode3(c); Char3(b0, b1, b2) && Join3(b0, b1, b2) == c
  {
    Pack3Bytes(c);
    Pack3Joins(c);
  }

  lemma Pack3Bytes(c: CodePoint)
    requires 0x800 <= c <= 0xFFFF && IsValid(c)
    ensures var (b0, b1, b2) := Encode3(c); Char3(b0, b1, b2)
  {
  }

  lemma Pack3Joins(c: CodePoint)
    requires 0x800 <= c <= 0xFFFF
    ensures var (b0, b1, b2) := Encode3(c); Join3(b0, b1, b2) == c
  {
    LeadThree(c >> 12);
    LowSix(c >> 6);
    LowSix(c);
    JoinThree(c);
  }

  lemma Pack4(c: CodePoint)
    requires 0x10000 <= c <= 0x10FFFF
    ensures var (b0, b1, b2, b3) := Encode4(c); Char4(b0, b1, b2, b3) && Join4(b0, b1, b2, b3) == c
  {
    Pack4Bytes(c);
    Pack4Joins(c);
  }

  lemma Pack4Bytes(c: CodePoint)
    requires 0x10000 <= c <= 0x10FFFF
    ensures var (b0, b1, b2, b3) := Encode4(c); Char4(b0, b1, b2, b3)
  {
  }

  lemma Pack4Lead(c: CodePoint)
    requires c <= 0x10FFFF
    ensures ((Encode4(c).0 & 0x7) as CodePoint) == c >> 18
  {
    LeadFour(c >> 18);
  }

  lemma Pack4Tails(c: CodePoint)
    ensures ((Encode4(c).1 & 0x3F) as CodePoint) == (c >> 12) & 0x3F
    ensures ((Encode4(c).2 & 0x3F) as CodePoint) == (c >> 6) & 0x3F
    ensures ((Encode4(c).3 & 0x3F) as CodePoint) == c & 0x3F
  {
    LowSix(c >> 12);
    LowSix(c >> 6);
    LowSix(c);
  }

  lemma Pack4Joins(c: CodePoint)
    requires 0x10000 <= c <= 0x10FFFF
    ensures var (b0, b1, b2, b3) := Encode4(c); Join4(b0, b1, b2, b3) == c
  {
    Pack4Lead(c);
    Pack4Tails(c);
    var bytes := Encode4(c);
    JoinParts(c, bytes.0, bytes.1, bytes.2, bytes.3);
  }

  /** Bytes that carry the four parts of a code point join to it. */
  lemma JoinParts(c: CodePoint, b0: Byte, b1: Byte, b2: Byte, b3: Byte)
    requires c <= 0x1FFFFF
    requires ((b0 & 0x7) as CodePoint) == c >> 18 && ((b1 & 0x3F) as CodePoint) == (c >> 12) & 0x3F
    requires ((b2 & 0x3F) as CodePoint) == (c >> 6) & 0x3F && ((b3 & 0x3F) as CodePoint) == c & 0x3F
    ensures Join4(b0, b1, b2, b3) == c
  {
    JoinFour(c);
  }

  lemma Unpack2(b0: Byte, b1: Byte)
    requires Char2(b0, b1)
    ensures var c := Join2(b0, b1); 0x80 <= c <= 0x7FF && Encode2(c) == (b0, b1)
  {
  }

  lemma Unpack3(b0: Byte, b1: Byte, b2: Byte)
    requires Char3(b0, b1, b2)
    ensures var c := Join3(b0, b1, b2); 0x800 <= c <= 0xFFFF && IsValid(c) && Encode3(c) == (b0, b1, b2)
  {
    Unpack3Range(b0, b1, b2);
    Unpack3First(b0, b1, b2);
    Unpack3Second(b0, b1, b2);
    Unpack3Third(b0, b1, b2);
  }

  lemma Unpack3Range(b0: Byte, b1: Byte, b2: Byte)
    requires Char3(b0, b1, b2)
    ensures var c := Join3(b0, b1, b2); 0x800 <= c <= 0xFFFF && IsValid(c)
  {
  }

  lemma Unpack3First(b0: Byte, b1: Byte, b2: Byte)
    requires Char3(b0, b1, b2)
    ensures Encode3(Join3(b0, b1, b2)).0 == b0
  {
  }

  lemma Unpack3Second(b0: Byte, b1: Byte, b2: Byte)
    requires Char3(b0, b1, b2)
    ensures Encode3(Join3(b0, b1, b2)).1 == b1
  {
  }

  lemma Unpack3Third(b0: Byte, b1: Byte, b2: Byte)
    requires Char3(b0, b1, b2)
    ensures Encode3(Join3(b0, b1, b2)).2 == b2
  {
  }

  lemma Unpack4(b0: Byte, b1: Byte, b2: Byte, b3: Byte)
    requires Char4(b0, b1, b2, b3)
    ensures var c := Join4(b0, b1, b2, b3); 0x10000 <= c <= 0x10FFFF && Encode4(c) == (b0, b1, b2, b3)
  {
    Unpack4Range(b0, b1, b2, b3);
    Unpack4First(b0, b1, b2, b3);
    Unpack4Second(b0, b1, b2, b3);
    Unpack4Third(b0, b1, b2, b3);
    Unpack4Fourth(b0, b1, b2, b3);
  }

  lemma Unpack4Range(b0: Byte, b1: Byte, b2: Byte, b3: Byte)
    requires Char4(b0, b1, b2, b3)
    ensures var c := Join4(b0, b1, b2, b3); 0x10000 <= c <= 0x10FFFF
  {
  }

  lemma Unpack4First(b0: Byte, b1: Byte, b2: Byte, b3: Byte)
    requires Char4(b0, b1, b2, b3)
    ensures Encode4(Join4(b0, b1, b2, b3)).0 == b0
  {
  }

  lemma Unpack4Second(b0: Byte, b1: Byte, b2: Byte, b3: Byte)
    requires Char4(b0, b1, b2, b3)
    ensures Encode4(Join4(b0, b1, b2, b3)).1 == b1
  {
  }

  lemma Unpack4Third(b0: Byte, b1: Byte, b2: Byte, b3: Byte)
    requires Char4(b0, b1, b2, b3)
    ensures Encode4(Join4(b0, b1, b2, b3)).2 == b2
  {
  }

  lemma Unpack4Fourth(b0: Byte, b1: Byte, b2: Byte, b3: Byte)
    requires Char4(b0, b1, b2, b3)
    ensures Encode4(Join4(b0, b1, b2, b3)).3 == b3
  {
  }

  // ---------------------------------------------------------------- one character

  /** On an input that begins with a character of the grammar, the tables lead to the right join. */
  lemma DecodeBranches(s: seq<Byte>)
    requires |s| > 0
    ensures s[0] <= 0x7F ==> Decode(s) == (s[0] as CodePoint, 1)
    ensures |s| >= 2 && Char2(s[0], s[1]) ==> Decode(s) == (Join2(s[0], s[1]), 2)
    ensures |s| >= 3 && Char3(s[0], s[1], s[2]) ==> Decode(s) == (Join3(s[0], s[1], s[2]), 3)
    ensures |s| >= 4 && Char4(s[0], s[1], s[2], s[3]) ==> Decode(s) == (Join4(s[0], s[1], s[2], s[3]), 4)
  {
  }

  /** Decoding what was encoded gives the code point back, whatever follows. */
  lemma DecodeEncoded(c: CodePoint, rest: seq<Byte>)
    requires IsValid(c)
    ensures Decode(Encode(c) + rest) == (c, |Encode(c)|)
  {
    DecodeBranches(Encode(c) + rest);
    if c <= 0x7F {
    } else if c <= 0x7FF {
      Pack2(c);
    } else if c <= 0xFFFF {
      Pack3(c);
    } else {
      Pack4(c);
    }
  }

  /** The decoder recognises every character of the grammar, as a valid code point that encodes to it. */
  lemma DecodeChar(ch: seq<Byte>, rest: seq<Byte>)
    requires IsChar(ch)
    ensures var (c, n) := Decode(ch + rest); n == |ch| && IsValid(c) && Encode(c) == ch
  {
    DecodeBranches(ch + rest);
    if |ch| == 2 {
      Unpack2(ch[0], ch[1]);
    } else if |ch| == 3 {
      Unpack3(ch[0], ch[1], ch[2]);
    } else if |ch| == 4 {
      Unpack4(ch[0], ch[1], ch[2], ch[3]);
    }
  }

  /** The length tells which form the bytes have. */
  lemma DecodedForm(s: seq<Byte>)
    requires |s| > 0
    ensures 1 <= Decode(s).1 <= 4
    ensures Decode(s).1 == 1 ==> s[0] <= 0x7F || Decode(s).0 == REPLACEMENT_CHARACTER
    ensures Decode(s).1 == 2 ==> Char2(s[0], s[1])
    ensures Decode(s).1 == 3 ==> Char3(s[0], s[1], s[2])
    ensures Decode(s).1 == 4 ==> Char4(s[0], s[1], s[2], s[3])
  {
  }

  /** Whatever the decoder takes, and is not its error answer, is a character of the grammar. */
  lemma DecodedIsChar(input: seq<Byte>)
    requires |input| > 0
    ensures var (c, n) := Decode(input); (c == REPLACEMENT_CHARACTER && n == 1) || IsChar(input[..n])
  {
    DecodedForm(input);
    var ch := input[..Decode(input).1];
    assert ch[0] == input[0];
  }

  lemma CharIsNoError(ch: seq<Byte>, rest: seq<Byte>)
    requires IsChar(ch)
    ensures Decode(ch + rest) != (REPLACEMENT_CHARACTER, 1)
  {
    DecodeBranches(ch + rest);
    DecodeChar(ch, rest);
  }

  /** The error answer is given exactly when the input does not begin with a character. */
  lemma DecodeErrs(input: seq<Byte>)
    requires |input| > 0
    ensures Decode(input) == (REPLACEMENT_CHARACTER, 1) <==> forall n: nat | n <= |input| :: !IsChar(input[..n])
  {
    DecodedIsChar(input);
    forall n: nat | n <= |input| && IsChar(input[..n])
      ensures Decode(input) != (REPLACEMENT_CHARACTER, 1)
    {
      CharIsNoError(input[..n], input[n..]);
      assert input[..n] + input[n..] == input;
    }
  }

  // ---------------------------------------------------------------- order

  /** Before in the dictionary: a proper prefix, or smaller at the first difference. */
  predicate Before(s: seq<Byte>, t: seq<Byte>) {
    if s == [] then t != []
    else t != [] && (s[0] < t[0] || (s[0] == t[0] && Before(s[1..], t[1..])))
  }

  // Tuples of bytes in dictionary order.
  predicate Less2(s: (Byte, Byte), t: (Byte, Byte)) {
    s.0 < t.0 || (s.0 == t.0 && s.1 < t.1)
  }

  predicate Less3(s: (Byte, Byte, Byte), t: (Byte, Byte, Byte)) {
    s.0 < t.0 || (s.0 == t.0 && Less2((s.1, s.2), (t.1, t.2)))
  }

  predicate Less4(s: (Byte, Byte, Byte, Byte), t: (Byte, Byte, Byte, Byte)) {
    s.0 < t.0 || (s.0 == t.0 && Less3((s.1, s.2, s.3), (t.1, t.2, t.3)))
  }

  lemma BeforeByTwo(s: (Byte, Byte), t: (Byte, Byte))
    requires Less2(s, t)
    ensures Before([s.0, s.1], [t.0, t.1])
  {
  }

  lemma BeforeByThree(s: (Byte, Byte, Byte), t: (Byte, Byte, Byte))
    requires Less3(s, t)
    ensures Before([s.0, s.1, s.2], [t.0, t.1, t.2])
  {
    if s.0 == t.0 {
      BeforeByTwo((s.1, s.2), (t.1, t.2));
      assert [s.0, s.1, s.2][1..] == [s.1, s.2] && [t.0, t.1, t.2][1..] == [t.1, t.2];
    }
  }

  lemma BeforeByFour(s: (Byte, Byte, Byte, Byte), t: (Byte, Byte, Byte, Byte))
    requires Less4(s, t)
    ensures Before([s.0, s.1, s.2, s.3], [t.0, t.1, t.2, t.3])
  {
    if s.0 == t.0 {
      BeforeByThree((s.1, s.2, s.3), (t.1, t.2, t.3));
      assert [s.0, s.1, s.2, s.3][1..] == [s.1, s.2, s.3] && [t.0, t.1, t.2, t.3][1..] == [t.1, t.2, t.3];
    }
  }

  lemma Order2(a: CodePoint, b: CodePoint)
    requires 0x80 <= a < b <= 0x7FF
    ensures Less2(Encode2(a), Encode2(b))
  {
  }

  lemma Order3First(a: CodePoint, b: CodePoint)
    requires a < b <= 0xFFFF
    ensures Encode3(a).0 <= Encode3(b).0
  {
  }

  lemma Order3Second(a: CodePoint, b: CodePoint)
    requires a < b <= 0xFFFF
    ensures Encode3(a).0 == Encode3(b).0 ==> Encode3(a).1 <= Encode3(b).1
  {
  }

  lemma Order3Third(a: CodePoint, b: CodePoint)
    requires a < b <= 0xFFFF
    ensures Encode3(a).0 == Encode3(b).0 && Encode3(a).1 == Encode3(b).1 ==> Encode3(a).2 < Encode3(b).2
  {
  }

  lemma Order3(a: CodePoint, b: CodePoint)
    requires a < b <= 0xFFFF
    ensures Less3(Encode3(a), Encode3(b))
  {
    Order3First(a, b);
    Order3Second(a, b);
    Order3Third(a, b);
  }

  lemma Order4First(a: CodePoint, b: CodePoint)
    requires a < b <= 0x10FFFF
    ensures Encode4(a).0 <= Encode4(b).0
  {
  }

  lemma Order4Second(a: CodePoint, b: CodePoint)
    requires a < b <= 0x10FFFF
    ensures Encode4(a).0 == Encode4(b).0 ==> Encode4(a).1 <= Encode4(b).1
  {
  }

  lemma Order4Third(a: CodePoint, b: CodePoint)
    requires a < b <= 0x10FFFF
    ensures Encode4(a).0 == Encode4(b).0 && Encode4(a).1 == Encode4(b).1 ==> Encode4(a).2 <= Encode4(b).2
  {
  }

  lemma Order4Fourth(a: CodePoint, b: CodePoint)
    requires a < b <= 0x10FFFF
    ensures Encode4(a).0 == Encode4(b).0 && Encode4(a).1 == Encode4(b).1 && Encode4(a).2 == Encode4(b).2 ==>
              Encode4(a).3 < Encode4(b).3
  {
  }

  lemma Order4(a: CodePoint, b: CodePoint)
    requires a < b <= 0x10FFFF
    ensures Less4(Encode4(a), Encode4(b))
  {
    Order4First(a, b);
    Order4Second(a, b);
    Order4Third(a, b);
    Order4Fourth(a, b);
    LessByOne4(Encode4(a), Encode4(b));
  }

  lemma LessByOne4(s: (Byte, Byte, Byte, Byte), t: (Byte, Byte, Byte, Byte))
    requires s.0 <= t.0 && (s.0 == t.0 ==> s.1 <= t.1) && (s.0 == t.0 && s.1 == t.1 ==> s.2 <= t.2)
    requires s.0 == t.0 && s.1 == t.1 && s.2 == t.2 ==> s.3 < t.3
    ensures Less4(s, t)
  {
  }

  lemma SameLength2(a: CodePoint, b: CodePoint)
    requires 0x80 <= a < b <= 0x7FF
    ensures Before(Encode(a), Encode(b))
  {
    Order2(a, b);
    BeforeByTwo(Encode2(a), Encode2(b));
  }

  lemma SameLength3(a: CodePoint, b: CodePoint)
    requires IsValid(a) && IsValid(b) && 0x800 <= a < b <= 0xFFFF
    ensures Before(Encode(a), Encode(b))
  {
    Order3(a, b);
    BeforeByThree(Encode3(a), Encode3(b));
  }

  lemma SameLength4(a: CodePoint, b: CodePoint)
    requires 0x10000 <= a < b <= 0x10FFFF
    ensures Before(Encode(a), Encode(b))
  {
    Order4(a, b);
    BeforeByFour(Encode4(a), Encode4(b));
  }

  lemma OtherLength(a: CodePoint, b: CodePoint)
    requires IsValid(a) && IsValid(b)
    requires (a <= 0x7F < b) || (a <= 0x7FF < b) || (a <= 0xFFFF < b)
    ensures Before(Encode(a), Encode(b))
  {
    FirstByte(a);
    FirstByte(b);
  }

  /** Encoding keeps the order of the code points. */
  lemma EncodingKeepsOrder(a: CodePoint, b: CodePoint)
    requires IsValid(a) && IsValid(b) && a < b
    ensures Before(Encode(a), Encode(b))
  {
    if b <= 0x7F {
      FirstByte(a);
    } else if 0x80 <= a && b <= 0x7FF {
      SameLength2(a, b);
    } else if 0x800 <= a && b <= 0xFFFF {
      SameLength3(a, b);
    } else if 0x10000 <= a {
      SameLength4(a, b);
    } else {
      OtherLength(a, b);
    }
  }

  /** The first byte tells the length, and grows with it. */
  lemma FirstByte(c: CodePoint)
    requires IsValid(c)
    ensures var s := Encode(c);
            if c <= 0x7F then s[0] <= 0x7F
            else if c <= 0x7FF then 0xC2 <= s[0] <= 0xDF
            else if c <= 0xFFFF then 0xE0 <= s[0] <= 0xEF
            else 0xF0 <= s[0] <= 0xF4
  {
  }

  /** An invalid code point is written as U+FFFD. */
  lemma InvalidIsReplaced(c: CodePoint)
    requires !IsValid(c)
    ensures Encode(c) == [0xEF, 0xBF, 0xBD]
  {
  }
}
