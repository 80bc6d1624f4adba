/** A stream of code points read from UTF-8 bytes. */
module InputStreams {
  import opened Wrappers
  import opened Utf8
  import opened Utf8Texts
  import opened Ranges

  const SIZE_LIMIT: int := 0x1_0000_0000_0000_0000

  /** The value that marks the end of the stream: the largest of the unsigned word. */
  const EOF: int := SIZE_LIMIT - 1

  /** Subtraction and addition on the unsigned word. */
  function Wrap(n: int): int {
    n % SIZE_LIMIT
  }

  function WithoutBom(bytes: seq<Byte>): seq<Byte> {
    if |bytes| >= 3 && bytes[..3] == [0xEF, 0xBB, 0xBF] then bytes[3..] else bytes
  }

  /** The code points from `start` to `end`, cut off at the end of the data; a range reversed by more than one place
      selects everything from its start on. */
  function Selected(data: seq<CodePoint>, start: nat, end: nat): seq<CodePoint> {
    if start >= |data| then []
    else if end >= |data| || end + 1 < start then data[start..]
    else data[start..end + 1]
  }

  /** The number of code points as the source computes it, wrapping around on reversed ranges and empty data. */
  lemma CountMeans(size: nat, start: nat, end: nat)
    requires start < size < SIZE_LIMIT && end < SIZE_LIMIT
    ensures var stop := if end >= size then Wrap(size - 1) else end;
            var count := Wrap(stop - start + 1);
            if end >= size then count == size - start
            else if end + 1 < start then count > size - start
            else count == end + 1 - start
  {
    if end < size && end + 1 < start {
      assert Wrap(end - start + 1) == end - start + 1 + SIZE_LIMIT;
    }
  }

  datatype Step = Reset | Consume | Seek(index: nat)

  /** What one operation does to the position; a `Consume` at the end throws and changes nothing. */
  function Moved(size: nat, p: nat, step: Step): nat {
    match step
    case Reset => 0
    case Consume => if p < size then p + 1 else p
    case Seek(index) => if index <= p then index else if index < size then index else if p < size then size else p
  }

  class InputStream {
    var data: seq<CodePoint>
    var p: nat

    ghost predicate Valid()
      reads this
    {
      AllValid(data) && p <= |data| && |data| < SIZE_LIMIT / 2
    }

    constructor ()
      ensures Valid() && data == [] && p == 0
    {
      data := [];
      p := 0;
    }

    /** Fails, changing nothing, on bytes that are not UTF-8 unless told to be lenient. */
    method Load(bytes: seq<Byte>, lenient: bool) returns (ok: bool)
      requires Valid() && |bytes| < SIZE_LIMIT / 2
      modifies this
      ensures Valid()
      ensures ok <==> lenient || IsText(WithoutBom(bytes))
      ensures ok ==> p == 0 && data == DecodedLeniently(WithoutBom(bytes))
      ensures forall text | bytes == [0xEF, 0xBB, 0xBF] + text ::
                (ok <==> lenient || IsText(text)) && (ok && IsText(text) ==> Encoded(data) == text)
      ensures !([0xEF, 0xBB, 0xBF] <= bytes) ==>
                (ok <==> lenient || IsText(bytes)) && (ok && IsText(bytes) ==> Encoded(data) == bytes)
      ensures !ok ==> data == old(data) && p == old(p)
    {
      var input := WithoutBom(bytes);
      LenientIsValid(input);
      LenientIsShort(input);
      DecodesExactlyTexts(input);
      if Decoded(input).Some? {
        DecodedEncodesBack(input);
      }
      if lenient {
        data := LenientDecode(input);
      } else {
        var maybe := StrictDecode(input);
        if maybe.None? {
          return false;
        }
        data := maybe.value;
      }
      p := 0;
      ok := true;
    }

    method DoReset()
      requires Valid()
      modifies this`p
      ensures Valid() && p == Moved(|data|, old(p), Reset)
      ensures p == 0
    {
      p := 0;
    }

    /** Throws at the end of the data. */
    method DoConsume() returns (ok: bool)
      requires Valid()
      modifies this`p
      ensures Valid() && p == Moved(|data|, old(p), Consume)
      ensures ok <==> old(p) < |data|
      ensures p == if ok then old(p) + 1 else old(p)
    {
      if p >= |data| {
        return false;
      }
      p := p + 1;
      ok := true;
    }

    method DoSeek(target: nat)
      requires Valid()
      modifies this`p
      ensures Valid() && p == Moved(|data|, old(p), Seek(target))
      ensures p <= target && p <= |data| && (p == target || p == |data|)
    {
      if target <= p {
        p := target;
        return;
      }
      var index := if target < |data| then target else |data|;
      while p < index
        invariant old(p) <= p && (p <= index || p == old(p)) && p <= |data|
      {
        var ok := DoConsume();
      }
    }

    /** Looks `i` characters ahead of the position, or behind it for a negative `i`. */
    method LA(i: int) returns (c: int)
      requires Valid() && -SIZE_LIMIT / 2 < i < SIZE_LIMIT / 2
      ensures i == 0 ==> c == 0
      ensures i > 0 ==> c == if p + i - 1 < |data| then data[p + i - 1] as int else 0xFFFF_FFFF_FFFF_FFFF
      ensures i < 0 ==> c == if 0 <= p + i then data[p + i] as int else 0xFFFF_FFFF_FFFF_FFFF
    {
      if i == 0 {
        return 0;
      }
      var k := i;
      if k < 0 {
        k := k + 1;
        if p + k - 1 < 0 {
          return EOF;
        }
      }
      if p + k - 1 >= |data| {
        return EOF;
      }
      return data[p + k - 1] as int;
    }

    /** None is the source's exception; valid data never raises it. */
    method GetText(range: Range) returns (text: Option<seq<Byte>>)
      requires Valid() && range.start < SIZE_LIMIT / 2 && range.end < SIZE_LIMIT / 2
      ensures text == Some(if range.start < 0 || range.end < 0 then []
                           else Encoded(Selected(data, range.start, range.end)))
    {
      if range.start < 0 || range.end < 0 {
        return Some([]);
      }
      var start, stop := range.start, range.end;
      if stop >= |data| {
        stop := Wrap(|data| - 1);
      }
      var count := Wrap(stop - start + 1);
      if start >= |data| {
        return Some([]);
      }
      CountMeans(|data|, start, range.end);
      var chosen := if count > |data| - start then data[start..] else data[start..start + count];
      assert chosen == Selected(data, start, range.end);
      text := StrictEncode(chosen);
    }

    method ToString() returns (text: Option<seq<Byte>>)
      requires Valid()
      ensures text == Some(Encoded(data))
    {
      text := StrictEncode(data);
    }
  }

  lemma {:induction false} LenientIsShort(s: seq<Byte>)
    ensures |DecodedLeniently(s)| <= |s|
    decreases |s|
  {
    if s != [] {
      LenientIsShort(s[Decode(s).1..]);
    }
  }

  /** Any run of the positioning operations stays inside the data. */
  function MovedAll(size: nat, p: nat, steps: seq<Step>): nat
    decreases |steps|
  {
    if steps == [] then p else MovedAll(size, Moved(size, p, steps[0]), steps[1..])
  }

  lemma {:induction false} PositionStaysInside(size: nat, p: nat, steps: seq<Step>)
    requires p <= size
    ensures MovedAll(size, p, steps) <= size
    decreases |steps|
  {
    if steps != [] {
      PositionStaysInside(size, Moved(size, p, steps[0]), steps[1..]);
    }
  }

  function Clip(data: seq<CodePoint>, i: nat): (k: nat)
    ensures k <= |data|
  {
    if i < |data| then i else |data|
  }

  lemma SelectedInOrder(data: seq<CodePoint>, start: nat, end: nat)
    requires start <= end + 1
    ensures Clip(data, start) <= Clip(data, end + 1)
    ensures Selected(data, start, end) == data[Clip(data, start)..Clip(data, end + 1)]
  {
  }

  /** The texts of two adjacent ranges that begin inside the data make up the text of their union. */
  lemma AdjacentTexts(data: seq<CodePoint>, a: nat, b: nat, c: nat)
    requires a <= b + 1 && b < |data| && b <= c
    ensures Encoded(Selected(data, a, b)) + Encoded(Selected(data, b + 1, c)) == Encoded(Selected(data, a, c))
  {
    SelectedInOrder(data, a, b);
    SelectedInOrder(data, b + 1, c);
    SelectedInOrder(data, a, c);
    TwoSlices(data, Clip(data, a), Clip(data, b + 1), Clip(data, c + 1));
    EncodedConcat(Selected(data, a, b), Selected(data, b + 1, c));
  }

  lemma TwoSlices(data: seq<CodePoint>, i: nat, j: nat, k: nat)
    requires i <= j <= k <= |data|
    ensures data[i..j] + data[j..k] == data[i..k]
  {
  }
}
