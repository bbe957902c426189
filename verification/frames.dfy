/**
 * TramaLoad and TramaMap: the two kinds of frame, as one closed datatype,
 * and what processing one does to the rotor and the message list.
 */
module Frames {
  import opened RotorSpec
  import opened Rotor
  import opened Payload

  /** A parsed frame: L,<symbol> loads a character, M,<rotation> turns the rotor. */
  datatype Frame = Load(symbol: char) | Map(rotation: int)

  /** The decoder's abstract state: the rotor's offset and the message assembled so far. */
  datatype DecoderState = DecoderState(offset: int, message: seq<char>)

  /** The decoder state at session start: head at 'A', empty message. */
  const INITIAL: DecoderState := DecoderState(0, [])

  /**
   * The effect of processing one frame. A Load appends exactly one
   * character, decoded under the current offset, and keeps the offset; a
   * Map only turns the rotor.
   */
  function Step(s: DecoderState, f: Frame): (r: DecoderState)
    ensures |r.message| == |s.message| + (if f.Load? then 1 else 0)
    ensures r.message[..|s.message|] == s.message
    ensures f.Load? ==> r.offset == s.offset && r.message[|s.message|] == MapChar(s.offset, f.symbol)
    ensures f.Load? && !InAlphabet(f.symbol) ==> r.message == s.message + [f.symbol]
    ensures f.Map? ==> r.message == s.message && 0 <= r.offset < SIZE
    ensures f.Map? ==> (r.offset - s.offset - f.rotation) % SIZE == 0
  {
    match f
    case Load(c) => DecoderState(s.offset, s.message + [MapChar(s.offset, c)])
    case Map(n) => DecoderState(Rotated(s.offset, n), s.message)
  }

  /** The abstract state of a rotor and a message list. */
  ghost function StateOf(rotor: MappingRotor, list: PayloadList): (s: DecoderState)
    reads rotor, rotor.ring, list
    requires rotor.Valid() && list.Valid()
    ensures 0 <= s.offset < SIZE
    ensures |s.message| == list.Size()
  {
    DecoderState(rotor.head, list.Contents())
  }

  /**
   * procesar: TramaLoad::procesar maps its character through the rotor and
   * appends the result; TramaMap::procesar rotates the rotor and leaves the
   * list alone.
   */
  method Process(f: Frame, list: PayloadList, rotor: MappingRotor)
    requires list.Valid() && rotor.Valid()
    modifies list, rotor`head
    ensures list.Valid() && rotor.Valid()
    ensures StateOf(rotor, list) == Step(old(StateOf(rotor, list)), f)
    ensures f.Load? ==> list.Size() == old(list.Size()) + 1
    ensures f.Map? ==> unchanged(list)
  {
    match f
    case Load(c) =>
      var decoded := rotor.GetMapping(c);
      list.InsertAtEnd(decoded);
    case Map(n) =>
      rotor.Rotate(n);
  }

  // ---------------------------------------------------------------------------
  // Properties of Map frames

  /** Map(a) followed by Map(b) turns the rotor as far as Map(a + b). */
  lemma MapThenMap(s: DecoderState, a: int, b: int)
    ensures Step(Step(s, Map(a)), Map(b)) == Step(s, Map(a + b))
  {
    RotatedCompose(s.offset, a, b);
  }

  /** Map(n) followed by Map(-n) restores a state whose offset is normalised. */
  lemma MapThenUnmap(s: DecoderState, n: int)
    requires 0 <= s.offset < SIZE
    ensures Step(Step(s, Map(n)), Map(-n)) == s
  {
    RotatedInverse(s.offset, n);
  }

  /** Map(0), Map(27), Map(-27) and every other full turn leave a normalised state as it is. */
  lemma MapFullTurn(s: DecoderState, n: int)
    requires 0 <= s.offset < SIZE
    requires n % SIZE == 0
    ensures Step(s, Map(n)) == s
  {
    RotatedFullTurn(s.offset, n);
  }

  /** After Map(n) every character decodes as it did before, when n is a full turn. */
  lemma MapFullTurnMapping(s: DecoderState, n: int, c: char)
    requires n % SIZE == 0
    ensures MapChar(Step(s, Map(n)).offset, c) == MapChar(s.offset, c)
  {
    var o := Step(s, Map(n)).offset;
    assert (o - s.offset - n) % SIZE == 0;
    ModShift(o - s.offset, n);
    MapCharPeriodic(o, s.offset, c);
  }
}
