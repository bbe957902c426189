/**
 * parsearTrama: turns one received line into a frame, or into no frame.
 * The line is a C string: reading at or past its end yields the NUL
 * terminator, and its length is the number of characters before the
 * first NUL.
 */
module Parser {
  import opened Wrappers
  import opened Frames

  /** linea[i] of the NUL-terminated buffer that holds line. */
  function CharAt(line: seq<char>, i: nat): char {
    if i < |line| then line[i] else '\0'
  }

  /** The counting loop at main.cpp line 46: the characters before the first NUL. */
  function CLength(line: seq<char>): (n: nat)
    ensures n <= |line|
    ensures forall i | 0 <= i < n :: line[i] != '\0'
    ensures CharAt(line, n) == '\0'
  {
    if line == [] || line[0] == '\0' then 0 else 1 + CLength(line[1..])
  }

  /** The end-of-stream marker: the line begins with "FIN". */
  predicate IsFin(line: seq<char>)
    ensures IsFin(line) <==> |line| >= 3 && line[..3] == "FIN"
  {
    CharAt(line, 0) == 'F' && CharAt(line, 1) == 'I' && CharAt(line, 2) == 'N'
  }

  predicate IsDigit(c: char) {
    '0' <= c <= '9'
  }

  function DigitValue(c: char): (v: nat)
    requires IsDigit(c)
    ensures v < 10
  {
    c as int - '0' as int
  }

  /** The value of a run of decimal digits, most significant first. */
  function DigitsValue(ds: seq<char>): nat
    requires forall i | 0 <= i < |ds| :: IsDigit(ds[i])
  {
    if ds == [] then 0 else DigitsValue(ds[..|ds| - 1]) * 10 + DigitValue(ds[|ds| - 1])
  }

  /** The length of the run of digits that starts at position i. */
  function DigitRun(line: seq<char>, i: nat): (n: nat)
    ensures i + n <= |line| || n == 0
    ensures forall k | i <= k < i + n :: IsDigit(line[k])
    ensures !IsDigit(CharAt(line, i + n))
    decreases |line| - i
  {
    if IsDigit(CharAt(line, i)) then 1 + DigitRun(line, i + 1) else 0
  }

  /** The digit loop of the hand-written atoi: numero = numero * 10 + digit while dato[i] is a digit. */
  function Accumulate(line: seq<char>, i: nat, acc: int): (r: int)
    ensures acc >= 0 ==> r >= acc
    decreases |line| - i
  {
    if IsDigit(CharAt(line, i)) then Accumulate(line, i + 1, acc * 10 + DigitValue(CharAt(line, i))) else acc
  }

  /** The sign the atoi reads at position start: -1 after a '-', otherwise +1. */
  function SignAt(line: seq<char>, start: nat): int {
    if CharAt(line, start) == '-' then -1 else 1
  }

  /** Where the atoi's digits start: after an optional '-' or '+'. */
  function DigitsStart(line: seq<char>, start: nat): nat {
    if CharAt(line, start) == '-' || CharAt(line, start) == '+' then start + 1 else start
  }

  /** The hand-written atoi from position start: an optional sign, then the digit loop. */
  function ParseNumber(line: seq<char>, start: nat): (n: int)
    ensures CharAt(line, start) == '-' ==> n <= 0
    ensures CharAt(line, start) != '-' ==> n >= 0
  {
    SignAt(line, start) * Accumulate(line, DigitsStart(line, start), 0)
  }

  /**
   * parsearTrama. The empty line, a FIN line, a line shorter than three
   * characters, a line whose second character is not a comma, and any kind
   * other than 'L' and 'M' give no frame.
   */
  function ParseFrame(line: seq<char>): (r: Option<Frame>)
    ensures IsFin(line) ==> r == None
    ensures r.Some? ==> CLength(line) >= 3 && line[1] == ','
    ensures r.Some? ==> (r.value.Load? <==> line[0] == 'L') && (r.value.Map? <==> line[0] == 'M')
    ensures r.Some? && r.value.Load? ==> r.value.symbol == line[2]
  {
    if CharAt(line, 0) == '\0' then None
    else if IsFin(line) then None
    else if CLength(line) < 3 then None
    else if CharAt(line, 1) != ',' then None
    else
      var kind := CharAt(line, 0);
      if kind == 'L' then Some(Load(CharAt(line, 2)))
      else if kind == 'M' then Some(Map(ParseNumber(line, 2)))
      else None
  }

  // ---------------------------------------------------------------------------
  // The number parser against the value of the digit run

  /** Accumulating from position i, having read the digits line[j..i], gives the value of the whole run. */
  lemma {:induction false} AccumulateRun(line: seq<char>, j: nat, i: nat)
    requires j <= i <= |line|
    requires forall k | j <= k < i :: IsDigit(line[k])
    ensures i + DigitRun(line, i) <= |line|
    ensures Accumulate(line, i, DigitsValue(line[j..i])) == DigitsValue(line[j..i + DigitRun(line, i)])
    decreases |line| - i
  {
    if IsDigit(CharAt(line, i)) {
      assert line[j..i + 1][..i - j] == line[j..i];
      assert DigitsValue(line[j..i + 1]) == DigitsValue(line[j..i]) * 10 + DigitValue(line[i]);
      AccumulateRun(line, j, i + 1);
    }
  }

  /** The atoi reads the longest digit run after the optional sign; the sign applies to its value. */
  lemma {:induction false} ParseNumberValue(line: seq<char>, start: nat)
    requires start <= |line|
    ensures DigitsStart(line, start) + DigitRun(line, DigitsStart(line, start)) <= |line|
    ensures ParseNumber(line, start) == SignAt(line, start) * RunValue(line, DigitsStart(line, start))
  {
    var i := DigitsStart(line, start);
    AccumulateRun(line, i, i);
    assert line[i..i] == [];
  }

  /** The value of the digit run at position i. */
  function RunValue(line: seq<char>, i: nat): nat
    requires i <= |line|
  {
    DigitsValue(line[i..i + DigitRun(line, i)])
  }

  // ---------------------------------------------------------------------------
  // What each kind of line yields

  /** "L,<c>..." with a non-NUL third character yields Load(c); "L, " yields Load(' '). */
  lemma ParseLoadLine(line: seq<char>)
    requires |line| >= 3 && line[0] == 'L' && line[1] == ',' && line[2] != '\0'
    ensures ParseFrame(line) == Some(Load(line[2]))
  {
    assert CLength(line) == 1 + CLength(line[1..]);
    assert CLength(line[1..]) == 1 + CLength(line[2..]);
    assert CLength(line[2..]) == 1 + CLength(line[3..]);
  }

  /** "M,<sign><digits>..." yields Map(sign * value of the digits); trailing characters are ignored. */
  lemma ParseMapLine(line: seq<char>)
    requires |line| >= 3 && line[0] == 'M' && line[1] == ',' && line[2] != '\0'
    ensures DigitsStart(line, 2) == (if line[2] == '-' || line[2] == '+' then 3 else 2)
    ensures SignAt(line, 2) == (if line[2] == '-' then -1 else 1)
    ensures ParseFrame(line) == Some(Map(SignAt(line, 2) * RunValue(line, DigitsStart(line, 2))))
  {
    assert CLength(line) == 1 + CLength(line[1..]);
    assert CLength(line[1..]) == 1 + CLength(line[2..]);
    assert CLength(line[2..]) == 1 + CLength(line[3..]);
    ParseNumberValue(line, 2);
  }

  /** Lines that are too short, lack the comma, or name another kind give no frame. */
  lemma ParseRejects(line: seq<char>)
    ensures CLength(line) < 3 ==> ParseFrame(line) == None
    ensures CharAt(line, 1) != ',' ==> ParseFrame(line) == None
    ensures CharAt(line, 0) !in "LM" ==> ParseFrame(line) == None
  {
  }

  // ---------------------------------------------------------------------------
  // The transmitter's line format, and the round trip through the parser

  /** The decimal digits of n, most significant first, without leading zeros. */
  function Decimal(n: nat): (ds: seq<char>)
    ensures |ds| > 0
    ensures forall i | 0 <= i < |ds| :: IsDigit(ds[i])
  {
    if n < 10 then ['0' + n as char] else Decimal(n / 10) + ['0' + (n % 10) as char]
  }

  lemma {:induction false} DecimalValue(n: nat)
    ensures DigitsValue(Decimal(n)) == n
  {
    if n >= 10 {
      var ds := Decimal(n);
      assert ds[..|ds| - 1] == Decimal(n / 10);
      DecimalValue(n / 10);
    }
  }

  /** The line a transmitter sends for a frame: "L,H", "M,2", "M,-2". */
  function FrameLine(f: Frame): seq<char> {
    match f
    case Load(c) => ['L', ',', c]
    case Map(n) => "M," + (if n < 0 then "-" else "") + Decimal(if n < 0 then -n else n)
  }

  /** Every frame survives transmission as a line and parsing back, except a Load of NUL. */
  lemma FrameLineRoundTrip(f: Frame)
    requires f.Load? ==> f.symbol != '\0'
    ensures ParseFrame(FrameLine(f)) == Some(f)
  {
    var line := FrameLine(f);
    match f
    case Load(c) =>
      ParseLoadLine(line);
    case Map(n) =>
      var m := if n < 0 then -n else n;
      var i := if n < 0 then 3 else 2;
      assert line[i..] == Decimal(m);
      assert line[2] != '\0';
      ParseMapLine(line);
      DigitRunToEnd(line, i);
      assert line[i..i + DigitRun(line, i)] == Decimal(m);
      DecimalValue(m);
      assert RunValue(line, i) == m;
  }

  /** A line that ends in a digit run: the run reaches the end of the line. */
  lemma {:induction false} DigitRunToEnd(line: seq<char>, i: nat)
    requires i <= |line|
    requires forall k | i <= k < |line| :: IsDigit(line[k])
    ensures DigitRun(line, i) == |line| - i
    decreases |line| - i
  {
    if i < |line| {
      DigitRunToEnd(line, i + 1);
    }
  }
}
