/**
 * The decoding loop of main: read a line, parse it, process the frame if
 * there is one, and stop after the first line that begins with "FIN". The
 * serial reader is replaced by the sequence of lines it would return.
 */
module Decoder {
  import opened Wrappers
  import opened RotorSpec
  import opened Rotor
  import opened Payload
  import opened Frames
  import opened Parser

  /** What one read does: an empty read, a line with no frame and the FIN line change nothing. */
  function StepLine(s: DecoderState, line: seq<char>): (r: DecoderState)
    ensures IsFin(line) || |line| == 0 ==> r == s
    ensures 0 <= s.offset < SIZE ==> 0 <= r.offset < SIZE
    ensures |s.message| <= |r.message| <= |s.message| + 1
    ensures r.message[..|s.message|] == s.message
  {
    if |line| > 0 then
      match ParseFrame(line)
      case Some(f) => Step(s, f)
      case None => s
    else
      s
  }

  /** The state after reading the given lines in order. */
  function StepLines(s: DecoderState, lines: seq<seq<char>>): (r: DecoderState)
    ensures |s.message| <= |r.message| <= |s.message| + |lines|
    ensures r.message[..|s.message|] == s.message
    ensures 0 <= s.offset < SIZE ==> 0 <= r.offset < SIZE
    decreases |lines|
  {
    if lines == [] then s else StepLine(StepLines(s, lines[..|lines| - 1]), lines[|lines| - 1])
  }

  /** The number of lines the loop reads: up to and including the first FIN line, or all of them. */
  function Consumed(lines: seq<seq<char>>): (n: nat)
    ensures n <= |lines|
    ensures lines != [] ==> n > 0
    ensures n == |lines| || IsFin(lines[n - 1])
    ensures forall j | 0 <= j < n - 1 :: !IsFin(lines[j])
    decreases |lines|
  {
    if lines == [] then 0 else if IsFin(lines[0]) then 1 else 1 + Consumed(lines[1..])
  }

  predicate HasFin(lines: seq<seq<char>>) {
    exists j | 0 <= j < |lines| :: IsFin(lines[j])
  }

  /** The decoder's final state for an input: the lines up to the first FIN, applied to a fresh rotor and an empty list. */
  function Session(lines: seq<seq<char>>): (r: DecoderState)
    ensures |r.message| <= Consumed(lines)
    ensures 0 <= r.offset < SIZE
  {
    StepLines(INITIAL, lines[..Consumed(lines)])
  }

  /**
   * The loop of main with a fresh ListaDeCarga and RotorDeMapeo. It returns
   * the assembled message, how many lines it read, and whether it saw FIN.
   */
  method Decode(lines: seq<seq<char>>) returns (message: seq<char>, consumed: nat, finished: bool)
    ensures consumed == Consumed(lines)
    ensures finished <==> HasFin(lines)
    ensures message == Session(lines).message
  {
    var list := new PayloadList();
    var rotor := new MappingRotor();
    var complete := false;
    var i := 0;
    while !complete && i < |lines|
      invariant 0 <= i <= |lines|
      invariant fresh(list) && fresh(rotor)
      invariant list.Valid() && rotor.Valid()
      invariant StateOf(rotor, list) == StepLines(INITIAL, lines[..i])
      invariant complete <==> i > 0 && IsFin(lines[i - 1])
      invariant forall j | 0 <= j < i - 1 :: !IsFin(lines[j])
    {
      var line := lines[i];
      assert lines[..i + 1][..i] == lines[..i];
      i := i + 1;
      if |line| > 0 {
        var frame := ParseFrame(line);
        match frame
        case Some(f) =>
          Process(f, list, rotor);
        case None =>
          if IsFin(line) {
            complete := true;
          }
      }
    }
    message := list.Render();
    consumed := i;
    finished := complete;
    ConsumedFirstFin(lines, i);
    assert lines[..i] == lines[..Consumed(lines)];
  }

  /** Consumed is the position just past the first FIN line, or the whole input when there is none. */
  lemma {:induction false} ConsumedFirstFin(lines: seq<seq<char>>, n: nat)
    requires n <= |lines|
    requires forall j | 0 <= j < n - 1 :: !IsFin(lines[j])
    requires n == |lines| || (n > 0 && IsFin(lines[n - 1]))
    ensures (n > 0 && IsFin(lines[n - 1])) || !HasFin(lines) ==> Consumed(lines) == n
    ensures HasFin(lines) <==> n > 0 && IsFin(lines[n - 1])
    decreases |lines|
  {
    if lines != [] && n > 0 && !IsFin(lines[0]) {
      ConsumedFirstFin(lines[1..], n - 1);
      assert forall j | 1 <= j < |lines| :: lines[1..][j - 1] == lines[j];
    } else if n == 0 {
      assert lines == [];
    }
  }

  // ---------------------------------------------------------------------------
  // Properties of a session

  /** Lines that follow the first FIN are never read. */
  lemma {:induction false} AfterFinIgnored(lines: seq<seq<char>>, rest: seq<seq<char>>)
    requires HasFin(lines)
    ensures Consumed(lines + rest) == Consumed(lines)
    ensures Session(lines + rest) == Session(lines)
    decreases |lines|
  {
    if IsFin(lines[0]) {
      assert (lines + rest)[0] == lines[0];
    } else {
      var j :| 0 <= j < |lines| && IsFin(lines[j]);
      assert IsFin(lines[1..][j - 1]);
      AfterFinIgnored(lines[1..], rest);
      assert (lines + rest)[1..] == lines[1..] + rest;
    }
    assert (lines + rest)[..Consumed(lines)] == lines[..Consumed(lines)];
  }

  /** Only empty reads before FIN: the message stays empty. */
  lemma {:induction false} EmptyReadsThenFin(lines: seq<seq<char>>, k: nat)
    requires k < |lines| && IsFin(lines[k])
    requires forall j | 0 <= j < k :: lines[j] == []
    ensures Consumed(lines) == k + 1
    ensures Session(lines).message == []
  {
    ConsumedFirstFin(lines, k + 1);
    NoFrameKeepsState(INITIAL, lines[..k + 1]);
  }

  /** Lines that carry no frame leave the state as it is. */
  lemma {:induction false} NoFrameKeepsState(s: DecoderState, lines: seq<seq<char>>)
    requires forall j | 0 <= j < |lines| :: lines[j] == [] || ParseFrame(lines[j]) == None
    ensures StepLines(s, lines) == s
    decreases |lines|
  {
    if lines != [] {
      NoFrameKeepsState(s, lines[..|lines| - 1]);
    }
  }

  lemma {:induction false} StepLinesAppend(s: DecoderState, a: seq<seq<char>>, b: seq<seq<char>>)
    ensures StepLines(s, a + b) == StepLines(StepLines(s, a), b)
    decreases |b|
  {
    if b == [] {
      assert a + b == a;
    } else {
      assert (a + b)[..|a + b| - 1] == a + b[..|b| - 1];
      StepLinesAppend(s, a, b[..|b| - 1]);
    }
  }

  /** The frames, applied in order. */
  function StepFrames(s: DecoderState, fs: seq<Frame>): DecoderState
    decreases |fs|
  {
    if fs == [] then s else Step(StepFrames(s, fs[..|fs| - 1]), fs[|fs| - 1])
  }

  /** Non-empty lines that each parse to a frame act as those frames, in the same order. */
  lemma {:induction false} FrameLinesAct(s: DecoderState, lines: seq<seq<char>>, fs: seq<Frame>)
    requires |lines| == |fs|
    requires forall j | 0 <= j < |lines| :: lines[j] != [] && ParseFrame(lines[j]) == Some(fs[j])
    ensures StepLines(s, lines) == StepFrames(s, fs)
    decreases |lines|
  {
    if lines != [] {
      FrameLinesAct(s, lines[..|lines| - 1], fs[..|fs| - 1]);
    }
  }

  /** The transmitter's start banner. */
  const BANNER: seq<seq<char>> := [
    "========================================",
    "  ESP32 - Transmisor Protocolo PRT-7   ",
    "  Sistema de Telemetria Industrial     ",
    "========================================",
    "",
    "Iniciando transmision de tramas...",
    "Velocidad: 115200 baudios",
    ""
  ]

  /** The transmitter's test frames, as the frames they stand for. */
  const FRAMES: seq<Frame> := [
    Load('H'), Load('O'), Load('L'), Map(2), Load('A'), Load(' '), Load('W'), Map(-2),
    Load('O'), Load('R'), Load('L'), Load('D')
  ]

  /** The transmitter's closing banner. */
  const CLOSING: seq<seq<char>> := [
    "",
    "========================================",
    "  Transmision completada               ",
    "========================================"
  ]

  /** A line that is empty or has no comma in second place carries no frame and is not FIN. */
  lemma NoiseLine(line: seq<char>)
    requires line == [] || (|line| >= 2 && line[0] != 'F' && line[1] != ',')
    ensures (line == [] || ParseFrame(line) == None) && !IsFin(line)
  {
    ParseRejects(line);
  }

  /** The banner lines carry no frame and no FIN. */
  lemma BannerIsNoise(j: nat)
    requires j < |BANNER|
    ensures (BANNER[j] == [] || ParseFrame(BANNER[j]) == None) && !IsFin(BANNER[j])
  {
    if j == 0 { NoiseLine(BANNER[0]); }
    else if j == 1 { NoiseLine(BANNER[1]); }
    else if j == 2 { NoiseLine(BANNER[2]); }
    else if j == 3 { NoiseLine(BANNER[3]); }
    else if j == 4 { NoiseLine(BANNER[4]); }
    else if j == 5 { NoiseLine(BANNER[5]); }
    else if j == 6 { NoiseLine(BANNER[6]); }
    else { NoiseLine(BANNER[7]); }
  }

  /** One more frame: if the first k frames lead to `before` and frame k takes `before` to `after`, the first k + 1 lead to `after`. */
  lemma StepFramesNext(fs: seq<Frame>, k: nat, before: DecoderState, f: Frame, after: DecoderState)
    requires k < |fs| && fs[k] == f
    requires StepFrames(INITIAL, fs[..k]) == before
    requires Step(before, f) == after
    ensures StepFrames(INITIAL, fs[..k + 1]) == after
  {
    assert fs[..k + 1][..k] == fs[..k];
  }

  /** A Load whose symbol decodes to d appends d. */
  lemma LoadAppends(s: DecoderState, c: char, d: char)
    requires MapChar(s.offset, c) == d
    ensures Step(s, Load(c)) == DecoderState(s.offset, s.message + [d])
  {
  }

  /** The first four test frames: H, O and L decode as themselves, then the rotor turns by 2. */
  lemma FramesDecodeOpening()
    ensures StepFrames(INITIAL, FRAMES[..4]) == DecoderState(2, "HOL")
  {
    MapCharIdentity('H');
    MapCharIdentity('O');
    MapCharIdentity('L');
    assert FRAMES[..0] == [];
    var m0: seq<char> := [];
    LoadAppends(DecoderState(0, m0), 'H', 'H');
    StepFramesNext(FRAMES, 0, DecoderState(0, m0), Load('H'), DecoderState(0, m0 + ['H']));
    LoadAppends(DecoderState(0, m0 + ['H']), 'O', 'O');
    StepFramesNext(FRAMES, 1, DecoderState(0, m0 + ['H']), Load('O'), DecoderState(0, m0 + ['H'] + ['O']));
    LoadAppends(DecoderState(0, m0 + ['H'] + ['O']), 'L', 'L');
    StepFramesNext(FRAMES, 2, DecoderState(0, m0 + ['H'] + ['O']), Load('L'), DecoderState(0, m0 + ['H'] + ['O'] + ['L']));
    assert m0 + ['H'] + ['O'] + ['L'] == "HOL";
    StepFramesNext(FRAMES, 3, DecoderState(0, "HOL"), Map(2), DecoderState(2, "HOL"));
  }

  /** The next four: A, space and W decode at offset 2, then the rotor turns back. */
  lemma FramesDecodeShifted()
    ensures StepFrames(INITIAL, FRAMES[..8]) == DecoderState(0, "HOLZYU")
  {
    FramesDecodeOpening();
    WorkedExample();
    var m0 := "HOL";
    LoadAppends(DecoderState(2, m0), 'A', 'Z');
    StepFramesNext(FRAMES, 4, DecoderState(2, m0), Load('A'), DecoderState(2, m0 + ['Z']));
    LoadAppends(DecoderState(2, m0 + ['Z']), ' ', 'Y');
    StepFramesNext(FRAMES, 5, DecoderState(2, m0 + ['Z']), Load(' '), DecoderState(2, m0 + ['Z'] + ['Y']));
    LoadAppends(DecoderState(2, m0 + ['Z'] + ['Y']), 'W', 'U');
    StepFramesNext(FRAMES, 6, DecoderState(2, m0 + ['Z'] + ['Y']), Load('W'), DecoderState(2, m0 + ['Z'] + ['Y'] + ['U']));
    assert m0 + ['Z'] + ['Y'] + ['U'] == "HOLZYU";
    StepFramesNext(FRAMES, 7, DecoderState(2, "HOLZYU"), Map(-2), DecoderState(0, "HOLZYU"));
  }

  /** The test frames decode to "HOLZYUORLD" from the initial state. */
  lemma FramesDecode()
    ensures StepFrames(INITIAL, FRAMES) == DecoderState(0, "HOLZYUORLD")
  {
    FramesDecodeShifted();
    MapCharIdentity('O');
    MapCharIdentity('R');
    MapCharIdentity('L');
    MapCharIdentity('D');
    var m0 := "HOLZYU";
    LoadAppends(DecoderState(0, m0), 'O', 'O');
    StepFramesNext(FRAMES, 8, DecoderState(0, m0), Load('O'), DecoderState(0, m0 + ['O']));
    LoadAppends(DecoderState(0, m0 + ['O']), 'R', 'R');
    StepFramesNext(FRAMES, 9, DecoderState(0, m0 + ['O']), Load('R'), DecoderState(0, m0 + ['O'] + ['R']));
    LoadAppends(DecoderState(0, m0 + ['O'] + ['R']), 'L', 'L');
    StepFramesNext(FRAMES, 10, DecoderState(0, m0 + ['O'] + ['R']), Load('L'), DecoderState(0, m0 + ['O'] + ['R'] + ['L']));
    LoadAppends(DecoderState(0, m0 + ['O'] + ['R'] + ['L']), 'D', 'D');
    StepFramesNext(FRAMES, 11, DecoderState(0, m0 + ['O'] + ['R'] + ['L']), Load('D'), DecoderState(0, m0 + ['O'] + ['R'] + ['L'] + ['D']));
    assert m0 + ['O'] + ['R'] + ['L'] + ['D'] == "HOLZYUORLD";
    assert FRAMES[..12] == FRAMES;
  }

  /** The lines a transmitter sends for a sequence of frames, one per frame. */
  function FrameLines(fs: seq<Frame>): (lines: seq<seq<char>>)
    ensures |lines| == |fs|
  {
    seq(|fs|, j requires 0 <= j < |fs| => FrameLine(fs[j]))
  }

  /** The transmitter's twelve frames go out as these lines. */
  lemma {:induction false} TransmittedLines()
    ensures FrameLines(FRAMES) == ["L,H", "L,O", "L,L", "M,2", "L,A", "L, ", "L,W", "M,-2", "L,O", "L,R", "L,L", "L,D"]
  {
    var sent: seq<seq<char>> := ["L,H", "L,O", "L,L", "M,2", "L,A", "L, ", "L,W", "M,-2", "L,O", "L,R", "L,L", "L,D"];
    assert Decimal(2) == "2";
    forall j | 0 <= j < |FRAMES|
      ensures FrameLines(FRAMES)[j] == sent[j]
    {
    }
  }

  /** Frames sent as lines and read back act as the frames themselves, and none of their lines is FIN. */
  lemma TransmittedFramesAct(s: DecoderState, fs: seq<Frame>)
    requires Load('\0') !in fs
    ensures StepLines(s, FrameLines(fs)) == StepFrames(s, fs)
    ensures forall j | 0 <= j < |fs| :: !IsFin(FrameLines(fs)[j])
  {
    var lines := FrameLines(fs);
    forall j | 0 <= j < |fs|
      ensures lines[j] != [] && ParseFrame(lines[j]) == Some(fs[j]) && !IsFin(lines[j])
    {
      FrameLineRoundTrip(fs[j]);
    }
    FrameLinesAct(s, lines, fs);
  }

  /** Everything the transmitter sends: banner, frame lines, FIN, closing banner. */
  function Transmission(): seq<seq<char>> {
    BANNER + FrameLines(FRAMES) + ["FIN"] + CLOSING
  }

  /** Lines with no FIN among them, then "FIN": the decoder reads exactly up to that line. */
  lemma FinAfter(pre: seq<seq<char>>, rest: seq<seq<char>>)
    requires forall j | 0 <= j < |pre| :: !IsFin(pre[j])
    ensures Consumed(pre + ["FIN"] + rest) == |pre| + 1
    ensures (pre + ["FIN"] + rest)[..|pre| + 1] == pre + ["FIN"]
  {
    var all := pre + ["FIN"] + rest;
    assert all[|pre|] == "FIN" && IsFin("FIN");
    assert forall j | 0 <= j < |pre| :: all[j] == pre[j];
    ConsumedFirstFin(all, |pre| + 1);
    assert all[..|pre| + 1] == pre + ["FIN"];
  }

  /** The decoder reads the transmission up to and including its FIN line. */
  lemma TransmissionConsumed()
    ensures Consumed(Transmission()) == |BANNER| + |FRAMES| + 1
    ensures Transmission()[..Consumed(Transmission())] == BANNER + FrameLines(FRAMES) + ["FIN"]
  {
    var lines := FrameLines(FRAMES);
    var sent := BANNER + lines;
    TransmittedFramesAct(INITIAL, FRAMES);
    forall j | 0 <= j < |sent|
      ensures !IsFin(sent[j])
    {
      if j < |BANNER| {
        BannerIsNoise(j);
      } else {
        assert sent[j] == lines[j - |BANNER|];
      }
    }
    FinAfter(sent, CLOSING);
  }

  /** The test frame lines, read from the initial state, assemble "HOLZYUORLD". */
  lemma FrameLinesDecode()
    ensures StepLines(INITIAL, FrameLines(FRAMES)) == DecoderState(0, "HOLZYUORLD")
  {
    TransmittedFramesAct(INITIAL, FRAMES);
    FramesDecode();
  }

  /** Reading the banner changes nothing. */
  lemma BannerKeepsState(s: DecoderState)
    ensures StepLines(s, BANNER) == s
  {
    forall j | 0 <= j < |BANNER|
      ensures BANNER[j] == [] || ParseFrame(BANNER[j]) == None
    {
      BannerIsNoise(j);
    }
    NoFrameKeepsState(s, BANNER);
  }

  /** The FIN line changes nothing. */
  lemma FinKeepsState(s: DecoderState)
    ensures StepLines(s, ["FIN"]) == s
  {
    assert IsFin("FIN");
    assert ["FIN"][..0] == [];
  }

  /** The banner followed by the test frame lines assembles "HOLZYUORLD". */
  lemma SentDecodes()
    ensures StepLines(INITIAL, BANNER + FrameLines(FRAMES)) == DecoderState(0, "HOLZYUORLD")
  {
    StepLinesAppend(INITIAL, BANNER, FrameLines(FRAMES));
    BannerKeepsState(INITIAL);
    FrameLinesDecode();
  }

  /**
   * The transmitter's sequence decodes to "HOLZYUORLD": after M,2 the
   * letters A, space and W are 25, 24 and 20 steps from the head.
   */
  lemma TransmissionDecodes()
    ensures Session(Transmission()).message == "HOLZYUORLD"
  {
    var sent := BANNER + FrameLines(FRAMES);
    TransmissionConsumed();
    StepLinesAppend(INITIAL, sent, ["FIN"]);
    FinKeepsState(StepLines(INITIAL, sent));
    SentDecodes();
  }
}
