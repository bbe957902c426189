# PRT-7 decoder: a verified model of the decoding engine

The PRT-7 decoder reads text frames from a serial line and assembles a
hidden message. Two kinds of frame arrive:

- `L,<c>` (LOAD) carries one character. The decoder passes it through a
  mapping rotor and appends the result to the message list.
- `M,<n>` (MAP) turns the rotor by `n` positions, which changes how later
  LOAD characters decode.

A line that begins with `FIN` ends the session. Banner text and other lines
that are not frames are skipped.

This project models the engine in Dafny and proves what it computes:

| module | file | models |
|---|---|---|
| `RotorSpec` | `rotor_spec.dfy` | the 27-symbol alphabet, C's truncating `%`, the rotation offset and the character mapping as closed-form modular arithmetic, with their algebra |
| `Rotor` | `rotor.dfy` | `RotorDeMapeo`: the circular doubly-linked ring of `NodoRotor`s as a class holding an array of nodes and a movable head; `buscarNodo`, `calcularDistancia`, `rotar` and `getMapeo` as loops proved equal to `RotorSpec` |
| `Payload` | `payload.dfy` | `ListaDeCarga`: the linear doubly-linked message list as a class over a node pool with `cabeza`/`cola`/`tamanio`; `insertarAlFinal`, `getTamanio`, `estaVacia` and the forward walk of the print routines |
| `Frames` | `frames.dfy` | `TramaLoad`/`TramaMap` as one closed datatype; `procesar` as a method on a rotor and a list, proved equal to a step function on an abstract decoder state |
| `Parser` | `parser.dfy` | `parsearTrama` on a NUL-terminated line, including its hand-written signed `atoi`, plus the transmitter's line format and the round trip through the parser |
| `Decoder` | `decoder.dfy` | the read–parse–process loop of `main` over a sequence of lines, its FIN termination, and the transmitter's test sequence end to end |
| `Wrappers` | `wrappers.dfy` | `Option`, which stands for nullable pointers and for "no frame" |

### How the model reads the code

- **Mapping direction.** `getMapeo` finds the node of `c` and counts the
  `siguiente` steps `d` from the head to it. It then returns the symbol `d`
  steps after `'A'`. With the head at ring position `o`, that symbol is
  `ALPHABET[(index(c) - o) mod 27]` (`RotorSpec.MapChar`). After `M,2`,
  `'A'` therefore decodes to `'Z'`, as the worked steps at
  src/RotorDeMapeo.cpp:136-142 compute. The line "'A' rotado +2 = 'C'"
  (src/RotorDeMapeo.cpp:144) and the transmitter's comments
  (arduino/src/main.cpp:9, 11) describe the opposite direction. The model
  follows the code. As a result, the transmitter's test sequence decodes to
  `"HOLZYUORLD"` (`Decoder.TransmissionDecodes`), not the text those
  comments predict.
- **FIN.** Both the parser and the loop test only the first three
  characters. So any line that *begins* with `FIN` ends the session, not
  just the exact line `FIN`.
- **Number parsing.** The `atoi` of `parsearTrama` takes an optional `-` or
  `+` and then the longest run of digits, and ignores the rest of the line.
  With no digits the value is 0, so `M,x` and `M,-` both yield `Map(0)`;
  `M,` is shorter than three characters and gives no frame.
- **C strings.** A line is read as the NUL-terminated buffer that holds it.
  Reading at or past its end yields `'\0'` (`Parser.CharAt`), and its
  length is the count before the first NUL (`Parser.CLength`). `"L,"`
  therefore has length 2 and is rejected. A line with an embedded NUL
  behaves as its prefix, as it does in C.
- **Negative rotations.** `rotar` reduces `n` with C's `%`, which truncates
  toward zero (`RotorSpec.CRem`). A negative remainder walks `previo`. The
  head always ends at `(head + n) mod 27` (`Rotor.MappingRotor.Rotate`).
- **Pointers.** A node pointer is a position in the node array: ring
  positions 0..26 for the rotor, creation order for the message list.
  `None` stands for `nullptr`.

## Model

| member | source | states |
|---|---|---|
| RotorSpec.AlphabetIsSymbols | src/RotorDeMapeo.cpp:15-17 | the alphabet literal has 27 symbols: 'A'..'Z' at positions 0..25 and the space at 26 |
| RotorSpec.InAlphabetIff | src/RotorDeMapeo.cpp:16 | a character is in the alphabet literal exactly when it is an upper-case letter or the space |
| RotorSpec.IndexOf | src/RotorDeMapeo.cpp:16 | every alphabet symbol has a ring position below 27 that holds it |
| RotorSpec.SymbolOfIndex | src/RotorDeMapeo.cpp:16 | an alphabet symbol is found back at its own position |
| RotorSpec.IndexOfSymbol | src/RotorDeMapeo.cpp:16 | the symbol at each ring position is an alphabet symbol whose position is that one |
| RotorSpec.AlphabetDistinct | include/RotorDeMapeo.h:31-38 | the 27 ring symbols are pairwise distinct |
| RotorSpec.CRem | src/RotorDeMapeo.cpp:108 | C's `n % 27` lies strictly between -27 and 27 and takes the sign of `n` |
| RotorSpec.CRemCongruent | src/RotorDeMapeo.cpp:108 | C's `n % 27` differs from `n` by a multiple of 27 |
| RotorSpec.CRemRotated | src/RotorDeMapeo.cpp:108-120 | walking C's `n % 27` steps turns the head exactly as far as `n` steps, modulo 27 |
| RotorSpec.Rotated | include/RotorDeMapeo.h:72-81 | the head after rotating by `n` is a ring position congruent to the old one plus `n` |
| RotorSpec.MapChar | src/RotorDeMapeo.cpp:146-167 | the mapping sends alphabet symbols to alphabet symbols and returns every other character unchanged |
| RotorSpec.Succ | include/RotorDeMapeo.h:19-22 | `siguiente` of a ring position is again a ring position |
| RotorSpec.Pred | include/RotorDeMapeo.h:19-22 | `previo` of a ring position is again a ring position |
| RotorSpec.SuccMod | src/RotorDeMapeo.cpp:112-114 | one `siguiente` step adds one, modulo 27 |
| RotorSpec.PredMod | src/RotorDeMapeo.cpp:117-119 | one `previo` step subtracts one, modulo 27 |
| RotorSpec.RotatedCompose | src/RotorDeMapeo.cpp:103-120 | `rotar(a)` then `rotar(b)` leaves the head where `rotar(a + b)` does, for all signs and magnitudes |
| RotorSpec.RotatedFullTurn | src/RotorDeMapeo.cpp:108-120 | `rotar(0)`, `rotar(27)`, `rotar(-27)` and every multiple of 27 leave the head where it is |
| RotorSpec.RotatedInverse | src/RotorDeMapeo.cpp:103-120 | `rotar(n)` then `rotar(-n)` puts the head back |
| RotorSpec.MapCharPeriodic | src/RotorDeMapeo.cpp:108 | the mapping depends only on the offset modulo 27 |
| RotorSpec.MapCharIdentity | src/RotorDeMapeo.cpp:146-167 | with the head at 'A' every character decodes to itself |
| RotorSpec.MapCharCompose | src/RotorDeMapeo.cpp:146-167 | decoding at offset `b` and then at offset `a` is decoding at offset `a + b` |
| RotorSpec.MapCharInverse | src/RotorDeMapeo.cpp:146-167 | decoding at `-o` undoes decoding at `o`, in both orders |
| RotorSpec.MapCharInjective | src/RotorDeMapeo.cpp:146-167 | at any fixed offset, distinct characters decode to distinct characters |
| RotorSpec.MapCharOnto | src/RotorDeMapeo.cpp:146-167 | at any fixed offset, every alphabet symbol is the decoding of some alphabet symbol |
| RotorSpec.WorkedExample | src/RotorDeMapeo.cpp:132-142 | two steps past 'A', 'A' decodes to 'Z', space to 'Y', 'W' to 'U' and 'C' to 'A' |
| Rotor.RingLinked | src/RotorDeMapeo.cpp:28-36 | the ring is linked both ways: `previo` of a node's `siguiente` and `siguiente` of its `previo` are the node itself, and the last and first nodes are linked to close the circle |
| Rotor.MappingRotor.constructor | src/RotorDeMapeo.cpp:14-37 | a closed ring of 27 nodes holding the alphabet in order, linked both ways, with the head at 'A' |
| Rotor.MappingRotor.FindNode | src/RotorDeMapeo.cpp:63-77 | the walk finds a node exactly for alphabet symbols, and it is the one node holding that symbol whatever the head |
| Rotor.MappingRotor.Distance | src/RotorDeMapeo.cpp:82-98 | between ring nodes the step count is the forward distance in [0, 27), so the 100-step guard never fires; a null end gives 0 |
| Rotor.MappingRotor.Rotate | src/RotorDeMapeo.cpp:103-120 | the head moves to `(head + n) mod 27` for any `n`, along `siguiente` or `previo`, and the ring stays intact |
| Rotor.MappingRotor.GetMapping | src/RotorDeMapeo.cpp:146-167 | the ring walks return `MapChar(head, c)` and leave the rotor unchanged |
| Rotor.Dist | src/RotorDeMapeo.cpp:82-98 | the forward distance between ring positions is below 27 |
| Rotor.DistInverse | src/RotorDeMapeo.cpp:89-92 | walking the forward distance from `h` lands on `k` |
| Rotor.RingPosition | src/RotorDeMapeo.cpp:69-74 | walking `s` steps from the head lands at distance `s`, and is back at the head only after 0 or 27 steps |
| Payload.PayloadList.constructor | src/ListaDeCarga.cpp:14-16 | a new list has no head, no tail, size 0 and no characters |
| Payload.PayloadList.Size | src/ListaDeCarga.cpp:104-106 | `getTamanio` is the number of stored characters |
| Payload.PayloadList.IsEmpty | src/ListaDeCarga.cpp:111-113 | `estaVacia` holds exactly when no character is stored, exactly when the size is 0 |
| Payload.PayloadList.InsertAtEnd | src/ListaDeCarga.cpp:38-53 | the contents become the old contents plus `d`, the size grows by one, the tail holds `d`, the first insert makes head and tail one node, later inserts keep the head, and the list stays linear |
| Payload.PayloadList.Render | src/ListaDeCarga.cpp:74-78 | the forward walk from the head yields exactly the contents in insertion order and changes nothing |
| Frames.Step | src/TramaLoad.cpp:34-40 | a Load appends exactly one character, its decoding under the current offset, keeps the offset and keeps earlier characters; a Map leaves the message and moves the offset by `rotacion` modulo 27 |
| Frames.Process | src/TramaLoad.cpp:34-40 | `procesar` on the rotor and the list has the effect of `Step`: a Load frame (here) appends the mapped character and leaves the rotor alone; a Map frame (`TramaMap::procesar`, src/TramaMap.cpp lines 34-38) turns the rotor and leaves the list alone |
| Frames.StateOf | src/main.cpp:131-132 | the decoder's abstract state (rotor offset below 27, the list's symbols) read off a valid rotor and list; its message has the list's size |
| Frames.MapThenMap | src/TramaMap.cpp:34-38 | `M,a` then `M,b` has the effect of `M,(a+b)` |
| Frames.MapThenUnmap | src/TramaMap.cpp:34-38 | `M,n` then `M,-n` restores the decoder state |
| Frames.MapFullTurn | src/TramaMap.cpp:34-38 | `M,0` and `M,±27` leave the decoder state unchanged |
| Frames.MapFullTurnMapping | src/TramaMap.cpp:34-38 | after a full-turn Map every character decodes as before |
| Parser.CharAt | src/main.cpp:35-46 | defines `linea[i]` of the NUL-terminated buffer that holds the line (the NUL past its end) |
| Parser.IsFin | src/main.cpp:40 | a line is the FIN marker exactly when it has at least three characters and begins with `FIN` |
| Parser.CLength | src/main.cpp:45-46 | the counted length stops at the first NUL, or at the end of the line |
| Parser.DigitValue | src/main.cpp:88 | a digit's value is below 10 |
| Parser.DigitRun | src/main.cpp:87-90 | the digit loop reads a maximal run of digits |
| Parser.ParseFrame | src/main.cpp:33-101 | an empty or FIN line gives no frame; a frame needs length at least 3 and a comma second; 'L' gives Load of the third character and 'M' gives Map |
| Parser.AccumulateRun | src/main.cpp:87-90 | the `numero * 10 + digit` loop computes the decimal value of the digit run |
| Parser.SignAt | src/main.cpp:74-84 | defines `signo`: -1 after a leading '-', otherwise 1 |
| Parser.DigitsStart | src/main.cpp:76-84 | defines where the digit loop starts: one past a leading '-' or '+', otherwise at the start |
| Parser.Accumulate | src/main.cpp:87-90 | the `numero * 10 + digit` loop never decreases a non-negative accumulator |
| Parser.ParseNumber | src/main.cpp:74-92 | the hand-written `atoi` gives a value whose sign follows the first character: at most 0 after '-', at least 0 otherwise |
| Parser.ParseNumberValue | src/main.cpp:74-92 | the `atoi` is the sign times the value of the longest digit run after an optional sign |
| Parser.ParseLoadLine | src/main.cpp:65-69 | `L,<c>...` with `c` not NUL gives `Load(c)`, including `L, ` |
| Parser.ParseMapLine | src/main.cpp:71-95 | `M,<sign><digits>...` gives `Map(sign * digits)`; '-' negates, '+' is accepted, trailing text is ignored, no digits gives 0 |
| Parser.ParseRejects | src/main.cpp:48-60 | lines shorter than 3, with no comma second, or of a kind other than 'L' and 'M' give no frame |
| Parser.DecimalValue | src/main.cpp:87-90 | the digit loop reads back the number the digits were written from |
| Parser.FrameLineRoundTrip | src/main.cpp:33-101 | every frame written in the transmitter's format parses back to itself, except a Load of NUL |
| Parser.DigitRunToEnd | src/main.cpp:87-90 | a line that ends in digits is read to its end |
| Decoder.StepLine | src/main.cpp:144-161 | one read: an empty read or a FIN line changes nothing; otherwise at most one symbol is appended, the message read so far is kept, and the offset stays on the ring |
| Decoder.StepLines | src/main.cpp:142-167 | reading lines in order only appends to the message, at most one symbol per line, and keeps the offset on the ring |
| Decoder.Session | src/main.cpp:142-167 | the decoder's final state for an input: the message has at most one symbol per line read up to the first FIN, and the offset is on the ring |
| Decoder.Consumed | src/main.cpp:142-167 | the loop reads no more lines than it is given, at least one when there is any, stops either at the end or right after a FIN line, and reads no FIN line before that |
| Decoder.Decode | src/main.cpp:132-167 | with a fresh rotor and list, the loop reads up to the first FIN line, reports whether it saw one, and returns the message that the parsed frames give in order |
| Decoder.ConsumedFirstFin | src/main.cpp:156-160 | the loop stops right after the first line that begins with FIN, and there is a FIN exactly when it stops there |
| Decoder.AfterFinIgnored | src/main.cpp:142-160 | lines after the first FIN are never read and do not affect the message |
| Decoder.EmptyReadsThenFin | src/main.cpp:132-160 | empty reads followed by FIN leave the message empty |
| Decoder.NoFrameKeepsState | src/main.cpp:146-161 | empty reads and lines that parse to no frame leave the state unchanged |
| Decoder.StepLinesAppend | src/main.cpp:142-167 | reading two batches of lines is reading the first and then the second |
| Decoder.FrameLinesAct | src/main.cpp:146-155 | lines that each parse to a frame act as those frames, in input order |
| Decoder.FrameLines | arduino/src/main.cpp:44-57 | the transmitter sends one line per frame |
| Decoder.TransmittedLines | arduino/src/main.cpp:4-16 | the twelve test frames go out as exactly the literal lines of the transmitter's table, `L,H` through `L,D` |
| Decoder.TransmittedFramesAct | arduino/src/main.cpp:4-18 | frames sent as lines act as the frames themselves, and none of those lines is FIN |
| Decoder.BannerIsNoise | arduino/src/main.cpp:32-39 | no banner line carries a frame or a FIN |
| Decoder.BannerKeepsState | arduino/src/main.cpp:32-39 | reading the transmitter's banner changes nothing |
| Decoder.FinAfter | src/main.cpp:156-160 | lines without FIN followed by a FIN line are read exactly up to that line |
| Decoder.FramesDecode | arduino/src/main.cpp:4-16 | the twelve test frames turn the initial state into offset 0 and message "HOLZYUORLD" |
| Decoder.TransmissionConsumed | arduino/src/main.cpp:31-64 | on the transmitter's whole output the decoder reads the banner, the frame lines and FIN, and stops before the closing banner |
| Decoder.TransmissionDecodes | arduino/src/main.cpp:4-18 | the transmitter's whole output decodes to "HOLZYUORLD" |

## Left out

- Serial I/O (`SerialPort`, `leerLinea`) is not part of this model. The loop reads a given sequence of lines, and each is what `leerLinea` would return: no line terminator, and a positive byte count exactly when the line is non-empty.
- Decoder.Decode: when the lines run out without a FIN, the model stops. The source keeps polling the port forever.
- All console output is left out: the `rotar` debug line, the `insertarAlFinal` echo, `imprimirMensaje`, `imprimirMensajeEnLinea`, `imprimirRotor` and the parser diagnostics. Only the traversal that the print routines perform is modelled, as `Render`, which returns the message.
- Destructors, `new`/`delete` and the delete of each frame are left out. Dafny's memory is managed.
- The busy-wait at src/main.cpp:166 and `std::cin.get` are left out. They have no effect on the decoded state.
- Parser.ParseNumberValue: integers are unbounded, so the 32-bit overflow of `numero` for very long digit runs is not modelled.
- Rotor.MappingRotor.Rotate: `n` is an unbounded integer. The int32 argument range of `rotar` is not modelled.
- The null-head guards in `buscarNodo` and `rotar` (`if (!cabeza)`) cannot fire once the constructor has run, so the model has no null head.
- The `TramaBase` class hierarchy with a virtual `procesar` is replaced by the closed datatype `Frames.Frame` and one `Process` method.
- The transmitter firmware (arduino/src/main.cpp) is not modelled as a program. Only its line format (`Parser.FrameLine`) and its banner, frames and closing lines are used, as the end-to-end test vector.
- The 256-byte read buffer is not modelled. Lines are arbitrary sequences.
