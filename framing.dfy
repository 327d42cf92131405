/**
 * Message framing of the relay: every line read from the serial device is
 * forwarded to the subscribers as the line itself followed by CR LF.
 */
module Framing {
  import opened Wrappers

  /** The terminator appended to every forwarded line. */
  const Terminator: string := "\r\n"

  /** The unit written to every subscriber connection for one scanned line. */
  function Frame(line: string): (unit: string)
    ensures |unit| == |line| + 2
    ensures unit[..|line|] == line
    ensures unit[|line|..] == Terminator
    // stripping the last two characters gives the line back
    ensures unit[..|unit| - 2] == line
  {
    line + Terminator
  }

  /** A consumer's view: the line carried by a unit, if the unit ends in CR LF. */
  function Unframe(unit: string): (line: Option<string>)
    ensures line.Some? <==> |unit| >= 2 && unit[|unit| - 2..] == Terminator
    ensures line.Some? ==> |line.value| == |unit| - 2 && unit == line.value + Terminator
  {
    if |unit| >= 2 && unit[|unit| - 2..] == Terminator then Some(unit[..|unit| - 2]) else None
  }

  /** Framing is undone by the consumer, and a unit that unframes was framed. */
  lemma FrameRoundTrip(line: string, unit: string)
    ensures Unframe(Frame(line)) == Some(line)
    ensures Unframe(unit) == Some(line) ==> Frame(line) == unit
  {
    var u := Frame(line);
    assert u[|u| - 2..] == Terminator;
  }

  /** Distinct lines give distinct units. */
  lemma {:induction false} FrameInjective(a: string, b: string)
    ensures Frame(a) == Frame(b) <==> a == b
  {
    if Frame(a) == Frame(b) {
      FrameRoundTrip(a, Frame(b));
    }
  }
}
