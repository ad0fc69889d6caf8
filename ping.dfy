/**
 * How `ping_host` turns the text printed by the system `ping` command into
 * `(alive, latency)` (monitor.py, lines 47-77). The process itself is not
 * modelled: its combined stdout and stderr is the input.
 */
module Ping {
  import opened Wrappers
  import opened PyStr

  /** The pair `ping_host` returns. */
  datatype Reply = Reply(alive: bool, latency: string)

  /** The placeholder latency when none could be read. */
  const Unknown: string := "-"

  /** What running `ping -c 1 <ip>` gave: its combined output, or a timeout or other exception. */
  datatype PingOutcome = Output(text: string) | Failed

  /**
   * The latency text for marker `field` in the lower-cased output:
   * `lower.split(field)[1].split("ms")[0].strip()` followed by "ms".
   */
  function Measured(lower: string, field: string): (r: string)
    requires field != [] && Contains(lower, field)
    ensures |r| >= 2 && r[|r| - 2..] == "ms"
  {
    var parts := Split(lower, field);
    Strip(Split(parts[1], "ms")[0]) + "ms"
  }

  /** A `ttl=` in the raw output is also a `ttl=` in its lower-cased form. */
  lemma TtlSurvivesLower(response: string)
    ensures Contains(response, "ttl=") ==> Contains(Lower(response), "ttl=")
  {
    if Contains(response, "ttl=") {
      var k: nat :| OccursAt(response, "ttl=", k);
      LowerKeepsOccurrence(response, "ttl=", k);
    }
  }

  /**
   * The reply read from the output text. Alive exactly when a `ttl=` marker
   * appears in any letter case; a latency is reported exactly when the host is
   * alive and a `time=` or `tempo=` field is present.
   */
  function Interpret(response: string): (r: Reply)
    ensures r.alive <==> Contains(Lower(response), "ttl=")
    ensures !r.alive ==> r.latency == Unknown
    ensures r.latency != Unknown <==>
              r.alive && (Contains(Lower(response), "time=") || Contains(Lower(response), "tempo="))
  {
    var lower := Lower(response);
    TtlSurvivesLower(response);
    if Contains(lower, "ttl=") || Contains(response, "ttl=") then
      if Contains(lower, "time=") then Reply(true, Measured(lower, "time="))
      else if Contains(lower, "tempo=") then Reply(true, Measured(lower, "tempo="))
      else Reply(true, Unknown)
    else
      Reply(false, Unknown)
  }

  /** `ping_host` when the `ping` command exists: a failed run is unreachable. */
  function PingHost(o: PingOutcome): (r: Reply)
    ensures r.alive ==> o.Output? && Contains(Lower(o.text), "ttl=")
    ensures o.Output? ==> (r.alive <==> Contains(Lower(o.text), "ttl="))
    ensures !r.alive ==> r.latency == Unknown
  {
    match o
    case Output(text) => Interpret(text)
    case Failed => Reply(false, Unknown)
  }

  /**
   * The latency split out of the text: the piece between the first and the
   * second occurrence of `field` (or the end), cut before its first "ms", stripped.
   */
  lemma {:induction false} MeasuredBetweenMarkers(lower: string, field: string, i: nat)
    requires field != [] && IndexOf(lower, field) == Some(i)
    ensures Measured(lower, field) ==
              Strip(TakeUntil(TakeUntil(lower[i + |field|..], field), "ms")) + "ms"
  {
    var rest := lower[i + |field|..];
    assert Split(lower, field)[1] == Split(rest, field)[0];
    SplitFirst(rest, field);
    SplitFirst(TakeUntil(rest, field), "ms");
  }

  /**
   * With `ttl=` present, the `time=` field wins: the latency is read after the
   * first `time=`, whether or not a `tempo=` field is present too.
   */
  lemma TimeFieldFirst(response: string, i: nat)
    requires Contains(Lower(response), "ttl=")
    requires IndexOf(Lower(response), "time=") == Some(i)
    ensures Interpret(response) ==
              Reply(true, Strip(TakeUntil(TakeUntil(Lower(response)[i + 5..], "time="), "ms")) + "ms")
  {
    MeasuredBetweenMarkers(Lower(response), "time=", i);
  }

  /** With `ttl=` present and no `time=`, the latency is read after the first `tempo=`. */
  lemma TempoFieldSecond(response: string, i: nat)
    requires Contains(Lower(response), "ttl=")
    requires !Contains(Lower(response), "time=")
    requires IndexOf(Lower(response), "tempo=") == Some(i)
    ensures Interpret(response) ==
              Reply(true, Strip(TakeUntil(TakeUntil(Lower(response)[i + 6..], "tempo="), "ms")) + "ms")
  {
    MeasuredBetweenMarkers(Lower(response), "tempo=", i);
  }

  /**
   * The usual one-reply output, with a single `time=`: the latency is the
   * stripped text from the `time=` to the next "ms" (or to the end), plus "ms".
   */
  lemma SingleTimeField(response: string, i: nat)
    requires Contains(Lower(response), "ttl=")
    requires IndexOf(Lower(response), "time=") == Some(i)
    requires !Contains(Lower(response)[i + 5..], "time=")
    ensures Interpret(response) ==
              Reply(true, Strip(TakeUntil(Lower(response)[i + 5..], "ms")) + "ms")
  {
    TimeFieldFirst(response, i);
  }

  /**
   * The Portuguese one-reply output, with no `time=` and a single `tempo=`:
   * the latency is the stripped text from the `tempo=` to the next "ms" (or to the end), plus "ms".
   */
  lemma SingleTempoField(response: string, i: nat)
    requires Contains(Lower(response), "ttl=")
    requires !Contains(Lower(response), "time=")
    requires IndexOf(Lower(response), "tempo=") == Some(i)
    requires !Contains(Lower(response)[i + 6..], "tempo=")
    ensures Interpret(response) ==
              Reply(true, Strip(TakeUntil(Lower(response)[i + 6..], "ms")) + "ms")
  {
    TempoFieldSecond(response, i);
  }
}
