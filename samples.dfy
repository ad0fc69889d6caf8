/**
 * `ping_host`'s reading of the reply part of three typical `ping` outputs:
 * Linux, Windows under one millisecond, and Windows in Portuguese.
 * Each fact `ping_host` consults is proved on the literal text by a small
 * lemma of its own; `TimeReply` and `TempoReply` then join them.
 */
module PingSamples {
  import opened Wrappers
  import opened PyStr
  import opened Ping

  /** A position where `pat` occurs, with no occurrence before it, is the first one. */
  lemma FirstAt(s: string, pat: string, i: nat)
    requires OccursAt(s, pat, i)
    requires forall j :: 0 <= j < i ==> !OccursAt(s, pat, j)
    ensures IndexOf(s, pat) == Some(i)
  {
  }

  /** A pattern whose character `pat[m]` never occurs in `s` does not occur in `s`. */
  lemma AbsentChar(s: string, pat: string, m: nat)
    requires m < |pat| && forall i :: 0 <= i < |s| ==> s[i] != pat[m]
    ensures !Contains(s, pat)
  {
    forall k: nat ensures !OccursAt(s, pat, k) {
      if k + |pat| <= |s| {
        assert s[k..k + |pat|][m] == s[k + m];
      }
    }
  }

  /** The reply part of a Linux `ping -c 1` line. */
  const Linux: string := "ttl=57 time=12.3 ms"

  lemma LinuxLower()
    ensures Lower(Linux) == Linux
  {
  }

  lemma LinuxField()
    ensures Contains(Linux, "ttl=")
    ensures IndexOf(Linux, "time=") == Some(7)
  {
    assert OccursAt(Linux, "ttl=", 0);
    forall j | 0 <= j < 7 ensures !OccursAt(Linux, "time=", j) {
      assert Linux[j..j + 5][1] == Linux[j + 1];
    }
    assert OccursAt(Linux, "time=", 7);
    FirstAt(Linux, "time=", 7);
  }

  lemma LinuxRest()
    ensures Linux[12..] == "12.3 ms"
    ensures !Contains("12.3 ms", "time=")
  {
    AbsentChar("12.3 ms", "time=", 0);
  }

  lemma LinuxUnit()
    ensures TakeUntil("12.3 ms", "ms") == "12.3 "
  {
    var rest := "12.3 ms";
    forall j | 0 <= j < 5 ensures !OccursAt(rest, "ms", j) {
      assert rest[j..j + 2][0] == rest[j];
    }
    assert OccursAt(rest, "ms", 5);
    FirstAt(rest, "ms", 5);
  }

  lemma LinuxStrip()
    ensures Strip("12.3 ") == "12.3"
  {
    var s := "12.3 ";
    assert !IsSpace(s[0]);
    assert StripLeft(s) == s;
    assert IsSpace(s[4]) && s[..4] == "12.3";
    assert StripRight(s) == StripRight("12.3");
    assert !IsSpace("12.3"[3]);
    assert StripRight("12.3") == "12.3";
  }

  lemma LinuxLatency()
    ensures "12.3" + "ms" == "12.3ms"
  {
  }

  /** What `ping_host` consults in the Linux reply, stated on the output itself. */
  lemma LinuxFacts(response: string)
    requires response == Linux
    ensures Contains(Lower(response), "ttl=")
    ensures IndexOf(Lower(response), "time=") == Some(7)
    ensures !Contains(Lower(response)[12..], "time=")
    ensures Strip(TakeUntil(Lower(response)[12..], "ms")) + "ms" == "12.3ms"
  {
    LinuxLower();
    LinuxField();
    LinuxRest();
    LinuxUnit();
    LinuxStrip();
    LinuxLatency();
  }

  /** A reply with a single `time=` whose field reads as `latency`. */
  lemma TimeReply(response: string, i: nat, latency: string)
    requires Contains(Lower(response), "ttl=")
    requires IndexOf(Lower(response), "time=") == Some(i)
    requires !Contains(Lower(response)[i + 5..], "time=")
    requires Strip(TakeUntil(Lower(response)[i + 5..], "ms")) + "ms" == latency
    ensures Interpret(response) == Reply(true, latency)
  {
    SingleTimeField(response, i);
  }

  /** Linux: alive, and the latency is the `time=` field up to its unit. */
  lemma LinuxReply(response: string)
    requires response == Linux
    ensures Interpret(response) == Reply(true, "12.3ms")
  {
    LinuxFacts(response);
    TimeReply(response, 7, "12.3ms");
  }

  /** The reply part of a Windows `ping -n 1` line under one millisecond. */
  const Windows: string := "time<1ms TTL=128"

  lemma WindowsFields()
    ensures Lower(Windows) == "time<1ms ttl=128"
    ensures Contains("time<1ms ttl=128", "ttl=")
  {
    assert Lower(Windows) == "time<1ms ttl=128";
    assert OccursAt("time<1ms ttl=128", "ttl=", 9);
  }

  lemma WindowsNoTime()
    ensures !Contains("time<1ms ttl=128", "time=")
  {
    var lower := "time<1ms ttl=128";
    forall k: nat ensures !OccursAt(lower, "time=", k) {
      if k + 5 <= |lower| {
        assert lower[k..k + 5][0] == lower[k] && lower[k..k + 5][4] == lower[k + 4];
      }
    }
  }

  lemma WindowsNoTempo()
    ensures !Contains("time<1ms ttl=128", "tempo=")
  {
    AbsentChar("time<1ms ttl=128", "tempo=", 3);
  }

  /** Windows under one millisecond prints `time<1ms`: alive, but no latency is read. */
  lemma WindowsReply(response: string)
    requires response == Windows
    ensures Interpret(response) == Reply(true, Unknown)
  {
    WindowsFields();
    WindowsNoTime();
    WindowsNoTempo();
  }

  /** The reply part of a Windows `ping -n 1` line in Portuguese. */
  const Portuguese: string := "bytes=32 tempo=4ms TTL=64"

  lemma PortugueseLower()
    ensures Lower(Portuguese) == "bytes=32 tempo=4ms ttl=64"
  {
  }

  lemma PortugueseMarkers()
    ensures Contains("bytes=32 tempo=4ms ttl=64", "ttl=")
    ensures !Contains("bytes=32 tempo=4ms ttl=64", "time=")
  {
    var lower := "bytes=32 tempo=4ms ttl=64";
    assert OccursAt(lower, "ttl=", 19);
    AbsentChar(lower, "time=", 1);
  }

  lemma PortugueseField()
    ensures IndexOf("bytes=32 tempo=4ms ttl=64", "tempo=") == Some(9)
  {
    var lower := "bytes=32 tempo=4ms ttl=64";
    forall j | 0 <= j < 9 ensures !OccursAt(lower, "tempo=", j) {
      assert lower[j..j + 6][0] == lower[j] && lower[j..j + 6][2] == lower[j + 2];
    }
    assert OccursAt(lower, "tempo=", 9);
    FirstAt(lower, "tempo=", 9);
  }

  lemma PortugueseRest()
    ensures "bytes=32 tempo=4ms ttl=64"[15..] == "4ms ttl=64"
    ensures !Contains("4ms ttl=64", "tempo=")
  {
    AbsentChar("4ms ttl=64", "tempo=", 3);
  }

  lemma PortugueseUnit()
    ensures TakeUntil("4ms ttl=64", "ms") == "4"
  {
    var rest := "4ms ttl=64";
    assert rest[0..2][0] == rest[0];
    assert OccursAt(rest, "ms", 1);
    FirstAt(rest, "ms", 1);
  }

  lemma PortugueseStrip()
    ensures Strip("4") == "4"
  {
    assert !IsSpace("4"[0]);
    assert StripLeft("4") == "4";
    assert StripRight("4") == "4";
  }

  lemma PortugueseLatency()
    ensures "4" + "ms" == "4ms"
  {
  }

  /** What `ping_host` consults in the Portuguese reply, stated on the output itself. */
  lemma PortugueseFacts(response: string)
    requires response == Portuguese
    ensures Contains(Lower(response), "ttl=")
    ensures !Contains(Lower(response), "time=")
    ensures IndexOf(Lower(response), "tempo=") == Some(9)
    ensures !Contains(Lower(response)[15..], "tempo=")
    ensures Strip(TakeUntil(Lower(response)[15..], "ms")) + "ms" == "4ms"
  {
    PortugueseLower();
    PortugueseMarkers();
    PortugueseField();
    PortugueseRest();
    PortugueseUnit();
    PortugueseStrip();
    PortugueseLatency();
  }

  /** A reply with no `time=` and a single `tempo=` whose field reads as `latency`. */
  lemma TempoReply(response: string, i: nat, latency: string)
    requires Contains(Lower(response), "ttl=")
    requires !Contains(Lower(response), "time=")
    requires IndexOf(Lower(response), "tempo=") == Some(i)
    requires !Contains(Lower(response)[i + 6..], "tempo=")
    requires Strip(TakeUntil(Lower(response)[i + 6..], "ms")) + "ms" == latency
    ensures Interpret(response) == Reply(true, latency)
  {
    SingleTempoField(response, i);
  }

  /** Windows in Portuguese: alive, and the latency is the `tempo=` field up to its unit. */
  lemma PortugueseReply(response: string)
    requires response == Portuguese
    ensures Interpret(response) == Reply(true, "4ms")
  {
    PortugueseFacts(response);
    TempoReply(response, 9, "4ms");
  }
}
