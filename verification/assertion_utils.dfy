/**
 * AssertionUtils: a hard assertion, and soft assertions that collect failure
 * messages and report them all at once. The source keeps one list per thread;
 * a `SoftAssertions` object stands for the list of one thread.
 */
module AssertionUtils {
  import opened Outcomes

  /** The first line of the combined failure message. */
  const Header: string := "Soft assertion failures:\n"

  /** The line that reports one collected message. */
  function Bullet(message: string): string
  {
    "- " + message + "\n"
  }

  /** The lines that report the collected messages, in insertion order. */
  function Bullets(messages: seq<string>): string
  {
    if messages == [] then "" else Bullet(messages[0]) + Bullets(messages[1..])
  }

  /** The message of the `AssertionError` that `assertAll` throws. */
  function FailureReport(messages: seq<string>): string
  {
    Header + Bullets(messages)
  }

  /**
   * `assertTrue`: throws an `AssertionError` carrying `message` exactly when
   * the condition is false.
   */
  function AssertTrue(condition: bool, message: string): (r: Outcome<string>)
    ensures r == Pass <==> condition
    ensures r.Fail? ==> r.error == message
  {
    if !condition then Fail(message) else Pass
  }

  /**
   * The `StringBuilder` loop of `assertAll`: the header, then one line per
   * message in order.
   */
  method BuildReport(messages: seq<string>) returns (report: string)
    ensures report == FailureReport(messages)
  {
    report := Header;
    for i := 0 to |messages|
      invariant report == Header + Bullets(messages[..i])
    {
      BulletsAppend(messages[..i], messages[i]);
      assert messages[..i + 1] == messages[..i] + [messages[i]];
      report := report + "- " + messages[i] + "\n";
    }
    assert messages[..|messages|] == messages;
  }

  /** The soft-assertion list of one thread. */
  class SoftAssertions {
    var errors: seq<string>

    /** `ThreadLocal.withInitial(ArrayList::new)`: a thread starts with no errors. */
    constructor ()
      ensures errors == []
    {
      errors := [];
    }

    /** `softAssertTrue`: a false condition appends its message at the end; a true one changes nothing. */
    method SoftAssertTrue(condition: bool, message: string)
      modifies this
      ensures errors == if condition then old(errors) else old(errors) + [message]
    {
      if !condition {
        errors := errors + [message];
      }
    }

    /**
     * `assertAll`: with no collected errors nothing happens; otherwise the list
     * is cleared and an `AssertionError` reports every collected message in order.
     */
    method AssertAll() returns (r: Outcome<string>)
      modifies this
      ensures old(errors) == [] ==> r == Pass
      ensures old(errors) != [] ==> r == Fail(FailureReport(old(errors)))
      ensures errors == []
    {
      if errors != [] {
        var report := BuildReport(errors);
        errors := [];
        r := Fail(report);
      } else {
        r := Pass;
      }
    }
  }

  // ----- Reading the report back -----

  /** The first position at or after `from` that holds a line break. */
  function NextLineBreak(s: string, from: nat): (r: Option<nat>)
    ensures r.Some? ==> from <= r.value < |s| && s[r.value] == '\n'
    decreases |s| - from
  {
    if from >= |s| then None
    else if s[from] == '\n' then Some(from)
    else NextLineBreak(s, from + 1)
  }

  /** Splits a block of `- message` lines back into its messages. */
  function ParseBullets(s: string): Option<seq<string>>
    decreases |s|
  {
    if s == [] then Some([])
    else if |s| < 2 || s[0] != '-' || s[1] != ' ' then None
    else match NextLineBreak(s, 2)
      case None => None
      case Some(j) =>
        match ParseBullets(s[j + 1..])
        case None => None
        case Some(rest) => Some([s[2..j]] + rest)
  }

  /** Recovers the messages from a failure report. */
  function ParseReport(s: string): Option<seq<string>>
  {
    if |s| >= |Header| && s[..|Header|] == Header then ParseBullets(s[|Header|..]) else None
  }

  /** No collected message contains a line break. */
  predicate SingleLine(messages: seq<string>)
  {
    forall i :: 0 <= i < |messages| ==> '\n' !in messages[i]
  }

  /** Appending a message appends its line to the report. */
  lemma {:induction false} BulletsAppend(messages: seq<string>, message: string)
    ensures Bullets(messages + [message]) == Bullets(messages) + Bullet(message)
  {
    if messages != [] {
      assert (messages + [message])[1..] == messages[1..] + [message];
      BulletsAppend(messages[1..], message);
    } else {
      assert [] + [message] == [message];
    }
  }

  lemma {:induction false} NextLineBreakFinds(s: string, from: nat, j: nat)
    requires from <= j < |s| && s[j] == '\n'
    requires forall k :: from <= k < j ==> s[k] != '\n'
    ensures NextLineBreak(s, from) == Some(j)
    decreases j - from
  {
    if from < j {
      NextLineBreakFinds(s, from + 1, j);
    }
  }

  lemma {:induction false} ParseBulletsRoundTrip(messages: seq<string>)
    requires SingleLine(messages)
    ensures ParseBullets(Bullets(messages)) == Some(messages)
  {
    if messages != [] {
      var m := messages[0];
      var rest := Bullets(messages[1..]);
      var s := Bullets(messages);
      assert s == "- " + m + "\n" + rest;
      var j := 2 + |m|;
      forall k | 2 <= k < j
        ensures s[k] != '\n'
      {
        assert s[k] == m[k - 2];
      }
      NextLineBreakFinds(s, 2, j);
      assert s[2..j] == m;
      assert s[j + 1..] == rest;
      assert SingleLine(messages[1..]) by {
        forall i | 0 <= i < |messages[1..]|
          ensures '\n' !in messages[1..][i]
        {
          assert messages[1..][i] == messages[i + 1];
        }
      }
      ParseBulletsRoundTrip(messages[1..]);
      assert [m] + messages[1..] == messages;
    }
  }

  /**
   * The report of `assertAll` lists the collected messages in insertion order
   * and nothing else: as long as no message spans several lines, the list can
   * be read back from it.
   */
  lemma ReportRoundTrip(messages: seq<string>)
    requires SingleLine(messages)
    ensures ParseReport(FailureReport(messages)) == Some(messages)
  {
    var s := FailureReport(messages);
    assert s[..|Header|] == Header;
    assert s[|Header|..] == Bullets(messages);
    ParseBulletsRoundTrip(messages);
  }

  /**
   * Soft-asserting a false condition and then flushing reports exactly the
   * earlier messages followed by the new one.
   */
  lemma ReportAfterSoftFailure(messages: seq<string>, message: string)
    ensures FailureReport(messages + [message]) == FailureReport(messages) + "- " + message + "\n"
  {
    BulletsAppend(messages, message);
  }
}
