/** How the object-storage client classifies error texts: which are retried, and what the user is told. */
module UploadErrors {
  import opened Text

  const UploadErrorPrefix := "Failed to upload to R2: "
  const TimedOutMessage := "Connection timed out - please try again"
  const ConnectionFailedMessage := "Connection failed - check your network"
  const InvalidCredentialsMessage := "Invalid R2 credentials"

  /** `is_transient_error`: the lower-cased text names a timeout, a connection or network problem, a gateway status or a retry. */
  predicate IsTransientError(error: string): (b: bool)
    ensures b ==> exists m :: m in TransientMarkers && Contains(Lower(error), m)
    ensures (exists m :: m in TransientMarkers && Contains(Lower(error), m)) ==> b
  {
    MarkersListed();
    HasTransientMarker(Lower(error))
  }

  /** The markers of a transient error, all lower-case since they are sought in the lower-cased text. */
  const TransientMarkers: seq<string> := ["timeout", "connection", "temporarily", "503", "502", "504", "retry", "network"]

  /** The marker list, spelt out. */
  lemma MarkersListed()
    ensures forall m :: m in TransientMarkers <==>
      m == "timeout" || m == "connection" || m == "temporarily" || m == "503" ||
      m == "502" || m == "504" || m == "retry" || m == "network"
  {
  }

  /** The markers `is_transient_error` looks for in the lower-cased text. */
  predicate HasTransientMarker(lower: string) {
    Contains(lower, "timeout") || Contains(lower, "connection") || Contains(lower, "temporarily") ||
    Contains(lower, "503") || Contains(lower, "502") || Contains(lower, "504") ||
    Contains(lower, "retry") || Contains(lower, "network")
  }

  /** `friendly_error`: one of three fixed messages, a timeout taking precedence over a connection failure. */
  function FriendlyError(err: string): (r: string)
    ensures r == TimedOutMessage || r == ConnectionFailedMessage || r == InvalidCredentialsMessage
  {
    var lower := Lower(err);
    if Contains(lower, "timeout") || Contains(lower, "timed out") then TimedOutMessage
    else if Contains(lower, "connection refused") || Contains(lower, "network") then ConnectionFailedMessage
    else InvalidCredentialsMessage
  }

  /** An occurrence of `t` is also an occurrence of each prefix of `t`. */
  lemma {:induction false} ContainsPrefix(s: string, t: string, u: string)
    requires Contains(s, t) && StartsWith(t, u)
    ensures Contains(s, u)
    decreases |s|
  {
    if StartsWith(s, t) {
      assert s[..|u|] == t[..|u|];
    } else {
      ContainsPrefix(s[1..], t, u);
    }
  }

  /** Every text `friendly_error` blames on the network is also one the upload would retry. */
  lemma ConnectionFailureIsTransient(err: string)
    requires FriendlyError(err) == ConnectionFailedMessage
    ensures IsTransientError(err)
  {
    var lower := Lower(err);
    if Contains(lower, "connection refused") {
      assert StartsWith("connection refused", "connection");
      ContainsPrefix(lower, "connection refused", "connection");
    }
  }

  /** A text too short for `t` does not contain it. */
  lemma {:induction false} ShortNotContained(s: string, t: string)
    requires |s| < |t|
    ensures !Contains(s, t)
    decreases |s|
  {
    if |s| > 0 {
      ShortNotContained(s[1..], t);
    }
  }

  /**
   * The two classifiers disagree on "timed out": `friendly_error` reports it as a timeout,
   * but `is_transient_error` looks only for "timeout", so an error reading just "timed out" is not retried.
   */
  lemma TimedOutIsNotRetried()
    ensures FriendlyError("timed out") == TimedOutMessage
    ensures !IsTransientError("timed out")
  {
    TimedOutIsTimeout();
    TimedOutIsNotTransient();
  }

  /** A "timed out" text that also names the connection is retried, through the "connection" marker. */
  lemma ConnectionTimedOutIsRetried()
    ensures IsTransientError("Connection timed out")
  {
    var s := "Connection timed out";
    assert Lower(s)[..10] == "connection";
    assert StartsWith(Lower(s), "connection");
  }

  lemma TimedOutIsTimeout()
    ensures FriendlyError("timed out") == TimedOutMessage
  {
    var s := "timed out";
    assert Lower(s) == s;
    assert StartsWith(s, "timed out");
  }

  lemma TimedOutIsNotTransient()
    ensures !IsTransientError("timed out")
  {
    TimedOutLacksTimeout();
    TimedOutShape();
    OnlyTimeoutMarker("timed out");
  }

  lemma TimedOutShape()
    ensures Lower("timed out") == "timed out"
    ensures 'n' !in "timed out" && 'y' !in "timed out" && '5' !in "timed out"
  {
  }

  lemma TimedOutLacksTimeout()
    ensures !Contains("timed out", "timeout")
  {
    var s := "timed out";
    assert s[..7][4] != "timeout"[4];
    assert s[1..] == "imed out";
    assert s[1..][..7][0] != 't';
    assert s[1..][1..] == "med out";
    assert s[1..][1..][..7][0] != 't';
    ShortNotContained(s[1..][1..][1..], "timeout");
  }

  /** In a text without 'n', 'y' and '5', the marker search can find no marker but "timeout". */
  lemma OnlyTimeoutMarker(s: string)
    requires 'n' !in s && 'y' !in s && '5' !in s
    ensures HasTransientMarker(s) <==> Contains(s, "timeout")
  {
    MissingCharNotContained(s, "connection", 'n');
    MissingCharNotContained(s, "temporarily", 'y');
    MissingCharNotContained(s, "503", '5');
    MissingCharNotContained(s, "502", '5');
    MissingCharNotContained(s, "504", '5');
    MissingCharNotContained(s, "retry", 'y');
    MissingCharNotContained(s, "network", 'n');
  }

  const LoweredUploadPrefix := "failed to upload to r2: "

  /** The lowered prefix ends in a space and has none of the characters that mark the markers. */
  lemma LoweredPrefixChars()
    ensures LoweredUploadPrefix[|LoweredUploadPrefix| - 1] == ' '
    ensures 'm' !in LoweredUploadPrefix && 'n' !in LoweredUploadPrefix
    ensures 'y' !in LoweredUploadPrefix && '5' !in LoweredUploadPrefix
  {
    var l := LoweredUploadPrefix;
    assert 'm' !in l;
    assert 'n' !in l;
    assert 'y' !in l;
    assert '5' !in l;
  }

  lemma LowerUploadPrefix()
    ensures Lower(UploadErrorPrefix) == LoweredUploadPrefix
  {
    assert forall i :: 0 <= i < |UploadErrorPrefix| ==> Lower(UploadErrorPrefix)[i] == LoweredUploadPrefix[i];
  }

  /**
   * For the marker search, a text that ends in a space and lacks 'm', 'n', 'y' and '5' can
   * neither hold a marker nor start one that runs on into what follows it.
   */
  lemma SeparatorHidesMarkers(a: string, x: string)
    requires |a| > 0 && a[|a| - 1] == ' '
    requires 'm' !in a && 'n' !in a && 'y' !in a && '5' !in a
    ensures HasTransientMarker(a + x) <==> HasTransientMarker(x)
  {
    MissingCharNotContained(a, "timeout", 'm');
    OnlyTimeoutMarker(a);
    ContainsAfterSeparator(a, x, "timeout");
    ContainsAfterSeparator(a, x, "connection");
    ContainsAfterSeparator(a, x, "temporarily");
    ContainsAfterSeparator(a, x, "503");
    ContainsAfterSeparator(a, x, "502");
    ContainsAfterSeparator(a, x, "504");
    ContainsAfterSeparator(a, x, "retry");
    ContainsAfterSeparator(a, x, "network");
  }

  /** Prefixing a transport error with "Failed to upload to R2: " does not change whether it is transient. */
  lemma PrefixedTransience(e: string)
    ensures IsTransientError(UploadErrorPrefix + e) <==> IsTransientError(e)
  {
    LowerAppend(UploadErrorPrefix, e);
    LowerUploadPrefix();
    LoweredPrefixChars();
    SeparatorHidesMarkers(LoweredUploadPrefix, Lower(e));
  }
}
