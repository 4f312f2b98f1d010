/**
 * FileUtils.getEvidencePath: the file name of a screenshot. The name is
 * sanitised with `replaceAll("[^a-zA-Z0-9-_]", "_")` and put, with a
 * timestamp, into the evidence directory. The timestamp, which the source
 * takes from the clock, is a parameter.
 */
module FileUtils {

  const EvidenceDir: string := "target/evidence"

  /** The characters the sanitising pattern leaves alone: `[a-zA-Z0-9-_]`. */
  predicate IsAllowed(c: char)
  {
    ('a' <= c <= 'z') || ('A' <= c <= 'Z') || ('0' <= c <= '9') || c == '-' || c == '_'
  }

  predicate AllAllowed(s: string)
  {
    forall i :: 0 <= i < |s| ==> IsAllowed(s[i])
  }

  /** Every character outside `[a-zA-Z0-9-_]` becomes `_`. */
  function Sanitize(name: string): string
  {
    if name == [] then [] else [if IsAllowed(name[0]) then name[0] else '_'] + Sanitize(name[1..])
  }

  /** `getEvidencePath(name)` with the formatted timestamp given. */
  function EvidencePath(name: string, timestamp: string): string
  {
    EvidenceDir + "/" + Sanitize(name) + "_" + timestamp + ".png"
  }

  /**
   * Sanitising works character by character: the length is kept, allowed
   * characters stay, every other one becomes `_`.
   */
  lemma {:induction false} SanitizeAt(name: string)
    ensures |Sanitize(name)| == |name|
    ensures forall i :: 0 <= i < |name| ==>
      Sanitize(name)[i] == if IsAllowed(name[i]) then name[i] else '_'
  {
    if name != [] {
      SanitizeAt(name[1..]);
      var r := Sanitize(name);
      forall i | 1 <= i < |name|
        ensures r[i] == if IsAllowed(name[i]) then name[i] else '_'
      {
        assert r[i] == Sanitize(name[1..])[i - 1];
        assert name[1..][i - 1] == name[i];
      }
    }
  }

  /** Every character of a sanitised name is a letter, a digit, `-` or `_`. */
  lemma {:induction false} SanitizeOnlyAllowed(name: string)
    ensures AllAllowed(Sanitize(name))
  {
    SanitizeAt(name);
  }

  /** A name made only of allowed characters is left as it is. */
  lemma {:induction false} SanitizeKeepsAllowed(name: string)
    requires AllAllowed(name)
    ensures Sanitize(name) == name
  {
    SanitizeAt(name);
  }

  /** Sanitising twice is sanitising once. */
  lemma {:induction false} SanitizeIdempotent(name: string)
    ensures Sanitize(Sanitize(name)) == Sanitize(name)
  {
    SanitizeOnlyAllowed(name);
    SanitizeKeepsAllowed(Sanitize(name));
  }

  /** A timestamp as `SimpleDateFormat("yyyyMMdd_HHmmss_SSS")` formats it. */
  predicate TimestampShaped(ts: string)
  {
    |ts| == 19 &&
    forall i :: 0 <= i < 19 ==> if i == 8 || i == 15 then ts[i] == '_' else '0' <= ts[i] <= '9'
  }

  /**
   * The evidence file always lands directly in `target/evidence`: the path is
   * that directory, a `/`, the sanitised name, `_`, the timestamp and `.png`,
   * and no `/` follows the directory, whatever the name holds.
   */
  lemma {:induction false} EvidencePathLayout(name: string, timestamp: string)
    requires TimestampShaped(timestamp)
    ensures var path := EvidencePath(name, timestamp);
      |path| == |name| + 40 &&
      path[..16] == "target/evidence/" &&
      path[16..16 + |name|] == Sanitize(name) &&
      path[16 + |name|] == '_' &&
      path[17 + |name|..|path| - 4] == timestamp &&
      path[|path| - 4..] == ".png" &&
      (forall i :: 16 <= i < |path| - 4 ==> IsAllowed(path[i])) &&
      '/' !in path[16..]
  {
    var path := EvidencePath(name, timestamp);
    var s := Sanitize(name);
    SanitizeAt(name);
    SanitizeOnlyAllowed(name);
    assert path == "target/evidence/" + s + "_" + timestamp + ".png";
    forall i | 16 <= i < |path| - 4
      ensures IsAllowed(path[i])
    {
      if i < 16 + |s| {
        assert path[i] == s[i - 16];
      } else if i > 16 + |s| {
        assert path[i] == timestamp[i - 17 - |s|];
      }
    }
    forall i | 16 <= i < |path|
      ensures path[i] != '/'
    {
    }
  }

  /** A name that needs no sanitising appears in the path unchanged. */
  lemma EvidencePathOfPlainName(name: string, timestamp: string)
    requires AllAllowed(name)
    ensures EvidencePath(name, timestamp) == "target/evidence/" + name + "_" + timestamp + ".png"
  {
    SanitizeKeepsAllowed(name);
  }
}
