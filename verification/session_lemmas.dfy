/** Properties of the emulator invocation and of the outcome classification. */
module SessionProperties {
  import opened Strings
  import opened Session

  /** The command names the selected file: different files give different commands. */
  lemma PlayCommandInjective(appPath: string, tablesPath: string, a: string, b: string)
    requires PlayCommand(appPath, tablesPath, a) == PlayCommand(appPath, tablesPath, b)
    ensures a == b
  {
    var arg := PlayCommand(appPath, tablesPath, a).args[1];
    assert arg[|tablesPath| + 1..] == a;
    assert PlayCommand(appPath, tablesPath, b).args[1][|tablesPath| + 1..] == b;
  }

  /** The marker is detected wherever it appears in the captured output. */
  lemma MarkerAnywhereDetected(before: string, after: string)
    ensures HasSubstring(before + ClosedMarker + after, ClosedMarker)
  {
    var out := before + ClosedMarker + after;
    assert out[|before|..|before| + |ClosedMarker|] == ClosedMarker;
    assert OccursAt(out, ClosedMarker, |before|);
  }

  /** Conversely, output that counts as "closed by player" holds the marker somewhere. */
  lemma MarkerSplitsOutput(out: string) returns (before: string, after: string)
    requires HasSubstring(out, ClosedMarker)
    ensures out == before + ClosedMarker + after
  {
    var i :| 0 <= i <= |out| && OccursAt(out, ClosedMarker, i);
    before, after := out[..i], out[i + |ClosedMarker|..];
    assert out == out[..i] + out[i..i + |ClosedMarker|] + out[i + |ClosedMarker|..];
  }
}
