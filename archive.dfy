/** What building a snapshot or release archive shares between the source
    component and the PEAR package handle: the snapshot version string, the
    package file handed to the PEAR generator, and the list of error lines a
    failed generation reports. */
module Archive {
  import opened Common

  /** A character of the `[.0-9]` class. */
  predicate VersionChar(ch: char) {
    ch == '.' || '0' <= ch <= '9'
  }

  /** The length of the prefix of `s` free of version characters. */
  function Lead(s: string): (n: nat)
    ensures n <= |s|
    ensures forall i :: 0 <= i < n ==> !VersionChar(s[i])
    ensures n < |s| ==> VersionChar(s[n])
  {
    if s != [] && !VersionChar(s[0]) then 1 + Lead(s[1..]) else 0
  }

  /** The length of the run of version characters that starts `s`. */
  function VersionRun(s: string): (n: nat)
    ensures n <= |s|
    ensures forall i :: 0 <= i < n ==> VersionChar(s[i])
    ensures n < |s| ==> !VersionChar(s[n])
  {
    if s != [] && VersionChar(s[0]) then 1 + VersionRun(s[1..]) else 0
  }

  /** `preg_replace('/([.0-9]+).*\/', '\1dev' . $stamp, $version)`. The pattern is
      not anchored and the replacement is global: each maximal run of digits
      and dots is kept, followed by "dev" and the stamp, and the rest of its
      line is dropped; text before a run and the newlines are kept. */
  function SnapshotVersion(v: string, stamp: string): string
    decreases |v|
  {
    if v == [] then []
    else if VersionChar(v[0]) then
      var n := VersionRun(v);
      v[..n] + "dev" + stamp + SnapshotVersion(v[LineEnd(v, n)..], stamp)
    else [v[0]] + SnapshotVersion(v[1..], stamp)
  }

  /** No newline: the pattern's `.*` runs to the end. */
  predicate OneLine(s: string) {
    forall k :: 0 <= k < |s| ==> s[k] != '\n'
  }

  /** A version text made of a prefix without digits or dots, a run of
      them, and a one-line remainder becomes the prefix, the run, "dev" and
      the stamp. */
  lemma {:induction false} SnapshotShape(p: string, run: string, tail: string, stamp: string)
    requires forall i :: 0 <= i < |p| ==> !VersionChar(p[i])
    requires run != [] && forall i :: 0 <= i < |run| ==> VersionChar(run[i])
    requires tail == [] || !VersionChar(tail[0])
    requires OneLine(run + tail)
    ensures SnapshotVersion(p + run + tail, stamp) == p + run + ("dev" + stamp)
  {
    if p == [] {
      var v := run + tail;
      assert p + run + tail == v;
      VersionRunOf(run, tail);
      assert v[..|run|] == run;
      assert LineEnd(v, |run|) == |v|;
      assert v[|v|..] == [];
      assert SnapshotVersion([], stamp) == [];
    } else {
      var v := p + run + tail;
      assert v[1..] == p[1..] + run + tail;
      SnapshotShape(p[1..], run, tail, stamp);
      assert [p[0]] + (p[1..] + run + ("dev" + stamp)) == p + run + ("dev" + stamp);
    }
  }

  /** A version without digits or dots is left as it is. */
  lemma {:induction false} SnapshotNoRun(v: string, stamp: string)
    requires forall i :: 0 <= i < |v| ==> !VersionChar(v[i])
    ensures SnapshotVersion(v, stamp) == v
  {
    if v != [] {
      SnapshotNoRun(v[1..], stamp);
      assert [v[0]] + v[1..] == v;
    }
  }

  /** On a one-line version: everything up to the end of the first run of
      digits and dots is kept and "dev" plus the stamp replaces the rest; a
      version without digits or dots is returned as it is. */
  lemma SnapshotOneLine(v: string, stamp: string)
    requires OneLine(v)
    ensures var i := Lead(v);
            SnapshotVersion(v, stamp) ==
              if i == |v| then v else v[..i + VersionRun(v[i..])] + "dev" + stamp
  {
    var i := Lead(v);
    if i == |v| {
      SnapshotNoRun(v, stamp);
    } else {
      var n := VersionRun(v[i..]);
      var p, run, tail := v[..i], v[i..i + n], v[i + n..];
      assert v == p + run + tail;
      assert run + tail == v[i..];
      assert tail == v[i..][n..];
      SnapshotShape(p, run, tail, stamp);
      assert p + run == v[..i + n];
    }
  }

  lemma {:induction false} VersionRunOf(p: string, q: string)
    requires forall i :: 0 <= i < |p| ==> VersionChar(p[i])
    requires q == [] || !VersionChar(q[0])
    ensures VersionRun(p + q) == |p|
  {
    if p != [] {
      assert (p + q)[1..] == p[1..] + q;
      VersionRunOf(p[1..], q);
    } else {
      assert p + q == q;
    }
  }

  lemma OneLineConcat(a: string, b: string)
    requires OneLine(a) && OneLine(b)
    ensures OneLine(a + b)
  {
    forall k | 0 <= k < |a + b| ensures (a + b)[k] != '\n' {
      if k >= |a| {
        assert (a + b)[k] == b[k - |a|];
      }
    }
  }

  /** A stamped one-line version with a run: its prefix, its run, then "dev"
      and the stamp. */
  lemma StampParts(v: string, stamp: string) returns (p: string, run: string)
    requires OneLine(v) && Lead(v) < |v|
    ensures SnapshotVersion(v, stamp) == p + run + ("dev" + stamp)
    ensures forall i :: 0 <= i < |p| ==> !VersionChar(p[i])
    ensures run != [] && forall i :: 0 <= i < |run| ==> VersionChar(run[i])
    ensures OneLine(run)
  {
    var i := Lead(v);
    var n := VersionRun(v[i..]);
    var rest := v[i + n..];
    p, run := v[..i], v[i..i + n];
    assert v == p + run + rest && run + rest == v[i..] && rest == v[i..][n..];
    assert OneLine(run + rest) by {
      forall k | 0 <= k < |run + rest| ensures (run + rest)[k] != '\n' {
        assert (run + rest)[k] == v[i + k];
      }
    }
    assert OneLine(run) by {
      forall k | 0 <= k < |run| ensures run[k] != '\n' {
        assert run[k] == (run + rest)[k];
      }
    }
    SnapshotShape(p, run, rest, stamp);
  }

  /** Stamping a one-line version twice with the same one-line stamp gives
      what stamping it once gives. */
  lemma SnapshotIdempotent(v: string, stamp: string)
    requires OneLine(v) && OneLine(stamp)
    ensures SnapshotVersion(SnapshotVersion(v, stamp), stamp) == SnapshotVersion(v, stamp)
  {
    if Lead(v) == |v| {
      SnapshotNoRun(v, stamp);
    } else {
      var p, run := StampParts(v, stamp);
      StampedFixed(p, run, stamp);
    }
  }

  /** A prefix, a run and "dev" plus a one-line stamp is its own stamp. */
  lemma StampedFixed(p: string, run: string, stamp: string)
    requires forall i :: 0 <= i < |p| ==> !VersionChar(p[i])
    requires run != [] && forall i :: 0 <= i < |run| ==> VersionChar(run[i])
    requires OneLine(run) && OneLine(stamp)
    ensures SnapshotVersion(p + run + ("dev" + stamp), stamp) == p + run + ("dev" + stamp)
  {
    DevTail(run, stamp);
    SnapshotShape(p, run, "dev" + stamp, stamp);
  }

  lemma DevTail(run: string, stamp: string)
    requires OneLine(run) && OneLine(stamp)
    ensures OneLine(run + ("dev" + stamp)) && !VersionChar(("dev" + stamp)[0])
  {
    OneLineConcat("dev", stamp);
    OneLineConcat(run, "dev" + stamp);
  }

  /** One entry of `getValidationWarnings()`: its 'message' key, when set. */
  datatype Warning = Warning(message: Option<string>)

  /** The line a warning contributes: its message, or 'Unknown Error'. */
  function WarningText(w: Warning): string {
    match w.message
    case Some(m) => m
    case None => "Unknown Error"
  }

  /** What the PEAR generator's `toTgz` came to: the archive it produced, or
      the PEAR error it raised with the package's validation warnings. */
  datatype TgzOutcome =
    | Generated(result: string)
    | PearFailure(message: string, warnings: seq<Warning>)

  /** Where a PEAR package file was read from, and in which installation
      environment. A null path is None. */
  datatype Origin =
    | FromXml(path: Option<string>, env: string)
    | FromTgz(path: Option<string>, env: string)
    | Writable(path: Option<string>, env: string)

  /** A PEAR package file: its origin, and the release version, date and time
      set on it since (None: as read). */
  datatype PackageFile = PackageFile(origin: Origin, release: Option<string>,
                                     date: Option<string>, time: Option<string>)

  /** The PEAR generator: the outcome of `toTgz` for a package file, run in a
      working directory. */
  type Generator = (PackageFile, string) -> TgzOutcome

  /** The `catch (Components_Exception_Pear $e)` block: the exception's message,
      an empty line, then one line per validation warning. */
  method CollectErrors(message: string, warnings: seq<Warning>) returns (errors: seq<string>)
    ensures |errors| == |warnings| + 2
    ensures errors[0] == message && errors[1] == ""
    ensures forall i :: 0 <= i < |warnings| ==> errors[i + 2] == WarningText(warnings[i])
  {
    errors := [message, ""];
    var i := 0;
    while i < |warnings|
      invariant 0 <= i <= |warnings|
      invariant |errors| == i + 2
      invariant errors[0] == message && errors[1] == ""
      invariant forall j :: 0 <= j < i ==> errors[j + 2] == WarningText(warnings[j])
    {
      errors := errors + [WarningText(warnings[i])];
      i := i + 1;
    }
  }

  /** What the `try`/`catch` around `toTgz` yields for an outcome: the
      generator's result and no errors, or false (None) and the error lines. */
  predicate Caught(outcome: TgzOutcome, result: Option<string>, errors: seq<string>) {
    match outcome
    case Generated(res) => result == Some(res) && errors == []
    case PearFailure(m, ws) =>
      result.None? && |errors| == |ws| + 2 && errors[0] == m && errors[1] == "" &&
      forall i :: 0 <= i < |ws| ==> errors[i + 2] == WarningText(ws[i])
  }

  /** An outcome determines what is caught of it. */
  lemma CaughtUnique(outcome: TgzOutcome, r1: Option<string>, e1: seq<string>, r2: Option<string>, e2: seq<string>)
    requires Caught(outcome, r1, e1) && Caught(outcome, r2, e2)
    ensures r1 == r2 && e1 == e2
  {
    if outcome.PearFailure? {
      var ws := outcome.warnings;
      forall i | 0 <= i < |e1| ensures e1[i] == e2[i] {
        if i >= 2 {
          var k := i - 2;
          assert e1[k + 2] == WarningText(ws[k]) == e2[k + 2];
        }
      }
    }
  }

  /** The `try`/`catch` around `toTgz`. */
  method CatchPearError(outcome: TgzOutcome) returns (result: Option<string>, errors: seq<string>)
    ensures Caught(outcome, result, errors)
  {
    match outcome
    case Generated(r) =>
      result, errors := Some(r), [];
    case PearFailure(m, ws) =>
      result := None;
      errors := CollectErrors(m, ws);
  }
}
