/**
 * The variant sweep (generate.py, lines 65-86): every command goes to the
 * subsetting engine once, in order; a failure prints an error and the sweep
 * goes on; a success adds one record when BASE64 is set.  The engine and the
 * base64 encoder are foreign: what each engine run returns is an input.
 */
module Sweep {
  import opened Sequences

  /** What one engine run gives back: its exit status and the base64 text of
      the output file it leaves behind. */
  datatype EngineRun = EngineRun(exitCode: int, encoded: string)

  /** One entry of `base64_results`. */
  datatype Candidate = Candidate(command: string, length: nat, payload: string)

  /** The record the script makes for a command whose output encodes as `encoded`. */
  function RecordOf(command: string, encoded: string): (record: Candidate)
    ensures record.command == command && record.payload == encoded
    ensures record.length == |record.payload|
  {
    Candidate(command, |encoded|, encoded)
  }

  /** The records of a whole sweep, in command order. */
  function Recorded(commands: seq<string>, runs: seq<EngineRun>, base64: bool): seq<Candidate>
    requires |runs| == |commands|
  {
    if commands == [] then []
    else (if runs[0].exitCode == 0 && base64 then [RecordOf(commands[0], runs[0].encoded)] else [])
         + Recorded(commands[1..], runs[1..], base64)
  }

  /** The commands for which the error message is printed, in command order. */
  function Failures(commands: seq<string>, runs: seq<EngineRun>): (failed: seq<string>)
    requires |runs| == |commands|
    ensures |failed| <= |commands|
  {
    if commands == [] then []
    else (if runs[0].exitCode != 0 then [commands[0]] else []) + Failures(commands[1..], runs[1..])
  }

  /**
   * The sweep loop.  `invoked` lists the commands handed to the engine, in
   * call order; `failed` those whose error message was printed.
   */
  method RunSweep(commands: seq<string>, runs: seq<EngineRun>, base64: bool)
    returns (invoked: seq<string>, failed: seq<string>, results: seq<Candidate>)
    requires |runs| == |commands|
    ensures invoked == commands
    ensures failed == Failures(commands, runs)
    ensures results == Recorded(commands, runs, base64)
  {
    invoked, failed, results := [], [], [];
    for i := 0 to |commands|
      invariant invoked == commands[..i]
      invariant failed == Failures(commands[..i], runs[..i])
      invariant results == Recorded(commands[..i], runs[..i], base64)
    {
      SweepStep(commands, runs, base64, i);
      var command := commands[i];
      invoked := invoked + [command];
      var result := runs[i].exitCode;
      if result != 0 {
        failed := failed + [command];
        continue;
      }
      if base64 {
        results := results + [RecordOf(command, runs[i].encoded)];
      }
    }
    assert commands[..|commands|] == commands && runs[..|runs|] == runs;
  }

  /** Going one command further extends both lists by that command's outcome alone. */
  lemma SweepStep(commands: seq<string>, runs: seq<EngineRun>, base64: bool, i: nat)
    requires |runs| == |commands| && i < |commands|
    ensures Recorded(commands[..i + 1], runs[..i + 1], base64)
         == Recorded(commands[..i], runs[..i], base64)
          + (if runs[i].exitCode == 0 && base64 then [RecordOf(commands[i], runs[i].encoded)] else [])
    ensures Failures(commands[..i + 1], runs[..i + 1])
         == Failures(commands[..i], runs[..i]) + (if runs[i].exitCode != 0 then [commands[i]] else [])
  {
    var c, r := commands[..i + 1], runs[..i + 1];
    RecordedSplit(c, r, base64, i);
    FailuresSplit(c, r, i);
    assert c[..i] == commands[..i] && r[..i] == runs[..i];
    assert c[i..] == [commands[i]] && r[i..] == [runs[i]];
    assert [commands[i]][1..] == [] && [runs[i]][1..] == [];
  }

  /** The records of a sweep are those of its first `n` commands, then those of the rest. */
  lemma {:induction false} RecordedSplit(commands: seq<string>, runs: seq<EngineRun>, base64: bool, n: nat)
    requires |runs| == |commands| && n <= |commands|
    ensures Recorded(commands, runs, base64)
         == Recorded(commands[..n], runs[..n], base64) + Recorded(commands[n..], runs[n..], base64)
  {
    if n > 0 {
      RecordedSplit(commands[1..], runs[1..], base64, n - 1);
      assert commands[..n][1..] == commands[1..][..n - 1];
      assert runs[..n][1..] == runs[1..][..n - 1];
      assert commands[1..][n - 1..] == commands[n..];
      assert runs[1..][n - 1..] == runs[n..];
    } else {
      assert commands[..0] == [] && commands[0..] == commands && runs[0..] == runs;
    }
  }

  /** The same split for the printed errors. */
  lemma {:induction false} FailuresSplit(commands: seq<string>, runs: seq<EngineRun>, n: nat)
    requires |runs| == |commands| && n <= |commands|
    ensures Failures(commands, runs)
         == Failures(commands[..n], runs[..n]) + Failures(commands[n..], runs[n..])
  {
    if n > 0 {
      FailuresSplit(commands[1..], runs[1..], n - 1);
      assert commands[..n][1..] == commands[1..][..n - 1];
      assert runs[..n][1..] == runs[1..][..n - 1];
      assert commands[1..][n - 1..] == commands[n..];
      assert runs[1..][n - 1..] == runs[n..];
    } else {
      assert commands[..0] == [] && commands[0..] == commands && runs[0..] == runs;
    }
  }

  /** Without BASE64 nothing is recorded. */
  lemma {:induction false} NothingRecordedWithoutBase64(commands: seq<string>, runs: seq<EngineRun>)
    requires |runs| == |commands|
    ensures Recorded(commands, runs, false) == []
  {
    if commands != [] {
      NothingRecordedWithoutBase64(commands[1..], runs[1..]);
    }
  }

  /** With BASE64 every command either prints an error or adds exactly one record. */
  lemma {:induction false} OneRecordPerSuccess(commands: seq<string>, runs: seq<EngineRun>)
    requires |runs| == |commands|
    ensures |Recorded(commands, runs, true)| + |Failures(commands, runs)| == |commands|
  {
    if commands != [] {
      OneRecordPerSuccess(commands[1..], runs[1..]);
    }
  }

  /** Every record comes from a command whose engine run succeeded, with its output's encoding. */
  lemma {:induction false} RecordedFromSuccesses(commands: seq<string>, runs: seq<EngineRun>, base64: bool)
    requires |runs| == |commands|
    ensures forall c :: c in Recorded(commands, runs, base64) ==>
              exists i :: 0 <= i < |commands| && runs[i].exitCode == 0
                          && c == RecordOf(commands[i], runs[i].encoded)
  {
    if commands != [] {
      RecordedFromSuccesses(commands[1..], runs[1..], base64);
      forall c | c in Recorded(commands, runs, base64)
        ensures exists i :: 0 <= i < |commands| && runs[i].exitCode == 0
                            && c == RecordOf(commands[i], runs[i].encoded)
      {
        if c !in Recorded(commands[1..], runs[1..], base64) {
          assert runs[0].exitCode == 0 && c == RecordOf(commands[0], runs[0].encoded);
        } else {
          var k :| 0 <= k < |commands[1..]| && runs[1..][k].exitCode == 0
                   && c == RecordOf(commands[1..][k], runs[1..][k].encoded);
          assert commands[1..][k] == commands[k + 1] && runs[1..][k] == runs[k + 1];
        }
      }
    }
  }

  /** When every run succeeds, the records follow the commands one for one. */
  lemma {:induction false} AllSucceedAllRecorded(commands: seq<string>, runs: seq<EngineRun>)
    requires |runs| == |commands|
    requires forall i :: 0 <= i < |runs| ==> runs[i].exitCode == 0
    ensures |Recorded(commands, runs, true)| == |commands|
    ensures forall i :: 0 <= i < |commands| ==>
              Recorded(commands, runs, true)[i] == RecordOf(commands[i], runs[i].encoded)
  {
    if commands != [] {
      assert forall i :: 0 <= i < |runs[1..]| ==> runs[1..][i] == runs[i + 1];
      AllSucceedAllRecorded(commands[1..], runs[1..]);
    }
  }

  /**
   * A failure is isolated: making the run of command `i` fail removes that
   * command's record (if it had one) and leaves the records of the commands
   * before and after it as they were.
   */
  lemma FailureRemovesOnlyItsRecord(commands: seq<string>, runs: seq<EngineRun>, base64: bool, i: nat, code: int)
    requires |runs| == |commands| && i < |commands| && code != 0
    ensures var before := Recorded(commands[..i], runs[..i], base64);
            var after := Recorded(commands[i + 1..], runs[i + 1..], base64);
            && Recorded(commands, runs[i := EngineRun(code, runs[i].encoded)], base64) == before + after
            && Recorded(commands, runs, base64)
               == before
                + (if runs[i].exitCode == 0 && base64 then [RecordOf(commands[i], runs[i].encoded)] else [])
                + after
  {
    var failing := runs[i := EngineRun(code, runs[i].encoded)];
    RecordedSplit(commands, runs, base64, i);
    RecordedSplit(commands, failing, base64, i);
    assert failing[..i] == runs[..i];
    assert commands[i..][1..] == commands[i + 1..];
    assert runs[i..][1..] == runs[i + 1..];
    assert failing[i..][1..] == runs[i + 1..];
    assert failing[i..][0] == EngineRun(code, runs[i].encoded);
  }

  /** Distinct commands give records with distinct commands. */
  lemma {:induction false} RecordedCommandsDistinct(commands: seq<string>, runs: seq<EngineRun>, base64: bool)
    requires |runs| == |commands|
    requires Distinct(commands)
    ensures forall i, j :: 0 <= i < j < |Recorded(commands, runs, base64)| ==>
              Recorded(commands, runs, base64)[i].command != Recorded(commands, runs, base64)[j].command
    ensures Distinct(Recorded(commands, runs, base64))
  {
    if commands != [] {
      var tail := Recorded(commands[1..], runs[1..], base64);
      assert Distinct(commands[1..]) by {
        forall i, j | 0 <= i < j < |commands[1..]| ensures commands[1..][i] != commands[1..][j] {
          assert commands[1..][i] == commands[i + 1] && commands[1..][j] == commands[j + 1];
        }
      }
      RecordedCommandsDistinct(commands[1..], runs[1..], base64);
      RecordedFromSuccesses(commands[1..], runs[1..], base64);
      forall j | 0 <= j < |tail| ensures tail[j].command != commands[0] {
        assert tail[j] in tail;
        var k :| 0 <= k < |commands[1..]| && runs[1..][k].exitCode == 0
                 && tail[j] == RecordOf(commands[1..][k], runs[1..][k].encoded);
        assert commands[1..][k] == commands[k + 1];
      }
    }
  }
}
