/**
 * One run of the script, from the command line to the ranked report
 * (generate.py, lines 23-101): resolve the arguments, aggregate the subsets,
 * sweep the six variants, sort the records by length and rank them.
 */
module Generate {
  import opened Sequences
  import opened Arguments
  import opened Aggregation
  import opened Variants
  import opened Sweep
  import opened Ranking

  /** What a completed run has produced and printed. */
  datatype Report = Report(
    config: Config,
    unicodes: string,            // the text written to unicodes.txt
    commands: seq<string>,
    invoked: seq<string>,        // the commands handed to the engine, in call order
    failed: seq<string>,         // the commands for which the error message was printed
    ranked: seq<Candidate>,      // base64_results after the sort
    ranks: seq<nat>)             // the rank printed before each payload

  /** A run either completes or stops at the first subset file it cannot open. */
  datatype Outcome = Completed(report: Report) | SubsetFileMissing(path: string)

  /**
   * Lines 89-101: sort the records by length, then rank each.  The records
   * of a sweep never repeat, so every rank is the 1-based position.
   */
  method SortAndRank(results: seq<Candidate>) returns (ranked: seq<Candidate>, ranks: seq<nat>)
    requires Distinct(results)
    ensures SortedByLength(ranked)
    ensures StablyReordered(results, ranked)
    ensures multiset(ranked) == multiset(results)
    ensures |ranks| == |ranked|
    ensures forall i :: 0 <= i < |ranks| ==> ranks[i] == i + 1
  {
    ranked := StableSortByLength(results);
    DistinctPermutation(results, ranked);
    ranks := Ranks(ranked);
  }

  /**
   * Lines 55-101: build the six commands, sweep them, then sort and rank the
   * records.  Each engine command is distinct, so no two records are equal.
   */
  method SweepAndRank(fontFile: string, outputFile: string, base64: bool, runs: seq<EngineRun>)
    returns (commands: seq<string>, invoked: seq<string>, failed: seq<string>,
             ranked: seq<Candidate>, ranks: seq<nat>)
    requires |runs| == 6
    ensures commands == Commands(fontFile, outputFile)
    ensures invoked == commands
    ensures failed == Failures(commands, runs)
    ensures SortedByLength(ranked)
    ensures StablyReordered(Recorded(commands, runs, base64), ranked)
    ensures multiset(ranked) == multiset(Recorded(commands, runs, base64))
    ensures !base64 ==> ranked == []
    ensures |ranks| == |ranked|
    ensures forall i :: 0 <= i < |ranks| ==> ranks[i] == i + 1
  {
    commands := Commands(fontFile, outputFile);
    var results;
    invoked, failed, results := RunSweep(commands, runs, base64);
    CommandsDistinct(fontFile, outputFile);
    RecordedCommandsDistinct(commands, runs, base64);
    ranked, ranks := SortAndRank(results);
    if !base64 {
      NothingRecordedWithoutBase64(commands, runs);
      assert |ranked| == |multiset(ranked)| == 0;
    }
  }

  /**
   * The whole script.  `files` is the file system the subset files are read
   * from; `runs[i]` is what the engine returns for the i-th command.
   */
  method RunScript(argv: seq<string>, files: map<string, string>, runs: seq<EngineRun>)
    returns (outcome: Outcome)
    requires |argv| >= 3
    requires |runs| == 6
    ensures outcome.SubsetFileMissing? <==> !AllPresent(Selected(argv), files)
    ensures outcome.SubsetFileMissing? ==>
              exists i :: 0 <= i < |Selected(argv)| && outcome.path == SubsetPath(Selected(argv)[i])
                          && outcome.path !in files && AllPresent(Selected(argv)[..i], files)
    ensures outcome.Completed? ==>
              var r := outcome.report;
              var records := Recorded(Commands(argv[1], argv[2]), runs, Base64Enabled(argv));
              && AllPresent(Selected(argv), files)
              && r.config == Config(argv[1], argv[2], Base64Enabled(argv), Selected(argv))
              && r.unicodes == Joined(Selected(argv), files)
              && r.commands == Commands(argv[1], argv[2])
              && r.invoked == r.commands
              && r.failed == Failures(r.commands, runs)
              && SortedByLength(r.ranked)
              && StablyReordered(records, r.ranked)
              && multiset(r.ranked) == multiset(records)
              && (!Base64Enabled(argv) ==> r.ranked == [])
              && |r.ranks| == |r.ranked|
              && (forall i :: 0 <= i < |r.ranks| ==> r.ranks[i] == i + 1)
  {
    var config := Resolve(argv);
    var aggregated := Aggregate(config.subsets, files);
    if aggregated.FileNotFound? {
      var i :| 0 <= i < |config.subsets| && aggregated.path == SubsetPath(config.subsets[i])
               && aggregated.path !in files && AllPresent(config.subsets[..i], files);
      return SubsetFileMissing(aggregated.path);
    }
    var commands, invoked, failed, ranked, ranks :=
      SweepAndRank(config.fontFile, config.outputFile, config.base64, runs);
    outcome := Completed(Report(config, aggregated.text, commands, invoked, failed, ranked, ranks));
  }
}
