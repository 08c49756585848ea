/**
 * The subset aggregator: the contents of the selected subset files,
 * concatenated in list order into `unicodes` (generate.py, lines 45-48).
 * The file system is a map from path to contents.
 */
module Aggregation {
  import opened Arguments

  /** The file that backs a subset. */
  function SubsetPath(s: Subset): string {
    "charactersubsets/" + Name(s) + ".txt"
  }

  /** A subset's file is its name, inside the subsets directory, with a `.txt` extension. */
  lemma SubsetPathParts(s: Subset)
    ensures |SubsetPath(s)| == |Name(s)| + 21
    ensures SubsetPath(s)[..17] == "charactersubsets/"
    ensures SubsetPath(s)[|SubsetPath(s)| - 4..] == ".txt"
    ensures SubsetPath(s)[17..|SubsetPath(s)| - 4] == Name(s)
  {
    var path := SubsetPath(s);
    assert path == "charactersubsets/" + Name(s) + ".txt";
  }

  /** Different subsets are read from different files. */
  lemma SubsetPathsDiffer(a: Subset, b: Subset)
    ensures SubsetPath(a) == SubsetPath(b) ==> a == b
  {
    NamesDiffer(a, b);
    SubsetPathParts(a);
    SubsetPathParts(b);
  }

  /** Every subset in `names` has its file. */
  predicate AllPresent(names: seq<Subset>, files: map<string, string>) {
    forall i :: 0 <= i < |names| ==> SubsetPath(names[i]) in files
  }

  /** The file contents of `names`, first name first. */
  function Joined(names: seq<Subset>, files: map<string, string>): string
    requires AllPresent(names, files)
  {
    if names == [] then ""
    else files[SubsetPath(names[0])] + Joined(names[1..], files)
  }

  /** What the aggregation loop ends with: the text, or the path `open` could not find. */
  datatype Aggregated = Unicodes(text: string) | FileNotFound(path: string)

  /**
   * Reads each subset file in list order and appends its contents.  A
   * missing file stops the run at that file: there is no partial result.
   */
  method Aggregate(subsets: seq<Subset>, files: map<string, string>) returns (r: Aggregated)
    ensures r.Unicodes? <==> AllPresent(subsets, files)
    ensures r.Unicodes? ==> AllPresent(subsets, files) && r.text == Joined(subsets, files)
    ensures r.FileNotFound? ==>
              exists i :: 0 <= i < |subsets| && r.path == SubsetPath(subsets[i])
                          && r.path !in files && AllPresent(subsets[..i], files)
  {
    var unicodes := "";
    var i := 0;
    while i < |subsets|
      invariant 0 <= i <= |subsets|
      invariant AllPresent(subsets[..i], files)
      invariant unicodes == Joined(subsets[..i], files)
    {
      var path := SubsetPath(subsets[i]);
      if path !in files {
        return FileNotFound(path);
      }
      assert subsets[..i + 1] == subsets[..i] + [subsets[i]];
      JoinedAppend(subsets[..i], [subsets[i]], files);
      unicodes := unicodes + files[path];
      i := i + 1;
    }
    assert subsets[..i] == subsets;
    r := Unicodes(unicodes);
  }

  /** Joining a concatenation concatenates the joins. */
  lemma {:induction false} JoinedAppend(a: seq<Subset>, b: seq<Subset>, files: map<string, string>)
    requires AllPresent(a + b, files)
    ensures AllPresent(a, files) && AllPresent(b, files)
    ensures Joined(a + b, files) == Joined(a, files) + Joined(b, files)
  {
    assert forall i :: 0 <= i < |a| ==> (a + b)[i] == a[i];
    assert forall i :: 0 <= i < |b| ==> (a + b)[|a| + i] == b[i];
    if a == [] {
      assert a + b == b;
    } else {
      assert (a + b)[1..] == a[1..] + b;
      JoinedAppend(a[1..], b, files);
    }
  }

  /** A subset the flag may leave out contributes its file when the flag is set, nothing otherwise. */
  lemma JoinedOptional(flag: bool, x: Subset, files: map<string, string>)
    requires flag ==> SubsetPath(x) in files
    ensures AllPresent(if flag then [x] else [], files)
    ensures Joined(if flag then [x] else [], files) == if flag then files[SubsetPath(x)] else ""
  {
    if flag {
      assert Joined([x], files) == files[SubsetPath(x)] + Joined([], files);
    }
  }

  /** The text handed to the engine, in closed form for every combination of flags. */
  lemma JoinedSelection(argv: seq<string>, files: map<string, string>)
    requires AllPresent(Selected(argv), files)
    ensures SubsetPath(BodyCharacters) in files
    ensures "-s" in argv ==> SubsetPath(CommonSymbols) in files
    ensures "-l" in argv ==> SubsetPath(Ligatures) in files
    ensures "-h" in argv ==> SubsetPath(SemiboldLetterHack) in files
    ensures Joined(Selected(argv), files)
         == files[SubsetPath(BodyCharacters)]
          + (if "-s" in argv then files[SubsetPath(CommonSymbols)] else "")
          + (if "-l" in argv then files[SubsetPath(Ligatures)] else "")
          + (if "-h" in argv then files[SubsetPath(SemiboldLetterHack)] else "")
  {
    SelectedShape(argv);
    SelectedUnfolded(argv);
    var sel := Selected(argv);
    forall x | Requested(argv, x) ensures SubsetPath(x) in files {
      var k :| 0 <= k < |sel| && sel[k] == x;
    }
    var b := [BodyCharacters];
    var s := if "-s" in argv then [CommonSymbols] else [];
    var l := if "-l" in argv then [Ligatures] else [];
    var h := if "-h" in argv then [SemiboldLetterHack] else [];
    assert sel == b + s + l + h;
    JoinedAppend(b + s + l, h, files);
    JoinedAppend(b + s, l, files);
    JoinedAppend(b, s, files);
    JoinedOptional(true, BodyCharacters, files);
    JoinedOptional("-s" in argv, CommonSymbols, files);
    JoinedOptional("-l" in argv, Ligatures, files);
    JoinedOptional("-h" in argv, SemiboldLetterHack, files);
  }

  /** Without flags the engine sees the body characters alone. */
  lemma BodyOnlyWithoutFlags(argv: seq<string>, files: map<string, string>)
    requires "-s" !in argv && "-l" !in argv && "-h" !in argv
    requires SubsetPath(BodyCharacters) in files
    ensures AllPresent(Selected(argv), files)
    ensures Joined(Selected(argv), files) == files[SubsetPath(BodyCharacters)]
  {
    SelectedUnfolded(argv);
    JoinedSelection(argv, files);
  }

  /** `-s` and `-l` in any positions give body, then symbols, then ligatures. */
  lemma SymbolsAndLigatures(argv: seq<string>, files: map<string, string>)
    requires "-s" in argv && "-l" in argv && "-h" !in argv
    requires SubsetPath(BodyCharacters) in files
    requires SubsetPath(CommonSymbols) in files && SubsetPath(Ligatures) in files
    ensures AllPresent(Selected(argv), files)
    ensures Joined(Selected(argv), files)
         == files[SubsetPath(BodyCharacters)] + files[SubsetPath(CommonSymbols)] + files[SubsetPath(Ligatures)]
  {
    SelectedUnfolded(argv);
    JoinedSelection(argv, files);
  }
}
