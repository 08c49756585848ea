/**
 * Resolution of the command line: the font file, the output name, the
 * base64 switch and the list of character subsets (generate.py, lines 23-40).
 */
module Arguments {
  import opened Sequences

  /** The four character subsets the script knows, each named by the file that backs it. */
  datatype Subset = BodyCharacters | CommonSymbols | Ligatures | SemiboldLetterHack

  /** The name the script appends to CHARACTER_SUBSETS for a subset. */
  function Name(s: Subset): string {
    match s
    case BodyCharacters => "bodycharacters"
    case CommonSymbols => "commonsymbols"
    case Ligatures => "ligatures"
    case SemiboldLetterHack => "semiboldletterhack"
  }

  /** The four names differ (already in length: 14, 13, 9 and 18 characters),
      so a name stands for one subset. */
  lemma NamesDiffer(a: Subset, b: Subset)
    ensures Name(a) == Name(b) ==> a == b
  {
    assert |Name(BodyCharacters)| == 14 && |Name(CommonSymbols)| == 13;
    assert |Name(Ligatures)| == 9 && |Name(SemiboldLetterHack)| == 18;
  }

  /** The subsets in the order the script appends them. */
  const KNOWN_SUBSETS: seq<Subset> := [BodyCharacters, CommonSymbols, Ligatures, SemiboldLetterHack]

  /** Where a subset stands in KNOWN_SUBSETS. */
  function Position(s: Subset): (p: nat)
    ensures p < 4 && KNOWN_SUBSETS[p] == s
  {
    match s
    case BodyCharacters => 0
    case CommonSymbols => 1
    case Ligatures => 2
    case SemiboldLetterHack => 3
  }

  /**
   * Whether the command line asks for subset `s`: the body characters
   * always, each optional subset when its flag is one of the tokens (any of
   * them, the script name and the two file names included).
   */
  predicate Requested(argv: seq<string>, s: Subset) {
    match s
    case BodyCharacters => true
    case CommonSymbols => "-s" in argv
    case Ligatures => "-l" in argv
    case SemiboldLetterHack => "-h" in argv
  }

  /** The requested subsets among `subsets`, in their order there. */
  function KeepRequested(subsets: seq<Subset>, argv: seq<string>): seq<Subset> {
    if subsets == [] then []
    else (if Requested(argv, subsets[0]) then [subsets[0]] else []) + KeepRequested(subsets[1..], argv)
  }

  /** KeepRequested keeps exactly the requested subsets. */
  lemma {:induction false} KeepRequestedMembers(subsets: seq<Subset>, argv: seq<string>)
    ensures |KeepRequested(subsets, argv)| <= |subsets|
    ensures forall s :: s in KeepRequested(subsets, argv) <==> s in subsets && Requested(argv, s)
  {
    if subsets != [] {
      KeepRequestedMembers(subsets[1..], argv);
      assert subsets == [subsets[0]] + subsets[1..];
    }
  }

  /** Reference definition of CHARACTER_SUBSETS: the known subsets that are requested. */
  function Selected(argv: seq<string>): seq<Subset> {
    KeepRequested(KNOWN_SUBSETS, argv)
  }

  /** Each subset strictly after the ones before it in KNOWN_SUBSETS. */
  ghost predicate InCanonicalOrder(s: seq<Subset>) {
    forall i, j :: 0 <= i < j < |s| ==> Position(s[i]) < Position(s[j])
  }

  /** `BASE64`: the tokens end with `base64`. */
  function Base64Enabled(argv: seq<string>): (enabled: bool)
    requires |argv| >= 1
    ensures enabled <==> argv == argv[..|argv| - 1] + ["base64"]
  {
    assert argv == argv[..|argv| - 1] + [argv[|argv| - 1]];
    argv[|argv| - 1] == "base64"
  }

  /** The configuration one invocation runs with. */
  datatype Config = Config(fontFile: string, outputFile: string, base64: bool, subsets: seq<Subset>)

  /** Builds CHARACTER_SUBSETS by conditional appends, as the script does. */
  method ResolveSubsets(argv: seq<string>) returns (subsets: seq<Subset>)
    ensures subsets == Selected(argv)
    ensures |subsets| >= 1 && subsets[0] == BodyCharacters
    ensures CommonSymbols in subsets <==> "-s" in argv
    ensures Ligatures in subsets <==> "-l" in argv
    ensures SemiboldLetterHack in subsets <==> "-h" in argv
    ensures InCanonicalOrder(subsets)
  {
    subsets := [BodyCharacters];
    if "-s" in argv {
      subsets := subsets + [CommonSymbols];
    }
    if "-l" in argv {
      subsets := subsets + [Ligatures];
    }
    if "-h" in argv {
      subsets := subsets + [SemiboldLetterHack];
    }
    SelectedUnfolded(argv);
    SelectedShape(argv);
  }

  /** Reads FONT_FILE, OUTPUT_FILE, BASE64 and CHARACTER_SUBSETS off the tokens. */
  method Resolve(argv: seq<string>) returns (config: Config)
    requires |argv| >= 3
    ensures config.fontFile == argv[1] && config.outputFile == argv[2]
    ensures config.base64 == Base64Enabled(argv)
    ensures config.subsets == Selected(argv)
  {
    var subsets := ResolveSubsets(argv);
    config := Config(argv[1], argv[2], Base64Enabled(argv), subsets);
  }

  /** Selected written out case by case. */
  lemma SelectedUnfolded(argv: seq<string>)
    ensures Selected(argv)
         == [BodyCharacters]
          + (if "-s" in argv then [CommonSymbols] else [])
          + (if "-l" in argv then [Ligatures] else [])
          + (if "-h" in argv then [SemiboldLetterHack] else [])
  {
    KeepRequestedCons(SemiboldLetterHack, [], argv);
    assert [SemiboldLetterHack] + [] == [SemiboldLetterHack];
    KeepRequestedCons(Ligatures, [SemiboldLetterHack], argv);
    assert [Ligatures] + [SemiboldLetterHack] == [Ligatures, SemiboldLetterHack];
    KeepRequestedCons(CommonSymbols, [Ligatures, SemiboldLetterHack], argv);
    assert [CommonSymbols] + [Ligatures, SemiboldLetterHack] == KNOWN_SUBSETS[1..];
    KeepRequestedCons(BodyCharacters, KNOWN_SUBSETS[1..], argv);
    assert [BodyCharacters] + KNOWN_SUBSETS[1..] == KNOWN_SUBSETS;
  }

  /** KeepRequested decides on the first subset, then goes on with the rest. */
  lemma KeepRequestedCons(x: Subset, rest: seq<Subset>, argv: seq<string>)
    ensures KeepRequested([x] + rest, argv)
         == (if Requested(argv, x) then [x] else []) + KeepRequested(rest, argv)
  {
    assert ([x] + rest)[1..] == rest;
  }

  /** The selection starts with the body characters, keeps the canonical order
      and holds exactly the requested subsets. */
  lemma SelectedShape(argv: seq<string>)
    ensures |Selected(argv)| >= 1 && Selected(argv)[0] == BodyCharacters
    ensures InCanonicalOrder(Selected(argv))
    ensures forall s :: s in Selected(argv) <==> Requested(argv, s)
  {
    SelectedUnfolded(argv);
    KeepRequestedMembers(KNOWN_SUBSETS, argv);
    forall s ensures s in KNOWN_SUBSETS {
      assert KNOWN_SUBSETS[Position(s)] == s;
    }
  }

  /** Canonical order admits no repeated subset. */
  lemma CanonicalOrderHasNoDuplicates(s: seq<Subset>)
    requires InCanonicalOrder(s)
    ensures Distinct(s)
  {
  }

  lemma HeadIsMember(s: seq<Subset>)
    requires s != []
    ensures s[0] in s
  {
  }

  /** Two sequences in canonical order with the same subsets are equal. */
  lemma {:induction false} CanonicalOrderIsUnique(s: seq<Subset>, t: seq<Subset>)
    requires InCanonicalOrder(s) && InCanonicalOrder(t)
    requires forall x :: x in s <==> x in t
    ensures s == t
  {
    if s == [] || t == [] {
      if s != [] {
        HeadIsMember(s);
        assert false;
      } else if t != [] {
        HeadIsMember(t);
        assert false;
      }
    } else {
      HeadIsLeast(s, t[0]);
      HeadIsLeast(t, s[0]);
      assert KNOWN_SUBSETS[Position(s[0])] == s[0] && KNOWN_SUBSETS[Position(t[0])] == t[0];
      CanonicalTail(s);
      CanonicalTail(t);
      forall x ensures x in s[1..] <==> x in t[1..] {
        TailMembership(s, x);
        TailMembership(t, x);
      }
      CanonicalOrderIsUnique(s[1..], t[1..]);
      assert s == [s[0]] + s[1..] && t == [t[0]] + t[1..];
    }
  }

  /** In canonical order the head comes first among the members. */
  lemma HeadIsLeast(s: seq<Subset>, x: Subset)
    requires InCanonicalOrder(s) && s != [] && x in s
    ensures Position(s[0]) <= Position(x)
  {
    var k :| 0 <= k < |s| && s[k] == x;
  }

  /** Dropping the head keeps the canonical order. */
  lemma CanonicalTail(s: seq<Subset>)
    requires InCanonicalOrder(s) && s != []
    ensures InCanonicalOrder(s[1..])
  {
    forall i, j | 0 <= i < j < |s[1..]| ensures Position(s[1..][i]) < Position(s[1..][j]) {
      assert s[1..][i] == s[i + 1] && s[1..][j] == s[j + 1];
    }
  }

  /** In canonical order the tail holds every subset but the head. */
  lemma TailMembership(s: seq<Subset>, x: Subset)
    requires InCanonicalOrder(s) && s != []
    ensures x in s[1..] <==> x in s && x != s[0]
  {
    if x in s[1..] {
      var k :| 0 <= k < |s[1..]| && s[1..][k] == x;
      assert s[k + 1] == x;
      assert Position(s[0]) < Position(s[k + 1]);
    }
    if x in s && x != s[0] {
      var k :| 0 <= k < |s| && s[k] == x;
      assert s[1..][k - 1] == x;
    }
  }

  /**
   * The list built by ResolveSubsets is the only one with its two properties:
   * it is in canonical order and holds exactly the requested subsets.
   */
  lemma SelectionIsDetermined(argv: seq<string>, s: seq<Subset>)
    requires InCanonicalOrder(s)
    requires forall x :: x in s <==> Requested(argv, x)
    ensures s == Selected(argv)
  {
    SelectedShape(argv);
    CanonicalOrderIsUnique(s, Selected(argv));
  }

  /** Where the flags stand among the tokens does not matter: any reordering selects the same subsets. */
  lemma SelectionIgnoresTokenOrder(a: seq<string>, b: seq<string>)
    requires multiset(a) == multiset(b)
    ensures Selected(a) == Selected(b)
  {
    assert "-s" in a <==> "-s" in multiset(a);
    assert "-s" in b <==> "-s" in multiset(b);
    assert "-l" in a <==> "-l" in multiset(a);
    assert "-l" in b <==> "-l" in multiset(b);
    assert "-h" in a <==> "-h" in multiset(a);
    assert "-h" in b <==> "-h" in multiset(b);
    SelectedUnfolded(a);
    SelectedUnfolded(b);
  }

  /** Only the last token decides BASE64, whatever comes before it. */
  lemma Base64OnlyFromLastToken(argv: seq<string>, last: string)
    ensures Base64Enabled(argv + [last]) <==> last == "base64"
  {
  }

  /** With exactly three tokens the base64 switch is the output name itself. */
  lemma Base64WithThreeTokens(argv: seq<string>)
    requires |argv| == 3
    ensures Base64Enabled(argv) <==> argv[2] == "base64"
  {
  }
}
