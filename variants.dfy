/**
 * The six engine command lines the sweep tries (generate.py, lines 55-63),
 * and a structured view of their flags that the strings are proved to follow.
 */
module Variants {

  /** The part every command shares: the engine, the source font, the destination,
      the container format, all layout features and the shared text file. */
  function Prefix(fontFile: string, outputFile: string): string {
    "pyftsubset fonts/" + fontFile + " --output-file=output/" + outputFile
      + ".woff2 --flavor=woff2 --layout-features=\"*\" --text-file=unicodes.txt"
  }

  /** The `commands` list, as the script writes it; each trailing flag is a
      literal of its own, which does not change the strings. */
  function Commands(fontFile: string, outputFile: string): (commands: seq<string>)
    ensures |commands| == 6
  {
    var p := Prefix(fontFile, outputFile);
    [ p,
      p + " --desubroutinize",
      p + " --with-zopfli",
      p + " --with-zopfli" + " --desubroutinize",
      p + " --no-notdef-glyph",
      p + " --no-notdef-glyph" + " --desubroutinize" + " --no-layout-closure" ]
  }

  /** The engine options the variants switch on or off. */
  datatype EngineFlag = Desubroutinize | WithZopfli | NoNotdefGlyph | NoLayoutClosure | NoHinting

  /** A flag as it trails the shared prefix: one space, then its spelling. */
  function Switch(flag: EngineFlag): string {
    match flag
    case Desubroutinize => " --desubroutinize"
    case WithZopfli => " --with-zopfli"
    case NoNotdefGlyph => " --no-notdef-glyph"
    case NoLayoutClosure => " --no-layout-closure"
    case NoHinting => " --no-hinting"
  }

  /** A list of flags as it trails the shared prefix. */
  function Rendered(flags: seq<EngineFlag>): string {
    if flags == [] then "" else Switch(flags[0]) + Rendered(flags[1..])
  }

  /** The variants in sweep order: baseline, desubroutinized, zopfli, zopfli and
      desubroutinized, no fallback glyph, and that with desubroutinizing and no
      layout closure. */
  const VARIANTS: seq<seq<EngineFlag>> := [
    [],
    [Desubroutinize],
    [WithZopfli],
    [WithZopfli, Desubroutinize],
    [NoNotdefGlyph],
    [NoNotdefGlyph, Desubroutinize, NoLayoutClosure]
  ]

  /** The variant the script has commented out. */
  const DISABLED_VARIANT: seq<EngineFlag> := [NoHinting, Desubroutinize]

  lemma RenderedCons(flag: EngineFlag, rest: seq<EngineFlag>)
    ensures Rendered([flag] + rest) == Switch(flag) + Rendered(rest)
  {
    assert ([flag] + rest)[1..] == rest;
  }

  /** One flag renders as its switch alone. */
  lemma RenderedSingle(flag: EngineFlag)
    ensures Rendered([flag]) == Switch(flag)
  {
    RenderedCons(flag, []);
    assert [flag] + [] == [flag];
  }

  /** The two flags of the last variant after its first. */
  lemma RenderedDesubroutinizeNoClosure()
    ensures Rendered([Desubroutinize, NoLayoutClosure]) == " --desubroutinize" + " --no-layout-closure"
  {
    RenderedSingle(NoLayoutClosure);
    assert [Desubroutinize, NoLayoutClosure] == [Desubroutinize] + [NoLayoutClosure];
    RenderedCons(Desubroutinize, [NoLayoutClosure]);
  }

  /** Rendering each variant's flags gives the trailing flags of its command. */
  lemma RenderedVariants()
    ensures Rendered(VARIANTS[0]) == ""
    ensures Rendered(VARIANTS[1]) == " --desubroutinize"
    ensures Rendered(VARIANTS[2]) == " --with-zopfli"
    ensures Rendered(VARIANTS[3]) == " --with-zopfli" + " --desubroutinize"
    ensures Rendered(VARIANTS[4]) == " --no-notdef-glyph"
    ensures Rendered(VARIANTS[5]) == " --no-notdef-glyph" + (" --desubroutinize" + " --no-layout-closure")
  {
    RenderedSingle(Desubroutinize);
    RenderedSingle(WithZopfli);
    RenderedSingle(NoNotdefGlyph);
    assert VARIANTS[3] == [WithZopfli] + [Desubroutinize];
    RenderedCons(WithZopfli, [Desubroutinize]);
    RenderedDesubroutinizeNoClosure();
    assert VARIANTS[5] == [NoNotdefGlyph] + [Desubroutinize, NoLayoutClosure];
    RenderedCons(NoNotdefGlyph, [Desubroutinize, NoLayoutClosure]);
  }

  /** Each command is the shared prefix followed by its variant's flags. */
  lemma CommandsFollowVariants(fontFile: string, outputFile: string)
    ensures |VARIANTS| == |Commands(fontFile, outputFile)|
    ensures forall i :: 0 <= i < 6 ==>
              Commands(fontFile, outputFile)[i] == Prefix(fontFile, outputFile) + Rendered(VARIANTS[i])
  {
    var p := Prefix(fontFile, outputFile);
    var c := Commands(fontFile, outputFile);
    RenderedVariants();
    assert c[0] == p + Rendered(VARIANTS[0]);
  }

  /** The six commands are pairwise different, so a command names its variant. */
  lemma CommandsDistinct(fontFile: string, outputFile: string)
    ensures forall i, j :: 0 <= i < j < 6 ==>
              Commands(fontFile, outputFile)[i] != Commands(fontFile, outputFile)[j]
  {
    var p := Prefix(fontFile, outputFile);
    var c := Commands(fontFile, outputFile);
    // The trailing flags have lengths 0, 17, 14, 31, 18 and 55.
    assert |c[0]| == |p| && |c[1]| == |p| + 17 && |c[2]| == |p| + 14;
    assert |c[3]| == |p| + 31 && |c[4]| == |p| + 18 && |c[5]| == |p| + 55;
  }

  /** The commented-out variant, no hinting and desubroutinized, is not tried. */
  lemma DisabledVariantNotTried(fontFile: string, outputFile: string)
    ensures forall i :: 0 <= i < 6 ==>
              Commands(fontFile, outputFile)[i] != Prefix(fontFile, outputFile) + Rendered(DISABLED_VARIANT)
  {
    var p := Prefix(fontFile, outputFile);
    var c := Commands(fontFile, outputFile);
    assert |Rendered(DISABLED_VARIANT)| == 30 by {
      assert DISABLED_VARIANT == [NoHinting] + [Desubroutinize];
      RenderedCons(NoHinting, [Desubroutinize]);
      RenderedSingle(Desubroutinize);
    }
    assert |c[0]| == |p| && |c[1]| == |p| + 17 && |c[2]| == |p| + 14;
    assert |c[3]| == |p| + 31 && |c[4]| == |p| + 18 && |c[5]| == |p| + 55;
  }
}
