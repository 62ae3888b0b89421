/**
 * The argument handling of the GeoTIFF pyramid post-processor
 * (tools/export-fmg-pyramid-cli.js): `parseArgs`, the help/exit guard at the
 * top of `main`, the `nodata` choice, and `inferTileSize`.
 */
module PyramidCli {
  import opened Wrappers

  // ---------------------------------------------------------------------
  // Values

  /**
   * A JavaScript number as the parser produces it: a literal of the
   * defaults, unary `+` applied to a token, or `+undefined`, which is NaN.
   */
  datatype Num = Literal(x: real) | FromText(text: string) | NaN

  /** The object `parseArgs` returns; `None` is `undefined`. */
  datatype Args = Args(
    job: Option<string>,
    out: Option<string>,
    makeCOG: bool,
    overviews: seq<Num>,
    compression: Option<string>,
    blocksize: Option<Num>,
    nodata: Option<Num>,
    resampling: Option<string>,
    help: bool)

  /** The literal `parseArgs` starts from. */
  function Defaults(): Args {
    Args(None, None, false, [Literal(2.0), Literal(4.0), Literal(8.0), Literal(16.0), Literal(32.0)],
         None, None, None, Some("average"), false)
  }

  /** What the parsing loop makes of a token; `Other` is ignored. */
  datatype Flag = JobFlag | OutFlag | MakeCogFlag | OverviewsFlag | CompressionFlag | BlocksizeFlag | NodataFlag | ResamplingFlag | HelpFlag | NotAFlag

  /** The comparison chain of the parsing loop: which flag a token is. */
  function FlagOf(a: string): (f: Flag)
    ensures f == JobFlag <==> a == "--job"
    ensures f == OutFlag <==> a == "--out"
    ensures f == OverviewsFlag <==> a == "--overviews"
    ensures f == NodataFlag <==> a == "--nodata"
    ensures f == HelpFlag <==> a == "--help" || a == "-h"
  {
    if a == "--job" then JobFlag
    else if a == "--out" then OutFlag
    else if a == "--make-cog" then MakeCogFlag
    else if a == "--overviews" then OverviewsFlag
    else if a == "--compression" then CompressionFlag
    else if a == "--blocksize" then BlocksizeFlag
    else if a == "--nodata" then NodataFlag
    else if a == "--resampling" then ResamplingFlag
    else if a == "--help" || a == "-h" then HelpFlag
    else NotAFlag
  }

  /** The flags that take the following token as their value. */
  predicate TakesValue(a: string) {
    FlagOf(a) !in {MakeCogFlag, HelpFlag, NotAFlag}
  }

  /** How many tokens a flag consumes, itself included. */
  function Width(a: string): nat {
    if TakesValue(a) then 2 else 1
  }

  /** `s[k..]`, or nothing once `k` runs past the end. */
  function Drop<T>(s: seq<T>, k: nat): seq<T> {
    if k >= |s| then [] else s[k..]
  }

  /** The token after the first, if any. */
  function Next(toks: seq<string>): Option<string> {
    if |toks| > 1 then Some(toks[1]) else None
  }

  /** Unary `+` on a token that may be missing. */
  function ToNumber(v: Option<string>): Num {
    if v.None? then NaN else FromText(v.value)
  }

  // ---------------------------------------------------------------------
  // Splitting the overview list

  /** `s.split(sep)`: the pieces between separators, one more than there are separators. */
  function Split(s: string, sep: char): (r: seq<string>)
    ensures |r| >= 1
  {
    if s == [] then [[]]
    else
      var rest := Split(s[1..], sep);
      if s[0] == sep then [[]] + rest else [[s[0]] + rest[0]] + rest[1..]
  }

  /** `pieces.join(sep)`. */
  function Join(pieces: seq<string>, sep: char): string
    requires |pieces| >= 1
  {
    if |pieces| == 1 then pieces[0] else pieces[0] + [sep] + Join(pieces[1..], sep)
  }

  function Occurrences(s: string, c: char): nat {
    if s == [] then 0 else (if s[0] == c then 1 else 0) + Occurrences(s[1..], c)
  }

  /** Splitting loses nothing: joining the pieces gives the text back. */
  lemma {:induction false} JoinSplit(s: string, sep: char)
    ensures Join(Split(s, sep), sep) == s
  {
    if s != [] {
      JoinSplit(s[1..], sep);
      var rest := Split(s[1..], sep);
      if s[0] != sep && |rest| > 1 {
        assert ([s[0]] + rest[0]) + [sep] + Join(rest[1..], sep) == [s[0]] + (rest[0] + [sep] + Join(rest[1..], sep));
      }
    }
  }

  /** No piece holds a separator, and there is one piece more than there are separators. */
  lemma {:induction false} SplitPieces(s: string, sep: char)
    ensures |Split(s, sep)| == Occurrences(s, sep) + 1
    ensures forall k :: 0 <= k < |Split(s, sep)| ==> sep !in Split(s, sep)[k]
  {
    if s != [] {
      SplitPieces(s[1..], sep);
    }
  }

  /** Joining pieces free of the separator and splitting again gives the pieces back. */
  lemma {:induction false} SplitJoin(pieces: seq<string>, sep: char)
    requires |pieces| >= 1
    requires forall k :: 0 <= k < |pieces| ==> sep !in pieces[k]
    ensures Split(Join(pieces, sep), sep) == pieces
  {
    if |pieces| == 1 {
      SplitLast(pieces[0], sep);
    } else {
      SplitJoin(pieces[1..], sep);
      SplitAround(pieces[0], Join(pieces[1..], sep), sep);
    }
  }

  lemma {:induction false} SplitLast(p: string, sep: char)
    requires sep !in p
    ensures Split(p, sep) == [p]
  {
    if p != [] {
      assert sep !in p[1..];
      SplitLast(p[1..], sep);
      assert [p[0]] + p[1..] == p;
    }
  }

  /** A separator-free head, then a separator: the head is the first piece. */
  lemma {:induction false} SplitAround(p: string, tail: string, sep: char)
    requires sep !in p
    ensures Split(p + [sep] + tail, sep) == [p] + Split(tail, sep)
  {
    if p == [] {
      assert ([] + [sep] + tail)[1..] == tail;
    } else {
      assert (p + [sep] + tail)[1..] == p[1..] + [sep] + tail;
      SplitAround(p[1..], tail, sep);
      assert [p[0]] + p[1..] == p;
    }
  }

  /** The overview list: each comma-separated piece converted by unary `+`. */
  function Overviews(v: string): seq<Num> {
    var pieces := Split(v, ',');
    seq(|pieces|, k requires 0 <= k < |pieces| => FromText(pieces[k]))
  }

  // ---------------------------------------------------------------------
  // Parsing

  /**
   * One turn of the parsing loop: flag `a` with the token after it, `next`.
   * A dangling `--overviews` reads `split` of `undefined`, which throws.
   */
  function Step(acc: Args, a: string, next: Option<string>): Result<Args> {
    match FlagOf(a)
    case JobFlag => Ok(acc.(job := next))
    case OutFlag => Ok(acc.(out := next))
    case MakeCogFlag => Ok(acc.(makeCOG := true))
    case OverviewsFlag =>
      if next.None? then Err("Cannot read properties of undefined (reading 'split')")
      else Ok(acc.(overviews := Overviews(next.value)))
    case CompressionFlag => Ok(acc.(compression := next))
    case BlocksizeFlag => Ok(acc.(blocksize := Some(ToNumber(next))))
    case NodataFlag => Ok(acc.(nodata := Some(ToNumber(next))))
    case ResamplingFlag => Ok(acc.(resampling := next))
    case HelpFlag => Ok(acc.(help := true))
    case NotAFlag => Ok(acc)
  }

  /** Each flag touches only its own field; every flag but a dangling `--overviews` succeeds. */
  lemma StepFields(acc: Args, a: string, next: Option<string>)
    ensures Step(acc, a, next).Err? <==> a == "--overviews" && next.None?
    ensures Step(acc, a, next).Ok? ==> var r := Step(acc, a, next).value;
      && (a != "--job" ==> r.job == acc.job)
      && (a != "--out" ==> r.out == acc.out)
      && (a != "--nodata" ==> r.nodata == acc.nodata)
      && (a != "--help" && a != "-h" ==> r.help == acc.help)
      && (a == "--help" || a == "-h" ==> r.help)
  {
  }

  /** The rest of the loop from `acc` over the tokens `toks`. */
  function ParseFrom(acc: Args, toks: seq<string>): Result<Args>
    decreases |toks|
  {
    if toks == [] then Ok(acc)
    else
      match Step(acc, toks[0], Next(toks))
      case Err(e) => Err(e)
      case Ok(acc') => ParseFrom(acc', Drop(toks, Width(toks[0])))
  }

  /** Going on over `toks` after an outcome; a thrown error ends the loop. */
  function Resume(r: Result<Args>, toks: seq<string>): Result<Args> {
    match r
    case Err(e) => Err(e)
    case Ok(acc) => ParseFrom(acc, toks)
  }

  /** `parseArgs(argv)`: the loop starts at `argv[2]`, after the interpreter and the script. */
  function Parse(argv: seq<string>): Result<Args> {
    ParseFrom(Defaults(), Drop(argv, 2))
  }

  lemma DropDrop<T>(s: seq<T>, i: nat, w: nat)
    ensures Drop(Drop(s, i), w) == Drop(s, i + w)
  {
  }

  /** One turn of the loop at position `i` of `argv`. */
  lemma ParseFromAt(acc: Args, argv: seq<string>, i: nat)
    requires i < |argv|
    ensures ParseFrom(acc, Drop(argv, i)) ==
      Resume(Step(acc, argv[i], if i + 1 < |argv| then Some(argv[i + 1]) else None), Drop(argv, i + Width(argv[i])))
  {
    assert Drop(argv, i)[0] == argv[i];
    DropDrop(argv, i, Width(argv[i]));
  }

  /** The parsing loop of `parseArgs`; a thrown error comes back as a failure. */
  method ParseArgs(argv: seq<string>) returns (r: Result<Args>)
    ensures r == Parse(argv)
  {
    var acc := Defaults();
    var i := 2;
    while i < |argv|
      invariant 2 <= i
      invariant ParseFrom(acc, Drop(argv, i)) == Parse(argv)
      decreases |argv| - i
    {
      var a := argv[i];
      var next := if i + 1 < |argv| then Some(argv[i + 1]) else None;
      ParseFromAt(acc, argv, i);
      ghost var step := Step(acc, a, next);
      ghost var j := i + Width(a);
      match FlagOf(a) {
        case JobFlag =>
          acc, i := acc.(job := next), i + 1;
        case OutFlag =>
          acc, i := acc.(out := next), i + 1;
        case MakeCogFlag =>
          acc := acc.(makeCOG := true);
        case OverviewsFlag =>
          if next.None? {
            return Err("Cannot read properties of undefined (reading 'split')");
          }
          acc, i := acc.(overviews := Overviews(next.value)), i + 1;
        case CompressionFlag =>
          acc, i := acc.(compression := next), i + 1;
        case BlocksizeFlag =>
          acc, i := acc.(blocksize := Some(ToNumber(next))), i + 1;
        case NodataFlag =>
          acc, i := acc.(nodata := Some(ToNumber(next))), i + 1;
        case ResamplingFlag =>
          acc, i := acc.(resampling := next), i + 1;
        case HelpFlag =>
          acc := acc.(help := true);
        case NotAFlag =>
      }
      i := i + 1;
      assert step == Ok(acc) && i == j;
      assert Resume(step, Drop(argv, j)) == ParseFrom(acc, Drop(argv, i));
    }
    r := Ok(acc);
  }

  // ---------------------------------------------------------------------
  // What the parser promises

  /** Without arguments after the script, the defaults come back. */
  lemma NoArguments(argv: seq<string>)
    requires |argv| <= 2
    ensures Parse(argv) == Ok(Defaults())
  {
  }

  /** The tokens read as flags, in order; a flag's value is skipped. */
  function FlagTokens(toks: seq<string>): seq<string>
    decreases |toks|
  {
    if toks == [] then [] else [toks[0]] + FlagTokens(Drop(toks, Width(toks[0])))
  }

  /** `toks` ends on a token boundary: no value flag is left without its value. */
  predicate Aligned(toks: seq<string>)
    decreases |toks|
  {
    toks == [] || (Width(toks[0]) <= |toks| && Aligned(toks[Width(toks[0])..]))
  }

  /** Parsing a boundary-aligned prefix, then the rest, is parsing the whole. */
  lemma {:induction false} ParseConcat(acc: Args, xs: seq<string>, ys: seq<string>)
    requires Aligned(xs)
    ensures ParseFrom(acc, xs + ys) == Resume(ParseFrom(acc, xs), ys)
    decreases |xs|
  {
    if xs != [] {
      var w := Width(xs[0]);
      var step := Step(acc, xs[0], Next(xs));
      assert (xs + ys)[0] == xs[0];
      assert Drop(xs + ys, w) == xs[w..] + ys;
      assert Drop(xs, w) == xs[w..];
      if w == 2 {
        assert Next(xs + ys) == Next(xs);
      } else {
        assert Step(acc, xs[0], Next(xs + ys)) == Step(acc, xs[0], Next(xs));
      }
      assert ParseFrom(acc, xs + ys) == Resume(step, xs[w..] + ys);
      assert ParseFrom(acc, xs) == Resume(step, xs[w..]);
      if step.Ok? {
        ParseConcat(step.value, xs[w..], ys);
      }
    } else {
      assert xs + ys == ys;
    }
  }

  /** The parse fails exactly when an `--overviews` is the last token and is read as a flag. */
  lemma {:induction false} ParseFailsIff(acc: Args, toks: seq<string>)
    ensures ParseFrom(acc, toks).Err? <==>
      |toks| >= 1 && toks[|toks| - 1] == "--overviews" && Aligned(toks[..|toks| - 1])
    decreases |toks|
  {
    if toks != [] {
      var n := |toks|;
      var w := Width(toks[0]);
      if n == 1 {
        assert toks[..0] == [];
      } else if w == 2 && n == 2 {
        assert ParseFrom(acc, toks).Ok?;
        assert toks[..1] == [toks[0]];
      } else {
        var acc' := Step(acc, toks[0], Next(toks)).value;
        ParseFailsIff(acc', toks[w..]);
        assert toks[..n - 1][w..] == toks[w..][..n - 1 - w];
        assert toks[w..][n - 1 - w] == toks[n - 1];
      }
    }
  }

  /** A flag that is never read as a flag leaves its field as it was. */
  lemma {:induction false} UnflaggedFieldsKeep(acc: Args, toks: seq<string>)
    requires ParseFrom(acc, toks).Ok?
    ensures var r := ParseFrom(acc, toks).value;
      && ("--job" !in FlagTokens(toks) ==> r.job == acc.job)
      && ("--out" !in FlagTokens(toks) ==> r.out == acc.out)
      && ("--nodata" !in FlagTokens(toks) ==> r.nodata == acc.nodata)
      && ("--help" !in FlagTokens(toks) && "-h" !in FlagTokens(toks) ==> r.help == acc.help)
    decreases |toks|
  {
    if toks != [] {
      var rest := Drop(toks, Width(toks[0]));
      var acc' := Step(acc, toks[0], Next(toks)).value;
      assert FlagTokens(toks) == [toks[0]] + FlagTokens(rest);
      StepFields(acc, toks[0], Next(toks));
      UnflaggedFieldsKeep(acc', rest);
    }
  }

  /** Once set, `help` stays set. */
  lemma {:induction false} HelpSticky(acc: Args, toks: seq<string>)
    requires acc.help && ParseFrom(acc, toks).Ok?
    ensures ParseFrom(acc, toks).value.help
    decreases |toks|
  {
    if toks != [] {
      HelpSticky(Step(acc, toks[0], Next(toks)).value, Drop(toks, Width(toks[0])));
    }
  }

  /** `--help` or `-h` read as a flag anywhere sets `help`. */
  lemma {:induction false} HelpFlagSets(acc: Args, toks: seq<string>)
    requires "--help" in FlagTokens(toks) || "-h" in FlagTokens(toks)
    requires ParseFrom(acc, toks).Ok?
    ensures ParseFrom(acc, toks).value.help
    decreases |toks|
  {
    var acc' := Step(acc, toks[0], Next(toks)).value;
    if toks[0] == "--help" || toks[0] == "-h" {
      HelpSticky(acc', Drop(toks, 1));
    } else {
      HelpFlagSets(acc', Drop(toks, Width(toks[0])));
    }
  }

  /** After a boundary-aligned prefix, a value flag with its value is what the result holds: the last occurrence wins. */
  lemma LastWins(acc: Args, xs: seq<string>, f: string, v: string)
    requires Aligned(xs) && ParseFrom(acc, xs).Ok? && TakesValue(f)
    ensures var r := ParseFrom(acc, xs + [f, v]);
      && r.Ok?
      && (f == "--job" ==> r.value.job == Some(v))
      && (f == "--out" ==> r.value.out == Some(v))
      && (f == "--overviews" ==> r.value.overviews == Overviews(v))
      && (f == "--compression" ==> r.value.compression == Some(v))
      && (f == "--blocksize" ==> r.value.blocksize == Some(FromText(v)))
      && (f == "--nodata" ==> r.value.nodata == Some(FromText(v)))
      && (f == "--resampling" ==> r.value.resampling == Some(v))
  {
    ParseConcat(acc, xs, [f, v]);
    var o := ParseFrom(acc, xs).value;
    StepFields(o, f, Some(v));
    assert Next([f, v]) == Some(v) && Drop([f, v], Width(f)) == [];
    assert ParseFrom(o, [f, v]) == ParseFrom(Step(o, f, Some(v)).value, []);
  }

  /** A token that is no flag, read where a flag could be, changes nothing. */
  lemma UnknownIgnored(acc: Args, xs: seq<string>, a: string, ys: seq<string>)
    requires Aligned(xs) && FlagOf(a) == NotAFlag
    ensures ParseFrom(acc, xs + [a] + ys) == ParseFrom(acc, xs + ys)
  {
    ParseConcat(acc, xs, [a] + ys);
    ParseConcat(acc, xs, ys);
    assert xs + [a] + ys == xs + ([a] + ys);
    var r := ParseFrom(acc, xs);
    if r.Ok? {
      assert ([a] + ys)[0] == a && Drop([a] + ys, 1) == ys;
      assert Step(r.value, a, Next([a] + ys)) == Ok(r.value);
      assert ParseFrom(r.value, [a] + ys) == ParseFrom(r.value, ys);
    }
  }

  // ---------------------------------------------------------------------
  // The guard at the top of `main`

  /**
   * What `main` does with the parse: exit 0 after the help text, exit 1
   * when `job` or `out` is missing or empty, exit 1 when parsing threw
   * (the rejection handler), and `None` when it goes on to the conversion.
   */
  function Exit(r: Result<Args>): (code: Option<int>)
    ensures code == Some(0) <==> r.Ok? && r.value.help
    ensures code.None? <==> r.Ok? && !r.value.help && r.value.job.Some? && r.value.job.value != ""
                            && r.value.out.Some? && r.value.out.value != ""
    ensures code.Some? ==> code.value == 0 || code.value == 1
  {
    match r
    case Err(_) => Some(1)
    case Ok(a) =>
      if a.help || a.job.None? || a.job == Some("") || a.out.None? || a.out == Some("") then
        Some(if a.help then 0 else 1)
      else None
  }

  /** A help flag ends the program with status 0, whatever else is given, unless parsing throws. */
  lemma HelpExitsZero(argv: seq<string>)
    requires "--help" in FlagTokens(Drop(argv, 2)) || "-h" in FlagTokens(Drop(argv, 2))
    requires Parse(argv).Ok?
    ensures Exit(Parse(argv)) == Some(0)
  {
    HelpFlagSets(Defaults(), Drop(argv, 2));
  }

  /** Without `--job` or `--out` read as a flag, and without help, the program ends with status 1. */
  lemma MissingPathExitsOne(argv: seq<string>)
    requires "--job" !in FlagTokens(Drop(argv, 2)) || "--out" !in FlagTokens(Drop(argv, 2))
    requires "--help" !in FlagTokens(Drop(argv, 2)) && "-h" !in FlagTokens(Drop(argv, 2))
    ensures Exit(Parse(argv)) == Some(1)
  {
    if Parse(argv).Ok? {
      UnflaggedFieldsKeep(Defaults(), Drop(argv, 2));
    }
  }

  // ---------------------------------------------------------------------
  // The nodata value handed to the GeoTIFF conversion

  /** The keys of the object `parseArgs` builds: its literal's keys are always there. */
  function ArgsKeys(a: Args): (keys: set<string>)
    ensures "nodata" in keys
  {
    {"makeCOG", "overviews", "compression", "blocksize", "nodata", "resampling"}
      + (if a.job.Some? then {"job"} else {})
      + (if a.out.Some? then {"out"} else {})
      + (if a.help then {"help"} else {})
  }

  /** The `nodata` choice of `main` as written: the flag's value when the key exists, else the job's. */
  function NodataAsWritten(a: Args, jobNodata: Option<Num>): Option<Num> {
    if "nodata" in ArgsKeys(a) then a.nodata else jobNodata
  }

  /** As written, the job file's `nodata` is never used. */
  lemma NodataAsWrittenIgnoresJob(a: Args, jobNodata: Option<Num>)
    ensures NodataAsWritten(a, jobNodata) == a.nodata
  {
  }

  /** A run without `--nodata` against a job whose `nodata` is 0 converts with no nodata value. */
  lemma NodataAsWrittenExample()
    ensures var argv := ["node", "export-fmg-pyramid-cli.js", "--job", "job.fmgpack", "--out", "out"];
      && Parse(argv).Ok?
      && NodataAsWritten(Parse(argv).value, Some(Literal(0.0))) == None
  {
    var argv := ["node", "export-fmg-pyramid-cli.js", "--job", "job.fmgpack", "--out", "out"];
    assert Drop(argv, 2) == ["--job", "job.fmgpack", "--out", "out"];
    assert Drop(["--job", "job.fmgpack", "--out", "out"], 2) == ["--out", "out"];
    assert Drop(["--out", "out"], 2) == [];
  }

  /** The intended choice: the flag's value when `--nodata` was given, else the job's. */
  function Nodata(a: Args, jobNodata: Option<Num>): Option<Num> {
    if a.nodata.Some? then a.nodata else jobNodata
  }

  /** Without `--nodata` the job's value is used; after `--nodata v` as the last value flag, `+v`. */
  lemma NodataChoice(argv: seq<string>, jobNodata: Option<Num>)
    requires Parse(argv).Ok?
    ensures "--nodata" !in FlagTokens(Drop(argv, 2)) ==> Nodata(Parse(argv).value, jobNodata) == jobNodata
    ensures forall xs, v :: Aligned(xs) && Drop(argv, 2) == xs + ["--nodata", v] ==>
      Nodata(Parse(argv).value, jobNodata) == Some(FromText(v))
  {
    UnflaggedFieldsKeep(Defaults(), Drop(argv, 2));
    forall xs, v | Aligned(xs) && Drop(argv, 2) == xs + ["--nodata", v]
      ensures Nodata(Parse(argv).value, jobNodata) == Some(FromText(v))
    {
      ParseConcat(Defaults(), xs, ["--nodata", v]);
      LastWins(Defaults(), xs, "--nodata", v);
    }
  }

  // ---------------------------------------------------------------------
  // Tile size

  /** The parts of `job.fmgpack` the tile size reads; `None` is a missing key. */
  datatype FullSize = FullSize(widthPx: Option<real>, heightPx: Option<real>)
  datatype Job = Job(grid: Option<real>, full: Option<FullSize>)

  /** A tile size; `None` is NaN, the floor of `undefined / grid`. */
  datatype TileSize = TileSize(widthPx: Option<int>, heightPx: Option<int>)

  /** `job.grid || 16`: a missing or zero grid means 16. */
  function GridOf(job: Job): (g: real)
    ensures g != 0.0
    ensures job.grid.Some? && job.grid.value != 0.0 ==> g == job.grid.value
    ensures job.grid.None? || job.grid == Some(0.0) ==> g == 16.0
  {
    if job.grid.None? || job.grid.value == 0.0 then 16.0 else job.grid.value
  }

  /** `Math.floor(x / grid)` of a length that may be missing. */
  function FloorDiv(x: Option<real>, g: real): (r: Option<int>)
    requires g != 0.0
    ensures r.Some? <==> x.Some?
    ensures r.Some? ==> r.value as real <= x.value / g < r.value as real + 1.0
  {
    if x.None? then None else Some((x.value / g).Floor)
  }

  /** `inferTileSize`: the full output size divided by the grid, rounded down. */
  function InferTileSize(job: Job): (r: TileSize)
    ensures r.widthPx.Some? <==> job.full.Some? && job.full.value.widthPx.Some?
    ensures r.heightPx.Some? <==> job.full.Some? && job.full.value.heightPx.Some?
    ensures r.widthPx.Some? ==> var q := job.full.value.widthPx.value / GridOf(job);
      r.widthPx.value as real <= q < r.widthPx.value as real + 1.0
    ensures r.heightPx.Some? ==> var q := job.full.value.heightPx.value / GridOf(job);
      r.heightPx.value as real <= q < r.heightPx.value as real + 1.0
  {
    var g := GridOf(job);
    if job.full.None? then TileSize(None, None)
    else TileSize(FloorDiv(job.full.value.widthPx, g), FloorDiv(job.full.value.heightPx, g))
  }
}
