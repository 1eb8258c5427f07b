// The command-line tool scripts/icon_generator/src/main.rs: its size
// lists, its argument parsing and the placement of a resized image in a
// square icon frame. Reading arguments from the process, printing the
// usage text, image resampling and writing the ICO/ICNS files are left
// out; the arguments are given as strings (all valid UTF-8).
module IconGenerator {
  import opened Wrappers
  import Text
  import Decimal
  import Paths
  import Sorting
  import SeqFilter
  import Bytes
  import Types

  const DEFAULT_ICO_SIZES: seq<nat> := [16, 24, 32, 48, 64, 128, 256]
  const DEFAULT_ICNS_SIZES: seq<nat> := [16, 32, 48, 64, 128, 256, 512, 1024]
  const SUPPORTED_ICNS_SIZES: seq<nat> := [16, 32, 48, 64, 128, 256, 512, 1024]
  const ICO_MAX_SIZE: nat := 256

  // ---------------------------------------------------------------------
  // Size lists

  /** `str::parse::<u32>`. */
  function ParseU32(token: string): (r: Option<nat>)
    ensures r.Some? ==> r.value < Bytes.U32_LIMIT && Decimal.ParseNat(token) == r
    ensures Decimal.ParseNat(token).Some? && Decimal.ParseNat(token).value < Bytes.U32_LIMIT ==> r.Some?
  {
    match Decimal.ParseNat(token)
    case Some(n) => if n < Bytes.U32_LIMIT then Some(n) else None
    case None => None
  }

  /** One piece of the list: skipped when blank, else its size pushed,
      or the error for a token that is not a `u32`. */
  function PieceStep(sizes: seq<nat>, piece: string, kind: string): (r: Result<seq<nat>>)
    ensures r.Ok? ==> |sizes| <= |r.value| <= |sizes| + 1 && r.value[..|sizes|] == sizes
    ensures r.Ok? ==> forall i :: |sizes| <= i < |r.value| ==> r.value[i] < Bytes.U32_LIMIT
    ensures r.Err? <==> !Text.IsBlank(piece) && ParseU32(Text.Trim(piece)).None?
  {
    var token := Text.Trim(piece);
    if token == [] then Ok(sizes)
    else
      match ParseU32(token)
      case None => Err("invalid " + kind + " size: '" + token + "'")
      case Some(n) => Ok(sizes + [n])
  }

  /** The sizes of the comma-separated pieces in order, blank pieces
      skipped, or the error for the first piece that is not a `u32`. */
  function PieceSizes(pieces: seq<string>, kind: string): (r: Result<seq<nat>>)
    ensures r.Ok? ==> forall i :: 0 <= i < |r.value| ==> r.value[i] < Bytes.U32_LIMIT
  {
    if pieces == [] then Ok([])
    else
      match PieceSizes(pieces[..|pieces| - 1], kind)
      case Err(e) => Err(e)
      case Ok(sizes) =>
        var r := PieceStep(sizes, pieces[|pieces| - 1], kind);
        assert r.Ok? ==> forall i :: 0 <= i < |sizes| ==> r.value[i] == sizes[i];
        r
  }

  /** Once a piece is rejected, later pieces do not change the error. */
  lemma {:induction false} PieceSizesErrorStays(pieces: seq<string>, kind: string, n: nat)
    requires n <= |pieces| && PieceSizes(pieces[..n], kind).Err?
    ensures PieceSizes(pieces, kind) == PieceSizes(pieces[..n], kind)
    decreases |pieces| - n
  {
    if n < |pieces| {
      assert pieces[..n + 1][..n] == pieces[..n];
      PieceSizesErrorStays(pieces, kind, n + 1);
    } else {
      assert pieces[..n] == pieces;
    }
  }

  /** What `parse_sizes` returns for a comma-separated list: the sizes
      ascending without duplicates, an error for a bad token, or an error
      when no size is given. */
  function SizesFromCsv(csv: string, kind: string): (r: Result<seq<nat>>)
    ensures r.Ok? ==> r.value != [] && Sorting.StrictlyAscending(r.value)
    ensures r.Ok? ==> forall i :: 0 <= i < |r.value| ==> r.value[i] < Bytes.U32_LIMIT
  {
    match PieceSizes(Text.Split(csv, ','), kind)
    case Err(e) => Err(e)
    case Ok(sizes) =>
      if sizes == [] then Err(kind + " size list is empty")
      else
        SortedSizes(sizes);
        Ok(Sorting.DedupAdjacent(Sorting.SortAscending(sizes)))
  }

  /** Sorting and de-duplicating sizes below the `u32` limit gives sizes
      below it, ascending and without duplicates. */
  lemma SortedSizes(sizes: seq<nat>)
    requires sizes != [] && forall i :: 0 <= i < |sizes| ==> sizes[i] < Bytes.U32_LIMIT
    ensures var d := Sorting.DedupAdjacent(Sorting.SortAscending(sizes));
      && d != [] && Sorting.StrictlyAscending(d)
      && forall i :: 0 <= i < |d| ==> d[i] < Bytes.U32_LIMIT
  {
    var sorted := Sorting.SortAscending(sizes);
    Sorting.DedupAscending(sorted);
    SortedBelowLimit(sizes, sorted);
    var deduped := Sorting.DedupAdjacent(sorted);
    assert forall i :: 0 <= i < |deduped| ==> deduped[i] in sorted;
  }

  lemma SortedBelowLimit(sizes: seq<nat>, sorted: seq<nat>)
    requires sizes != [] && multiset(sorted) == multiset(sizes)
    requires forall i :: 0 <= i < |sizes| ==> sizes[i] < Bytes.U32_LIMIT
    ensures sorted != []
    ensures forall x :: x in sorted ==> x < Bytes.U32_LIMIT
  {
    assert |sorted| == |multiset(sorted)| == |multiset(sizes)| == |sizes|;
    forall x | x in sorted
      ensures x < Bytes.U32_LIMIT
    {
      assert x in multiset(sorted);
      assert x in multiset(sizes);
    }
  }

  lemma PieceSizesSnoc(pieces: seq<string>, i: nat, kind: string)
    requires i < |pieces|
    ensures PieceSizes(pieces[..i], kind).Err? ==> PieceSizes(pieces[..i + 1], kind) == PieceSizes(pieces[..i], kind)
    ensures PieceSizes(pieces[..i], kind).Ok? ==>
      PieceSizes(pieces[..i + 1], kind) == PieceStep(PieceSizes(pieces[..i], kind).value, pieces[i], kind)
  {
    assert pieces[..i + 1][..i] == pieces[..i] && pieces[..i + 1][i] == pieces[i];
  }

  /** `parse_sizes`: pushes each size, then sorts and de-duplicates. */
  method ParseSizes(csv: string, kind: string) returns (r: Result<seq<nat>>)
    ensures r == SizesFromCsv(csv, kind)
  {
    var pieces := Text.Split(csv, ',');
    var sizes: seq<nat> := [];
    var i := 0;
    while i < |pieces|
      invariant 0 <= i <= |pieces|
      invariant PieceSizes(pieces[..i], kind) == Ok(sizes)
    {
      PieceSizesSnoc(pieces, i, kind);
      var token := Text.Trim(pieces[i]);
      if token != [] {
        var size := ParseU32(token);
        if size.None? {
          PieceSizesErrorStays(pieces, kind, i + 1);
          return Err("invalid " + kind + " size: '" + token + "'");
        }
        sizes := sizes + [size.value];
      }
      i := i + 1;
    }
    assert pieces[..i] == pieces;
    if sizes == [] {
      return Err(kind + " size list is empty");
    }
    var sorted := Sorting.SortAscending(sizes);
    var deduped := Sorting.Dedup(sorted);
    r := Ok(deduped);
  }

  /** The decimal renderings of the sizes. */
  function Rendered(sizes: seq<nat>): (r: seq<string>)
    ensures |r| == |sizes| && forall i :: 0 <= i < |sizes| ==> r[i] == Decimal.NatToString(sizes[i])
  {
    if sizes == [] then []
    else Rendered(sizes[..|sizes| - 1]) + [Decimal.NatToString(sizes[|sizes| - 1])]
  }

  /** `join_sizes`: the sizes in decimal, separated by commas. */
  function JoinSizes(sizes: seq<nat>): (r: string)
    ensures sizes == [] ==> r == []
    ensures sizes != [] ==> r == Text.Join(Rendered(sizes), ',')
  {
    if sizes == [] then [] else Text.Join(Rendered(sizes), ',')
  }

  /** A rendered size is one token that reads back as the size. */
  lemma RenderedToken(n: nat)
    requires n < Bytes.U32_LIMIT
    ensures Text.Trim(Decimal.NatToString(n)) == Decimal.NatToString(n)
    ensures ParseU32(Decimal.NatToString(n)) == Some(n)
    ensures ',' !in Decimal.NatToString(n)
  {
    var s := Decimal.NatToString(n);
    assert forall i :: 0 <= i < |s| ==> !Text.IsWhitespace(s[i]) by {
      assert Decimal.AllDigits(s);
    }
    Text.TrimWithoutWhitespace(s);
    Decimal.ParseRendered(n);
    assert Decimal.ParseNat(s) == Some(n);
    var parsed := ParseU32(s);
    assert parsed == Some(n);
    assert ',' !in s by {
      assert Decimal.AllDigits(s);
    }
  }

  lemma RenderedTokenStep(sizes: seq<nat>, x: nat, kind: string)
    requires x < Bytes.U32_LIMIT
    ensures PieceStep(sizes, Decimal.NatToString(x), kind) == Ok(sizes + [x])
  {
    RenderedToken(x);
  }

  lemma {:induction false} PieceSizesOfRendered(sizes: seq<nat>, kind: string)
    requires forall i :: 0 <= i < |sizes| ==> sizes[i] < Bytes.U32_LIMIT
    ensures PieceSizes(Rendered(sizes), kind) == Ok(sizes)
  {
    if sizes == [] {
      assert Rendered(sizes) == [];
    } else {
      var init := sizes[..|sizes| - 1];
      var x := sizes[|sizes| - 1];
      assert sizes == init + [x];
      PieceSizesOfRendered(init, kind);
      PieceSizesOfRenderedStep(init, x, kind);
    }
  }

  lemma PieceSizesLastOk(pieces: seq<string>, kind: string, init: seq<nat>, x: nat)
    requires pieces != [] && PieceSizes(pieces[..|pieces| - 1], kind) == Ok(init)
    requires PieceStep(init, pieces[|pieces| - 1], kind) == Ok(init + [x])
    ensures PieceSizes(pieces, kind) == Ok(init + [x])
  {
  }

  lemma PieceSizesOfRenderedStep(init: seq<nat>, x: nat, kind: string)
    requires x < Bytes.U32_LIMIT
    requires PieceSizes(Rendered(init), kind) == Ok(init)
    ensures PieceSizes(Rendered(init + [x]), kind) == Ok(init + [x])
  {
    var sizes := init + [x];
    assert sizes[..|sizes| - 1] == init;
    var pieces := Rendered(sizes);
    assert pieces == Rendered(init) + [Decimal.NatToString(x)];
    assert pieces[..|pieces| - 1] == Rendered(init);
    RenderedTokenStep(init, x, kind);
    PieceSizesLastOk(pieces, kind, init, x);
  }

  /** A list `join_sizes` printed is read back by `parse_sizes` as the same
      list, when it is ascending without duplicates. */
  lemma ParseJoinedSizes(sizes: seq<nat>, kind: string)
    requires sizes != [] && Sorting.StrictlyAscending(sizes)
    requires forall i :: 0 <= i < |sizes| ==> sizes[i] < Bytes.U32_LIMIT
    ensures SizesFromCsv(JoinSizes(sizes), kind) == Ok(sizes)
  {
    var pieces := Rendered(sizes);
    forall i | 0 <= i < |pieces|
      ensures ',' !in pieces[i]
    {
      RenderedToken(sizes[i]);
    }
    Text.SplitJoin(pieces, ',');
    PieceSizesOfRendered(sizes, kind);
    Sorting.SortDedupOfStrictlyAscending(sizes);
  }

  // ---------------------------------------------------------------------
  // Output paths

  datatype OutputKind = Ico | Icns

  /** `parse_output_by_extension`: `.ico` or `.icns` in any letter case. */
  function ParseOutputByExtension(path: string): (r: Result<(OutputKind, string)>)
    ensures r.Ok? ==> r.value.1 == path
    ensures r.Ok? <==>
      Paths.Extension(path).Some? && (Text.ToAsciiLowercase(Paths.Extension(path).value) == "ico" || Text.ToAsciiLowercase(Paths.Extension(path).value) == "icns")
    ensures r.Ok? ==> (r.value.0 == Ico <==> Text.ToAsciiLowercase(Paths.Extension(path).value) == "ico")
  {
    match Paths.Extension(path)
    case Some(ext) =>
      var lower := Text.ToAsciiLowercase(ext);
      if lower == "ico" then Ok((Ico, path))
      else if lower == "icns" then Ok((Icns, path))
      else Err("output extension must be .ico or .icns, got: " + path)
    case None => Err("output extension must be .ico or .icns, got: " + path)
  }

  /** The outputs made next to `dir/name` when none is given are accepted
      as an ICO and an ICNS output. */
  lemma DefaultOutputsRecognised(dir: string, n: string)
    requires n != [] && n != "." && n != ".." && '/' !in n
    requires '.' !in Paths.SplitDot(n).0 && Paths.SplitDot(n).0 != []
    ensures var ico := Paths.WithExtension(dir + "/" + n, "ico");
      ParseOutputByExtension(ico) == Ok((Ico, ico))
    ensures var icns := Paths.WithExtension(dir + "/" + n, "icns");
      ParseOutputByExtension(icns) == Ok((Icns, icns))
  {
    Paths.WithExtensionUnderDirectory(dir, n, "ico");
    Paths.WithExtensionUnderDirectory(dir, n, "icns");
    LowercaseExtensions();
  }

  lemma LowercaseExtensions()
    ensures Text.ToAsciiLowercase("ico") == "ico" && Text.ToAsciiLowercase("icns") == "icns"
  {
    assert Text.ToAsciiLowercase("ico") == "ico";
    assert Text.ToAsciiLowercase("icns") == "icns";
  }

  // ---------------------------------------------------------------------
  // Arguments

  datatype Config = Config(input: string, icoOutput: Option<string>, icnsOutput: Option<string>,
                           icoSizes: seq<nat>, icnsSizes: seq<nat>)

  /** What `parse_args` ends in: the usage text (printed, exit status 0),
      a configuration, or an error. */
  datatype Outcome = ShowUsage | Run(config: Config) | Failure(message: string)

  /** The option variables of the loop in `parse_args`. */
  datatype Options = Options(positional: Option<string>, ico: Option<string>, icns: Option<string>,
                             icoSizes: seq<nat>, icnsSizes: seq<nat>)

  const INITIAL_OPTIONS: Options := Options(None, None, None, DEFAULT_ICO_SIZES, DEFAULT_ICNS_SIZES)

  /** Where one round of the loop leaves it. */
  datatype Scan = Continue(next: nat, opts: Options) | ScanHelp | ScanError(message: string)

  predicate IsHelp(arg: string)
  {
    arg == "-h" || arg == "--help"
  }

  /** Both size lists are non-empty and ascending without duplicates. */
  predicate SizesWellFormed(opts: Options)
  {
    && opts.icoSizes != [] && Sorting.StrictlyAscending(opts.icoSizes)
    && opts.icnsSizes != [] && Sorting.StrictlyAscending(opts.icnsSizes)
  }

  /** An option the loop knows, in either of its spellings. */
  predicate IsKnownOption(arg: string)
  {
    || arg == "--ico" || arg == "--icns" || arg == "--ico-sizes" || arg == "--icns-sizes"
    || Text.StartsWith(arg, "--ico=") || Text.StartsWith(arg, "--icns=")
    || Text.StartsWith(arg, "--ico-sizes=") || Text.StartsWith(arg, "--icns-sizes=")
  }

  /** The value following an option that takes the next argument. */
  function NextValue(pending: seq<string>, index: nat, option: string): (r: Result<string>)
    requires index < |pending|
    ensures r.Ok? <==> index + 1 < |pending|
    ensures r.Ok? ==> r.value == pending[index + 1]
  {
    if index + 1 < |pending| then Ok(pending[index + 1]) else Err("missing value for " + option)
  }

  /** What one argument is to the loop of `parse_args`: an output option
      or a size-list option, with its value when written `--opt=value`. */
  datatype Arg =
    | HelpArg
    | OutputArg(kind: OutputKind, inline: Option<string>)
    | SizesArg(kind: OutputKind, inline: Option<string>)
    | UnknownArg
    | PositionalArg

  /** The tests of the loop, in their order. */
  function Classify(arg: string): (r: Arg)
    ensures r.PositionalArg? <==> !IsHelp(arg) && !Text.StartsWith(arg, "--")
    ensures r.UnknownArg? <==> !IsHelp(arg) && Text.StartsWith(arg, "--") && !IsKnownOption(arg)
  {
    if IsHelp(arg) then HelpArg
    else if arg == "--ico" then OutputArg(Ico, None)
    else if Text.StartsWith(arg, "--ico=") then OutputArg(Ico, Some(arg[|"--ico="|..]))
    else if arg == "--icns" then OutputArg(Icns, None)
    else if Text.StartsWith(arg, "--icns=") then OutputArg(Icns, Some(arg[|"--icns="|..]))
    else if arg == "--ico-sizes" then SizesArg(Ico, None)
    else if Text.StartsWith(arg, "--ico-sizes=") then SizesArg(Ico, Some(arg[|"--ico-sizes="|..]))
    else if arg == "--icns-sizes" then SizesArg(Icns, None)
    else if Text.StartsWith(arg, "--icns-sizes=") then SizesArg(Icns, Some(arg[|"--icns-sizes="|..]))
    else if Text.StartsWith(arg, "--") then UnknownArg
    else
      PlainArgumentIsNoOption(arg);
      PositionalArg
  }

  function OutputOption(kind: OutputKind): string
  {
    match kind
    case Ico => "--ico"
    case Icns => "--icns"
  }

  function SizesOption(kind: OutputKind): string
  {
    match kind
    case Ico => "--ico-sizes"
    case Icns => "--icns-sizes"
  }

  /** How the size lists are named in messages. */
  function KindName(kind: OutputKind): string
  {
    match kind
    case Ico => "ICO"
    case Icns => "ICNS"
  }

  function WithOutput(opts: Options, kind: OutputKind, path: string): (r: Options)
    ensures r.positional == opts.positional && r.icoSizes == opts.icoSizes && r.icnsSizes == opts.icnsSizes
  {
    match kind
    case Ico => opts.(ico := Some(path))
    case Icns => opts.(icns := Some(path))
  }

  function WithSizes(opts: Options, kind: OutputKind, sizes: seq<nat>): (r: Options)
    ensures r.positional == opts.positional && r.ico == opts.ico && r.icns == opts.icns
    ensures sizes != [] && Sorting.StrictlyAscending(sizes) && SizesWellFormed(opts) ==> SizesWellFormed(r)
  {
    match kind
    case Ico => opts.(icoSizes := sizes)
    case Icns => opts.(icnsSizes := sizes)
  }

  /** A size-list option with its value. */
  function ScanSizes(value: string, kind: OutputKind, next: nat, opts: Options): (r: Scan)
    ensures r.Continue? ==> r.next == next && r.opts.positional == opts.positional
    ensures r.Continue? && SizesWellFormed(opts) ==> SizesWellFormed(r.opts)
  {
    match SizesFromCsv(value, KindName(kind))
    case Err(e) => ScanError(e)
    case Ok(sizes) => Continue(next, WithSizes(opts, kind, sizes))
  }

  /** One round of the loop in `parse_args` at `pending[index]`. */
  function ScanStep(pending: seq<string>, index: nat, opts: Options): (r: Scan)
    requires index < |pending|
    ensures r.Continue? ==> index < r.next <= |pending|
    ensures r.Continue? && SizesWellFormed(opts) ==> SizesWellFormed(r.opts)
    ensures r.Continue? && r.opts.positional != opts.positional ==>
      opts.positional.None? && r.opts.positional == Some(pending[index]) && Classify(pending[index]).PositionalArg?
  {
    var arg := pending[index];
    match Classify(arg)
    case HelpArg => ScanHelp
    case OutputArg(kind, None) =>
      (match NextValue(pending, index, OutputOption(kind))
       case Err(e) => ScanError(e)
       case Ok(value) => Continue(index + 2, WithOutput(opts, kind, value)))
    case OutputArg(kind, Some(value)) =>
      if Text.IsBlank(value) then ScanError("missing value for " + OutputOption(kind))
      else Continue(index + 1, WithOutput(opts, kind, value))
    case SizesArg(kind, None) =>
      (match NextValue(pending, index, SizesOption(kind))
       case Err(e) => ScanError(e)
       case Ok(value) => ScanSizes(value, kind, index + 2, opts))
    case SizesArg(kind, Some(value)) => ScanSizes(value, kind, index + 1, opts)
    case UnknownArg => ScanError("unknown option: " + arg)
    case PositionalArg =>
      if opts.positional.Some? then ScanError("too many positional arguments")
      else Continue(index + 1, opts.(positional := Some(arg)))
  }

  /** The loop from `index` to the end of the arguments. */
  function ScanFrom(pending: seq<string>, index: nat, opts: Options): (r: Scan)
    ensures r.Continue? && SizesWellFormed(opts) ==> SizesWellFormed(r.opts)
    decreases |pending| - index
  {
    if index >= |pending| then Continue(index, opts)
    else
      match ScanStep(pending, index, opts)
      case Continue(next, o) => ScanFrom(pending, next, o)
      case other => other
  }

  /** The first element of `sizes` that `ok` rejects. */
  function FirstRejected(sizes: seq<nat>, ok: nat -> bool): (r: Option<nat>)
    ensures r.None? <==> forall i :: 0 <= i < |sizes| ==> ok(sizes[i])
    ensures r.Some? ==> r.value in sizes && !ok(r.value)
  {
    SeqFilter.Find(sizes, (x: nat) => !ok(x))
  }

  function IcoSizeOk(): nat -> bool
  {
    (x: nat) => 1 <= x <= ICO_MAX_SIZE
  }

  function IcnsSizeOk(): nat -> bool
  {
    (x: nat) => x in SUPPORTED_ICNS_SIZES
  }

  /** The checks and defaults after the loop of `parse_args`. */
  function Finish(input: string, opts: Options): (r: Outcome)
    ensures r.Run? ==> r.config.input == input && (r.config.icoOutput.Some? || r.config.icnsOutput.Some?)
    ensures r.Run? ==> r.config.icoSizes == opts.icoSizes && r.config.icnsSizes == opts.icnsSizes
    ensures r.Run? ==> forall i :: 0 <= i < |r.config.icoSizes| ==> 1 <= r.config.icoSizes[i] <= ICO_MAX_SIZE
    ensures r.Run? ==> forall i :: 0 <= i < |r.config.icnsSizes| ==> r.config.icnsSizes[i] in SUPPORTED_ICNS_SIZES
    ensures opts.positional.Some? && (opts.ico.Some? || opts.icns.Some?) ==>
      r == Failure("cannot mix positional output with --ico/--icns options")
  {
    if opts.positional.Some? && (opts.ico.Some? || opts.icns.Some?) then
      Failure("cannot mix positional output with --ico/--icns options")
    else
      var resolved: Result<(Option<string>, Option<string>)> :=
        match opts.positional
        case None => Ok((opts.ico, opts.icns))
        case Some(path) =>
          match ParseOutputByExtension(path)
          case Err(e) => Err(e)
          case Ok((Ico, p)) => Ok((Some(p), opts.icns))
          case Ok((Icns, p)) => Ok((opts.ico, Some(p)));
      match resolved
      case Err(e) => Failure(e)
      case Ok((ico, icns)) =>
        var (ico, icns) :=
          if ico.None? && icns.None? then
            (Some(Paths.WithExtension(input, "ico")), Some(Paths.WithExtension(input, "icns")))
          else (ico, icns);
        match FirstRejected(opts.icoSizes, IcoSizeOk())
        case Some(size) => Failure("ICO size out of range (must be 1..=256): " + Decimal.NatToString(size))
        case None =>
          match FirstRejected(opts.icnsSizes, IcnsSizeOk())
          case Some(size) =>
            Failure("unsupported ICNS size: " + Decimal.NatToString(size) + " (supported: " + JoinSizes(SUPPORTED_ICNS_SIZES) + ")")
          case None => Run(Config(input, ico, icns, opts.icoSizes, opts.icnsSizes))
  }

  /** `parse_args` on the first argument after the program name and the
      rest. */
  function ParseArgsOf(first: Option<string>, pending: seq<string>): (r: Outcome)
  {
    match first
    case None => Failure("missing input PNG path")
    case Some(input) =>
      if IsHelp(input) then ShowUsage
      else
        match ScanFrom(pending, 0, INITIAL_OPTIONS)
        case Continue(_, opts) => Finish(input, opts)
        case ScanHelp => ShowUsage
        case ScanError(e) => Failure(e)
  }

  /** `parse_args`, with its loop over `index`. */
  method ParseArgs(first: Option<string>, pending: seq<string>) returns (outcome: Outcome)
    ensures outcome == ParseArgsOf(first, pending)
  {
    if first.None? {
      return Failure("missing input PNG path");
    }
    var input := first.value;
    if IsHelp(input) {
      return ShowUsage;
    }
    var opts := INITIAL_OPTIONS;
    var index := 0;
    while index < |pending|
      invariant ScanFrom(pending, index, opts) == ScanFrom(pending, 0, INITIAL_OPTIONS)
      decreases |pending| - index
    {
      match ScanStep(pending, index, opts)
      case Continue(next, o) =>
        index, opts := next, o;
      case ScanHelp =>
        return ShowUsage;
      case ScanError(e) =>
        return Failure(e);
    }
    outcome := Finish(input, opts);
  }

  /** A configuration has an output, and its size lists are non-empty,
      ascending without duplicates and of sizes the formats support. */
  lemma RunConfigValid(first: Option<string>, pending: seq<string>)
    requires ParseArgsOf(first, pending).Run?
    ensures var c := ParseArgsOf(first, pending).config;
      && (c.icoOutput.Some? || c.icnsOutput.Some?)
      && c.icoSizes != [] && Sorting.StrictlyAscending(c.icoSizes)
      && c.icnsSizes != [] && Sorting.StrictlyAscending(c.icnsSizes)
      && (forall i :: 0 <= i < |c.icoSizes| ==> 1 <= c.icoSizes[i] <= ICO_MAX_SIZE)
      && (forall i :: 0 <= i < |c.icnsSizes| ==> c.icnsSizes[i] in SUPPORTED_ICNS_SIZES)
  {
    DefaultsWellFormed();
    var scan := ScanFrom(pending, 0, INITIAL_OPTIONS);
    FinishValid(first.value, scan.opts);
  }

  lemma DefaultsWellFormed()
    ensures SizesWellFormed(INITIAL_OPTIONS)
  {
  }

  lemma FinishValid(input: string, opts: Options)
    requires SizesWellFormed(opts)
    ensures var r := Finish(input, opts);
      r.Run? ==>
        r.config.icoSizes != [] && Sorting.StrictlyAscending(r.config.icoSizes) &&
        r.config.icnsSizes != [] && Sorting.StrictlyAscending(r.config.icnsSizes)
  {
  }

  lemma DefaultSizesAccepted()
    ensures FirstRejected(DEFAULT_ICO_SIZES, IcoSizeOk()).None?
    ensures FirstRejected(DEFAULT_ICNS_SIZES, IcnsSizeOk()).None?
  {
  }

  /** An argument not starting with "--" is no option. */
  lemma PlainArgumentIsNoOption(arg: string)
    requires !Text.StartsWith(arg, "--")
    ensures !IsKnownOption(arg)
  {
    forall q | q in ["ico=", "icns=", "ico-sizes=", "icns-sizes="]
      ensures !Text.StartsWith(arg, "--" + q)
    {
      if Text.StartsWith(arg, "--" + q) {
        Text.StartsWithPrefix(arg, "--", q);
      }
    }
    assert "--ico=" == "--" + "ico=";
    assert "--icns=" == "--" + "icns=";
    assert "--ico-sizes=" == "--" + "ico-sizes=";
    assert "--icns-sizes=" == "--" + "icns-sizes=";
  }

  /** With no output given, both files are made next to the input, in the
      default sizes. */
  lemma NoOutputGivesBoth(input: string)
    requires !IsHelp(input)
    ensures ParseArgsOf(Some(input), []) ==
      Run(Config(input, Some(Paths.WithExtension(input, "ico")), Some(Paths.WithExtension(input, "icns")),
                 DEFAULT_ICO_SIZES, DEFAULT_ICNS_SIZES))
  {
    DefaultSizesAccepted();
  }

  /** An argument starting with "--" that is no known option is an
      error. */
  lemma UnknownOptionRejected(input: string, option: string, rest: seq<string>)
    requires !IsHelp(input) && !IsHelp(option) && !IsKnownOption(option) && Text.StartsWith(option, "--")
    ensures ParseArgsOf(Some(input), [option] + rest) == Failure("unknown option: " + option)
  {
    var pending := [option] + rest;
    assert pending[0] == option;
    assert ScanStep(pending, 0, INITIAL_OPTIONS) == ScanError("unknown option: " + option);
    assert ScanFrom(pending, 0, INITIAL_OPTIONS) == ScanError("unknown option: " + option);
  }

  /** A second positional argument is an error. */
  lemma SecondPositionalRejected(input: string, a: string, b: string, rest: seq<string>)
    requires !IsHelp(input) && !IsHelp(a) && !IsHelp(b)
    requires !Text.StartsWith(a, "--") && !Text.StartsWith(b, "--")
    ensures ParseArgsOf(Some(input), [a, b] + rest) == Failure("too many positional arguments")
  {
    var pending := [a, b] + rest;
    assert pending[0] == a && pending[1] == b;
    PlainArgumentIsNoOption(a);
    PlainArgumentIsNoOption(b);
    var opts := INITIAL_OPTIONS.(positional := Some(a));
    assert ScanStep(pending, 0, INITIAL_OPTIONS) == Continue(1, opts);
    assert ScanStep(pending, 1, opts) == ScanError("too many positional arguments");
    assert ScanFrom(pending, 1, opts) == ScanError("too many positional arguments");
    assert ScanFrom(pending, 0, INITIAL_OPTIONS) == ScanError("too many positional arguments");
    assert ParseArgsOf(Some(input), pending) == Failure("too many positional arguments");
  }

  /** A positional output together with --ico or --icns is an error. */
  lemma PositionalWithOptionRejected(input: string, path: string, kind: OutputKind, value: string)
    requires !IsHelp(input) && !IsHelp(path) && !Text.StartsWith(path, "--")
    ensures ParseArgsOf(Some(input), [path, OutputOption(kind), value]) ==
      Failure("cannot mix positional output with --ico/--icns options")
  {
    var pending := [path, OutputOption(kind), value];
    var opts := INITIAL_OPTIONS.(positional := Some(path));
    assert ScanStep(pending, 0, INITIAL_OPTIONS) == Continue(1, opts);
    ClassifyOutputOption(kind);
    var last := WithOutput(opts, kind, value);
    assert ScanStep(pending, 1, opts) == Continue(3, last);
    assert ScanFrom(pending, 1, opts) == Continue(3, last);
    assert ScanFrom(pending, 0, INITIAL_OPTIONS) == Continue(3, last);
  }

  lemma ClassifyOutputOption(kind: OutputKind)
    ensures Classify(OutputOption(kind)) == OutputArg(kind, None)
  {
    match kind
    case Ico =>
    case Icns =>
      assert "--icns"[5] != "--ico="[5];
  }

  // ---------------------------------------------------------------------
  // Icon frames

  function ClampNat(x: int, lo: nat, hi: nat): (r: nat)
    requires lo <= hi
    ensures lo <= r <= hi
    ensures lo <= x <= hi ==> r == x
  {
    if x < lo then lo else if x > hi then hi else x
  }

  function MinReal(a: real, b: real): (r: real)
    ensures r <= a && r <= b && (r == a || r == b)
  {
    if a <= b then a else b
  }

  function AtLeastOne(n: nat): (r: nat)
    ensures r >= 1 && (n >= 1 ==> r == n)
  {
    if n > 1 then n else 1
  }

  /** One side of the resized image: the scaled side rounded, clamped to
      [1, size]. */
  function ResizedSide(side: nat, scale: real, size: nat): (r: nat)
    requires size >= 1 && scale >= 0.0
    ensures 1 <= r <= size
  {
    ClampNat(Types.RoundHalfUp(side as real * scale), 1, size)
  }

  /** Where `build_icon_frame` puts the resized image on its square
      canvas. */
  datatype FrameLayout = FrameLayout(resizedWidth: nat, resizedHeight: nat, offsetX: nat, offsetY: nat)

  /** The integer parts of `build_icon_frame`: the image scaled to fit the
      canvas keeping its aspect ratio, each side clamped to [1, size], and
      centred (`size` comes from the checked size lists, so it is at
      least 1). */
  function IconFrameLayout(sourceWidth: nat, sourceHeight: nat, size: nat): (r: FrameLayout)
    requires size >= 1
    ensures 1 <= r.resizedWidth <= size && 1 <= r.resizedHeight <= size
    ensures r.offsetX == (size - r.resizedWidth) / 2 && r.offsetY == (size - r.resizedHeight) / 2
  {
    var w := AtLeastOne(sourceWidth);
    var h := AtLeastOne(sourceHeight);
    var scale := MinReal(size as real / w as real, size as real / h as real);
    var rw := ResizedSide(w, scale, size);
    var rh := ResizedSide(h, scale, size);
    FrameLayout(rw, rh, (size - rw) / 2, (size - rh) / 2)
  }

  /** The frame lies inside the canvas with equal margins, give or take
      one pixel. */
  lemma FrameCentred(sourceWidth: nat, sourceHeight: nat, size: nat)
    requires size >= 1
    ensures var l := IconFrameLayout(sourceWidth, sourceHeight, size);
      && l.offsetX + l.resizedWidth <= size && size - (l.offsetX + l.resizedWidth) - l.offsetX <= 1
      && l.offsetY + l.resizedHeight <= size && size - (l.offsetY + l.resizedHeight) - l.offsetY <= 1
  {
  }

  /** The longer side of the image fills the canvas. */
  lemma LongerSideFills(sourceWidth: nat, sourceHeight: nat, size: nat)
    requires size >= 1
    ensures sourceWidth >= sourceHeight ==> IconFrameLayout(sourceWidth, sourceHeight, size).resizedWidth == size
    ensures sourceHeight >= sourceWidth ==> IconFrameLayout(sourceWidth, sourceHeight, size).resizedHeight == size
  {
    var w := AtLeastOne(sourceWidth);
    var h := AtLeastOne(sourceHeight);
    if h <= w {
      LongerSideScaled(w, h, size);
    }
    if w <= h {
      LongerSideScaled(h, w, size);
    }
  }

  lemma LongerSideScaled(a: nat, b: nat, size: nat)
    requires 1 <= b <= a && size >= 1
    ensures ResizedSide(a, MinReal(size as real / a as real, size as real / b as real), size) == size
    ensures ResizedSide(a, MinReal(size as real / b as real, size as real / a as real), size) == size
  {
    var s := size as real;
    ScaleOfLonger(a, b, s);
    assert Types.RoundHalfUp(s) == size;
  }

  lemma ScaleOfLonger(a: nat, b: nat, s: real)
    requires 1 <= b <= a && s > 0.0
    ensures s / a as real <= s / b as real
    ensures a as real * (s / a as real) == s
  {
    var x := s / a as real;
    var y := s / b as real;
    assert x * a as real == s;
    assert y * b as real == s;
    assert x * a as real <= y * a as real by {
      assert y * a as real >= y * b as real;
    }
  }
}
