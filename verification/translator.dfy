/**
  The command translator (`InputParser`): turns the raw command-line
  tokens into an operation descriptor (input image, filter specifications,
  output file name), or into the help outcome, or into the error that the
  first failing check raises.

  File existence and image decoding are an oracle `open`; the clock is the
  parameter `now`.
 */
module Translator {
  import opened Text
  import opened Errors

  /** The four flags the command line knows (the keys of `allowed_commands`). */
  const Flags: set<string> := {"-h", "-i", "-f", "-o"}

  /** The long spelling of each flag and the short flag it is rewritten to. */
  const Aliases: map<string, string> :=
    map["--help" := "-h", "--input" := "-i", "--filter" := "-f", "--output" := "-o"]

  /** The (flag, alias) pairs in the order the rewriting loop visits them. */
  const Rewrites: seq<(string, string)> :=
    [("-h", "--help"), ("-i", "--input"), ("-f", "--filter"), ("-o", "--output")]

  /** The formats an output file may be written in. */
  const AcceptedFormats: seq<string> := ["png", "jpg", "jpeg"]

  /** What the file system and the image decoder make of a path. */
  datatype Opened<I> = NotAFile | Unreadable | Image(image: I)

  /** The input of a run: a decoded image, or the candidate path that named no file. */
  datatype ImageSource<I> = Decoded(image: I) | Unresolved(path: string)

  datatype Descriptor<I> = Descriptor(input: ImageSource<I>, filters: seq<string>, output: string)

  /** `-h` ends the translation with the help text; otherwise an operation is requested. */
  datatype Outcome<I> = Help | Operation(descriptor: Descriptor<I>)

  // ---------------------------------------------------------------------------
  // Alias normalisation

  function Canonical(t: string): string
  {
    if t in Aliases then Aliases[t] else t
  }

  /** The token list with every long flag replaced by its short flag. */
  function Normalize(ts: seq<string>): (r: seq<string>)
    ensures |r| == |ts|
    ensures forall k :: 0 <= k < |ts| && ts[k] !in Aliases ==> r[k] == ts[k]
    ensures forall k :: 0 <= k < |ts| && ts[k] in Aliases ==> r[k] == Aliases[ts[k]] && r[k] in Flags
    ensures forall k :: 0 <= k < |r| ==> r[k] !in Aliases
  {
    seq(|ts|, k requires 0 <= k < |ts| => Canonical(ts[k]))
  }

  /** The position of an alias in `Rewrites`, or 4 for any other token. */
  function AliasRank(t: string): nat
  {
    if t == "--help" then 0
    else if t == "--input" then 1
    else if t == "--filter" then 2
    else if t == "--output" then 3
    else 4
  }

  /** A token after the rewriting of the first `p` aliases. */
  function RewrittenBy(t: string, p: nat): string
  {
    if AliasRank(t) < p then Canonical(t) else t
  }

  /** The `p`-th pair of `Rewrites` maps its alias to its flag. */
  lemma RewriteEntry(p: nat)
    requires p < |Rewrites|
    ensures AliasRank(Rewrites[p].1) == p
    ensures Canonical(Rewrites[p].1) == Rewrites[p].0 != Rewrites[p].1
  {
  }

  /** The in-place rewriting loop: for each flag and alias in turn, replace
      the occurrences of the alias by the flag. */
  method ReplaceAliases(ts: seq<string>) returns (r: seq<string>)
    ensures r == Normalize(ts)
  {
    r := ts;
    var p := 0;
    while p < |Rewrites|
      invariant 0 <= p <= |Rewrites|
      invariant |r| == |ts|
      invariant forall k :: 0 <= k < |r| ==> r[k] == RewrittenBy(ts[k], p)
    {
      var (key, alias) := Rewrites[p];
      RewriteEntry(p);
      r := ReplaceAll(r, alias, key);
      p := p + 1;
    }
    assert forall k :: 0 <= k < |r| ==> r[k] == Normalize(ts)[k];
  }

  /** `while alias in r: r[r.index(alias)] = key`: every occurrence of
      `alias` becomes `key`, every other element stays. */
  method ReplaceAll(r0: seq<string>, alias: string, key: string) returns (r: seq<string>)
    requires alias != key
    ensures |r| == |r0|
    ensures forall k :: 0 <= k < |r0| && r0[k] == alias ==> r[k] == key
    ensures forall k :: 0 <= k < |r0| && r0[k] != alias ==> r[k] == r0[k]
  {
    r := r0;
    while alias in r
      invariant |r| == |r0|
      invariant forall k :: 0 <= k < |r0| && r0[k] == alias ==> r[k] == alias || r[k] == key
      invariant forall k :: 0 <= k < |r0| && r0[k] != alias ==> r[k] == r0[k]
      decreases multiset(r)[alias]
    {
      var i := IndexOf(r, alias);
      r := r[i := key];
    }
  }

  // ---------------------------------------------------------------------------
  // Validation

  /** A dash-token that is not one of the four flags. */
  predicate IsUnknownCommand(t: string)
  {
    |t| > 0 && t[0] == '-' && t !in Flags
  }

  /** The unknown commands of a token list, in order. */
  function UnknownCommands(args: seq<string>): (r: seq<string>)
    ensures forall t :: t in r <==> t in args && IsUnknownCommand(t)
  {
    if args == [] then []
    else (if IsUnknownCommand(args[0]) then [args[0]] else []) + UnknownCommands(args[1..])
  }

  /** The first unknown command reported is the first dash-token that is not a flag. */
  lemma {:induction false} FirstUnknownCommand(args: seq<string>, k: nat)
    requires k < |args| && IsUnknownCommand(args[k])
    requires forall j :: 0 <= j < k ==> !IsUnknownCommand(args[j])
    ensures |UnknownCommands(args)| > 0 && UnknownCommands(args)[0] == args[k]
  {
    if k > 0 {
      assert !IsUnknownCommand(args[0]);
      FirstUnknownCommand(args[1..], k - 1);
    }
  }

  /** `Counter(s)[x] > 1` holds exactly when `x` sits at two different positions. */
  lemma {:induction false} RepeatedIffCount<T>(s: seq<T>, x: T)
    ensures multiset(s)[x] > 1 <==> exists i, j :: 0 <= i < j < |s| && s[i] == x && s[j] == x
  {
    if s != [] {
      var tail := s[1..];
      assert s == [s[0]] + tail;
      assert multiset(s)[x] == (if s[0] == x then 1 else 0) + multiset(tail)[x];
      RepeatedIffCount(tail, x);
      if multiset(s)[x] > 1 {
        if s[0] == x {
          var j :| 0 <= j < |tail| && tail[j] == x;
          assert s[0] == x && s[j + 1] == x;
        } else {
          var i, j :| 0 <= i < j < |tail| && tail[i] == x && tail[j] == x;
          assert s[i + 1] == x && s[j + 1] == x;
        }
      }
      if exists i, j :: 0 <= i < j < |s| && s[i] == x && s[j] == x {
        var i, j :| 0 <= i < j < |s| && s[i] == x && s[j] == x;
        if i == 0 {
          assert tail[j - 1] == x;
        } else {
          assert tail[i - 1] == x && tail[j - 1] == x;
        }
      }
    }
  }

  // ---------------------------------------------------------------------------
  // Input, filters, output

  /** The input candidate: the token after the first `-i` ("" when `-i` is
      last), or the first token when there is no `-i`. */
  function InputCandidate(args: seq<string>): (c: string)
    requires |args| > 0
    ensures "-i" !in args ==> c == args[0]
    ensures forall k :: 0 <= k < |args| && args[k] == "-i" && (forall j :: 0 <= j < k ==> args[j] != "-i")
              ==> c == (if k + 1 < |args| then args[k + 1] else "")
  {
    if "-i" in args then
      var k := IndexOf(args, "-i");
      if k + 1 < |args| then args[k + 1] else ""
    else args[0]
  }

  /** The input image, or the candidate itself when it names no file. */
  function InputImage<I>(args: seq<string>, open: string -> Opened<I>): (r: Result<ImageSource<I>>)
    requires |args| > 0
    ensures open(InputCandidate(args)).NotAFile? ==> r == Ok(Unresolved(InputCandidate(args)))
    ensures open(InputCandidate(args)).Unreadable? ==> r == Err(InvalidPILImageCreated)
    ensures open(InputCandidate(args)).Image? ==> r == Ok(Decoded(open(InputCandidate(args)).image))
  {
    var candidate := InputCandidate(args);
    match open(candidate)
    case NotAFile => Ok(Unresolved(candidate))
    case Unreadable => Err(InvalidPILImageCreated)
    case Image(image) => Ok(Decoded(image))
  }

  /** A token kept as a filter specification: non-empty and not starting with '-'. */
  predicate IsFilterValue(v: string)
  {
    |v| > 0 && v[0] != '-'
  }

  /** What the token at `i` contributes to the collection: the next token,
      when the token at `i` is `-f` and the next one is a filter value. */
  function FilterAt(args: seq<string>, i: nat): seq<string>
    requires i < |args|
  {
    if args[i] == "-f" && i + 1 < |args| && IsFilterValue(args[i + 1]) then [args[i + 1]] else []
  }

  /** The filter specifications: the token after each `-f`, in order, when it
      is a filter value; a `-f` in last position contributes nothing. */
  function Filters(args: seq<string>): (fs: seq<string>)
    ensures forall k :: 0 <= k < |fs| ==> IsFilterValue(fs[k])
  {
    if args == [] then [] else FilterAt(args, 0) + Filters(args[1..])
  }

  /** There are never more specifications than `-f` tokens. */
  lemma {:induction false} FiltersBound(args: seq<string>)
    ensures |Filters(args)| <= multiset(args)["-f"]
  {
    if args != [] {
      FiltersBound(args[1..]);
      assert args == [args[0]] + args[1..];
    }
  }

  /** Every collected specification is the token right after some `-f`. */
  lemma {:induction false} FiltersFollowFlags(args: seq<string>, v: string)
    requires v in Filters(args)
    ensures exists i :: 0 <= i < |args| - 1 && args[i] == "-f" && args[i + 1] == v
  {
    if !(args[0] == "-f" && 1 < |args| && v == args[1]) {
      assert v in Filters(args[1..]);
      FiltersFollowFlags(args[1..], v);
      var i :| 0 <= i < |args| - 2 && args[1..][i] == "-f" && args[1..][i + 1] == v;
      assert args[i + 1] == "-f" && args[i + 2] == v;
    }
  }

  /** Every filter value that follows a `-f` is collected. */
  lemma {:induction false} FiltersCollectFlags(args: seq<string>, i: nat)
    requires i + 1 < |args| && args[i] == "-f" && IsFilterValue(args[i + 1])
    ensures args[i + 1] in Filters(args)
  {
    if i > 0 {
      FiltersCollectFlags(args[1..], i - 1);
    }
  }

  /** The collection from position `i` on is the token at `i`'s contribution
      followed by the collection from `i + 1` on. */
  lemma FiltersFrom(args: seq<string>, i: nat)
    requires i < |args|
    ensures Filters(args[i..]) == FilterAt(args, i) + Filters(args[i + 1..])
  {
    var rest := args[i..];
    assert rest[0] == args[i];
    assert rest[1..] == args[i + 1..];
    assert FilterAt(rest, 0) == FilterAt(args, i);
  }

  /** The collecting loop: walk the tokens, and after each `-f` take the next
      token when there is one and it is a filter value. */
  method GetFiltersToApply(args: seq<string>) returns (fs: seq<string>)
    ensures fs == Filters(args)
  {
    fs := [];
    var index := 0;
    assert args[0..] == args;
    while index < |args|
      invariant 0 <= index <= |args|
      invariant fs + Filters(args[index..]) == Filters(args)
    {
      ghost var before := fs;
      if args[index] == "-f" && index + 1 < |args| {
        var value := args[index + 1];
        if IsFilterValue(value) {
          fs := fs + [value];
        }
      }
      assert fs == before + FilterAt(args, index);
      FiltersFrom(args, index);
      assert before + FilterAt(args, index) + Filters(args[index + 1..])
          == before + (FilterAt(args, index) + Filters(args[index + 1..]));
      index := index + 1;
    }
  }

  /** Every piece stripped. */
  function StripAll(parts: seq<string>): (r: seq<string>)
    ensures |r| == |parts|
    ensures forall k :: 0 <= k < |parts| ==> r[k] == Strip(parts[k])
  {
    if parts == [] then [] else [Strip(parts[0])] + StripAll(parts[1..])
  }

  /** Python's `"_".join(part.strip() for part in parts)`. */
  function JoinStripped(parts: seq<string>): string
  {
    Join(StripAll(parts), '_')
  }

  lemma JoinStrippedAvoids(parts: seq<string>, c: char)
    requires c != '_'
    requires forall k :: 0 <= k < |parts| ==> c !in parts[k]
    ensures c !in JoinStripped(parts)
  {
    var stripped := StripAll(parts);
    forall k | 0 <= k < |parts|
      ensures c !in stripped[k]
    {
      TrimAvoids(StripSpace, parts[k], c);
    }
    JoinAvoids(stripped, '_', c);
  }

  /** The stem of a `name:FMT` value's name part: a name without '.' is kept
      as it is; otherwise its dot-pieces, less a last piece that is itself an
      accepted format, are stripped and joined with '_'. */
  function ColonStem(name: string): (stem: string)
    ensures '.' !in stem
  {
    if '.' in name then
      var pieces := Split(name, '.');
      var kept := if pieces[|pieces| - 1] in AcceptedFormats then pieces[..|pieces| - 1] else pieces;
      JoinStrippedAvoids(kept, '.');
      JoinStripped(kept)
    else name
  }

  /** The (stem, format) an `-o` value names. */
  function OutputParts(value: string): (r: Result<(string, string)>)
    ensures r.Ok? ==> r.value.1 in AcceptedFormats && '.' !in r.value.0
    ensures ':' !in value && '.' !in value <==> r == Err(InvalidOutputFileExtensionProvided(NoExtension))
    ensures r.Err? ==> r.error.InvalidOutputFileExtensionProvided?
  {
    if ':' in value then ColonParts(value)
    else if '.' in value then PlainParts(value)
    else Err(InvalidOutputFileExtensionProvided(NoExtension))
  }

  /** The `name:FMT` form: the name from the first ':'-piece, the format
      from the second, lower-cased. */
  function ColonParts(value: string): (r: Result<(string, string)>)
    requires ':' in value
    ensures r.Ok? ==> r.value.1 in AcceptedFormats && '.' !in r.value.0
    ensures r.Err? ==> r.error.InvalidOutputFileExtensionProvided? && !r.error.problem.NoExtension?
  {
    var parts := Split(value, ':');
    WithFormat(ColonStem(parts[0]), Lower(parts[1]))
  }

  /** The plain `a.b.ext` form: the format is the last '.'-piece as it is,
      the stem the stripped other pieces joined by '_'. */
  function PlainParts(value: string): (r: Result<(string, string)>)
    requires '.' in value
    ensures r.Ok? ==> r.value.1 in AcceptedFormats && '.' !in r.value.0
    ensures r.Err? ==> r.error.InvalidOutputFileExtensionProvided? && !r.error.problem.NoExtension?
  {
    var pieces := Split(value, '.');
    JoinStrippedAvoids(pieces[..|pieces| - 1], '.');
    WithFormat(JoinStripped(pieces[..|pieces| - 1]), pieces[|pieces| - 1])
  }

  /** The stem and format, when the format is an accepted one. */
  function WithFormat(stem: string, format: string): (r: Result<(string, string)>)
    ensures r.Ok? <==> format in AcceptedFormats
    ensures r.Ok? ==> r.value == (stem, format)
    ensures r.Err? ==> r.error == InvalidOutputFileExtensionProvided(UnacceptedExtension(format))
  {
    if format in AcceptedFormats then Ok((stem, format))
    else Err(InvalidOutputFileExtensionProvided(UnacceptedExtension(format)))
  }

  /** The file name of a (stem, format) pair. */
  function FileName(parts: (string, string)): string
  {
    parts.0 + "." + parts.1
  }

  /** The file name an `-o` value derives: a stem without '.', a '.', and
      an accepted format; or the error that reading the value raised. */
  function NameFromValue(value: string): (r: Result<string>)
    ensures r.Ok? <==> OutputParts(value).Ok?
    ensures r.Ok? ==> r.value == FileName(OutputParts(value).value)
    ensures r.Err? ==> r.error == OutputParts(value).error
  {
    var parts :- OutputParts(value);
    Ok(FileName(parts))
  }

  /** The output file name: derived from the value after `-o`, or
      `result_<now>.jpg` when there is no `-o`. */
  function OutputImageName(args: seq<string>, now: nat): (r: Result<string>)
    ensures "-o" !in args ==> r == Ok("result_" + NatToString(now) + ".jpg")
    ensures "-o" in args && IndexOf(args, "-o") == |args| - 1 <==> r == Err(OutputFlagEvokedWithoutValue)
    ensures "-o" in args && IndexOf(args, "-o") < |args| - 1 ==> r == NameFromValue(args[IndexOf(args, "-o") + 1])
  {
    if "-o" in args then
      var k := IndexOf(args, "-o");
      if k + 1 < |args| then NameFromValue(args[k + 1])
      else Err(OutputFlagEvokedWithoutValue)
    else
      var stem := "result_" + NatToString(now);
      assert FileName((stem, "jpg")) == "result_" + NatToString(now) + ".jpg";
      Ok(FileName((stem, "jpg")))
  }

  // ---------------------------------------------------------------------------
  // The translation

  function Translate<I>(ts: seq<string>, open: string -> Opened<I>, now: nat): (r: Result<Outcome<I>>)
    ensures r == Err(InvalidNumberOfArguments) <==> ts == []
    ensures r == Ok(Help) <==> ts != [] && exists k :: 0 <= k < |ts| && (ts[k] == "-h" || ts[k] == "--help")
  {
    if ts == [] then Err(InvalidNumberOfArguments)
    else Resolve(Normalize(ts), open, now)
  }

  /** Everything `translate` does once the long flags are rewritten: the
      help check, the duplicate and unknown-command checks, and the descriptor. */
  function Resolve<I>(args: seq<string>, open: string -> Opened<I>, now: nat): (r: Result<Outcome<I>>)
    requires args != []
    ensures r != Err(InvalidNumberOfArguments)
    ensures r == Ok(Help) <==> "-h" in args
  {
    if "-h" in args then Ok(Help)
    else if multiset(args)["-i"] > 1 then Err(KeyFlagInvokedMoreThanOnce(InputKey))
    else if multiset(args)["-o"] > 1 then Err(KeyFlagInvokedMoreThanOnce(OutputKey))
    else
      var unknown := UnknownCommands(args);
      if |unknown| > 0 then Err(InvalidCommandEvoked(unknown[0]))
      else
        var input :- InputImage(args, open);
        var output :- OutputImageName(args, now);
        Ok(Operation(Descriptor(input, Filters(args), output)))
  }

  // ---------------------------------------------------------------------------
  // Properties of the translation, stated on the raw tokens

  /** `t` spells `flag` in its short or its long form. */
  predicate Spells(t: string, flag: string)
  {
    t == flag || (t in Aliases && Aliases[t] == flag)
  }

  predicate Mentions(ts: seq<string>, flag: string)
  {
    exists k :: 0 <= k < |ts| && Spells(ts[k], flag)
  }

  predicate Repeats(ts: seq<string>, flag: string)
  {
    exists i, j :: 0 <= i < j < |ts| && Spells(ts[i], flag) && Spells(ts[j], flag)
  }

  /** A dash-token that is neither a flag nor one of its long forms. */
  predicate IsUnknownToken(t: string)
  {
    IsUnknownCommand(t) && t !in Aliases
  }

  /** After normalisation a token is a flag exactly when it spelled that flag,
      and an unknown command exactly when it was an unknown token. */
  lemma NormalizedSpellings(ts: seq<string>)
    ensures forall k, f :: 0 <= k < |ts| && f in Flags ==> (Normalize(ts)[k] == f <==> Spells(ts[k], f))
    ensures forall k :: 0 <= k < |ts| ==> (IsUnknownCommand(Normalize(ts)[k]) <==> IsUnknownToken(ts[k]))
  {
  }

  /** Spelling the same flags the same way is not required: short and long
      forms are interchangeable. */
  lemma AliasesInterchangeable<I>(a: seq<string>, b: seq<string>, open: string -> Opened<I>, now: nat)
    requires |a| == |b|
    requires forall k :: 0 <= k < |a| ==> Canonical(a[k]) == Canonical(b[k])
    ensures Translate(a, open, now) == Translate(b, open, now)
  {
    assert Normalize(a) == Normalize(b);
  }

  /** Once the list is non-empty and asks for no help, the checks fail in a
      fixed order: a repeated input flag, then a repeated output flag, then
      the first unknown dash-token. */
  lemma RejectionOrder<I>(ts: seq<string>, open: string -> Opened<I>, now: nat)
    requires ts != [] && !Mentions(ts, "-h")
    ensures Repeats(ts, "-i") ==>
      Translate(ts, open, now) == Err(KeyFlagInvokedMoreThanOnce(InputKey))
    ensures !Repeats(ts, "-i") && Repeats(ts, "-o") ==>
      Translate(ts, open, now) == Err(KeyFlagInvokedMoreThanOnce(OutputKey))
    ensures !Repeats(ts, "-i") && !Repeats(ts, "-o") ==>
      forall k :: 0 <= k < |ts| && IsUnknownToken(ts[k]) && (forall j :: 0 <= j < k ==> !IsUnknownToken(ts[j]))
        ==> Translate(ts, open, now) == Err(InvalidCommandEvoked(ts[k]))
  {
    var args := Normalize(ts);
    NormalizedSpellings(ts);
    assert "-h" !in args;
    RepeatedIffCount(args, "-i");
    RepeatedIffCount(args, "-o");
    assert Repeats(ts, "-i") <==> multiset(args)["-i"] > 1;
    assert Repeats(ts, "-o") <==> multiset(args)["-o"] > 1;
    forall k | 0 <= k < |ts| && IsUnknownToken(ts[k]) && (forall j :: 0 <= j < k ==> !IsUnknownToken(ts[j]))
      ensures |UnknownCommands(args)| > 0 && UnknownCommands(args)[0] == ts[k]
    {
      FirstUnknownCommand(args, k);
    }
  }

  /** A translation that yields an operation passed every check; its filters
      are the collected specifications, its input comes from the candidate
      (a decoded image, or the candidate itself when it is no file) and its
      output is the derived name. */
  lemma TranslateSucceeds<I>(ts: seq<string>, open: string -> Opened<I>, now: nat)
    requires Translate(ts, open, now).Ok? && Translate(ts, open, now).value.Operation?
    ensures ts != [] && !Mentions(ts, "-h") && !Repeats(ts, "-i") && !Repeats(ts, "-o")
    ensures forall k :: 0 <= k < |ts| ==> !IsUnknownToken(ts[k])
    ensures var d := Translate(ts, open, now).value.descriptor;
            var c := InputCandidate(Normalize(ts));
            && d.filters == Filters(Normalize(ts))
            && ((open(c).NotAFile? && d.input == Unresolved(c))
                || (open(c).Image? && d.input == Decoded(open(c).image)))
            && OutputImageName(Normalize(ts), now) == Ok(d.output)
  {
    var args := Normalize(ts);
    NormalizedSpellings(ts);
    RepeatedIffCount(args, "-i");
    RepeatedIffCount(args, "-o");
    assert "-h" !in args;
    assert multiset(args)["-i"] <= 1 && multiset(args)["-o"] <= 1;
    assert UnknownCommands(args) == [];
  }

  /** The converse: a non-empty list that asks for no help, repeats neither
      key flag and holds no unknown dash-token is translated into an
      operation. The input is resolved first, so an undecodable input file
      is reported before any problem with the output name; then the output
      name is derived; the operation carries the collected specifications. */
  lemma TranslateAfterChecks<I>(ts: seq<string>, open: string -> Opened<I>, now: nat)
    requires ts != [] && !Mentions(ts, "-h") && !Repeats(ts, "-i") && !Repeats(ts, "-o")
    requires forall k :: 0 <= k < |ts| ==> !IsUnknownToken(ts[k])
    ensures var args := Normalize(ts);
            Translate(ts, open, now) ==
              match InputImage(args, open)
              case Err(e) => Err(e)
              case Ok(input) =>
                match OutputImageName(args, now)
                case Err(e) => Err(e)
                case Ok(name) => Ok(Operation(Descriptor(input, Filters(args), name)))
  {
    var args := Normalize(ts);
    NormalizedSpellings(ts);
    RepeatedIffCount(args, "-i");
    RepeatedIffCount(args, "-o");
    assert "-h" !in args;
    assert forall k :: 0 <= k < |args| ==> !IsUnknownCommand(args[k]);
    NoUnknownCommands(args);
  }

  lemma {:induction false} NoUnknownCommands(args: seq<string>)
    requires forall k :: 0 <= k < |args| ==> !IsUnknownCommand(args[k])
    ensures UnknownCommands(args) == []
  {
    if args != [] {
      NoUnknownCommands(args[1..]);
    }
  }

  /** `img.png -f flip:v -o photo:PNG`, with `img.png` a decodable image:
      the operation flips that image and saves `photo.png`. */
  lemma OperationExample<I>(open: string -> Opened<I>, now: nat, x: I)
    requires open("img.png") == Image(x)
    ensures Translate(["img.png", "-f", "flip:v", "-o", "photo:PNG"], open, now)
         == Ok(Operation(Descriptor(Decoded(x), ["flip:v"], "photo.png")))
  {
    var ts := ["img.png", "-f", "flip:v", "-o", "photo:PNG"];
    ExampleTokensPlain(ts);
    ExampleInput(ts, open, x);
    PhotoOutputName(ts, now);
    ExampleFilters(ts);
    TranslateParts(ts, open, now, Decoded(x), ["flip:v"], "photo.png");
  }

  /** TranslateAfterChecks with each part of the operation known. */
  lemma TranslateParts<I>(ts: seq<string>, open: string -> Opened<I>, now: nat,
                          input: ImageSource<I>, filters: seq<string>, name: string)
    requires ts != [] && !Mentions(ts, "-h") && !Repeats(ts, "-i") && !Repeats(ts, "-o")
    requires forall k :: 0 <= k < |ts| ==> !IsUnknownToken(ts[k])
    requires InputImage(Normalize(ts), open) == Ok(input)
    requires OutputImageName(Normalize(ts), now) == Ok(name)
    requires Filters(Normalize(ts)) == filters
    ensures Translate(ts, open, now) == Ok(Operation(Descriptor(input, filters, name)))
  {
    TranslateAfterChecks(ts, open, now);
  }

  /** Without `-i`, the example's first token is decoded as its input. */
  lemma ExampleInput<I>(ts: seq<string>, open: string -> Opened<I>, x: I)
    requires ts == ["img.png", "-f", "flip:v", "-o", "photo:PNG"]
    requires open("img.png") == Image(x)
    ensures InputImage(ts, open) == Ok(Decoded(x))
  {
    assert "-i" !in ts;
  }

  /** The example's tokens need no respelling and pass the first checks. */
  lemma ExampleTokensPlain(ts: seq<string>)
    requires ts == ["img.png", "-f", "flip:v", "-o", "photo:PNG"]
    ensures Normalize(ts) == ts
    ensures !Mentions(ts, "-h") && !Repeats(ts, "-i") && !Repeats(ts, "-o")
    ensures forall k :: 0 <= k < |ts| ==> !IsUnknownToken(ts[k])
  {
    forall k | 0 <= k < |ts|
      ensures ts[k] !in Aliases
    {
    }
  }

  /** The example's one `-f` collects `flip:v`. */
  lemma ExampleFilters(ts: seq<string>)
    requires ts == ["img.png", "-f", "flip:v", "-o", "photo:PNG"]
    ensures Filters(ts) == ["flip:v"]
  {
    assert Filters(ts[4..]) == [];
    assert Filters(ts[3..]) == [];
    assert Filters(ts[2..]) == [];
    assert Filters(ts[1..]) == ["flip:v"];
  }

  /** `-o photo:PNG` as the fourth and fifth tokens names `photo.png`. */
  lemma PhotoOutputName(ts: seq<string>, now: nat)
    requires |ts| == 5 && ts[3] == "-o" && ts[4] == "photo:PNG"
    requires "-o" !in ts[..3]
    ensures OutputImageName(ts, now) == Ok("photo.png")
  {
    assert IndexOf(ts, "-o") == 3 by {
      assert forall j :: 0 <= j < 3 ==> ts[j] == ts[..3][j];
    }
    assert NameFromValue("photo:PNG") == Ok("photo.png") by {
      ColonExample();
      PhotoDotPng();
    }
  }

  lemma PhotoDotPng()
    ensures FileName(("photo", "png")) == "photo.png"
  {
  }

  /** The token list of the duplicate-input example. */
  lemma DuplicateInputExample<I>(open: string -> Opened<I>, now: nat)
    ensures Translate(["-i", "a.jpg", "-i", "b.jpg"], open, now) == Err(KeyFlagInvokedMoreThanOnce(InputKey))
  {
    var ts := ["-i", "a.jpg", "-i", "b.jpg"];
    assert Spells(ts[0], "-i") && Spells(ts[2], "-i");
    assert !Spells(ts[1], "-h") && !Spells(ts[3], "-h");
    RejectionOrder(ts, open, now);
  }

  /** A stem without '.' and an accepted format make a name that splits on
      '.' into exactly the stem and the format. */
  lemma NameSplitsInTwo(stem: string, format: string)
    requires '.' !in stem && format in AcceptedFormats
    ensures Split(FileName((stem, format)), '.') == [stem, format]
  {
    assert '.' !in format;
    SplitSnoc(stem, format, '.');
    assert FileName((stem, format)) == stem + ['.'] + format;
  }

  /** The digits of the clock value contain no '.'. */
  lemma DefaultStemHasNoDot(now: nat)
    ensures '.' !in "result_" + NatToString(now)
  {
    var digits := NatToString(now);
    assert '.' !in digits by {
      forall k | 0 <= k < |digits|
        ensures digits[k] != '.'
      {
        assert IsDigit(digits[k]);
      }
    }
  }

  /** A successful output name is a stem without '.', a '.', and an accepted format. */
  lemma OutputNameShape(args: seq<string>, now: nat) returns (parts: (string, string))
    requires OutputImageName(args, now).Ok?
    ensures '.' !in parts.0 && parts.1 in AcceptedFormats
    ensures OutputImageName(args, now).value == FileName(parts)
  {
    if "-o" in args {
      parts := GivenNameShape(args, now);
    } else {
      parts := ("result_" + NatToString(now), "jpg");
      assert OutputImageName(args, now) == Ok(FileName(parts));
      DefaultStemHasNoDot(now);
    }
  }

  /** The name derived from the `-o` value is the file name of its parts. */
  lemma GivenNameShape(args: seq<string>, now: nat) returns (parts: (string, string))
    requires "-o" in args && OutputImageName(args, now).Ok?
    ensures '.' !in parts.0 && parts.1 in AcceptedFormats
    ensures OutputImageName(args, now).value == FileName(parts)
  {
    var k := IndexOf(args, "-o");
    assert k < |args| - 1;
    parts := OutputParts(args[k + 1]).value;
  }

  /** Every successful output name has exactly one '.', followed by an accepted format. */
  lemma OutputNameHasOneExtension(args: seq<string>, now: nat)
    requires OutputImageName(args, now).Ok?
    ensures var pieces := Split(OutputImageName(args, now).value, '.');
            |pieces| == 2 && pieces[1] in AcceptedFormats
  {
    var parts := OutputNameShape(args, now);
    NameSplitsInTwo(parts.0, parts.1);
  }

  /** The plain `a.b.ext` form: the extension is the last dot-piece, taken
      as it is (no lower-casing), and the other pieces make the stem. */
  lemma PlainOutputValue(base: string, ext: string)
    requires ':' !in base && ':' !in ext && '.' !in ext
    ensures OutputParts(base + "." + ext) == WithFormat(JoinStripped(Split(base, '.')), ext)
  {
    var value := base + "." + ext;
    assert value == base + ['.'] + ext;
    assert value[|base|] == '.';
    SplitSnoc(base, ext, '.');
    var pieces := Split(value, '.');
    assert pieces[..|pieces| - 1] == Split(base, '.');
    assert OutputParts(value) == PlainParts(value);
  }

  /** The text before the first ':' of `format + tail` is `format`. */
  lemma FirstColonPiece(format: string, tail: string)
    requires ':' !in format
    requires tail == [] || tail[0] == ':'
    ensures Split(format + tail, ':')[0] == format
  {
    if tail == [] {
      assert format + tail == format;
    } else {
      assert format + tail == format + [':'] + tail[1..];
      SplitCons(format, tail[1..], ':');
    }
  }

  /** The `name:FMT` form: the format is the text up to the next ':',
      lower-cased; whatever follows a second ':' is ignored. */
  lemma ColonOutputValue(name: string, format: string, tail: string)
    requires ':' !in name && ':' !in format
    requires tail == [] || tail[0] == ':'
    ensures OutputParts(name + ":" + format + tail) == WithFormat(ColonStem(name), Lower(format))
  {
    var value := name + ":" + format + tail;
    assert value == name + [':'] + (format + tail);
    assert value[|name|] == ':';
    SplitCons(name, format + tail, ':');
    FirstColonPiece(format, tail);
    var parts := Split(value, ':');
    assert parts[0] == name;
    assert parts[1] == format;
    assert OutputParts(value) == ColonParts(value);
  }

  /** In the `name:FMT` form a dotted name loses its last piece only when
      that piece is itself an accepted format. */
  lemma ColonStemOfDottedName(base: string, ext: string)
    requires '.' !in ext
    ensures ColonStem(base + "." + ext) ==
      if ext in AcceptedFormats then JoinStripped(Split(base, '.'))
      else JoinStripped(Split(base, '.') + [ext])
  {
    var name := base + "." + ext;
    assert name == base + ['.'] + ext;
    assert name[|base|] == '.';
    SplitSnoc(base, ext, '.');
    var pieces := Split(name, '.');
    assert pieces[..|pieces| - 1] == Split(base, '.');
  }

  /** `-o photo:PNG` saves `photo.png`. */
  lemma ColonExample()
    ensures OutputParts("photo:PNG") == Ok(("photo", "png"))
  {
    assert ':' !in "photo" && '.' !in "photo" && ':' !in "PNG";
    assert "photo:PNG" == "photo" + ":" + "PNG" + "";
    ColonOutputValue("photo", "PNG", "");
    LowerPNG();
    assert ColonStem("photo") == "photo";
  }

  /** `-o photo.jpg` saves `photo.jpg`. */
  lemma PlainExample()
    ensures OutputParts("photo.jpg") == Ok(("photo", "jpg"))
  {
    assert "photo.jpg" == "photo" + "." + "jpg";
    PlainOutputValue("photo", "jpg");
    StemOfPhoto();
  }

  /** `-o photo.PNG` is rejected: the plain form does not lower-case. */
  lemma PlainUpperCaseExample()
    ensures OutputParts("photo.PNG") == Err(InvalidOutputFileExtensionProvided(UnacceptedExtension("PNG")))
  {
    assert ':' !in "photo" && ':' !in "PNG" && '.' !in "PNG";
    assert "photo.PNG" == "photo" + "." + "PNG";
    PlainOutputValue("photo", "PNG");
    assert "PNG" !in AcceptedFormats;
  }

  /** `-o photo` names no extension. */
  lemma NoExtensionExample()
    ensures OutputParts("photo") == Err(InvalidOutputFileExtensionProvided(NoExtension))
  {
    assert ':' !in "photo" && '.' !in "photo";
  }

  lemma LowerPNG()
    ensures Lower("PNG") == "png"
  {
    var r := Lower("PNG");
    assert r[0] == 'p' && r[1] == 'n' && r[2] == 'g';
  }

  lemma StemOfPhoto()
    ensures JoinStripped(Split("photo", '.')) == "photo"
  {
    assert Split("photo", '.') == ["photo"];
    TrimUnspaced(StripSpace, "photo");
  }
}
