/**
  The filter-chain executor (`ImageWorker.run`): checks the input, then
  applies the filter specifications left to right to a running image.
  Unknown filter names and wrong argument counts are skipped with a
  diagnostic; a filter's own parameter errors abort the run.

  The image is a type parameter `I`; what the imaging library does to it,
  and Python's float() acceptance, are the fields of a `Library`.
 */
module Executor {
  import opened Text
  import opened Errors
  import opened Parameters
  import opened Translator

  /** The imaging library and the file system, as seen by the filters. */
  datatype Library<!I> = Library(
    open: string -> Opened<I>,                              // exists + isfile + Image.open
    isFloat: string -> bool,                                // float(s) succeeds
    size: I -> (nat, nat),                                  // (width, height)
    mode: I -> string,
    info: I -> set<string>,                                 // the keys of image.info
    rotate: (I, string, bool, Option<(string, string)>) -> I,
    transpose: (I, Axis) -> I,
    grayScale: I -> I,                                      // convert('L')
    binarize: (I, int) -> I,                                // convert('L').point(BinaryPixel)
    resize: (I, int, int) -> I,
    sepia: (I, string) -> I,
    composite: (I, I, int, int) -> I                        // background, foreground, position
  )

  /** The filters the worker implements. */
  datatype Filter = Rotate | Flip | GrayScale | BlackAndWhite | Resize | Sepia | Overlay

  function Name(f: Filter): string
  {
    match f
    case Rotate => "rotate"
    case Flip => "flip"
    case GrayScale => "gray_scale"
    case BlackAndWhite => "black_and_white"
    case Resize => "resize"
    case Sepia => "sepia"
    case Overlay => "overlay"
  }

  /** The registry: the filter a name denotes, if any. */
  function Lookup(name: string): (r: Option<Filter>)
    ensures r.Some? ==> Name(r.value) == name
  {
    if name == "rotate" then Some(Rotate)
    else if name == "flip" then Some(Flip)
    else if name == "gray_scale" then Some(GrayScale)
    else if name == "black_and_white" then Some(BlackAndWhite)
    else if name == "resize" then Some(Resize)
    else if name == "sepia" then Some(Sepia)
    else if name == "overlay" then Some(Overlay)
    else None
  }

  /** Every filter is found under its own name. */
  lemma LookupName(f: Filter)
    ensures Lookup(Name(f)) == Some(f)
  {
  }

  /** The least and greatest number of string arguments each filter takes
      (its positional parameters after the image). */
  function MinArgs(f: Filter): nat
  {
    match f
    case Resize => 1
    case Overlay => 1
    case _ => 0
  }

  function MaxArgs(f: Filter): nat
  {
    match f
    case Rotate => 3
    case GrayScale => 0
    case Resize => 2
    case Overlay => 2
    case _ => 1
  }

  /** The `k`-th argument, if given. */
  function Arg(args: seq<string>, k: nat): Option<string>
  {
    if k < |args| then Some(args[k]) else None
  }

  /** The `k`-th argument, or the parameter's default. */
  function ArgOr(args: seq<string>, k: nat, default: string): string
  {
    if k < |args| then args[k] else default
  }

  /** One filter on one image, with an argument count it accepts. */
  function Apply<I>(lib: Library<I>, image: I, f: Filter, args: seq<string>): (r: Result<I>)
    requires MinArgs(f) <= |args| <= MaxArgs(f)
    ensures f == GrayScale ==> r == Ok(lib.grayScale(image))
    ensures f == Flip ==> (r.Ok? <==> FlipAxis(ArgOr(args, 0, "horizontal")).Ok?)
    ensures f == Flip && r.Ok? ==> r.value == lib.transpose(image, FlipAxis(ArgOr(args, 0, "horizontal")).value)
    ensures f == Flip && r.Err? ==> r.error == InvalidFlipDirection(ArgOr(args, 0, "horizontal"))
    ensures f == BlackAndWhite ==> (r.Ok? <==> ParseInt(ArgOr(args, 0, "150")).Some?)
    ensures f == BlackAndWhite && r.Ok? ==>
              r.value == lib.binarize(image, ClampThreshold(ParseInt(ArgOr(args, 0, "150")).value))
    ensures f == BlackAndWhite && r.Err? ==> r.error == InvalidParameter("black_and_white", ArgOr(args, 0, "150"))
    ensures f == Resize ==> (r.Ok? <==> ResizeTarget(lib.size(image), args[0], Arg(args, 1)).Ok?)
    ensures f == Resize && r.Ok? ==>
              var target := ResizeTarget(lib.size(image), args[0], Arg(args, 1)).value;
              r.value == lib.resize(image, target.0, target.1)
    ensures f == Resize && r.Err? ==> r.error == ResizeTarget(lib.size(image), args[0], Arg(args, 1)).error
    ensures f == Rotate ==>
              (r.Ok? <==> RotateAngle(lib.isFloat, Arg(args, 0)).Ok? && RotateCenter(lib.isFloat, Arg(args, 2)).Ok?)
    ensures f == Rotate && r.Ok? ==>
              r.value == lib.rotate(image, RotateAngle(lib.isFloat, Arg(args, 0)).value,
                                    ExpandFlag(ArgOr(args, 1, "false")), RotateCenter(lib.isFloat, Arg(args, 2)).value)
    ensures f == Rotate && RotateAngle(lib.isFloat, Arg(args, 0)).Err? ==>
              r == Err(RotateAngle(lib.isFloat, Arg(args, 0)).error)
    ensures f == Rotate && RotateAngle(lib.isFloat, Arg(args, 0)).Ok? && r.Err? ==>
              r.error == RotateCenter(lib.isFloat, Arg(args, 2)).error
    ensures f == Rotate && args == [] ==> r == Ok(lib.rotate(image, "45", false, None))
    ensures f == Sepia ==> (r.Ok? <==> SepiaRatio(lib.isFloat, Arg(args, 0)).Ok?)
    ensures f == Sepia && r.Ok? ==> r.value == lib.sepia(image, SepiaRatio(lib.isFloat, Arg(args, 0)).value)
    ensures f == Sepia && r.Err? ==> r.error == SepiaRatio(lib.isFloat, Arg(args, 0)).error
    ensures f == Overlay && lib.open(args[0]).NotAFile? ==> r == Err(FileNotFound(args[0]))
    ensures f == Overlay && lib.open(args[0]).Unreadable? ==> r == Err(OverlayImageUnreadable)
    ensures f == Overlay && lib.open(args[0]).Image? ==>
              var fg := lib.open(args[0]).image;
              (r == Err(ImageWithoutTransparency) <==> !HasTransparency(lib.mode(fg), lib.info(fg)))
              && (r.Ok? <==> HasTransparency(lib.mode(fg), lib.info(fg))
                             && OverlayPosition(Arg(args, 1), lib.size(image), lib.size(fg)).Ok?)
    ensures f == Overlay && lib.open(args[0]).Image? &&
            HasTransparency(lib.mode(lib.open(args[0]).image), lib.info(lib.open(args[0]).image)) ==>
              var fg := lib.open(args[0]).image;
              var position := OverlayPosition(Arg(args, 1), lib.size(image), lib.size(fg));
              && (r.Ok? ==> r.value == lib.composite(image, fg, position.value.0, position.value.1))
              && (r.Err? ==> r.error == position.error)
  {
    match f
    case Rotate =>
      var angle :- RotateAngle(lib.isFloat, Arg(args, 0));
      var expand := ExpandFlag(ArgOr(args, 1, "false"));
      var center :- RotateCenter(lib.isFloat, Arg(args, 2));
      Ok(lib.rotate(image, angle, expand, center))
    case Flip =>
      var axis :- FlipAxis(ArgOr(args, 0, "horizontal"));
      Ok(lib.transpose(image, axis))
    case GrayScale =>
      Ok(lib.grayScale(image))
    case BlackAndWhite =>
      var threshold :- Threshold(ArgOr(args, 0, "150"));
      Ok(lib.binarize(image, threshold))
    case Resize =>
      var target :- ResizeTarget(lib.size(image), args[0], Arg(args, 1));
      Ok(lib.resize(image, target.0, target.1))
    case Sepia =>
      var ratio :- SepiaRatio(lib.isFloat, Arg(args, 0));
      Ok(lib.sepia(image, ratio))
    case Overlay =>
      var path := args[0];
      match lib.open(path)
      case NotAFile => Err(FileNotFound(path))
      case Unreadable => Err(OverlayImageUnreadable)
      case Image(foreground) =>
        if !HasTransparency(lib.mode(foreground), lib.info(foreground)) then Err(ImageWithoutTransparency)
        else
          var position :- OverlayPosition(Arg(args, 1), lib.size(image), lib.size(foreground));
          Ok(lib.composite(image, foreground, position.0, position.1))
  }

  /** A filter that was skipped, and why. */
  datatype Diagnostic = NotImplemented(name: string) | WrongArgumentCount(name: string)

  /** The running image and the diagnostics so far. */
  datatype Progress<I> = Progress(image: I, log: seq<Diagnostic>)

  /** A specification `name:a:b` read as the name and its string arguments. */
  function ParseSpec(spec: string): (call: (string, seq<string>))
    ensures ':' !in call.0
    ensures Join([call.0] + call.1, ':') == spec
  {
    var fields := Split(spec, ':');
    JoinSplit(spec, ':');
    assert fields == [fields[0]] + fields[1..];
    (fields[0], fields[1..])
  }

  /** The specification is recovered from its name and arguments. */
  lemma ParseSpecJoin(name: string, args: seq<string>)
    requires ':' !in name && forall k :: 0 <= k < |args| ==> ':' !in args[k]
    ensures ParseSpec(Join([name] + args, ':')) == (name, args)
  {
    var fields := [name] + args;
    assert forall k :: 0 <= k < |fields| ==> ':' !in fields[k] by {
      forall k | 0 <= k < |fields|
        ensures ':' !in fields[k]
      {
        if k > 0 {
          assert fields[k] == args[k - 1];
        }
      }
    }
    SplitJoin(fields, ':');
    assert fields[1..] == args;
  }

  /** Whether a specification is skipped: an unknown name, or an argument
      count the filter does not take. */
  predicate Skipped(spec: string)
  {
    var (name, args) := ParseSpec(spec);
    Lookup(name).None? || !(MinArgs(Lookup(name).value) <= |args| <= MaxArgs(Lookup(name).value))
  }

  /** One specification applied to the running image. */
  function Step<I>(lib: Library<I>, image: I, spec: string): (r: Result<Progress<I>>)
    ensures Skipped(spec) ==> r.Ok? && r.value.image == image && |r.value.log| == 1
    ensures Skipped(spec) && Lookup(ParseSpec(spec).0).None? ==>
              r == Ok(Progress(image, [NotImplemented(ParseSpec(spec).0)]))
    ensures Skipped(spec) && Lookup(ParseSpec(spec).0).Some? ==>
              r == Ok(Progress(image, [WrongArgumentCount(ParseSpec(spec).0)]))
    ensures !Skipped(spec) ==> r.Ok? ==> r.value.log == []
  {
    var (name, args) := ParseSpec(spec);
    match Lookup(name)
    case None => Ok(Progress(image, [NotImplemented(name)]))
    case Some(f) =>
      if !(MinArgs(f) <= |args| <= MaxArgs(f)) then Ok(Progress(image, [WrongArgumentCount(name)]))
      else
        var out :- Apply(lib, image, f, args);
        Ok(Progress(out, []))
  }

  /** A step function of the chain: one specification on the running image. */
  type Stepper<!I> = (I, string) -> Result<Progress<I>>

  /** How a chain of specifications ends: the diagnostics printed on the
      way, and either the final image or the error that stopped it. */
  datatype Trace<I> = Trace(log: seq<Diagnostic>, result: Result<I>)

  /** The specifications applied left to right by `step`, each to the
      previous one's image; the first error ends the fold, and the
      diagnostics printed before it are kept. */
  function Fold<I>(step: Stepper<I>, image: I, specs: seq<string>): Trace<I>
    decreases |specs|
  {
    if specs == [] then Trace([], Ok(image))
    else
      match step(image, specs[0])
      case Err(e) => Trace([], Err(e))
      case Ok(first) =>
        var rest := Fold(step, first.image, specs[1..]);
        Trace(first.log + rest.log, rest.result)
  }

  /** The fold continued with further specifications from where it stopped. */
  function Continue<I>(step: Stepper<I>, before: Trace<I>, specs: seq<string>): Trace<I>
  {
    match before.result
    case Err(_) => before
    case Ok(image) =>
      var after := Fold(step, image, specs);
      Trace(before.log + after.log, after.result)
  }

  /** Folding `a + b` is folding `a` and then `b` over its result. */
  lemma {:induction false} FoldAppend<I>(step: Stepper<I>, image: I, a: seq<string>, b: seq<string>)
    ensures Fold(step, image, a + b) == Continue(step, Fold(step, image, a), b)
    decreases |a|
  {
    if a == [] {
      assert a + b == b;
      assert [] + Fold(step, image, b).log == Fold(step, image, b).log;
    } else {
      assert (a + b)[0] == a[0];
      assert (a + b)[1..] == a[1..] + b;
      match step(image, a[0])
      case Err(e) =>
      case Ok(first) =>
        FoldAppend(step, first.image, a[1..], b);
        var p := Fold(step, first.image, a[1..]);
        match p.result
        case Err(e) =>
        case Ok(middle) =>
          var q := Fold(step, middle, b);
          assert first.log + (p.log + q.log) == (first.log + p.log) + q.log;
    }
  }

  /** Folding a single specification is taking that one step. */
  lemma FoldOne<I>(step: Stepper<I>, image: I, spec: string)
    ensures Fold(step, image, [spec]) ==
      match step(image, spec)
      case Err(e) => Trace([], Err(e))
      case Ok(p) => Trace(p.log, Ok(p.image))
  {
    assert [spec][1..] == [];
    match step(image, spec)
    case Err(e) =>
    case Ok(p) => assert p.log + [] == p.log;
  }

  /** An error ends the fold, whatever follows it; what was printed before it stays printed. */
  lemma FoldAborts<I>(step: Stepper<I>, image: I, before: seq<string>, spec: string, after: seq<string>)
    requires Fold(step, image, before).result.Ok?
    requires step(Fold(step, image, before).result.value, spec).Err?
    ensures Fold(step, image, before + [spec] + after)
         == Trace(Fold(step, image, before).log, Err(step(Fold(step, image, before).result.value, spec).error))
  {
    FoldAppend(step, image, before, [spec] + after);
    assert before + [spec] + after == before + ([spec] + after);
    assert ([spec] + after)[0] == spec;
    assert Fold(step, image, before).log + [] == Fold(step, image, before).log;
  }

  /** The executor's step function. */
  function StepOf<I>(lib: Library<I>): Stepper<I>
  {
    (image, spec) => Step(lib, image, spec)
  }

  /** The specifications of a run applied left to right to the input image. */
  function Chain<I>(lib: Library<I>, image: I, specs: seq<string>): Trace<I>
  {
    Fold(StepOf(lib), image, specs)
  }

  /** A skipped specification leaves the image as it was and only adds its
      diagnostic; the rest of the chain runs as if it were not there. */
  lemma SkipLeavesImage<I>(lib: Library<I>, image: I, spec: string, rest: seq<string>)
    requires Skipped(spec)
    ensures Chain(lib, image, [spec] + rest) ==
      Trace(Step(lib, image, spec).value.log + Chain(lib, image, rest).log, Chain(lib, image, rest).result)
  {
    assert ([spec] + rest)[0] == spec;
    assert ([spec] + rest)[1..] == rest;
  }

  /** A specification `name:a:b…` of a known filter, with an argument count
      the filter takes, calls that filter with `[a, b, …]` on the running
      image: the filter's result, or its error, is the step's. */
  lemma Dispatch<I>(lib: Library<I>, image: I, name: string, args: seq<string>)
    requires ':' !in name && forall k :: 0 <= k < |args| ==> ':' !in args[k]
    requires Lookup(name).Some?
    requires MinArgs(Lookup(name).value) <= |args| <= MaxArgs(Lookup(name).value)
    ensures var r := Step(lib, image, Join([name] + args, ':'));
            match Apply(lib, image, Lookup(name).value, args)
            case Err(e) => r == Err(e)
            case Ok(out) => r == Ok(Progress(out, []))
  {
    ParseSpecJoin(name, args);
  }

  /** A chain of skipped specifications returns the image unchanged, with
      one diagnostic per specification. */
  lemma {:induction false} AllSkipped<I>(lib: Library<I>, image: I, specs: seq<string>)
    requires forall k :: 0 <= k < |specs| ==> Skipped(specs[k])
    ensures Chain(lib, image, specs).result == Ok(image)
    ensures |Chain(lib, image, specs).log| == |specs|
    decreases |specs|
  {
    if specs != [] {
      AllSkipped(lib, image, specs[1..]);
    }
  }

  /** The diagnostic a specification prints when it is skipped; nothing
      when it is applied. */
  function SkipNote(spec: string): seq<Diagnostic>
  {
    var (name, args) := ParseSpec(spec);
    match Lookup(name)
    case None => [NotImplemented(name)]
    case Some(f) => if MinArgs(f) <= |args| <= MaxArgs(f) then [] else [WrongArgumentCount(name)]
  }

  /** The diagnostics of a list of specifications, in order. */
  function Diagnostics(specs: seq<string>): seq<Diagnostic>
  {
    if specs == [] then [] else SkipNote(specs[0]) + Diagnostics(specs[1..])
  }

  /** A chain prints exactly the diagnostics of the specifications it got
      through, whatever the images were: all of them when it completes, and
      those before the failing one (a filter that was applied) when a filter
      raises. `k` is the number of specifications it got through. */
  lemma {:induction false} ChainLog<I>(lib: Library<I>, image: I, specs: seq<string>) returns (k: nat)
    ensures k <= |specs|
    ensures Chain(lib, image, specs).log == Diagnostics(specs[..k])
    ensures Chain(lib, image, specs).result.Ok? <==> k == |specs|
    ensures k < |specs| ==> !Skipped(specs[k])
    decreases |specs|
  {
    if specs == [] {
      k := 0;
    } else {
      match Step(lib, image, specs[0])
      case Err(e) =>
        k := 0;
        assert specs[..0] == [];
      case Ok(first) =>
        assert first.log == SkipNote(specs[0]);
        var j := ChainLog(lib, first.image, specs[1..]);
        k := j + 1;
        assert specs[..k][0] == specs[0];
        assert specs[..k][1..] == specs[1..][..j];
    }
  }

  /** A specification without ':' is a bare filter name with no arguments. */
  lemma ParseBareName(name: string)
    requires ':' !in name
    ensures ParseSpec(name) == (name, [])
  {
  }

  /** A bare `gray_scale` converts the image and logs nothing. */
  lemma GrayScaleStep<I>(lib: Library<I>, image: I)
    ensures StepOf(lib)(image, "gray_scale") == Ok(Progress(lib.grayScale(image), []))
  {
    assert Lookup("gray_scale") == Some(GrayScale);
    assert Join(["gray_scale"] + [], ':') == "gray_scale";
    Dispatch(lib, image, "gray_scale", []);
  }

  /** With a library whose grey-scale conversion is idempotent, two
      `gray_scale` steps give what one gives. */
  lemma GrayScaleTwice<I>(lib: Library<I>, image: I)
    requires lib.grayScale(lib.grayScale(image)) == lib.grayScale(image)
    ensures Chain(lib, image, ["gray_scale", "gray_scale"]) == Chain(lib, image, ["gray_scale"])
  {
    var gray := lib.grayScale(image);
    GrayScaleStep(lib, image);
    GrayScaleStep(lib, gray);
    FoldOne(StepOf(lib), image, "gray_scale");
    FoldOne(StepOf(lib), gray, "gray_scale");
    FoldAppend(StepOf(lib), image, ["gray_scale"], ["gray_scale"]);
    assert ["gray_scale"] + ["gray_scale"] == ["gray_scale", "gray_scale"];
    var none: seq<Diagnostic> := [];
    assert none + none == none;
  }

  /** The final image of a run and the path it is saved to. */
  datatype Rendered<I> = Rendered(image: I, path: string)

  /** The directory results are saved in. */
  const ResultsDirectory := "results/"

  /** The loop of `run`: the specifications applied one after another,
      stopping at the first error with what was printed so far. */
  method ApplyAll<I>(step: Stepper<I>, input: I, specs: seq<string>) returns (r: Trace<I>)
    ensures r == Fold(step, input, specs)
  {
    var image := input;
    var log: seq<Diagnostic> := [];
    var k := 0;
    while k < |specs|
      invariant 0 <= k <= |specs|
      invariant Fold(step, input, specs[..k]) == Trace(log, Ok(image))
    {
      var spec := specs[k];
      FoldAppend(step, input, specs[..k], [spec]);
      assert specs[..k + 1] == specs[..k] + [spec];
      var next := step(image, spec);
      if next.Err? {
        FoldAborts(step, input, specs[..k], spec, specs[k + 1..]);
        assert specs[..k] + [spec] + specs[k + 1..] == specs;
        return Trace(log, Err(next.error));
      }
      FoldOne(step, image, spec);
      image := next.value.image;
      log := log + next.value.log;
      k := k + 1;
    }
    assert specs[..k] == specs;
    r := Trace(log, Ok(image));
  }

  /** `run`: refuse an unresolved input, apply the specifications in order,
      and name the file the result is saved to. The diagnostics printed
      during the chain are part of the outcome, also when a filter raises. */
  method Run<I>(lib: Library<I>, d: Descriptor<I>) returns (r: Trace<Rendered<I>>)
    ensures d.input.Unresolved? ==> r == Trace([], Err(InvalidPILImageCreated))
    ensures d.input.Decoded? ==>
      var chain := Chain(lib, d.input.image, d.filters);
      && r.log == chain.log
      && (chain.result.Err? ==> r.result == Err(chain.result.error))
      && (chain.result.Ok? ==> r.result == Ok(Rendered(chain.result.value, ResultsDirectory + d.output)))
  {
    if d.input.Unresolved? {
      return Trace([], Err(InvalidPILImageCreated));
    }
    var outcome := ApplyAll(StepOf(lib), d.input.image, d.filters);
    if outcome.result.Err? {
      return Trace(outcome.log, Err(outcome.result.error));
    }
    r := Trace(outcome.log, Ok(Rendered(outcome.result.value, ResultsDirectory + d.output)));
  }
}
